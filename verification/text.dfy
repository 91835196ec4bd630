/**
 * Text primitives the bridge relies on: UTF-16 code units and their lossy
 * decoding, the UTF-16 encoding of a string, trimming of trailing NULs, and
 * the join / split / replace operations of Python strings.
 */
module Text {

  /** A UTF-16 code unit (`u16`). */
  type u16 = x: int | 0 <= x < 0x1_0000

  const Nul: char := '\0'

  /** U+FFFD, what lossy decoding puts in place of an unpaired surrogate. */
  const Replacement: char := '\U{FFFD}'

  predicate IsHighSurrogate(u: u16) { 0xD800 <= u < 0xDC00 }

  predicate IsLowSurrogate(u: u16) { 0xDC00 <= u < 0xE000 }

  predicate IsSurrogate(u: u16) { 0xD800 <= u < 0xE000 }

  /** The supplementary-plane character a surrogate pair stands for. */
  function PairToChar(hi: u16, lo: u16): (c: char)
    requires IsHighSurrogate(hi) && IsLowSurrogate(lo)
    ensures 0x10000 <= c as int
  {
    (0x10000 + (hi - 0xD800) * 0x400 + (lo - 0xDC00)) as char
  }

  /**
   * Lossy UTF-16 decoding: a high surrogate followed by a low one gives one
   * character, any other surrogate gives U+FFFD, every other unit is the
   * character with that code.
   */
  function DecodeLossy(units: seq<u16>): (s: string)
    ensures |s| <= |units| <= 2 * |s|
    ensures (forall k | 0 <= k < |units| :: !IsSurrogate(units[k])) ==> |s| == |units|
    decreases |units|
  {
    if units == [] then ""
    else if IsHighSurrogate(units[0]) && |units| > 1 && IsLowSurrogate(units[1]) then
      [PairToChar(units[0], units[1])] + DecodeLossy(units[2..])
    else if IsSurrogate(units[0]) then
      [Replacement] + DecodeLossy(units[1..])
    else
      [units[0] as char] + DecodeLossy(units[1..])
  }

  /** Units that hold no unpaired surrogate (what strict decoding accepts). */
  predicate WellFormed(units: seq<u16>)
    decreases |units|
  {
    if units == [] then true
    else if IsHighSurrogate(units[0]) then
      |units| > 1 && IsLowSurrogate(units[1]) && WellFormed(units[2..])
    else !IsLowSurrogate(units[0]) && WellFormed(units[1..])
  }

  /** The UTF-16 encoding of one character: one unit, or a surrogate pair. */
  function EncodeChar(c: char): (us: seq<u16>)
    ensures 1 <= |us| <= 2
    ensures 0 !in us <==> c != Nul
  {
    if c as int < 0x10000 then [c as int]
    else
      var v := c as int - 0x10000;
      [0xD800 + v / 0x400, 0xDC00 + v % 0x400]
  }

  /** The UTF-16 encoding of a string. */
  function Encode(s: string): (us: seq<u16>)
    ensures |s| <= |us| <= 2 * |s|
    decreases |s|
  {
    if s == "" then [] else EncodeChar(s[0]) + Encode(s[1..])
  }

  function Zeros(n: nat): (z: seq<u16>)
  {
    seq(n, _ => 0)
  }

  function Nuls(n: nat): (z: string)
  {
    seq(n, _ => Nul)
  }

  /** Appending one character to a string appends its units to the encoding. */
  lemma {:induction false} EncodeSnoc(s: string, c: char)
    ensures Encode(s + [c]) == Encode(s) + EncodeChar(c)
    decreases |s|
  {
    if s == "" {
      assert s + [c] == [c];
      assert Encode([c][1..]) == [];
    } else {
      assert (s + [c])[1..] == s[1..] + [c];
      EncodeSnoc(s[1..], c);
    }
  }

  /** A character's units decode back to that character, whatever follows. */
  lemma DecodeEncodeChar(c: char, rest: seq<u16>)
    ensures DecodeLossy(EncodeChar(c) + rest) == [c] + DecodeLossy(rest)
  {
    var us := EncodeChar(c) + rest;
    if c as int < 0x10000 {
      assert us[1..] == rest;
      assert (c as int) as char == c;
    } else {
      var v := c as int - 0x10000;
      var hi: u16 := 0xD800 + v / 0x400;
      var lo: u16 := 0xDC00 + v % 0x400;
      assert us[0] == hi && us[1] == lo && us[2..] == rest;
      assert v == (v / 0x400) * 0x400 + v % 0x400;
      assert PairToChar(hi, lo) == c;
    }
  }

  /** Decoding undoes encoding. */
  lemma {:induction false} DecodeEncode(s: string)
    ensures DecodeLossy(Encode(s)) == s
    decreases |s|
  {
    if s != "" {
      DecodeEncodeChar(s[0], Encode(s[1..]));
      DecodeEncode(s[1..]);
    }
  }

  /** A well-formed encoding: the units of a string never hold an unpaired surrogate. */
  lemma {:induction false} EncodeWellFormed(s: string)
    ensures WellFormed(Encode(s))
    decreases |s|
  {
    if s != "" {
      EncodeWellFormed(s[1..]);
      var us := Encode(s);
      assert us == EncodeChar(s[0]) + Encode(s[1..]);
      if s[0] as int < 0x10000 {
        assert us[1..] == Encode(s[1..]);
      } else {
        assert us[2..] == Encode(s[1..]);
      }
    }
  }

  /** The NUL unit appears in the encoding exactly when NUL appears in the string. */
  lemma {:induction false} EncodeNul(s: string)
    ensures 0 in Encode(s) <==> Nul in s
    decreases |s|
  {
    if s != "" {
      EncodeNul(s[1..]);
      assert Nul in s <==> s[0] == Nul || Nul in s[1..];
    }
  }

  /** Zero padding decodes to NUL characters. */
  lemma {:induction false} DecodeZeros(n: nat)
    ensures DecodeLossy(Zeros(n)) == Nuls(n)
    decreases n
  {
    if n > 0 {
      assert Zeros(n)[1..] == Zeros(n - 1);
      DecodeZeros(n - 1);
      assert Nuls(n) == [Nul] + Nuls(n - 1);
    }
  }

  /**
   * Zero padding after any units decodes to the same text followed by as
   * many NULs: a trailing high surrogate still decodes to U+FFFD, since a
   * zero unit is not a low surrogate.
   */
  lemma {:induction false} DecodePadded(units: seq<u16>, n: nat)
    ensures DecodeLossy(units + Zeros(n)) == DecodeLossy(units) + Nuls(n)
    decreases |units|
  {
    var all := units + Zeros(n);
    if units == [] {
      assert all == Zeros(n);
      DecodeZeros(n);
    } else if IsHighSurrogate(units[0]) && |units| > 1 && IsLowSurrogate(units[1]) {
      assert all[2..] == units[2..] + Zeros(n);
      DecodePadded(units[2..], n);
    } else {
      assert all[1..] == units[1..] + Zeros(n);
      DecodePadded(units[1..], n);
      if IsHighSurrogate(units[0]) && |units| == 1 && n > 0 {
        assert all[1] == 0;
      }
    }
  }

  /** A decoded unit is NUL only when the unit itself is zero. */
  lemma {:induction false} DecodeNul(units: seq<u16>)
    ensures Nul in DecodeLossy(units) <==> 0 in units
    decreases |units|
  {
    if units != [] {
      if IsHighSurrogate(units[0]) && |units| > 1 && IsLowSurrogate(units[1]) {
        DecodeNul(units[2..]);
        assert 0 in units <==> 0 in units[2..];
      } else {
        DecodeNul(units[1..]);
        assert 0 in units <==> units[0] == 0 || 0 in units[1..];
      }
    }
  }

  /** Rust's `trim_end_matches('\0')`: drop every NUL at the end of the text. */
  function TrimEndNul(s: string): (r: string)
    ensures r <= s
    decreases |s|
  {
    if s != [] && s[|s| - 1] == Nul then TrimEndNul(s[..|s| - 1]) else s
  }

  /** Trimming removes exactly the run of NULs at the end: what it drops is all NUL, what it keeps does not end in NUL. */
  lemma {:induction false} TrimEndNulMeaning(s: string)
    ensures forall k | |TrimEndNul(s)| <= k < |s| :: s[k] == Nul
    ensures TrimEndNul(s) == [] || TrimEndNul(s)[|TrimEndNul(s)| - 1] != Nul
    decreases |s|
  {
    if s != [] && s[|s| - 1] == Nul {
      TrimEndNulMeaning(s[..|s| - 1]);
    }
  }

  /** A text is what trimming keeps followed by the NULs it drops. */
  lemma TrimEndNulSplit(s: string)
    ensures s == TrimEndNul(s) + Nuls(|s| - |TrimEndNul(s)|)
  {
    var r := TrimEndNul(s);
    TrimEndNulMeaning(s);
    var tail := s[|r|..];
    forall k | 0 <= k < |tail|
      ensures tail[k] == Nul
    {
      assert tail[k] == s[|r| + k];
    }
    assert tail == Nuls(|s| - |r|);
    assert s == r + tail;
  }

  /** Appending NULs does not change what trimming leaves. */
  lemma {:induction false} TrimEndNulPadded(s: string, n: nat)
    ensures TrimEndNul(s + Nuls(n)) == TrimEndNul(s)
    decreases n
  {
    if n > 0 {
      assert (s + Nuls(n))[..|s| + n - 1] == s + Nuls(n - 1);
      TrimEndNulPadded(s, n - 1);
    } else {
      assert s + Nuls(0) == s;
    }
  }

  /** The prefix of `s` before the first `stop` (all of `s` when there is none). */
  function UpTo<T(==)>(s: seq<T>, stop: T): (r: seq<T>)
    ensures r <= s && stop !in r
    ensures |r| < |s| ==> s[|r|] == stop
    decreases |s|
  {
    if s == [] || s[0] == stop then [] else [s[0]] + UpTo(s[1..], stop)
  }

  /** A prefix free of `stop` passes through `UpTo` untouched. */
  lemma {:induction false} UpToAppend<T>(a: seq<T>, b: seq<T>, stop: T)
    requires stop !in a
    ensures UpTo(a + b, stop) == a + UpTo(b, stop)
    decreases |a|
  {
    if a != [] {
      assert (a + b)[1..] == a[1..] + b;
      UpToAppend(a[1..], b, stop);
    } else {
      assert a + b == b;
    }
  }

  /** Behind a prefix without `stop`, the text up to `stop` is the prefix and the middle's text up to it. */
  lemma UpToMiddle<T>(prefix: seq<T>, middle: seq<T>, suffix: seq<T>, stop: T)
    requires stop !in prefix && stop in middle
    ensures stop in prefix + middle + suffix
    ensures UpTo(prefix + middle + suffix, stop) == prefix + UpTo(middle, stop)
  {
    var head := UpTo(middle, stop);
    var rest := middle[|head|..] + suffix;
    assert middle == head + middle[|head|..];
    assert prefix + middle + suffix == prefix + (head + rest);
    assert (prefix + middle + suffix)[|prefix| + |head|] == stop;
    UpToAppend(prefix, head + rest, stop);
    UpToAppend(head, rest, stop);
    assert rest[0] == stop;
    assert head + [] == head;
  }

  /** Python's `sep.join(parts)`. */
  function Join(parts: seq<string>, sep: string): (r: string)
    decreases |parts|
  {
    if parts == [] then ""
    else if |parts| == 1 then parts[0]
    else parts[0] + sep + Join(parts[1..], sep)
  }

  /** Regrouping a concatenation of four strings to the right. */
  lemma ConcatAssoc<T>(a: seq<T>, b: seq<T>, c: seq<T>, d: seq<T>)
    ensures a + b + c + d == a + (b + (c + d))
  {
  }

  /** Three parts joined: each separator sits between two parts. */
  lemma JoinThree(a: string, b: string, c: string, sep: string)
    ensures Join([a, b, c], sep) == a + sep + b + sep + c
  {
    assert [a, b, c][1..] == [b, c];
    assert [b, c][1..] == [c];
    assert Join([b, c], sep) == b + sep + c;
    assert a + sep + (b + sep + c) == a + sep + b + sep + c;
  }

  /** Joining two non-empty lists: the separator also goes between them. */
  lemma {:induction false} JoinAppend(xs: seq<string>, ys: seq<string>, sep: string)
    requires xs != [] && ys != []
    ensures Join(xs + ys, sep) == Join(xs, sep) + sep + Join(ys, sep)
    decreases |xs|
  {
    if |xs| == 1 {
      assert (xs + ys)[1..] == ys;
    } else {
      assert (xs + ys)[1..] == xs[1..] + ys;
      JoinAppend(xs[1..], ys, sep);
    }
  }

  /** A character that is in no part and not in the separator is not in the join. */
  lemma {:induction false} JoinAvoids(parts: seq<string>, sep: string, c: char)
    requires c !in sep
    requires forall k | 0 <= k < |parts| :: c !in parts[k]
    ensures c !in Join(parts, sep)
    decreases |parts|
  {
    if |parts| > 1 {
      JoinAvoids(parts[1..], sep, c);
    }
  }

  /**
   * Python's `s.split(sep)` for a non-empty separator: the leftmost
   * occurrence splits, and scanning resumes after it.
   */
  function SplitOn(s: string, sep: string): (r: seq<string>)
    requires sep != ""
    ensures r != []
    decreases |s|
  {
    if |s| < |sep| then [s]
    else if s[..|sep|] == sep then [""] + SplitOn(s[|sep|..], sep)
    else
      var rest := SplitOn(s[1..], sep);
      [[s[0]] + rest[0]] + rest[1..]
  }

  /** A text that avoids the separator's first character is not split. */
  lemma {:induction false} SplitOnPlain(p: string, sep: string)
    requires sep != "" && sep[0] !in p
    ensures SplitOn(p, sep) == [p]
    decreases |p|
  {
    if |p| >= |sep| {
      assert p[..|sep|][0] == p[0];
      assert p[1..] + [] == p[1..];
      SplitOnPlain(p[1..], sep);
      assert [p[0]] + p[1..] == p;
    }
  }

  /** The first separator after a text that avoids its first character splits there. */
  lemma {:induction false} SplitOnFirst(p: string, sep: string, rest: string)
    requires sep != "" && sep[0] !in p
    ensures SplitOn(p + sep + rest, sep) == [p] + SplitOn(rest, sep)
    decreases |p|
  {
    var s := p + sep + rest;
    if p == [] {
      assert s == sep + rest;
      assert s[..|sep|] == sep;
      assert s[|sep|..] == rest;
    } else {
      assert s[0] == p[0];
      assert s[..|sep|][0] != sep[0];
      assert s[1..] == p[1..] + sep + rest;
      SplitOnFirst(p[1..], sep, rest);
      assert [p[0]] + p[1..] == p;
    }
  }

  /**
   * Join then split is the identity when no part contains the separator's
   * first character.
   */
  lemma {:induction false} SplitJoin(parts: seq<string>, sep: string)
    requires sep != "" && parts != []
    requires forall k | 0 <= k < |parts| :: sep[0] !in parts[k]
    ensures SplitOn(Join(parts, sep), sep) == parts
    decreases |parts|
  {
    if |parts| == 1 {
      SplitOnPlain(parts[0], sep);
    } else {
      SplitOnFirst(parts[0], sep, Join(parts[1..], sep));
      SplitJoin(parts[1..], sep);
    }
  }

  /** Python's `s.replace(a, b)` for one-character strings. */
  function ReplaceChar(s: string, a: char, b: char): (r: string)
    ensures |r| == |s|
    ensures a != b ==> a !in r
  {
    seq(|s|, k requires 0 <= k < |s| => if s[k] == a then b else s[k])
  }
}
