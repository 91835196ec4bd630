/**
 * The macOS Spotlight backend: a query string is inserted into a fixed
 * metadata-query predicate, the query runs on the main run loop until its
 * completion notification stops it, and the gathered items become records
 * (file name, path, change date), at most twenty of them.
 *
 * The Objective-C runtime is left abstract: a query is a value with an
 * identity and a predicate, the process-wide query slot is a class whose
 * event log records the messages sent, the completion notification is an
 * explicit call, and the gathered items are a sequence.
 */
module Spotlight {
  import opened Wrappers
  import opened Text

  /** One hit: (file name, path, change date). */
  type SearchData = (string, string, string)

  datatype SearchLocalFileError = CreateCString(message: string)

  // ---------------------------------------------------------------------
  // Constants
  // ---------------------------------------------------------------------

  // The predicate up to the file-name fragment, clause by clause: the file
  // name ends in one of three extensions, and the display name matches.
  const PdfClause: string := "(kMDItemFSName == '*.pdf'"
  const PngClause: string := " || kMDItemFSName == '*.png'"
  const JpegClause: string := " || kMDItemFSName == '*.jpeg')"
  const DisplayNameClause: string := " && kMDItemDisplayName == \"*"

  const PredicatePrefix: string := PdfClause + PngClause + JpegClause + DisplayNameClause

  /** The predicate after the fragment: close the wildcard, case- and diacritic-insensitive. */
  const PredicateSuffix: string := "*\"cd"

  const DateFormat: string := "yyyy-MM-dd HH:mm:ss"

  /** The cap the public entry point passes to `process_query_data`. */
  const MaxResults: nat := 20

  // ---------------------------------------------------------------------
  // CString::new
  // ---------------------------------------------------------------------

  /** Bytes of `c` in UTF-8. */
  function Utf8Width(c: char): (w: nat)
    ensures 1 <= w <= 4
  {
    if c as int < 0x80 then 1 else if c as int < 0x800 then 2 else if c as int < 0x10000 then 3 else 4
  }

  /** Bytes of `s` in UTF-8. */
  function Utf8Length(s: string): (n: nat)
    ensures |s| <= n <= 4 * |s|
  {
    if s == [] then 0 else Utf8Width(s[0]) + Utf8Length(s[1..])
  }

  /** The UTF-8 length of a concatenation is the sum of the lengths. */
  lemma {:induction false} Utf8LengthAppend(a: string, b: string)
    ensures Utf8Length(a + b) == Utf8Length(a) + Utf8Length(b)
    decreases |a|
  {
    if a != [] {
      assert (a + b)[1..] == a[1..] + b;
      Utf8LengthAppend(a[1..], b);
    } else {
      assert a + b == b;
    }
  }

  predicate IsDigit(c: char)
  {
    '0' <= c <= '9'
  }

  /** The decimal text of `n`, as `{}` formats a `usize`. */
  function DecimalText(n: nat): (s: string)
    ensures s != [] && forall k | 0 <= k < |s| :: IsDigit(s[k])
    ensures n > 0 ==> s[0] != '0'
  {
    var digit := ['0' + (n % 10) as char];
    if n < 10 then digit else DecimalText(n / 10) + digit
  }

  /** The number a string of decimal digits denotes. */
  function DecimalValue(s: string): nat
    requires forall k | 0 <= k < |s| :: IsDigit(s[k])
  {
    if s == [] then 0
    else
      assert IsDigit(s[|s| - 1]);
      10 * DecimalValue(s[..|s| - 1]) + (s[|s| - 1] as int - '0' as int)
  }

  /** Reading back the decimal text gives the number. */
  lemma {:induction false} DecimalRoundTrip(n: nat)
    ensures DecimalValue(DecimalText(n)) == n
  {
    var s := DecimalText(n);
    if n >= 10 {
      DecimalRoundTrip(n / 10);
      assert s[..|s| - 1] == DecimalText(n / 10);
    } else {
      assert s[..|s| - 1] == [];
    }
  }

  const NulErrorPrefix: string := "nul byte found in provided data at position: "

  /**
   * The text `NulError` displays for a NUL at byte `position`: a fixed
   * prefix, then the position in decimal, which reads back as `position`.
   */
  function NulErrorText(position: nat): (text: string)
    ensures |text| > |NulErrorPrefix| && text[..|NulErrorPrefix|] == NulErrorPrefix
    ensures forall k | |NulErrorPrefix| <= k < |text| :: IsDigit(text[k])
    ensures DecimalValue(text[|NulErrorPrefix|..]) == position
  {
    DecimalRoundTrip(position);
    assert (NulErrorPrefix + DecimalText(position))[|NulErrorPrefix|..] == DecimalText(position);
    NulErrorPrefix + DecimalText(position)
  }

  /**
   * `CString::new` followed by `map_err`: the bytes of `s` when it holds no
   * NUL; otherwise the error, which names the byte offset of the first NUL.
   */
  function CStringNew(s: string): (r: Result<string, SearchLocalFileError>)
    ensures r.Success? <==> Nul !in s
    ensures r.Success? ==> r.value == s
    ensures r.Failure? ==> r.error == CreateCString(NulErrorText(Utf8Length(UpTo(s, Nul))))
  {
    if Nul in s then Failure(CreateCString(NulErrorText(Utf8Length(UpTo(s, Nul))))) else Success(s)
  }

  // ---------------------------------------------------------------------
  // create_search_query
  // ---------------------------------------------------------------------

  /** An `NSMetadataQuery`: its identity and the predicate text it was given. */
  datatype Query = Query(id: nat, predicateText: string)

  /** The predicate text: the fragment inserted verbatim between the wildcards. */
  function PredicateText(fragment: string): (text: string)
    ensures |text| == |PredicatePrefix| + |fragment| + |PredicateSuffix|
  {
    PredicatePrefix + fragment + PredicateSuffix
  }

  /** The fixed template holds no NUL. */
  lemma TemplateHasNoNul()
    ensures Nul !in PredicatePrefix && Nul !in PredicateSuffix && Nul !in DateFormat
  {
    assert Nul !in PdfClause && Nul !in PngClause && Nul !in JpegClause && Nul !in DisplayNameClause;
  }

  /** The fragment sits intact between the template's two halves, so it can be read back. */
  lemma PredicateRecoversFragment(fragment: string)
    ensures PredicateText(fragment)[..|PredicatePrefix|] == PredicatePrefix
    ensures PredicateText(fragment)[|PredicatePrefix|..|PredicatePrefix| + |fragment|] == fragment
    ensures PredicateText(fragment)[|PredicatePrefix| + |fragment|..] == PredicateSuffix
  {
    var text := PredicateText(fragment);
    assert text == PredicatePrefix + (fragment + PredicateSuffix);
  }

  /** Distinct fragments give distinct predicates. */
  lemma PredicateInjective(a: string, b: string)
    requires PredicateText(a) == PredicateText(b)
    ensures a == b
  {
    PredicateRecoversFragment(a);
    PredicateRecoversFragment(b);
  }

  /**
   * `create_search_query`: a fresh query (`id`) whose predicate is the
   * formatted text. It fails exactly when the fragment holds a NUL, and the
   * error then names the byte offset of that NUL within the whole text.
   */
  function CreateSearchQuery(id: nat, fragment: string): (r: Result<Query, SearchLocalFileError>)
    ensures r.Success? <==> Nul !in fragment
    ensures r.Success? ==> r.value == Query(id, PredicatePrefix + fragment + PredicateSuffix)
    ensures r.Failure? ==> r.error.CreateCString?
  {
    PredicateNul(fragment);
    var text :- CStringNew(PredicateText(fragment));
    Success(Query(id, text))
  }

  /** The predicate holds a NUL exactly when the fragment does. */
  lemma PredicateNul(fragment: string)
    ensures Nul in PredicateText(fragment) <==> Nul in fragment
  {
    TemplateHasNoNul();
    assert PredicateText(fragment) == PredicatePrefix + (fragment + PredicateSuffix);
  }

  lemma CStringNewFails(s: string, position: nat)
    requires Nul in s && Utf8Length(UpTo(s, Nul)) == position
    ensures CStringNew(s) == Failure(CreateCString(NulErrorText(position)))
  {
  }

  /**
   * Behind a NUL-free prefix, the first NUL of a text is the first NUL of
   * the part that holds one, shifted by the prefix's byte length.
   */
  lemma CStringFirstNul(prefix: string, fragment: string, suffix: string)
    requires Nul !in prefix && Nul in fragment
    ensures CStringNew(prefix + fragment + suffix) ==
      Failure(CreateCString(NulErrorText(Utf8Length(prefix) + Utf8Length(UpTo(fragment, Nul)))))
  {
    UpToMiddle(prefix, fragment, suffix, Nul);
    Utf8LengthAppend(prefix, UpTo(fragment, Nul));
    CStringNewFails(prefix + fragment + suffix, Utf8Length(prefix) + Utf8Length(UpTo(fragment, Nul)));
  }

  /**
   * On a fragment holding a NUL the error names the byte offset of the
   * fragment's first NUL, counted from the start of the whole predicate.
   */
  lemma CreateSearchQueryNulPosition(id: nat, fragment: string)
    requires Nul in fragment
    ensures CreateSearchQuery(id, fragment) ==
      Failure(CreateCString(NulErrorText(Utf8Length(PredicatePrefix) + Utf8Length(UpTo(fragment, Nul)))))
  {
    TemplateHasNoNul();
    CStringFirstNul(PredicatePrefix, fragment, PredicateSuffix);
  }

  // ---------------------------------------------------------------------
  // nsstring_to_string and nsdate_to_string
  // ---------------------------------------------------------------------

  /**
   * `nsstring_to_string`: the string's UTF-8 bytes read as a C string, so
   * only the text before its first NUL survives.
   */
  function NsStringToString(s: string): (r: string)
    ensures r <= s && Nul !in r
    ensures Nul !in s ==> r == s
  {
    UpTo(s, Nul)
  }

  /** An `NSDate`: seconds since the reference date. */
  datatype Date = Date(seconds: int)

  /**
   * `nsdate_to_string`: the date rendered by a formatter set to
   * `DateFormat`, read back as a C string. `render` is the formatter, whose
   * output depends on the locale and time zone. The format literal holds no
   * NUL, so the call never fails.
   */
  function NsDateToString(date: Date, render: (string, Date) -> string): (r: Result<string, SearchLocalFileError>)
    ensures r.Success? && Nul !in r.value
  {
    TemplateHasNoNul();
    match CStringNew(DateFormat)
    case Failure(e) => Failure(e)
    case Success(format) => Success(NsStringToString(render(format, date)))
  }

  // ---------------------------------------------------------------------
  // process_query_data
  // ---------------------------------------------------------------------

  /** One `NSMetadataItem`: the three attributes read from it. */
  datatype MetadataItem = MetadataItem(fsName: string, path: string, changeDate: Date)

  /** How many results are read: the native count, capped by `max` when given. */
  function Cap(count: nat, max: Option<nat>): (n: nat)
    ensures n <= count
    ensures max.Some? ==> n <= max.value && (n == max.value || n == count)
    ensures max.None? ==> n == count
  {
    match max
    case None => count
    case Some(m) => if m < count then m else count
  }

  /**
   * The record an item yields: name and path cut at their first NUL, and
   * the rendered date; no field holds a NUL.
   */
  function RecordOf(item: MetadataItem, render: (string, Date) -> string): (r: SearchData)
    ensures r.0 <= item.fsName && r.1 <= item.path
    ensures Nul !in r.0 && Nul !in r.1 && Nul !in r.2
  {
    (NsStringToString(item.fsName), NsStringToString(item.path), NsDateToString(item.changeDate, render).value)
  }

  /**
   * `process_query_data`: the records of the first `Cap(|results|, maxCount)`
   * items, in index order.
   */
  method ProcessQueryData(results: seq<MetadataItem>, maxCount: Option<nat>, render: (string, Date) -> string)
    returns (r: Result<seq<SearchData>, SearchLocalFileError>)
    ensures r.Success?
    ensures |r.value| == Cap(|results|, maxCount)
    ensures forall k | 0 <= k < |r.value| :: r.value[k] == RecordOf(results[k], render)
  {
    var resultCount := Cap(|results|, maxCount);
    var resultVec: seq<SearchData> := [];
    for i := 0 to resultCount
      invariant |resultVec| == i
      invariant forall k | 0 <= k < i :: resultVec[k] == RecordOf(results[k], render)
    {
      var result := results[i];
      var fileName := NsStringToString(result.fsName);
      var path := NsStringToString(result.path);
      var modifiedDate := NsDateToString(result.changeDate, render);
      if modifiedDate.Failure? {
        // the `?` here never fires: the format literal holds no NUL
        assert false;
      }
      resultVec := resultVec + [(fileName, path, modifiedDate.value)];
    }
    return Success(resultVec);
  }

  // ---------------------------------------------------------------------
  // The query slot
  // ---------------------------------------------------------------------

  /** A message sent to a query, the notification center or the main run loop. */
  datatype Event =
    | Observe(query: Query)
    | Start(query: Query)
    | Stop(query: Query)
    | StopMainRunLoop
    | RunMainLoop

  /** `stop_query`: `stopQuery` on the query, then stop the main run loop. */
  function StopEvents(query: Query): seq<Event>
  {
    [Stop(query), StopMainRunLoop]
  }

  /** `run_query`: stop whatever the slot held, then start the new query and run the loop. */
  function RunEvents(previous: Option<Query>, query: Query): seq<Event>
  {
    (if previous.Some? then StopEvents(previous.value) else []) + [Start(query), RunMainLoop]
  }

  /** `query_did_finish_gathering`: stop the query taken from the slot, if any. */
  function FinishEvents(taken: Option<Query>): seq<Event>
  {
    if taken.Some? then StopEvents(taken.value) else []
  }

  /** The running queries after one more event. */
  function Apply(running: set<Query>, e: Event): set<Query>
  {
    if e.Start? then running + {e.query}
    else if e.Stop? then running - {e.query}
    else running
  }

  /** The queries started and not stopped since. */
  function Running(events: seq<Event>): set<Query>
  {
    if events == [] then {} else Apply(Running(events[..|events| - 1]), events[|events| - 1])
  }

  /** The queries a slot holds. */
  function Held(slot: Option<Query>): set<Query>
  {
    if slot.Some? then {slot.value} else {}
  }

  lemma RunningSnoc(events: seq<Event>, e: Event)
    ensures Running(events + [e]) == Apply(Running(events), e)
  {
    assert (events + [e])[..|events + [e]| - 1] == events;
  }

  /**
   * After `run_query`, exactly the new query runs, whatever the slot held:
   * a previous occupant is stopped, exactly once, before the new query
   * starts, and nothing is stopped when the slot was empty.
   */
  lemma RunQueryRunsOnlyNew(events: seq<Event>, previous: Option<Query>, query: Query)
    requires Running(events) == Held(previous)
    ensures Running(events + RunEvents(previous, query)) == {query}
    ensures var es := RunEvents(previous, query);
      && es[|es| - 2] == Start(query)
      && (previous.Some? ==> es[0] == Stop(previous.value) && multiset(es)[Stop(previous.value)] == 1)
      && (previous.None? ==> forall k | 0 <= k < |es| :: !es[k].Stop?)
  {
    var es := RunEvents(previous, query);
    if previous.Some? {
      var p := previous.value;
      assert es == [Stop(p)] + [StopMainRunLoop, Start(query), RunMainLoop];
      assert multiset(es)[Stop(p)] == 1 + multiset([StopMainRunLoop, Start(query), RunMainLoop])[Stop(p)];
      RunningAfterReplace(events, p, query);
    } else {
      assert events + es == events + [Start(query)] + [RunMainLoop];
      RunningSnoc(events, Start(query));
      RunningSnoc(events + [Start(query)], RunMainLoop);
    }
  }

  /** Stopping the only running query, then starting another, leaves just the new one running. */
  lemma RunningAfterReplace(events: seq<Event>, p: Query, query: Query)
    requires Running(events) == {p}
    ensures Running(events + RunEvents(Some(p), query)) == {query}
  {
    assert events + RunEvents(Some(p), query) == events + [Stop(p)] + [StopMainRunLoop] + [Start(query)] + [RunMainLoop];
    RunningSnoc(events, Stop(p));
    RunningSnoc(events + [Stop(p)], StopMainRunLoop);
    RunningSnoc(events + [Stop(p)] + [StopMainRunLoop], Start(query));
    RunningSnoc(events + [Stop(p)] + [StopMainRunLoop] + [Start(query)], RunMainLoop);
  }

  /** After the completion callback nothing runs, whether or not the slot held a query. */
  lemma FinishStopsAll(events: seq<Event>, taken: Option<Query>)
    requires Running(events) == Held(taken)
    ensures Running(events + FinishEvents(taken)) == {}
    ensures taken.None? ==> FinishEvents(taken) == []
  {
    if taken.Some? {
      var q := taken.value;
      assert events + FinishEvents(taken) == events + [Stop(q)] + [StopMainRunLoop];
      RunningSnoc(events, Stop(q));
      RunningSnoc(events + [Stop(q)], StopMainRunLoop);
    } else {
      assert events + [] == events;
    }
  }

  /**
   * The process-wide `QUERY` slot and the log of messages sent. The slot
   * holds exactly the query that is running.
   */
  class QueryRegistry {
    var slot: Option<Query>
    var events: seq<Event>

    ghost predicate Valid()
      reads this
    {
      Running(events) == Held(slot)
    }

    constructor ()
      ensures Valid() && slot == None && events == []
    {
      slot := None;
      events := [];
    }

    /** `connect_notification_center`: observe the query's completion. */
    method ConnectNotificationCenter(query: Query)
      requires Valid()
      modifies this
      ensures Valid() && slot == old(slot) && events == old(events) + [Observe(query)]
    {
      events := events + [Observe(query)];
      RunningSnoc(old(events), Observe(query));
    }

    /** `stop_query`: the messages it sends; the slot is untouched. */
    method StopQuery(query: Query)
      modifies this
      ensures slot == old(slot) && events == old(events) + StopEvents(query)
    {
      events := events + [Stop(query), StopMainRunLoop];
    }

    /** `run_query`: replace the slot's occupant, stop the previous one, start the new one. */
    method RunQuery(query: Query)
      requires Valid()
      modifies this
      ensures Valid() && slot == Some(query)
      ensures events == old(events) + RunEvents(old(slot), query)
    {
      var previous := slot;
      slot := Some(query);
      if previous.Some? {
        StopQuery(previous.value);
      }
      slot := Some(query);
      events := events + [Start(query), RunMainLoop];
      RunQueryRunsOnlyNew(old(events), previous, query);
      assert events == old(events) + RunEvents(previous, query);
    }

    /** `query_did_finish_gathering`: take the slot's occupant and stop it. */
    method QueryDidFinishGathering()
      requires Valid()
      modifies this
      ensures Valid() && slot == None
      ensures events == old(events) + FinishEvents(old(slot))
    {
      var taken := slot;
      slot := None;
      if taken.Some? {
        StopQuery(taken.value);
      }
      FinishStopsAll(old(events), taken);
    }
  }

  // ---------------------------------------------------------------------
  // search_local_files_by_query
  // ---------------------------------------------------------------------

  /**
   * `search_local_files_by_query`: build the query (`id` is its identity),
   * observe it, run it until the completion callback (delivered here as an
   * explicit call) stops it, then read at most `MaxResults` of the items it
   * gathered, `results`.
   */
  method SearchLocalFilesByQuery(registry: QueryRegistry, id: nat, fragment: string,
                                 results: seq<MetadataItem>, render: (string, Date) -> string)
    returns (r: Result<seq<SearchData>, SearchLocalFileError>)
    requires registry.Valid()
    modifies registry
    ensures registry.Valid()
    ensures CreateSearchQuery(id, fragment).Failure? ==>
      r == Failure(CreateSearchQuery(id, fragment).error) &&
      registry.slot == old(registry.slot) && registry.events == old(registry.events)
    ensures CreateSearchQuery(id, fragment).Success? ==>
      var query := CreateSearchQuery(id, fragment).value;
      && r.Success? && |r.value| == Cap(|results|, Some(MaxResults))
      && (forall k | 0 <= k < |r.value| :: r.value[k] == RecordOf(results[k], render))
      && registry.slot == None
      && registry.events ==
         old(registry.events) + [Observe(query)] + RunEvents(old(registry.slot), query) + StopEvents(query)
  {
    var created := CreateSearchQuery(id, fragment);
    if created.Failure? {
      return Failure(created.error);
    }
    var query := created.value;
    registry.ConnectNotificationCenter(query);
    registry.RunQuery(query);
    registry.QueryDidFinishGathering();
    r := ProcessQueryData(results, Some(MaxResults), render);
  }
}
