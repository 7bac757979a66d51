/** Daily request quotas, the reference store of internal/limit/daily.go: all counters of a call go up, or none. */
module DailyQuota {
  import opened Text
  import opened Int64

  datatype Scope = KeyScope | UserScope | GlobalScope

  /** A request to count one more for the id; a limit of zero is no limit. */
  datatype Entry = Entry(scope: Scope, id: string, limit: int)

  datatype DailyKey = DailyKey(day: int, scope: Scope, id: string)

  type Usage = map<DailyKey, int>

  datatype Verdict = Reserved | InvalidEntry | DuplicateEntry | OverQuota(entry: Entry, current: int) | Overflow

  function KeyOf(day: int, e: Entry): DailyKey {
    DailyKey(day, e.scope, e.id)
  }

  function Used(usage: Usage, key: DailyKey): int {
    if key in usage then usage[key] else 0
  }

  predicate ValidEntry(e: Entry) {
    !e.scope.GlobalScope? && e.id != "" && e.limit >= 0
  }

  /** Two entries count the same thing. */
  predicate Same(a: Entry, b: Entry) {
    a.scope == b.scope && a.id == b.id
  }

  /** The first fault of the entries in order, or Reserved. */
  function Validate(entries: seq<Entry>): Verdict {
    if entries == [] then Reserved
    else
      var rest, e := entries[..|entries| - 1], entries[|entries| - 1];
      if Validate(rest) != Reserved then Validate(rest)
      else if !ValidEntry(e) then InvalidEntry
      else if exists i :: 0 <= i < |rest| && Same(rest[i], e) then DuplicateEntry
      else Reserved
  }

  function CheckOne(usage: Usage, day: int, e: Entry): Verdict {
    var current := Used(usage, KeyOf(day, e));
    if e.limit > 0 && current >= e.limit then OverQuota(e, current)
    else if current == MAX_INT64 then Overflow
    else Reserved
  }

  function Check(usage: Usage, day: int, entries: seq<Entry>): Verdict {
    if entries == [] then Reserved
    else
      var before := Check(usage, day, entries[..|entries| - 1]);
      if before != Reserved then before else CheckOne(usage, day, entries[|entries| - 1])
  }

  function Add(usage: Usage, day: int, entries: seq<Entry>): Usage {
    if entries == [] then usage
    else
      var before := Add(usage, day, entries[..|entries| - 1]);
      var key := KeyOf(day, entries[|entries| - 1]);
      before[key := Used(before, key) + 1]
  }

  function Reserve(usage: Usage, day: int, entries: seq<Entry>): (Usage, Verdict) {
    if Validate(entries) != Reserved then (usage, Validate(entries))
    else
      var verdict := Check(usage, day, entries);
      (if verdict == Reserved then Add(usage, day, entries) else usage, verdict)
  }

  // ---------------------------------------------------------------- one call

  predicate DistinctEntries(entries: seq<Entry>) {
    forall i, j :: 0 <= i < j < |entries| ==> !Same(entries[i], entries[j])
  }

  /** Validation passes exactly lists of valid entries that count different things. */
  lemma {:induction false} ValidateExactly(entries: seq<Entry>)
    ensures Validate(entries) == Reserved <==> (forall i :: 0 <= i < |entries| ==> ValidEntry(entries[i])) && DistinctEntries(entries)
  {
    if entries != [] {
      var rest, e := entries[..|entries| - 1], entries[|entries| - 1];
      ValidateExactly(rest);
      assert forall i :: 0 <= i < |rest| ==> rest[i] == entries[i];
      if exists i :: 0 <= i < |rest| && Same(rest[i], e) {
        var i :| 0 <= i < |rest| && Same(rest[i], e);
        assert Same(entries[i], entries[|entries| - 1]);
      }
    }
  }

  predicate Counts(day: int, entries: seq<Entry>, key: DailyKey) {
    exists i :: 0 <= i < |entries| && KeyOf(day, entries[i]) == key
  }

  lemma {:induction false} AddsOne(usage: Usage, day: int, entries: seq<Entry>, key: DailyKey)
    requires DistinctEntries(entries)
    ensures Used(Add(usage, day, entries), key) == Used(usage, key) + if Counts(day, entries, key) then 1 else 0
  {
    if entries != [] {
      var rest, e := entries[..|entries| - 1], entries[|entries| - 1];
      AddsOne(usage, day, rest, key);
      assert forall i :: 0 <= i < |rest| ==> rest[i] == entries[i];
      if KeyOf(day, e) == key {
        assert Counts(day, entries, key);
        forall i | 0 <= i < |rest| ensures KeyOf(day, rest[i]) != key { assert !Same(entries[i], entries[|entries| - 1]); }
      }
    }
  }

  lemma {:induction false} CheckedEach(usage: Usage, day: int, entries: seq<Entry>)
    ensures Check(usage, day, entries) == Reserved <==> forall i :: 0 <= i < |entries| ==> CheckOne(usage, day, entries[i]) == Reserved
  {
    hide CheckOne;
    if entries != [] {
      CheckedEach(usage, day, entries[..|entries| - 1]);
      assert forall i :: 0 <= i < |entries| - 1 ==> entries[..|entries| - 1][i] == entries[i];
    }
  }

  /** A call is all or nothing: on success each of its counters goes up by one and no other changes, else none changes. */
  lemma AllOrNothing(usage: Usage, day: int, entries: seq<Entry>, key: DailyKey)
    ensures var (after, verdict) := Reserve(usage, day, entries);
            && Used(after, key) == Used(usage, key) + (if verdict == Reserved && Counts(day, entries, key) then 1 else 0)
            && (verdict != Reserved ==> after == usage)
  {
    ValidateExactly(entries);
    if Validate(entries) == Reserved { AddsOne(usage, day, entries, key); }
  }

  /** A call succeeds exactly when its entries are sound and every one of them is below its limit and can be counted. */
  lemma ReservedExactly(usage: Usage, day: int, entries: seq<Entry>)
    ensures Reserve(usage, day, entries).1 == Reserved <==>
            && (forall i :: 0 <= i < |entries| ==> ValidEntry(entries[i])) && DistinctEntries(entries)
            && (forall i :: 0 <= i < |entries| ==>
                  var current := Used(usage, KeyOf(day, entries[i]));
                  (entries[i].limit > 0 ==> current < entries[i].limit) && current != MAX_INT64)
  {
    hide ValidEntry, DistinctEntries, Add, KeyOf;
    ValidateExactly(entries);
    CheckedEach(usage, day, entries);
  }

  /** A refusal on quota names the first entry that cannot be counted, and how far it is. */
  lemma {:induction false} RefusalNamesFirst(usage: Usage, day: int, entries: seq<Entry>) returns (i: nat)
    requires Validate(entries) == Reserved && Reserve(usage, day, entries).1 != Reserved
    ensures i < |entries| && CheckOne(usage, day, entries[i]) != Reserved && forall j :: 0 <= j < i ==> CheckOne(usage, day, entries[j]) == Reserved
    ensures var current := Used(usage, KeyOf(day, entries[i]));
            Reserve(usage, day, entries).1 == if entries[i].limit > 0 && current >= entries[i].limit then OverQuota(entries[i], current) else Overflow
  {
    hide Add, KeyOf, ValidEntry;
    var rest, last := entries[..|entries| - 1], entries[|entries| - 1];
    if Check(usage, day, rest) == Reserved {
      i := |rest|;
      CheckedEach(usage, day, rest);
      forall j | 0 <= j < i ensures CheckOne(usage, day, entries[j]) == Reserved { assert rest[j] == entries[j]; }
    } else {
      i := RefusalNamesFirst(usage, day, rest);
      forall j | 0 <= j < i ensures CheckOne(usage, day, entries[j]) == Reserved { assert rest[j] == entries[j]; }
    }
  }

  // ---------------------------------------------------------------- any sequence of calls

  datatype Call = Call(day: int, entries: seq<Entry>)

  function After(usage: Usage, calls: seq<Call>): Usage {
    if calls == [] then usage
    else
      var last := calls[|calls| - 1];
      Reserve(After(usage, calls[..|calls| - 1]), last.day, last.entries).0
  }

  function Run(calls: seq<Call>): Usage {
    After(map[], calls)
  }

  predicate Succeeds(calls: seq<Call>, i: nat)
    requires i < |calls|
  {
    Reserve(Run(calls[..i]), calls[i].day, calls[i].entries).1 == Reserved
  }

  /** The calls that succeeded and counted the key. */
  function Successes(calls: seq<Call>, key: DailyKey): nat {
    if calls == [] then 0
    else
      var n := |calls| - 1;
      Successes(calls[..n], key) + if Succeeds(calls, n) && Counts(calls[n].day, calls[n].entries, key) then 1 else 0
  }

  /** No call counts the key under another limit. */
  ghost predicate FixedLimit(calls: seq<Call>, key: DailyKey, limit: int) {
    forall i, j :: 0 <= i < |calls| && 0 <= j < |calls[i].entries| && KeyOf(calls[i].day, calls[i].entries[j]) == key ==> calls[i].entries[j].limit == limit
  }

  /** Usage is exactly the successful calls, never overflows, and never passes a fixed limit. */
  lemma {:induction false} UsageIsSuccesses(calls: seq<Call>, key: DailyKey, limit: int)
    ensures Used(Run(calls), key) == Successes(calls, key) <= MAX_INT64
    ensures limit > 0 && FixedLimit(calls, key, limit) ==> Successes(calls, key) <= limit
  {
    if calls != [] {
      hide Reserve, KeyOf;
      var n := |calls| - 1;
      var rest, last := calls[..n], calls[n];
      UsageIsSuccesses(rest, key, limit);
      assert forall i :: 0 <= i < n ==> rest[i] == calls[i];
      AllOrNothing(Run(rest), last.day, last.entries, key);
      if Succeeds(calls, n) && Counts(last.day, last.entries, key) {
        var j :| 0 <= j < |last.entries| && KeyOf(last.day, last.entries[j]) == key;
        ReservedExactly(Run(rest), last.day, last.entries);
      }
    }
  }
}
