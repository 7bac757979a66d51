/**
 Cumulative token usage of a Messages response, internal/proxy/anthropic.go. JSON decoding is
 abstracted to which fields were present; all arithmetic is 64-bit and wraps.
 */
module AnthropicUsage {
  import opened Text
  import opened Costs
  import opened Int64

  /** A count field: absent, not a 64-bit integer, or a value. */
  datatype Field = Absent | Malformed | Count(value: int)

  datatype TtlField = TtlAbsent | TtlNull | TtlMalformed | Ttl(short: Field, long: Field)

  datatype UsageData =
    | NotAnObject
    | UsageFields(input: Field, cacheRead: Field, cacheCreation: Field, output: Field, ttl: TtlField)

  datatype Usage = Usage(
    input: int, cached: int, cacheWrite: int, write5m: int, write1h: int, output: int, writePresent: bool, ttlPresent: bool)

  const NO_USAGE := Usage(0, 0, 0, 0, 0, 0, false, false)

  predicate Acceptable(f: Field) {
    f.Absent? || (f.Count? && 0 <= f.value <= MAX_INT64)
  }

  function Apply(f: Field, current: int): int {
    if f.Count? then f.value else current
  }

  /** The TTL part of a snapshot, applied to usage whose aggregates are already updated. */
  function ApplyTtl(ttl: TtlField, u: Usage): Option<Usage> {
    var cleared := u.(ttlPresent := false, write5m := 0, write1h := 0);
    match ttl
    case TtlAbsent => Some(u)
    case TtlNull => Some(cleared)
    case TtlMalformed => None
    case Ttl(short, long) =>
      if !Acceptable(short) || !Acceptable(long) then None
      else if short.Absent? || long.Absent? then Some(cleared)
      else if !u.writePresent || short.value > Wrap(MAX_INT64 - long.value) || Wrap(short.value + long.value) != u.cacheWrite then None
      else Some(u.(ttlPresent := true, write5m := short.value, write1h := long.value))
  }

  /** anthropicUsage: the next cumulative snapshot, or a rejection. */
  function Advance(data: UsageData, prior: Usage): (r: Option<Usage>)
    ensures r.Some? ==> data.UsageFields?
  {
    if data.NotAnObject? then None
    else if !Acceptable(data.input) || !Acceptable(data.cacheRead) || !Acceptable(data.cacheCreation) || !Acceptable(data.output) then None
    else
      var plain := Apply(data.input, Wrap(Wrap(prior.input - prior.cached) - prior.cacheWrite));
      var u := prior.(cached := Apply(data.cacheRead, prior.cached), cacheWrite := Apply(data.cacheCreation, prior.cacheWrite),
                      output := Apply(data.output, prior.output));
      var v := if data.cacheCreation.Absent? then u else u.(writePresent := true, ttlPresent := false, write5m := 0, write1h := 0);
      var w := ApplyTtl(data.ttl, v);
      if w.None? then None
      else if plain < 0 || plain > Wrap(MAX_INT64 - w.value.cached)
              || Wrap(plain + w.value.cached) > Wrap(MAX_INT64 - w.value.cacheWrite) then None
      else
        var input := Wrap(Wrap(plain + w.value.cached) + w.value.cacheWrite);
        if input > Wrap(MAX_INT64 - w.value.output) then None else Some(w.value.(input := input))
  }

  /** What every accepted snapshot satisfies. */
  predicate Sound(u: Usage) {
    && 0 <= u.cached && 0 <= u.cacheWrite && 0 <= u.output && 0 <= u.write5m && 0 <= u.write1h
    && u.cached + u.cacheWrite <= u.input
    && u.input + u.output <= MAX_INT64
    && (if u.ttlPresent then u.write5m + u.write1h == u.cacheWrite else u.write5m == 0 && u.write1h == 0)
  }

  function Plain(u: Usage): int {
    u.input - u.cached - u.cacheWrite
  }

  /**
   A snapshot replaces the fields it carries and keeps the others, ordinary input included, and the
   sums never leave 64 bits.
   */
  lemma AdvanceIsCumulative(data: UsageData, prior: Usage)
    requires Sound(prior) && Advance(data, prior).Some?
    ensures Sound(Advance(data, prior).value)
    ensures var u := Advance(data, prior).value;
            && data.UsageFields?
            && Plain(u) == Apply(data.input, Plain(prior))
            && u.cached == Apply(data.cacheRead, prior.cached)
            && u.cacheWrite == Apply(data.cacheCreation, prior.cacheWrite)
            && u.output == Apply(data.output, prior.output)
            && (u.ttlPresent ==> if data.ttl.Ttl? then data.ttl == Ttl(Count(u.write5m), Count(u.write1h))
                                 else data.ttl.TtlAbsent? && data.cacheCreation.Absent? && prior.ttlPresent
                                      && u.write5m == prior.write5m && u.write1h == prior.write1h)
            && (data.ttl.Ttl? && data.ttl.short.Count? && data.ttl.long.Count? ==> u.ttlPresent)
            && (u.writePresent <==> prior.writePresent || data.cacheCreation.Count?)
            && (data.cacheCreation.Absent? && data.ttl.TtlAbsent? ==> u.ttlPresent == prior.ttlPresent)
  {
  }

  /** A snapshot of acceptable fields is refused exactly when its totals or its TTL split do not fit. */
  lemma AdvanceRefusesExactly(data: UsageData, prior: Usage)
    requires Sound(prior) && data.UsageFields?
    requires Acceptable(data.input) && Acceptable(data.cacheRead) && Acceptable(data.cacheCreation) && Acceptable(data.output)
    requires data.ttl.Ttl? ==> Acceptable(data.ttl.short) && Acceptable(data.ttl.long)
    ensures Advance(data, prior).None? <==>
            || Apply(data.input, Plain(prior)) + Apply(data.cacheRead, prior.cached)
               + Apply(data.cacheCreation, prior.cacheWrite) + Apply(data.output, prior.output) > MAX_INT64
            || data.ttl.TtlMalformed?
            || (data.ttl.Ttl? && data.ttl.short.Count? && data.ttl.long.Count?
                && !((prior.writePresent || !data.cacheCreation.Absent?)
                     && data.ttl.short.value + data.ttl.long.value == Apply(data.cacheCreation, prior.cacheWrite)))
  {
    hide Wrap;
  }

  /** The fields of a snapshot are in range, its totals fit, and its TTL split adds up to the cache writes reported. */
  predicate Fitting(data: UsageData, prior: Usage) {
    && data.UsageFields?
    && Acceptable(data.input) && Acceptable(data.cacheRead) && Acceptable(data.cacheCreation) && Acceptable(data.output)
    && Apply(data.input, Plain(prior)) + Apply(data.cacheRead, prior.cached)
       + Apply(data.cacheCreation, prior.cacheWrite) + Apply(data.output, prior.output) <= MAX_INT64
    && !data.ttl.TtlMalformed?
    && (data.ttl.Ttl? ==>
          && Acceptable(data.ttl.short) && Acceptable(data.ttl.long)
          && (data.ttl.short.Count? && data.ttl.long.Count? ==>
                && (prior.writePresent || data.cacheCreation.Count?)
                && data.ttl.short.value + data.ttl.long.value == Apply(data.cacheCreation, prior.cacheWrite)))
  }

  /** A snapshot is accepted exactly if it fits. */
  lemma AdvanceExactly(data: UsageData, prior: Usage)
    requires Sound(prior)
    ensures Advance(data, prior).Some? <==> Fitting(data, prior)
    ensures Fitting(data, prior) ==> data.UsageFields? && (data.input.Absent? || data.input.Count?) && (data.output.Absent? || data.output.Count?)
  {
    hide Wrap, ApplyTtl, Advance;
    if data.UsageFields? {
      if !Acceptable(data.input) || !Acceptable(data.cacheRead) || !Acceptable(data.cacheCreation) || !Acceptable(data.output) {
        Unacceptable(data, prior);
      } else if data.ttl.Ttl? && !(Acceptable(data.ttl.short) && Acceptable(data.ttl.long)) {
        UnacceptableTtl(data, prior);
      } else {
        AdvanceRefusesExactly(data, prior);
      }
    } else {
      Unacceptable(data, prior);
    }
  }

  lemma Unacceptable(data: UsageData, prior: Usage)
    requires data.NotAnObject? || !Acceptable(data.input) || !Acceptable(data.cacheRead) || !Acceptable(data.cacheCreation) || !Acceptable(data.output)
    ensures Advance(data, prior).None?
  {
  }

  lemma UnacceptableTtl(data: UsageData, prior: Usage)
    requires data.UsageFields? && data.ttl.Ttl? && !(Acceptable(data.ttl.short) && Acceptable(data.ttl.long))
    ensures Advance(data, prior).None?
  {
    hide Wrap;
  }

  function Counts(u: Usage): TokenCounts {
    TokenCounts(u.input, u.cached, u.cacheWrite, u.write5m, u.write1h, u.output, u.ttlPresent)
  }

  // ---------------------------------------------------------------- the event stream

  datatype Kind =
    | MessageStart(usage: UsageData)
    | MessageDelta(usage: UsageData)
    | MessageStop
    | ErrorEvent
    | InvalidEvent
    | OtherEvent

  /** A frame of the stream, and whether writing it to the client succeeds. */
  datatype Frame = Frame(kind: Kind, written: bool)

  datatype Phase = Streaming | Complete | Failed

  datatype StreamState = StreamState(phase: Phase, started: bool, finalUsage: bool, usage: Usage)

  const INITIAL := StreamState(Streaming, false, false, NO_USAGE)

  function Fail(s: StreamState): StreamState {
    s.(phase := Failed)
  }

  /** One frame through forwardAnthropicResponse. */
  function Step(s: StreamState, f: Frame): StreamState {
    if !s.phase.Streaming? then s
    else
      var t := match f.kind
        case MessageStart(usage) =>
          var u := Advance(usage, NO_USAGE);
          if s.started || u.None? || usage.input.Absent? || usage.output.Absent? then Fail(s)
          else s.(started := true, usage := u.value)
        case MessageDelta(usage) =>
          if !s.started || usage.NotAnObject? || usage.output.Absent? then Fail(s)
          else
            var u := Advance(usage, s.usage);
            if u.None? || u.value.output < s.usage.output then Fail(s)
            else s.(finalUsage := true, usage := u.value)
        case MessageStop => if !s.started || !s.finalUsage then Fail(s) else s.(phase := Complete)
        case ErrorEvent => Fail(s)
        case InvalidEvent => Fail(s)
        case OtherEvent => s;
      if !f.written then Fail(t) else t
  }

  function Run(frames: seq<Frame>): StreamState {
    if frames == [] then INITIAL else Step(Run(frames[..|frames| - 1]), frames[|frames| - 1])
  }

  /** The event loop, with the source's flags; a missing message_stop is a failure. */
  method ForwardStream(frames: seq<Frame>) returns (usage: Usage, ok: bool)
    ensures usage == Run(frames).usage
    ensures ok <==> Run(frames).phase.Complete?
    ensures ReadOff(frames, usage, ok)
  {
    hide ReadOff, Advance;
    IsReadOff(frames);
    var started, finalUsage, stopped := false, false, false;
    usage := NO_USAGE;
    var index := 0;
    while index < |frames| && !stopped
      decreases |frames| - index
      invariant 0 <= index <= |frames|
      invariant Run(frames[..index]) == StreamState(if stopped then Complete else Streaming, started, finalUsage, usage)
    {
      var frame := frames[index];
      assert frames[..index + 1][..index] == frames[..index];
      StopsForGood(frames, index + 1);
      match frame.kind {
        case MessageStart(data) =>
          if started {
            return usage, false;
          }
          var u := Advance(data, NO_USAGE);
          if u.None? || data.input.Absent? || data.output.Absent? {
            return usage, false;
          }
          usage, started := u.value, true;
        case MessageDelta(data) =>
          if !started || data.NotAnObject? || data.output.Absent? {
            return usage, false;
          }
          var u := Advance(data, usage);
          if u.None? || u.value.output < usage.output {
            return usage, false;
          }
          usage, finalUsage := u.value, true;
        case MessageStop =>
          if !started || !finalUsage {
            return usage, false;
          }
          stopped := true;
        case ErrorEvent => return usage, false;
        case InvalidEvent => return usage, false;
        case OtherEvent =>
      }
      if !frame.written {
        return usage, false;
      }
      index := index + 1;
    }
    StopsForGood(frames, index);
    assert !stopped ==> frames[..index] == frames;
    ok := stopped;
  }

  lemma {:induction false} StopsForGood(frames: seq<Frame>, n: nat)
    requires n <= |frames|
    ensures !Run(frames[..n]).phase.Streaming? ==> Run(frames) == Run(frames[..n])
    decreases |frames| - n
  {
    if n < |frames| {
      assert frames[..n + 1][..n] == frames[..n];
      StopsForGood(frames, n + 1);
    } else {
      assert frames[..n] == frames;
    }
  }

  /** Every prefix of every stream holds usage that the charge formula accepts. */
  lemma {:induction false} StreamUsageIsChargeable(frames: seq<Frame>)
    ensures Sound(Run(frames).usage)
    ensures ValidTtlCounts(Counts(Run(frames).usage))
  {
    hide Advance, Sound, ValidTtlCounts;
    NoUsageSound();
    if frames != [] {
      var s, f := Run(frames[..|frames| - 1]), frames[|frames| - 1];
      StreamUsageIsChargeable(frames[..|frames| - 1]);
      if f.kind.MessageStart? && Advance(f.kind.usage, NO_USAGE).Some? {
        AdvanceIsCumulative(f.kind.usage, NO_USAGE);
      } else if f.kind.MessageDelta? && Advance(f.kind.usage, s.usage).Some? {
        AdvanceIsCumulative(f.kind.usage, s.usage);
      }
    }
    SoundIsChargeable(Run(frames).usage);
  }

  lemma NoUsageSound()
    ensures Sound(NO_USAGE)
  {
  }

  lemma SoundIsChargeable(u: Usage)
    requires Sound(u)
    ensures ValidTtlCounts(Counts(u))
  {
  }

  /** The usage charged is never refused for its token counts, whatever the stream did. */
  lemma ChargeNeverRefusesCounts(frames: seq<Frame>, p: PriceCard, multiplier: string)
    ensures TtlCharge(Counts(Run(frames).usage), p, multiplier) != Refused(InvalidTokenCounts)
  {
    hide Settle, ValidTtlPrices, Run;
    StreamUsageIsChargeable(frames);
    var t := Counts(Run(frames).usage);
    if ValidTtlPrices(p) { SettleNeverBlamesCounts(TtlUnits(t, p), multiplier); }
  }

  lemma SettleNeverBlamesCounts(n: int, multiplier: string)
    ensures Settle(n, multiplier) != Refused(InvalidTokenCounts)
  {
  }

  predicate Benign(f: Frame) {
    f.written && !f.kind.ErrorEvent? && !f.kind.InvalidEvent?
  }

  /** While streaming: at most one message_start, at s, before every message_delta. */
  ghost predicate OneStart(frames: seq<Frame>, started: bool, s: nat) {
    && (started ==> s < |frames| && frames[s].kind.MessageStart?)
    && forall i :: 0 <= i < |frames| ==>
         && Benign(frames[i])
         && !frames[i].kind.MessageStop?
         && (frames[i].kind.MessageStart? ==> started && i == s)
         && (frames[i].kind.MessageDelta? ==> started && i > s)
  }

  lemma {:induction false} StreamingShape(frames: seq<Frame>) returns (s: nat)
    requires Run(frames).phase.Streaming?
    ensures OneStart(frames, Run(frames).started, s)
    ensures Run(frames).finalUsage ==> Run(frames).started && exists d :: 0 <= d < |frames| && frames[d].kind.MessageDelta?
  {
    s := 0;
    if frames != [] {
      var rest, last := frames[..|frames| - 1], frames[|frames| - 1];
      s := StreamingShape(rest);
      assert forall i :: 0 <= i < |rest| ==> frames[i] == rest[i];
      if last.kind.MessageStart? { s := |rest|; }
      if last.kind.MessageDelta? { assert frames[|rest|].kind.MessageDelta?; }
    }
  }

  /**
   A stream succeeds only as one message_start, then at least one usage-bearing message_delta, then a
   message_stop with nothing harmful before it; what follows the stop is never consumed.
   */
  lemma {:induction false} CompleteShape(frames: seq<Frame>) returns (n: nat, s: nat)
    requires Run(frames).phase.Complete?
    ensures n < |frames| && frames[n].kind.MessageStop? && frames[n].written
    ensures OneStart(frames[..n], true, s)
    ensures exists d :: s < d < n && frames[d].kind.MessageDelta?
    ensures Run(frames).usage == Run(frames[..n]).usage
  {
    hide Advance, OneStart;
    var rest := frames[..|frames| - 1];
    if Run(rest).phase.Streaming? {
      n := |rest|;
      s := StreamingShape(rest);
      var d :| 0 <= d < |rest| && rest[d].kind.MessageDelta?;
      assert frames[d].kind.MessageDelta?;
    } else {
      n, s := CompleteShape(rest);
      assert frames[..n] == rest[..n];
      var d :| s < d < n && rest[d].kind.MessageDelta?;
      assert frames[d].kind.MessageDelta?;
    }
  }

  /** After message_start the output count never goes back, over any further frames. */
  lemma {:induction false} OutputNeverRegresses(frames: seq<Frame>, n: nat)
    requires n <= |frames| && Run(frames[..n]).started
    ensures Run(frames).started && Run(frames[..n]).usage.output <= Run(frames).usage.output
  {
    hide Advance;
    if n == |frames| {
      assert frames[..n] == frames;
    } else {
      var rest := frames[..|frames| - 1];
      assert rest[..n] == frames[..n];
      OutputNeverRegresses(rest, n);
    }
  }

  // ---------------------------------------------------------------- the usage, read off the frames

  datatype Category = OrdinaryInput | CacheReads | CacheWrites | Outputs

  /** What a frame reports of a category. */
  function Reported(f: Frame, category: Category): Field {
    if !(f.kind.MessageStart? || f.kind.MessageDelta?) || f.kind.usage.NotAnObject? then Absent
    else
      match category
      case OrdinaryInput => f.kind.usage.input
      case CacheReads => f.kind.usage.cacheRead
      case CacheWrites => f.kind.usage.cacheCreation
      case Outputs => f.kind.usage.output
  }

  /** The count of the last frame that reports the category, or zero. */
  function Latest(frames: seq<Frame>, category: Category): int {
    if frames == [] then 0
    else
      var field := Reported(frames[|frames| - 1], category);
      if field.Count? then field.value else Latest(frames[..|frames| - 1], category)
  }

  /** Latest is what it says: the value of a reporting frame with no reporting frame after it. */
  lemma {:induction false} LatestIsLast(frames: seq<Frame>, category: Category) returns (i: nat)
    ensures if !Reporting(frames, category) then Latest(frames, category) == 0
            else i < |frames| && Reported(frames[i], category) == Count(Latest(frames, category)) && !Reporting(frames[i + 1..], category)
  {
    hide Reported;
    i := 0;
    if frames != [] {
      hide Latest, Reporting;
      var rest, last := frames[..|frames| - 1], frames[|frames| - 1];
      assert frames == rest + [last];
      LatestSnoc(rest, last, category);
      if Reported(last, category).Count? {
        i := |rest|;
        NoneReporting(frames[i + 1..], category);
      } else {
        i := LatestIsLast(rest, category);
        if Reporting(rest, category) {
          assert frames[i + 1..] == rest[i + 1..] + [last];
          LatestSnoc(rest[i + 1..], last, category);
        }
      }
    }
  }

  lemma NoneReporting(frames: seq<Frame>, category: Category)
    requires frames == []
    ensures !Reporting(frames, category)
  {
  }

  function TtlOf(f: Frame): TtlField {
    if !(f.kind.MessageStart? || f.kind.MessageDelta?) || f.kind.usage.NotAnObject? then TtlAbsent else f.kind.usage.ttl
  }

  /** The split of the last frame that reports cache writes or a TTL object: both counts of the object, or none. */
  function LatestSplit(frames: seq<Frame>): Option<(int, int)> {
    if frames == [] then None
    else
      var last := frames[|frames| - 1];
      var ttl := TtlOf(last);
      if ttl.Ttl? && ttl.short.Count? && ttl.long.Count? then Some((ttl.short.value, ttl.long.value))
      else if ttl.TtlAbsent? && Reported(last, CacheWrites).Absent? then LatestSplit(frames[..|frames| - 1])
      else None
  }

  predicate Reporting(frames: seq<Frame>, category: Category) {
    exists i :: 0 <= i < |frames| && Reported(frames[i], category).Count?
  }

  predicate Starts(frames: seq<Frame>) {
    exists i :: 0 <= i < |frames| && frames[i].kind.MessageStart?
  }

  predicate Updates(frames: seq<Frame>) {
    exists i :: 0 <= i < |frames| && frames[i].kind.MessageDelta?
  }

  /** The usage that frames report, category by category. */
  function Told(frames: seq<Frame>): Usage {
    var read, written, split := Latest(frames, CacheReads), Latest(frames, CacheWrites), LatestSplit(frames);
    Usage(Latest(frames, OrdinaryInput) + read + written, read, written,
          if split.Some? then split.value.0 else 0, if split.Some? then split.value.1 else 0,
          Latest(frames, Outputs), Reporting(frames, CacheWrites), split.Some?)
  }

  /** Whether the frame after these is one that can come there, whether or not writing it succeeds. */
  predicate Follows(before: seq<Frame>, f: Frame) {
    match f.kind
    case MessageStart(data) => !Starts(before) && Fitting(data, NO_USAGE) && data.input.Count? && data.output.Count?
    case MessageDelta(data) => Starts(before) && Fitting(data, Told(before)) && data.output.Count? && Latest(before, Outputs) <= data.output.value
    case MessageStop => Starts(before) && Updates(before)
    case ErrorEvent => false
    case InvalidEvent => false
    case OtherEvent => true
  }

  predicate Ends(f: Frame) {
    f.kind.MessageStop? || !f.written
  }

  /** The first n frames are those consumed: each follows those before it, and only the last may end the stream. */
  ghost predicate Consumed(frames: seq<Frame>, n: nat) {
    && n <= |frames|
    && (forall i :: 0 <= i < n ==> Follows(frames[..i], frames[i]) && (Ends(frames[i]) ==> i == n - 1))
    && (n < |frames| ==> !Follows(frames[..n], frames[n]) || (n > 0 && Ends(frames[n - 1])))
  }

  function PhaseAfter(frames: seq<Frame>, n: nat): Phase
    requires n <= |frames|
  {
    if n > 0 && Ends(frames[n - 1]) then if frames[n - 1].written then Complete else Failed
    else if n < |frames| then Failed else Streaming
  }

  /**
   Of every stream exactly the frames up to the first that ends it or does not follow are consumed; the usage
   is what these report, and the stream is complete exactly if the last of them is a message_stop that was written.
   */
  lemma {:induction false} UsageIsTold(frames: seq<Frame>) returns (n: nat)
    ensures Consumed(frames, n) && Run(frames).phase == PhaseAfter(frames, n) && Run(frames).usage == Told(frames[..n])
    ensures Run(frames).phase.Streaming? ==> (Run(frames).started <==> Starts(frames)) && (Run(frames).finalUsage <==> Updates(frames))
  {
    hide Told, Follows, Step, Starts, Updates;
    if frames == [] {
      n := 0;
      NothingTold();
    } else {
      var rest, last := frames[..|frames| - 1], frames[|frames| - 1];
      var before := UsageIsTold(rest);
      forall i | 0 <= i <= |rest| ensures frames[..i] == rest[..i] {}
      if Run(rest).phase.Streaming? {
        assert rest[..before] == rest && frames[..|frames|] == frames && frames == rest + [last];
        StreamUsageIsChargeable(rest);
        NextFollows(rest, last, Run(rest));
        n := if Follows(rest, last) then |frames| else |rest|;
      } else {
        NoMore(Run(rest), last);
        n := before;
      }
    }
  }

  /** The usage is what the consumed frames report, and the stream is ok exactly if a message_stop was written last. */
  ghost predicate ReadOff(frames: seq<Frame>, usage: Usage, ok: bool) {
    exists n: nat :: Consumed(frames, n) && usage == Told(frames[..n]) && (ok <==> n > 0 && frames[n - 1].kind.MessageStop? && frames[n - 1].written)
  }

  lemma IsReadOff(frames: seq<Frame>)
    ensures ReadOff(frames, Run(frames).usage, Run(frames).phase.Complete?)
  {
    hide Told, Run;
    var n := UsageIsTold(frames);
  }

  /** The output charged for a complete stream is that of its last message_delta. */
  lemma LastDeltaCounts(frames: seq<Frame>) returns (n: nat, d: nat)
    requires Run(frames).phase.Complete?
    ensures d < n < |frames| && frames[n].kind.MessageStop? && frames[n].written && frames[d].kind.MessageDelta?
    ensures frames[d].kind.usage.UsageFields? && frames[d].kind.usage.output == Count(Run(frames).usage.output)
    ensures forall j :: d < j < n ==> !frames[j].kind.MessageDelta?
  {
    hide Run, Told, Latest, Fitting, Starts;
    n := UsageIsTold(frames);
    var consumed := frames[..n];
    ToldOutput(consumed);
    n := n - 1;
    assert Follows(frames[..n], frames[n]);
    assert consumed == frames[..n] + [frames[n]];
    LatestSnoc(frames[..n], frames[n], Outputs);
    d := LatestIsLast(frames[..n], Outputs);
    forall j | 0 <= j < n && frames[j].kind.MessageDelta? ensures Reported(frames[j], Outputs).Count? {
      assert Follows(frames[..j], frames[j]);
      FittingIsObject(frames[j].kind.usage, Told(frames[..j]));
    }
    var some :| 0 <= some < n && frames[..n][some].kind.MessageDelta?;
    assert Reported(frames[..n][some], Outputs).Count?;
    forall j | d < j < n ensures !frames[j].kind.MessageDelta? {
      assert frames[..n][d + 1..][j - d - 1] == frames[j];
    }
    if frames[d].kind.MessageStart? { OnlyOneStart(frames, n + 1, d, some); }
  }

  lemma FittingIsObject(data: UsageData, prior: Usage)
    requires Fitting(data, prior)
    ensures data.UsageFields?
  {
  }

  /** Updates come after the start. */
  lemma OnlyOneStart(frames: seq<Frame>, n: nat, s: nat, d: nat)
    requires Consumed(frames, n) && s < n && d < n && frames[s].kind.MessageStart? && frames[d].kind.MessageDelta?
    ensures s < d
  {
    hide Told, Fitting;
    assert Follows(frames[..s], frames[s]) && Follows(frames[..d], frames[d]);
    var i :| 0 <= i < d && frames[..d][i].kind.MessageStart?;
    assert i < s ==> frames[..s][i].kind.MessageStart?;
  }

  lemma NoMore(s: StreamState, f: Frame)
    requires !s.phase.Streaming?
    ensures Step(s, f) == s
  {
  }

  lemma NothingTold()
    ensures Told([]) == NO_USAGE && !Starts([]) && !Updates([])
  {
  }

  /** One frame, from a state that holds what the frames before it report. */
  lemma NextFollows(before: seq<Frame>, f: Frame, s: StreamState)
    requires s.phase.Streaming? && Sound(s.usage) && s.usage == Told(before)
    requires (s.started <==> Starts(before)) && (s.finalUsage <==> Updates(before))
    requires forall i :: 0 <= i < |before| ==> Follows(before[..i], before[i])
    ensures var next := Step(s, f);
            if Follows(before, f) then
              && next.phase == (if Ends(f) then if f.written then Complete else Failed else Streaming)
              && next.usage == Told(before + [f]) && (next.started <==> Starts(before + [f])) && (next.finalUsage <==> Updates(before + [f]))
            else next.phase.Failed? && next.usage == s.usage
  {
    hide Told, Advance, Fitting, Starts, Updates;
    Seen(before, f);
    match f.kind
    case MessageStart(data) =>
      AdvanceExactly(data, NO_USAGE);
      if !Starts(before) {
        NotStarted(before);
        if Fitting(data, NO_USAGE) { Advanced(before, f, NO_USAGE); }
      }
    case MessageDelta(data) =>
      AdvanceExactly(data, s.usage);
      ToldOutput(before);
      if Fitting(data, s.usage) { Advanced(before, f, s.usage); }
    case _ => NothingNew(before, f);
  }

  lemma ToldOutput(frames: seq<Frame>)
    ensures Told(frames).output == Latest(frames, Outputs)
  {
  }

  lemma Seen(before: seq<Frame>, f: Frame)
    ensures Starts(before + [f]) <==> Starts(before) || f.kind.MessageStart?
    ensures Updates(before + [f]) <==> Updates(before) || f.kind.MessageDelta?
  {
    var all := before + [f];
    assert all[|before|] == f && forall i :: 0 <= i < |before| ==> all[i] == before[i];
  }

  /** Before a message_start nothing is reported. */
  lemma {:induction false} NotStarted(before: seq<Frame>)
    requires !Starts(before) && forall i :: 0 <= i < |before| ==> Follows(before[..i], before[i])
    ensures Told(before) == NO_USAGE
  {
    hide Told, Fitting;
    NothingTold();
    if before != [] {
      var rest, last := before[..|before| - 1], before[|before| - 1];
      assert before == rest + [last];
      forall i | 0 <= i <= |rest| ensures before[..i] == rest[..i] {}
      Seen(rest, last);
      NotStarted(rest);
      NothingNew(rest, last);
    }
  }

  lemma LatestSnoc(before: seq<Frame>, f: Frame, category: Category)
    ensures Latest(before + [f], category) == if Reported(f, category).Count? then Reported(f, category).value else Latest(before, category)
    ensures Reporting(before + [f], category) <==> Reporting(before, category) || Reported(f, category).Count?
  {
    var all := before + [f];
    assert all[..|before|] == before && all[|before|] == f;
    assert forall i :: 0 <= i < |before| ==> all[i] == before[i];
  }

  lemma SplitSnoc(before: seq<Frame>, f: Frame)
    ensures var ttl := TtlOf(f);
            LatestSplit(before + [f]) ==
            if ttl.Ttl? && ttl.short.Count? && ttl.long.Count? then Some((ttl.short.value, ttl.long.value))
            else if ttl.TtlAbsent? && Reported(f, CacheWrites).Absent? then LatestSplit(before) else None
  {
    assert (before + [f])[..|before|] == before;
  }

  lemma NothingNew(before: seq<Frame>, f: Frame)
    requires !f.kind.MessageStart? && !f.kind.MessageDelta?
    ensures Told(before + [f]) == Told(before)
  {
    hide Latest, LatestSplit, Reporting;
    SnocAll(before, f);
  }

  lemma SnocAll(before: seq<Frame>, f: Frame)
    ensures forall category :: Latest(before + [f], category) == if Reported(f, category).Count? then Reported(f, category).value else Latest(before, category)
    ensures Reporting(before + [f], CacheWrites) <==> Reporting(before, CacheWrites) || Reported(f, CacheWrites).Count?
    ensures var ttl := TtlOf(f);
            LatestSplit(before + [f]) ==
            if ttl.Ttl? && ttl.short.Count? && ttl.long.Count? then Some((ttl.short.value, ttl.long.value))
            else if ttl.TtlAbsent? && Reported(f, CacheWrites).Absent? then LatestSplit(before) else None
  {
    hide Latest, LatestSplit, Reporting, Reported;
    forall category ensures Latest(before + [f], category) == if Reported(f, category).Count? then Reported(f, category).value else Latest(before, category) {
      LatestSnoc(before, f, category);
    }
    LatestSnoc(before, f, CacheWrites);
    SplitSnoc(before, f);
  }

  /** An accepted snapshot tells what the frames and this one report. */
  lemma Advanced(before: seq<Frame>, f: Frame, prior: Usage)
    requires f.kind.MessageStart? || f.kind.MessageDelta?
    requires Sound(prior) && prior == Told(before) && Fitting(f.kind.usage, prior) && Advance(f.kind.usage, prior).Some?
    ensures Advance(f.kind.usage, prior).value == Told(before + [f])
    ensures Told(before + [f]).output == Apply(f.kind.usage.output, prior.output)
  {
    hide Latest, LatestSplit, Reporting, Advance;
    SnocAll(before, f);
    AdvanceIsCumulative(f.kind.usage, prior);
  }
}
