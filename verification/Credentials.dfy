/**
 The credential generation protocol of internal/antigravity/credentials.go: a credential is stored in
 parts under a fresh generation, and only then the manifest is pointed at it. Every keyring command may
 fail after taking effect, and the process may stop at any of them.
 */
module Credentials {
  import opened Text

  newtype Byte = b: int | 0 <= b < 256
  type Bytes = seq<Byte>

  const LIMIT: nat := 1024 * 1024
  const PART_SIZE: nat := 6000

  datatype Manifest = Manifest(generation: string, size: nat, parts: nat, digest: string)

  datatype PartKey = PartKey(generation: string, index: nat)

  /** The account's records: the manifest, if any, and parts of any generation. */
  datatype Keyring = Keyring(manifest: Option<Manifest>, parts: map<PartKey, Bytes>)

  datatype Baseline = Baseline(generation: string, digest: string)

  // ---------------------------------------------------------------- chunks

  function PartCount(size: nat): nat {
    (size + PART_SIZE - 1) / PART_SIZE
  }

  function Min(a: nat, b: nat): nat {
    if a < b then a else b
  }

  function Chunk(data: Bytes, i: nat): Bytes
    requires i < PartCount(|data|)
  {
    data[i * PART_SIZE..Min((i + 1) * PART_SIZE, |data|)]
  }

  /** The first n parts joined, if they are there with the sizes a credential of that size has. */
  function Joined(k: Keyring, m: Manifest, n: nat): Option<Bytes> {
    if n == 0 then Some([])
    else
      var before := Joined(k, m, n - 1);
      var key := PartKey(m.generation, n - 1);
      if before.None? || key !in k.parts || |before.value| > m.size || |k.parts[key]| != Min(PART_SIZE, m.size - |before.value|) then None
      else Some(before.value + k.parts[key])
  }

  /** The keyring with the first n parts of the data stored. */
  function WithParts(k: Keyring, generation: string, data: Bytes, n: nat): Keyring
    requires n <= PartCount(|data|)
  {
    if n == 0 then k
    else
      var before := WithParts(k, generation, data, n - 1);
      before.(parts := before.parts[PartKey(generation, n - 1) := Chunk(data, n - 1)])
  }

  predicate HasParts(k: Keyring, generation: string, data: Bytes) {
    forall i :: 0 <= i < PartCount(|data|) ==> PartKey(generation, i) in k.parts && k.parts[PartKey(generation, i)] == Chunk(data, i)
  }

  lemma {:induction false} WithPartsHas(k: Keyring, generation: string, data: Bytes, n: nat)
    requires n <= PartCount(|data|)
    ensures var w := WithParts(k, generation, data, n);
            && w.manifest == k.manifest
            && (forall i :: 0 <= i < n ==> PartKey(generation, i) in w.parts && w.parts[PartKey(generation, i)] == Chunk(data, i))
            && (forall p :: p in k.parts && p.generation != generation ==> p in w.parts && w.parts[p] == k.parts[p])
            && (forall p :: p in w.parts && p.generation != generation ==> p in k.parts)
  {
    hide PartCount, Chunk;
    if n > 0 { WithPartsHas(k, generation, data, n - 1); }
  }

  lemma ChunkExtends(data: Bytes, i: nat)
    requires i < PartCount(|data|)
    ensures i * PART_SIZE <= |data|
    ensures data[..i * PART_SIZE] + Chunk(data, i) == data[..Min((i + 1) * PART_SIZE, |data|)]
    ensures |Chunk(data, i)| == Min(PART_SIZE, |data| - i * PART_SIZE)
  {
  }

  /** Cutting into parts and joining them again gives the data back. */
  lemma {:induction false} JoinedPrefix(k: Keyring, m: Manifest, data: Bytes, n: nat)
    requires HasParts(k, m.generation, data) && m.size == |data| && n <= PartCount(|data|)
    ensures Joined(k, m, n) == Some(data[..Min(n * PART_SIZE, |data|)])
  {
    if n > 0 {
      hide HasParts, Chunk;
      PartAt(k, m.generation, data, n - 1);
      JoinedPrefix(k, m, data, n - 1);
      ChunkExtends(data, n - 1);
    }
  }

  lemma PartAt(k: Keyring, generation: string, data: Bytes, i: nat)
    requires HasParts(k, generation, data) && i < PartCount(|data|)
    ensures PartKey(generation, i) in k.parts && k.parts[PartKey(generation, i)] == Chunk(data, i)
  {
    hide Chunk, PartCount;
  }

  lemma JoinedWhole(k: Keyring, m: Manifest, data: Bytes)
    requires HasParts(k, m.generation, data) && m.size == |data|
    ensures Joined(k, m, PartCount(|data|)) == Some(data)
  {
    JoinedPrefix(k, m, data, PartCount(|data|));
    assert data[..|data|] == data;
  }

  // ---------------------------------------------------------------- restore

  datatype Restored = Credential(data: Bytes, baseline: Baseline) | MissingCredential | InvalidCredential | Unavailable

  predicate WellFormed(m: Manifest) {
    |m.generation| == 32 && |m.digest| == 64 && 1 <= m.size <= LIMIT && m.parts == PartCount(m.size)
  }

  /** What Restore makes of the records, when every lookup goes through. */
  function Contents(valid: Bytes -> bool, digest: Bytes -> string, k: Keyring): Restored {
    if k.manifest.None? then MissingCredential
    else
      var m := k.manifest.value;
      if !WellFormed(m) then InvalidCredential
      else
        var joined := Joined(k, m, m.parts);
        if joined.None? || digest(joined.value) != m.digest || !valid(joined.value) then InvalidCredential
        else Credential(joined.value, Baseline(m.generation, m.digest))
  }

  /** A credential is non-empty and within the limit, and a digest is 64 characters of hexadecimal. */
  ghost predicate Checks(valid: Bytes -> bool, digest: Bytes -> string) {
    (forall d :: valid(d) ==> 1 <= |d| <= LIMIT) && forall d :: |digest(d)| == 64
  }

  /** The records hold exactly this credential, under the manifest's generation. */
  ghost predicate Holds(valid: Bytes -> bool, digest: Bytes -> string, k: Keyring, data: Bytes) {
    && k.manifest.Some? && valid(data)
    && k.manifest.value == Manifest(k.manifest.value.generation, |data|, PartCount(|data|), digest(data))
    && |k.manifest.value.generation| == 32
    && HasParts(k, k.manifest.value.generation, data)
  }

  /** What is held is what Restore returns. */
  lemma HeldIsRestored(valid: Bytes -> bool, digest: Bytes -> string, k: Keyring, data: Bytes)
    requires Checks(valid, digest) && Holds(valid, digest, k, data)
    ensures Contents(valid, digest, k) == Credential(data, Baseline(k.manifest.value.generation, digest(data)))
  {
    hide HasParts, PartCount, Joined;
    JoinedWhole(k, k.manifest.value, data);
  }

  /** The first n parts are those of the data joined from them. */
  lemma {:induction false} JoinedShape(k: Keyring, m: Manifest, n: nat)
    requires n <= PartCount(m.size) && Joined(k, m, n).Some?
    ensures |Joined(k, m, n).value| == Min(n * PART_SIZE, m.size)
    ensures forall i :: 0 <= i < n ==> JoinedAt(k, m, Joined(k, m, n).value, i)
  {
    if n > 0 {
      JoinedShape(k, m, n - 1);
      var before, data := Joined(k, m, n - 1).value, Joined(k, m, n).value;
      forall i | 0 <= i < n ensures JoinedAt(k, m, data, i) {
        if i < n - 1 {
          assert JoinedAt(k, m, before, i);
          StillJoined(k, m, before, k.parts[PartKey(m.generation, n - 1)], i);
        }
      }
    }
  }

  predicate JoinedAt(k: Keyring, m: Manifest, data: Bytes, i: nat) {
    && PartKey(m.generation, i) in k.parts && i * PART_SIZE <= Min((i + 1) * PART_SIZE, m.size) <= |data|
    && k.parts[PartKey(m.generation, i)] == data[i * PART_SIZE..Min((i + 1) * PART_SIZE, m.size)]
  }

  lemma StillJoined(k: Keyring, m: Manifest, before: Bytes, more: Bytes, i: nat)
    requires JoinedAt(k, m, before, i)
    ensures JoinedAt(k, m, before + more, i)
  {
    var lo, hi := i * PART_SIZE, Min((i + 1) * PART_SIZE, m.size);
    assert (before + more)[lo..hi] == before[lo..hi];
  }

  /** Restore returns a credential only if the records hold exactly that credential. */
  lemma RestoredIsHeld(valid: Bytes -> bool, digest: Bytes -> string, k: Keyring)
    requires Contents(valid, digest, k).Credential?
    ensures Holds(valid, digest, k, Contents(valid, digest, k).data)
    ensures Contents(valid, digest, k).baseline == Baseline(k.manifest.value.generation, k.manifest.value.digest)
  {
    var m, data := k.manifest.value, Contents(valid, digest, k).data;
    JoinedShape(k, m, m.parts);
    assert |data| == m.size;
    forall i | 0 <= i < PartCount(|data|) ensures PartKey(m.generation, i) in k.parts && k.parts[PartKey(m.generation, i)] == Chunk(data, i) {
      assert JoinedAt(k, m, data, i);
    }
  }

  // ---------------------------------------------------------------- save

  /** How a keyring command ends: with or without its effect, in success, in an error, or never. */
  datatype Ending = Done | Failed(applied: bool) | Stopped(applied: bool)

  predicate TookEffect(e: Ending) {
    e.Done? || e.applied
  }

  /** A clear that does not end in success may leave any parts behind. */
  datatype Clearing = Clearing(ending: Ending, survivors: set<PartKey>)

  function Clear(k: Keyring, generation: string, c: Clearing): Keyring {
    k.(parts := map p | p in k.parts && (p.generation != generation || (!c.ending.Done? && p in c.survivors)) :: k.parts[p])
  }

  /**
   How the commands of one save end: the manifest lookup, the part store numbered stopAt (all others
   succeed), the manifest store, the clear that runs, and the baseline file write.
   */
  datatype Script = Script(readable: bool, stopAt: nat, stop: Ending, commit: Ending, clearing: Clearing, written: Ending)

  datatype Saved = Committed | Unchanged | SaveFailed | ProcessStopped

  /** The keyring afterwards, the baseline to keep with the home if it is rewritten, and how Save ends. */
  datatype SaveResult = SaveResult(keyring: Keyring, baseline: Option<Baseline>, saved: Saved)

  function StoreAll(k: Keyring, prior: Option<Manifest>, m: Manifest, data: Bytes, s: Script): SaveResult
    requires m.parts == PartCount(|data|)
  {
    if s.stopAt < m.parts && !s.stop.Done? then
      var stored := WithParts(k, m.generation, data, s.stopAt + if TookEffect(s.stop) then 1 else 0);
      if s.stop.Stopped? then SaveResult(stored, None, ProcessStopped)
      else SaveResult(Clear(stored, m.generation, s.clearing), None, if s.clearing.ending.Stopped? then ProcessStopped else SaveFailed)
    else Point(WithParts(k, m.generation, data, m.parts), prior, m, s)
  }

  /** The commit: the manifest is pointed at the new generation, and the earlier one cleared. */
  function Point(k: Keyring, prior: Option<Manifest>, m: Manifest, s: Script): SaveResult {
    var pointed := if TookEffect(s.commit) then k.(manifest := Some(m)) else k;
    if !s.commit.Done? then SaveResult(pointed, None, if s.commit.Stopped? then ProcessStopped else SaveFailed)
    else
      var cleared := if prior.Some? then Clear(pointed, prior.value.generation, s.clearing) else pointed;
      if prior.Some? && !s.clearing.ending.Done? then SaveResult(cleared, None, if s.clearing.ending.Stopped? then ProcessStopped else SaveFailed)
      else SaveResult(cleared, if TookEffect(s.written) then Some(Baseline(m.generation, m.digest)) else None,
                      match s.written case Done => Committed case Failed(_) => SaveFailed case Stopped(_) => ProcessStopped)
  }

  /** Whether Save goes on to write: always without a baseline, else only for a change made to the generation in force. */
  predicate Proceeds(k: Keyring, baseline: Option<Baseline>, sum: string) {
    baseline.None? || (k.manifest.Some? && baseline.value.digest != sum && baseline.value.generation == k.manifest.value.generation)
  }

  function Save(valid: Bytes -> bool, digest: Bytes -> string, k: Keyring, data: Bytes, baseline: Option<Baseline>, generation: string, s: Script): SaveResult {
    if !valid(data) || !s.readable || (k.manifest.Some? && !WellFormed(k.manifest.value)) then SaveResult(k, None, SaveFailed)
    else if baseline.Some? && k.manifest.None? then SaveResult(k, None, SaveFailed)
    else if !Proceeds(k, baseline, digest(data)) then SaveResult(k, None, Unchanged)
    else StoreAll(k, k.manifest, Manifest(generation, |data|, PartCount(|data|), digest(data)), data, s)
  }

  /** A generation no record carries. */
  ghost predicate Unused(k: Keyring, generation: string) {
    (forall p :: p in k.parts ==> p.generation != generation) && (k.manifest.Some? ==> k.manifest.value.generation != generation)
  }

  /** Either nothing is held, or exactly this. */
  ghost predicate HoldsExactly(valid: Bytes -> bool, digest: Bytes -> string, k: Keyring, held: Option<Bytes>) {
    match held
    case None => k.manifest.None?
    case Some(data) => Holds(valid, digest, k, data)
  }

  /** Records of other generations do not matter to what is held. */
  lemma OtherPartsIgnored(valid: Bytes -> bool, digest: Bytes -> string, k: Keyring, w: Keyring, held: Option<Bytes>)
    requires HoldsExactly(valid, digest, k, held) && w.manifest == k.manifest
    requires k.manifest.Some? ==> forall p :: p in k.parts && p.generation == k.manifest.value.generation ==> p in w.parts && w.parts[p] == k.parts[p]
    ensures HoldsExactly(valid, digest, w, held)
  {
    hide Chunk, PartCount;
  }

  lemma AbandonedKeeps(valid: Bytes -> bool, digest: Bytes -> string, k: Keyring, held: Option<Bytes>, generation: string, data: Bytes, n: nat, c: Clearing)
    requires HoldsExactly(valid, digest, k, held) && Unused(k, generation) && n <= PartCount(|data|)
    ensures HoldsExactly(valid, digest, WithParts(k, generation, data, n), held)
    ensures HoldsExactly(valid, digest, Clear(WithParts(k, generation, data, n), generation, c), held)
  {
    hide HoldsExactly, PartCount;
    var w := WithParts(k, generation, data, n);
    WithPartsHas(k, generation, data, n);
    OtherPartsIgnored(valid, digest, k, w, held);
    OtherPartsIgnored(valid, digest, w, Clear(w, generation, c), held);
  }

  lemma PointedHolds(valid: Bytes -> bool, digest: Bytes -> string, k: Keyring, prior: Option<Manifest>, m: Manifest, data: Bytes, s: Script)
    requires valid(data) && m == Manifest(m.generation, |data|, PartCount(|data|), digest(data)) && |m.generation| == 32
    requires HasParts(k, m.generation, data) && (prior.Some? ==> prior.value.generation != m.generation) && TookEffect(s.commit)
    ensures Holds(valid, digest, Point(k, prior, m, s).keyring, data)
  {
    hide Chunk, PartCount;
  }

  /** Whether the manifest store of this save takes effect. */
  predicate Commits(valid: Bytes -> bool, digest: Bytes -> string, k: Keyring, data: Bytes, baseline: Option<Baseline>, s: Script) {
    && valid(data) && s.readable && (k.manifest.Some? ==> WellFormed(k.manifest.value)) && !(baseline.Some? && k.manifest.None?)
    && Proceeds(k, baseline, digest(data))
    && (s.stopAt >= PartCount(|data|) || s.stop.Done?) && TookEffect(s.commit)
  }

  /**
   Crash safety. However the commands of a save end, and wherever the process stops, afterwards the
   keyring holds the new credential if the manifest store took effect, and else exactly what it held.
   */
  lemma SaveIsAtomic(valid: Bytes -> bool, digest: Bytes -> string, k: Keyring, held: Option<Bytes>, data: Bytes, baseline: Option<Baseline>,
                     generation: string, s: Script)
    requires HoldsExactly(valid, digest, k, held) && Unused(k, generation) && |generation| == 32
    ensures HoldsExactly(valid, digest, Save(valid, digest, k, data, baseline, generation, s).keyring,
                         if Commits(valid, digest, k, data, baseline, s) then Some(data) else held)
  {
    hide HoldsExactly, Holds, PartCount, WithParts, HasParts, WellFormed, Clear, Proceeds;
    var m := Manifest(generation, |data|, PartCount(|data|), digest(data));
    var stored := WithParts(k, generation, data, m.parts);
    WithPartsHas(k, generation, data, m.parts);
    StoredHas(k, generation, data);
    AbandonedKeeps(valid, digest, k, held, generation, data, m.parts, s.clearing);
    if s.stopAt < m.parts {
      AbandonedKeeps(valid, digest, k, held, generation, data, s.stopAt + if TookEffect(s.stop) then 1 else 0, s.clearing);
    }
    if valid(data) && TookEffect(s.commit) {
      PointedHolds(valid, digest, stored, k.manifest, m, data, s);
      HoldsIs(valid, digest, Point(stored, k.manifest, m, s).keyring, data);
    }
  }

  lemma StoredHas(k: Keyring, generation: string, data: Bytes)
    ensures HasParts(WithParts(k, generation, data, PartCount(|data|)), generation, data)
  {
    hide PartCount, Chunk;
    WithPartsHas(k, generation, data, PartCount(|data|));
  }

  lemma HoldsIs(valid: Bytes -> bool, digest: Bytes -> string, k: Keyring, data: Bytes)
    requires Holds(valid, digest, k, data)
    ensures HoldsExactly(valid, digest, k, Some(data))
  {
    hide Holds;
  }

  // ---------------------------------------------------------------- what Save reports

  /** The session may write: it has no baseline, or a changed file from the generation in force. */
  predicate MayWrite(digest: Bytes -> string, k: Keyring, data: Bytes, baseline: Option<Baseline>) {
    baseline.None? || (k.manifest.Some? && baseline.value.generation == k.manifest.value.generation && baseline.value.digest != digest(data))
  }

  /** The keyring can be read and its manifest, if any, is well formed. */
  predicate Readable(k: Keyring, s: Script) {
    s.readable && (k.manifest.Some? ==> WellFormed(k.manifest.value))
  }

  /** The ending of the first command that does not end well, in the order they are given; Done if all do. */
  function Trouble(k: Keyring, data: Bytes, s: Script): Ending {
    if s.stopAt < PartCount(|data|) && !s.stop.Done? then s.stop
    else if !s.commit.Done? then s.commit
    else if k.manifest.Some? && !s.clearing.ending.Done? then s.clearing.ending
    else s.written
  }

  /** All parts the earlier manifest points to are gone. */
  predicate EarlierGone(k: Keyring, after: Keyring) {
    k.manifest.Some? ==> forall p :: p in after.parts ==> p.generation != k.manifest.value.generation
  }

  /** Committed means committed: the keyring holds the data under the new generation, and nothing of the earlier one is left. */
  lemma CommittedHolds(valid: Bytes -> bool, digest: Bytes -> string, k: Keyring, data: Bytes, baseline: Option<Baseline>, generation: string, s: Script)
    requires Unused(k, generation) && |generation| == 32
    requires Save(valid, digest, k, data, baseline, generation, s).saved == Committed
    ensures var r := Save(valid, digest, k, data, baseline, generation, s);
            && Holds(valid, digest, r.keyring, data) && r.keyring.manifest.value.generation == generation
            && EarlierGone(k, r.keyring) && r.baseline == Some(Baseline(generation, digest(data)))
  {
    hide PartCount, WithParts, HasParts, WellFormed, Chunk;
    var m := Manifest(generation, |data|, PartCount(|data|), digest(data));
    var stored := WithParts(k, generation, data, m.parts);
    WithPartsHas(k, generation, data, m.parts);
    StoredHas(k, generation, data);
    PointedHolds(valid, digest, stored, k.manifest, m, data, s);
  }

  /**
   What is reported, for every keyring, file and way the commands end. A save commits if and only if the
   data is valid, the keyring readable, the session may write, and every command ends well; it reports the
   failure or the stop of the first that does not, and a save that writes nothing changes nothing.
   */
  lemma SaveReports(valid: Bytes -> bool, digest: Bytes -> string, k: Keyring, data: Bytes, baseline: Option<Baseline>, generation: string, s: Script)
    ensures var r := Save(valid, digest, k, data, baseline, generation, s);
            var begins := valid(data) && Readable(k, s) && (baseline.Some? ==> k.manifest.Some?);
            && (!begins ==> r == SaveResult(k, None, SaveFailed))
            && (begins && !MayWrite(digest, k, data, baseline) ==> r == SaveResult(k, None, Unchanged))
            && (begins && MayWrite(digest, k, data, baseline) ==>
                  && (r.saved == Committed <==> Trouble(k, data, s).Done?)
                  && (Trouble(k, data, s).Stopped? ==> r.saved == ProcessStopped)
                  && (Trouble(k, data, s).Failed? ==> r.saved == SaveFailed || (r.saved == ProcessStopped && s.clearing.ending.Stopped?))
                  && (Trouble(k, data, s).Failed? && !s.clearing.ending.Stopped? ==> r.saved == SaveFailed))
  {
    hide PartCount, WithParts, WellFormed, Clear;
  }

  /** A save that fails while storing parts, and clears up, leaves every record as it was. */
  lemma FailedSaveLeavesNothing(valid: Bytes -> bool, digest: Bytes -> string, k: Keyring, data: Bytes, baseline: Option<Baseline>, generation: string, s: Script)
    requires Unused(k, generation) && s.stopAt < PartCount(|data|) && s.stop.Failed? && s.clearing.ending.Done?
    ensures Save(valid, digest, k, data, baseline, generation, s).keyring == k
  {
    hide PartCount, WithParts, WellFormed, Proceeds, Chunk;
    var n := s.stopAt + if TookEffect(s.stop) then 1 else 0;
    var stored := WithParts(k, generation, data, n);
    WithPartsHas(k, generation, data, n);
    var cleared := Clear(stored, generation, s.clearing);
    assert cleared.parts == k.parts;
  }
}
