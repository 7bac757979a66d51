/**
 Any interleaving of restore, run and save sessions over one account's keyring records. Restore and Save
 hold the account's mutex, so each is one step; between them a session's CLI rewrites its own home only.
 */
module CredentialSessions {
  import opened Text
  import opened Credentials

  /** A session's private home: the credential file, and the baseline Restore or Save left beside it. */
  datatype Home = Home(file: Option<Bytes>, baseline: Option<Baseline>)

  /** A manifest store that took effect, with the baseline its session held. */
  datatype Commit = Commit(generation: string, data: Bytes, base: Option<Baseline>)

  datatype State = State(keyring: Keyring, homes: map<nat, Home>, history: seq<Commit>)

  const INITIAL := State(Keyring(None, map[]), map[], [])

  datatype Step =
    | RestoreStep(session: nat, readable: bool)
    | LoginStep(session: nat)
    | RunStep(session: nat, data: Bytes)
    | SaveStep(session: nat, generation: string, script: Script)
    | EndStep(session: nat)

  /** Generations are drawn at random from 128 bits; a draw that was ever seen before is left out of the model. */
  ghost predicate Fresh(s: State, generation: string) {
    |generation| == 32 && Unused(s.keyring, generation) && forall c :: c in s.history ==> c.generation != generation
  }

  function AfterSave(valid: Bytes -> bool, digest: Bytes -> string, s: State, session: nat, generation: string, script: Script): State
    requires session in s.homes && s.homes[session].file.Some?
  {
    var home := s.homes[session];
    var data := home.file.value;
    var r := Save(valid, digest, s.keyring, data, home.baseline, generation, script);
    State(r.keyring,
          if r.saved.ProcessStopped? then s.homes - {session}
          else s.homes[session := home.(baseline := if r.baseline.Some? then r.baseline else home.baseline)],
          if Commits(valid, digest, s.keyring, data, home.baseline, script) then s.history + [Commit(generation, data, home.baseline)] else s.history)
  }

  ghost function Next(valid: Bytes -> bool, digest: Bytes -> string, s: State, step: Step): State {
    match step
    case RestoreStep(session, readable) =>
      var restored := Contents(valid, digest, s.keyring);
      if readable && restored.Credential? then s.(homes := s.homes[session := Home(Some(restored.data), Some(restored.baseline))])
      else s.(homes := s.homes - {session})
    case LoginStep(session) => s.(homes := s.homes[session := Home(None, None)])
    case RunStep(session, data) =>
      if session in s.homes then s.(homes := s.homes[session := s.homes[session].(file := Some(data))]) else s
    case SaveStep(session, generation, script) =>
      if session in s.homes && s.homes[session].file.Some? && Fresh(s, generation) then AfterSave(valid, digest, s, session, generation, script) else s
    case EndStep(session) => s.(homes := s.homes - {session})
  }

  ghost function Run(valid: Bytes -> bool, digest: Bytes -> string, steps: seq<Step>): State {
    if steps == [] then INITIAL else Next(valid, digest, Run(valid, digest, steps[..|steps| - 1]), steps[|steps| - 1])
  }

  // ---------------------------------------------------------------- the invariant

  function LastData(history: seq<Commit>): Option<Bytes> {
    if history == [] then None else Some(history[|history| - 1].data)
  }

  /** The keyring holds the last commit. */
  ghost predicate Current(valid: Bytes -> bool, digest: Bytes -> string, s: State) {
    && HoldsExactly(valid, digest, s.keyring, LastData(s.history))
    && (s.history != [] ==> s.keyring.manifest.Some? && s.keyring.manifest.value.generation == s.history[|s.history| - 1].generation)
  }

  ghost predicate DistinctGenerations(history: seq<Commit>) {
    forall i, j :: 0 <= i < j < |history| ==> history[i].generation != history[j].generation
  }

  ghost predicate Names(digest: Bytes -> string, history: seq<Commit>, b: Baseline) {
    exists i :: 0 <= i < |history| && history[i].generation == b.generation && digest(history[i].data) == b.digest
  }

  ghost predicate BaselinesNamed(digest: Bytes -> string, homes: map<nat, Home>, history: seq<Commit>) {
    forall h :: h in homes && homes[h].baseline.Some? ==> Names(digest, history, homes[h].baseline.value)
  }

  /** A commit from a baseline replaces exactly the commit that baseline names, and changes it. */
  ghost predicate Replaces(digest: Bytes -> string, history: seq<Commit>, i: nat)
    requires i < |history|
  {
    history[i].base.Some? ==>
      && i > 0 && history[i - 1].generation == history[i].base.value.generation
      && history[i].base.value.digest == digest(history[i - 1].data) != digest(history[i].data)
  }

  ghost predicate Chain(digest: Bytes -> string, history: seq<Commit>) {
    forall i :: 0 <= i < |history| ==> Replaces(digest, history, i)
  }

  ghost predicate Inv(valid: Bytes -> bool, digest: Bytes -> string, s: State) {
    && Current(valid, digest, s) && DistinctGenerations(s.history)
    && BaselinesNamed(digest, s.homes, s.history) && Chain(digest, s.history)
  }

  // ---------------------------------------------------------------- preservation

  lemma NamesMore(digest: Bytes -> string, history: seq<Commit>, c: Commit, b: Baseline)
    requires Names(digest, history, b)
    ensures Names(digest, history + [c], b)
  {
    var i :| 0 <= i < |history| && history[i].generation == b.generation && digest(history[i].data) == b.digest;
    assert (history + [c])[i] == history[i];
  }

  /** A baseline that names the generation in force names the last commit. */
  lemma NamesLast(digest: Bytes -> string, history: seq<Commit>, b: Baseline)
    requires history != [] && DistinctGenerations(history) && Names(digest, history, b)
    requires b.generation == history[|history| - 1].generation
    ensures b.digest == digest(history[|history| - 1].data)
  {
  }

  lemma ChainMore(digest: Bytes -> string, history: seq<Commit>, c: Commit)
    requires Chain(digest, history) && DistinctGenerations(history) && forall d :: d in history ==> d.generation != c.generation
    requires c.base.Some? ==> history != [] && c.base.value.generation == history[|history| - 1].generation
                              && Names(digest, history, c.base.value) && c.base.value.digest != digest(c.data)
    ensures Chain(digest, history + [c]) && DistinctGenerations(history + [c])
  {
    hide Names;
    var all := history + [c];
    if c.base.Some? { NamesLast(digest, history, c.base.value); }
    forall i | 0 <= i < |all| ensures Replaces(digest, all, i) {
      if i < |history| { assert Replaces(digest, history, i) && all[i] == history[i] && (i > 0 ==> all[i - 1] == history[i - 1]); }
    }
  }

  lemma CommitPoints(valid: Bytes -> bool, digest: Bytes -> string, k: Keyring, data: Bytes, baseline: Option<Baseline>, generation: string, s: Script)
    ensures var r := Save(valid, digest, k, data, baseline, generation, s);
            && (if Commits(valid, digest, k, data, baseline, s)
                then r.keyring.manifest == Some(Manifest(generation, |data|, PartCount(|data|), digest(data)))
                else r.keyring.manifest == k.manifest && r.baseline.None?)
            && (r.baseline.Some? ==> r.baseline == Some(Baseline(generation, digest(data))))
  {
    hide PartCount, WellFormed, WithParts;
    WithPartsHas(k, generation, data, PartCount(|data|));
    if s.stopAt < PartCount(|data|) {
      WithPartsHas(k, generation, data, s.stopAt + if TookEffect(s.stop) then 1 else 0);
    }
  }

  lemma SaveKeeps(valid: Bytes -> bool, digest: Bytes -> string, s: State, session: nat, generation: string, script: Script)
    requires Inv(valid, digest, s) && session in s.homes && s.homes[session].file.Some? && Fresh(s, generation)
    ensures Inv(valid, digest, AfterSave(valid, digest, s, session, generation, script))
  {
    hide HoldsExactly, Save, Commits, Chain, DistinctGenerations, Names, PartCount, Unused;
    var home := s.homes[session];
    var data := home.file.value;
    var next, c := AfterSave(valid, digest, s, session, generation, script), Commit(generation, data, home.baseline);
    SaveIsAtomic(valid, digest, s.keyring, LastData(s.history), data, home.baseline, generation, script);
    CommitPoints(valid, digest, s.keyring, data, home.baseline, generation, script);
    if Commits(valid, digest, s.keyring, data, home.baseline, script) {
      CommitBase(valid, digest, s, session, data, script);
      ChainMore(digest, s.history, c);
      forall b | Names(digest, s.history, b) ensures Names(digest, s.history + [c], b) { NamesMore(digest, s.history, c, b); }
      NamesNew(digest, s.history, c);
    }
  }

  lemma NamesNew(digest: Bytes -> string, history: seq<Commit>, c: Commit)
    ensures Names(digest, history + [c], Baseline(c.generation, digest(c.data)))
  {
    assert (history + [c])[|history|] == c;
  }

  lemma CommitBase(valid: Bytes -> bool, digest: Bytes -> string, s: State, session: nat, data: Bytes, script: Script)
    requires Inv(valid, digest, s) && session in s.homes
    requires Commits(valid, digest, s.keyring, data, s.homes[session].baseline, script)
    ensures s.homes[session].baseline.Some? ==>
              var b := s.homes[session].baseline.value;
              s.history != [] && b.generation == s.history[|s.history| - 1].generation && Names(digest, s.history, b) && b.digest != digest(data)
  {
    hide Holds, Chain, DistinctGenerations, Names, PartCount, WellFormed;
  }

  lemma RestoreKeeps(valid: Bytes -> bool, digest: Bytes -> string, s: State, session: nat, readable: bool)
    requires Checks(valid, digest) && Inv(valid, digest, s)
    ensures Inv(valid, digest, Next(valid, digest, s, RestoreStep(session, readable)))
  {
    hide Holds, Chain, DistinctGenerations, Names, Contents;
    RestoresLast(valid, digest, s);
    if s.history != [] {
      var c := s.history[|s.history| - 1];
      assert s.history == s.history[..|s.history| - 1] + [c];
      NamesNew(digest, s.history[..|s.history| - 1], c);
    }
  }

  lemma RestoresLast(valid: Bytes -> bool, digest: Bytes -> string, s: State)
    requires Checks(valid, digest) && Current(valid, digest, s)
    ensures Contents(valid, digest, s.keyring)
            == if s.history == [] then MissingCredential
               else var c := s.history[|s.history| - 1]; Credential(c.data, Baseline(c.generation, digest(c.data)))
  {
    hide Holds, Joined, WellFormed;
    if s.history != [] {
      var c := s.history[|s.history| - 1];
      HeldIsRestored(valid, digest, s.keyring, c.data);
    }
  }

  lemma NextKeeps(valid: Bytes -> bool, digest: Bytes -> string, s: State, step: Step)
    requires Checks(valid, digest) && Inv(valid, digest, s)
    ensures Inv(valid, digest, Next(valid, digest, s, step))
  {
    hide HoldsExactly, Chain, DistinctGenerations, Names, AfterSave, Contents, Unused;
    match step {
      case RestoreStep(session, readable) => RestoreKeeps(valid, digest, s, session, readable);
      case SaveStep(session, generation, script) =>
        if session in s.homes && s.homes[session].file.Some? && Fresh(s, generation) {
          SaveKeeps(valid, digest, s, session, generation, script);
        }
      case LoginStep(_) =>
      case RunStep(_, _) =>
      case EndStep(_) =>
    }
  }

  lemma {:induction false} AlwaysInv(valid: Bytes -> bool, digest: Bytes -> string, steps: seq<Step>)
    requires Checks(valid, digest)
    ensures Inv(valid, digest, Run(valid, digest, steps))
  {
    if steps != [] {
      hide Inv, Next, Checks;
      AlwaysInv(valid, digest, steps[..|steps| - 1]);
      NextKeeps(valid, digest, Run(valid, digest, steps[..|steps| - 1]), steps[|steps| - 1]);
    }
  }

  // ---------------------------------------------------------------- what follows for every run

  /**
   Restore never finds a damaged credential: at any time it returns exactly the bytes of the last save
   whose manifest store took effect, or reports that there is none.
   */
  lemma RestoreReturnsLastCommit(valid: Bytes -> bool, digest: Bytes -> string, steps: seq<Step>)
    requires Checks(valid, digest)
    ensures var s := Run(valid, digest, steps);
            Contents(valid, digest, s.keyring)
            == if s.history == [] then MissingCredential
               else var c := s.history[|s.history| - 1]; Credential(c.data, Baseline(c.generation, digest(c.data)))
  {
    hide Run, Contents, HoldsExactly, Chain, DistinctGenerations, BaselinesNamed;
    AlwaysInv(valid, digest, steps);
    RestoresLast(valid, digest, Run(valid, digest, steps));
  }

  /**
   No lost update: in the history of any run, a commit by a session that began from a restored or saved
   baseline directly follows the commit it began from, and carries other bytes.
   */
  lemma NoLostUpdate(valid: Bytes -> bool, digest: Bytes -> string, steps: seq<Step>, i: nat)
    requires Checks(valid, digest) && i < |Run(valid, digest, steps).history|
    requires Run(valid, digest, steps).history[i].base.Some?
    ensures var h := Run(valid, digest, steps).history;
            i > 0 && h[i - 1].generation == h[i].base.value.generation && h[i - 1].data != h[i].data
    ensures var h := Run(valid, digest, steps).history;
            forall j :: 0 <= j < |h| && j != i && h[j].base.Some? ==> h[j].base.value.generation != h[i].base.value.generation
  {
    hide Run, Current, BaselinesNamed;
    AlwaysInv(valid, digest, steps);
    var h := Run(valid, digest, steps).history;
    assert Replaces(digest, h, i);
    forall j | 0 <= j < |h| && j != i && h[j].base.Some? ensures h[j].base.value.generation != h[i].base.value.generation {
      assert Replaces(digest, h, j);
    }
  }

  /** A save from an unchanged or an outdated baseline leaves every record as it is. */
  lemma StaleSaveIsSilent(valid: Bytes -> bool, digest: Bytes -> string, k: Keyring, data: Bytes, b: Baseline, generation: string, s: Script)
    requires b.digest == digest(data) || k.manifest.None? || b.generation != k.manifest.value.generation
    ensures Save(valid, digest, k, data, Some(b), generation, s).keyring == k
    ensures !Commits(valid, digest, k, data, Some(b), s)
  {
    hide StoreAll, WellFormed, PartCount;
  }
}
