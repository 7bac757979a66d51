/** The account record and the account retry loop of internal/antigravity/accounts.go, updated in place. */
module AccountManager {
  import opened Text
  import AccountSlots
  import P = AccountProgram
  import opened Sets

  /** The account record, updated in place under the manager's mutex. */
  class ManagedAccount {
    var active: int
    var conversations: map<string, int>
    var unattributed: int

    ghost function View(): AccountSlots.Slots
      reads this
    {
      AccountSlots.Slots(active, conversations, unattributed)
    }

    constructor ()
      ensures View() == AccountSlots.IDLE
    {
      active, conversations, unattributed := 0, map[], 0;
    }

    method TryReserve(conversation: string, limit: int) returns (ok: bool)
      modifies this
      ensures ok == AccountSlots.CanAcquire(old(View()), conversation, limit)
      ensures View() == if ok then AccountSlots.Reserve(old(View()), conversation) else old(View())
    {
      var known := conversation in conversations && conversations[conversation] > 0;
      if limit <= 0 || (!known && |conversations| + unattributed >= limit) {
        return false;
      }
      Reserve(conversation);
      ok := true;
    }

    method Reserve(conversation: string)
      modifies this
      ensures View() == AccountSlots.Reserve(old(View()), conversation)
    {
      active := active + 1;
      if conversation == "" {
        unattributed := unattributed + 1;
        return;
      }
      conversations := conversations[conversation := (if conversation in conversations then conversations[conversation] else 0) + 1];
    }

    method Release(conversation: string)
      modifies this
      ensures View() == AccountSlots.Release(old(View()), conversation)
    {
      active := active - 1;
      if conversation == "" {
        unattributed := unattributed - 1;
      } else if conversation in conversations && conversations[conversation] > 1 {
        conversations := conversations[conversation := conversations[conversation] - 1];
      } else {
        conversations := conversations - {conversation};
      }
    }
  }

  // ---------------------------------------------------------------- the other requests

  /** What another request does to an account in its own critical section. */
  datatype Move = TakeFor(id: string, conversation: string, limit: int) | ReturnFor(id: string, conversation: string)

  type Holdings = map<string, multiset<string>>

  function On(held: Holdings, id: string): multiset<string> {
    if id in held then held[id] else multiset{}
  }

  ghost function CountOf(holders: multiset<string>): string -> nat {
    c => holders[c]
  }

  /** This request's own reservation, if it has one on the account. */
  ghost function Own(mine: Option<string>, id: string, conversation: string): multiset<string> {
    if mine == Some(id) then multiset{conversation} else multiset{}
  }

  ghost function Views(accounts: map<string, ManagedAccount>): map<string, AccountSlots.Slots>
    reads accounts.Values
  {
    map id | id in accounts :: accounts[id].View()
  }

  ghost predicate Holds(s: AccountSlots.Slots, holders: multiset<string>) {
    AccountSlots.Represents(s, |holders|, CountOf(holders))
  }

  /** A fixed limit on the slots of each account, if there is one. */
  type Cap = Option<string -> int>

  /** The slots in use are within the cap. */
  ghost predicate Capped(s: AccountSlots.Slots, cap: Cap, id: string) {
    cap.Some? ==> |s.conversations| + s.unattributed <= cap.value(id)
  }

  /** A limit someone is held to does not exceed the cap. */
  ghost predicate Respects(cap: Cap, id: string, limit: int) {
    cap.Some? ==> limit <= cap.value(id)
  }

  /**
   Every account's counters are the reservations of the others and of this request, and nothing else, and
   within the cap.
   */
  ghost predicate Exact(views: map<string, AccountSlots.Slots>, held: Holdings, mine: Option<string>, conversation: string, cap: Cap) {
    forall id :: id in views ==> ExactOn(views[id], id, On(held, id), Own(mine, id, conversation), cap)
  }

  ghost predicate ExactOn(s: AccountSlots.Slots, id: string, theirs: multiset<string>, own: multiset<string>, cap: Cap) {
    Holds(s, theirs + own) && Capped(s, cap, id)
  }

  ghost predicate MovesRespect(cap: Cap, moves: seq<Move>) {
    forall i :: 0 <= i < |moves| && moves[i].TakeFor? ==> Respects(cap, moves[i].id, moves[i].limit)
  }

  /** Every id has a record of its own. */
  ghost predicate Separate(accounts: map<string, ManagedAccount>) {
    forall i, j :: i in accounts && j in accounts && accounts[i] == accounts[j] ==> i == j
  }

  lemma Taken(s: AccountSlots.Slots, holders: multiset<string>, conversation: string)
    requires Holds(s, holders)
    ensures Holds(AccountSlots.Reserve(s, conversation), holders + multiset{conversation})
  {
    hide AccountSlots.Represents, AccountSlots.Reserve;
    AccountSlots.ReserveRepresents(s, |holders|, CountOf(holders), conversation, CountOf(holders + multiset{conversation}));
  }

  lemma Given(s: AccountSlots.Slots, holders: multiset<string>, conversation: string)
    requires Holds(s, holders + multiset{conversation})
    ensures Holds(AccountSlots.Release(s, conversation), holders)
  {
    hide AccountSlots.Represents, AccountSlots.Release;
    AccountSlots.ReleaseRepresents(s, |holders + multiset{conversation}|, CountOf(holders + multiset{conversation}), conversation, CountOf(holders));
  }

  lemma TakenCapped(s: AccountSlots.Slots, holders: multiset<string>, conversation: string, limit: int, cap: Cap, id: string)
    requires Holds(s, holders) && Capped(s, cap, id) && AccountSlots.CanAcquire(s, conversation, limit) && Respects(cap, id, limit)
    ensures Capped(AccountSlots.Reserve(s, conversation), cap, id)
  {
    hide AccountSlots.Reserve, AccountSlots.CanAcquire;
    if cap.Some? { AccountSlots.ReserveBounded(s, conversation, limit, cap.value(id)); }
  }

  lemma OtherTakes(views: map<string, AccountSlots.Slots>, held: Holdings, mine: Option<string>, conversation: string, cap: Cap, id: string, whose: string, limit: int)
    requires Exact(views, held, mine, conversation, cap) && id in views && AccountSlots.CanAcquire(views[id], whose, limit) && Respects(cap, id, limit)
    ensures Exact(views[id := AccountSlots.Reserve(views[id], whose)], held[id := On(held, id) + multiset{whose}], mine, conversation, cap)
  {
    hide ExactOn, AccountSlots.Reserve, AccountSlots.CanAcquire, Respects;
    TakenOn(views[id], id, On(held, id), Own(mine, id, conversation), cap, whose, limit);
  }

  lemma OtherGives(views: map<string, AccountSlots.Slots>, held: Holdings, mine: Option<string>, conversation: string, cap: Cap, id: string, whose: string)
    requires Exact(views, held, mine, conversation, cap) && id in views && whose in On(held, id)
    ensures Exact(views[id := AccountSlots.Release(views[id], whose)], held[id := On(held, id) - multiset{whose}], mine, conversation, cap)
  {
    hide ExactOn, AccountSlots.Release;
    GivenOn(views[id], id, On(held, id), Own(mine, id, conversation), cap, whose);
  }

  lemma ITake(views: map<string, AccountSlots.Slots>, held: Holdings, conversation: string, cap: Cap, id: string, limit: int)
    requires Exact(views, held, None, conversation, cap) && id in views && AccountSlots.CanAcquire(views[id], conversation, limit) && Respects(cap, id, limit)
    ensures Exact(views[id := AccountSlots.Reserve(views[id], conversation)], held, Some(id), conversation, cap)
  {
    hide ExactOn, On, AccountSlots.Reserve, AccountSlots.CanAcquire, Respects;
    TakenOn(views[id], id, On(held, id), multiset{}, cap, conversation, limit);
  }

  lemma IGive(views: map<string, AccountSlots.Slots>, held: Holdings, conversation: string, cap: Cap, id: string)
    requires Exact(views, held, Some(id), conversation, cap) && id in views
    ensures Exact(views[id := AccountSlots.Release(views[id], conversation)], held, None, conversation, cap)
  {
    hide ExactOn, On, AccountSlots.Release;
    MineGivenOn(views[id], id, On(held, id), cap, conversation);
  }

  /** A slot taken counts for whoever took it. */
  lemma TakenOn(s: AccountSlots.Slots, id: string, theirs: multiset<string>, own: multiset<string>, cap: Cap, whose: string, limit: int)
    requires ExactOn(s, id, theirs, own, cap) && AccountSlots.CanAcquire(s, whose, limit) && Respects(cap, id, limit)
    ensures ExactOn(AccountSlots.Reserve(s, whose), id, theirs + multiset{whose}, own, cap)
    ensures own == multiset{} ==> ExactOn(AccountSlots.Reserve(s, whose), id, theirs, multiset{whose}, cap)
  {
    hide Holds, Capped, AccountSlots.Reserve, AccountSlots.CanAcquire, Respects;
    Taken(s, theirs + own, whose);
    TakenCapped(s, theirs + own, whose, limit, cap, id);
    assert theirs + own + multiset{whose} == theirs + multiset{whose} + own;
    assert theirs + multiset{} == theirs;
  }

  lemma GivenOn(s: AccountSlots.Slots, id: string, theirs: multiset<string>, own: multiset<string>, cap: Cap, whose: string)
    requires ExactOn(s, id, theirs, own, cap) && whose in theirs
    ensures ExactOn(AccountSlots.Release(s, whose), id, theirs - multiset{whose}, own, cap)
  {
    hide Holds, AccountSlots.Release;
    assert theirs + own == theirs - multiset{whose} + own + multiset{whose};
    Given(s, theirs - multiset{whose} + own, whose);
    AccountSlots.ReleaseBounded(s, whose);
  }

  lemma MineGivenOn(s: AccountSlots.Slots, id: string, theirs: multiset<string>, cap: Cap, whose: string)
    requires ExactOn(s, id, theirs, multiset{whose}, cap)
    ensures ExactOn(AccountSlots.Release(s, whose), id, theirs, multiset{}, cap)
  {
    hide Holds, AccountSlots.Release;
    assert theirs + multiset{} == theirs;
    Given(s, theirs, whose);
    AccountSlots.ReleaseBounded(s, whose);
  }

  method ReserveOn(accounts: map<string, ManagedAccount>, id: string, conversation: string, limit: int) returns (ok: bool)
    requires Separate(accounts) && id in accounts
    modifies accounts[id]
    ensures var before := old(Views(accounts));
            id in before && (ok <==> AccountSlots.CanAcquire(before[id], conversation, limit)) && Views(accounts) == if ok then before[id := AccountSlots.Reserve(before[id], conversation)] else before
  {
    hide AccountSlots.Reserve, AccountSlots.CanAcquire;
    ghost var before := Views(accounts);
    ok := accounts[id].TryReserve(conversation, limit);
    forall j | j in accounts && j != id ensures accounts[j].View() == before[j] { assert accounts[j] != accounts[id]; }
  }

  method ReleaseOn(accounts: map<string, ManagedAccount>, id: string, conversation: string)
    requires Separate(accounts) && id in accounts
    modifies accounts[id]
    ensures var before := old(Views(accounts));
            id in before && Views(accounts) == before[id := AccountSlots.Release(before[id], conversation)]
  {
    hide AccountSlots.Release;
    ghost var before := Views(accounts);
    accounts[id].Release(conversation);
    forall j | j in accounts && j != id ensures accounts[j].View() == before[j] { assert accounts[j] != accounts[id]; }
  }

  /** The other requests, as far as this one can notice them: the slots they hold. */
  class OtherRequests {
    var held: Holdings

    /** Any moves of theirs, each in its own critical section; none of them can give back a slot that is not theirs. */
    method Act(accounts: map<string, ManagedAccount>, moves: seq<Move>, ghost mine: Option<string>, ghost conversation: string, ghost cap: Cap)
      requires Separate(accounts) && Exact(Views(accounts), held, mine, conversation, cap) && MovesRespect(cap, moves)
      modifies this, accounts.Values
      ensures Exact(Views(accounts), held, mine, conversation, cap)
      ensures moves == [] ==> Views(accounts) == old(Views(accounts)) && held == old(held)
    {
      hide Exact, Views, AccountSlots.Reserve, AccountSlots.Release, AccountSlots.CanAcquire, Respects;
      for i := 0 to |moves|
        invariant Exact(Views(accounts), held, mine, conversation, cap)
        invariant moves == [] ==> Views(accounts) == old(Views(accounts)) && held == old(held)
      {
        var move := moves[i];
        if move.id in accounts {
          ghost var views := Views(accounts);
          if move.TakeFor? {
            var ok := ReserveOn(accounts, move.id, move.conversation, move.limit);
            if ok {
              OtherTakes(views, held, mine, conversation, cap, move.id, move.conversation, move.limit);
              held := held[move.id := On(held, move.id) + multiset{move.conversation}];
            }
          } else if move.conversation in On(held, move.id) {
            ReleaseOn(accounts, move.id, move.conversation);
            OtherGives(views, held, mine, conversation, cap, move.id, move.conversation);
            held := held[move.id := On(held, move.id) - multiset{move.conversation}];
          }
        }
      }
    }
  }

  // ---------------------------------------------------------------- the retry loop

  /** sync.OnceFunc around one release: the first call releases, later ones do nothing. */
  class Reservation {
    const account: ManagedAccount
    const conversation: string
    var done: bool

    constructor (account: ManagedAccount, conversation: string)
      ensures this.account == account && this.conversation == conversation && !done
    {
      this.account, this.conversation, done := account, conversation, false;
    }

    method Call()
      modifies this`done, if done then {} else {account}
      ensures done
      ensures account.View() == if old(done) then old(account.View()) else AccountSlots.Release(old(account.View()), conversation)
    {
      if !done {
        done := true;
        account.Release(conversation);
      }
    }
  }

  /** What the selector answers: an account, with its limit and whether it is still fit to use. */
  datatype Pick = Chosen(id: string, limit: int, fit: bool) | NoneFree | SelectorDown

  /**
   One attempt: the selection, what the runner streams, how it fails, whether the request is cancelled by
   then, and what the other requests do while it selects, while it runs, and before it releases.
   */
  datatype Attempt = Attempt(pick: Pick, updates: seq<string>, status: Option<int>, cancelled: bool, selecting: seq<Move>, running: seq<Move>, leaving: seq<Move>)

  datatype Outcome = Success | Failure(status: int)

  const BUSY := 429
  const SELECTOR_DOWN := 503

  predicate Final(direct: bool, a: Attempt) {
    P.Final(direct, a.updates != [], a.status, a.cancelled)
  }

  function OutcomeOf(a: Attempt): Outcome {
    if a.status.None? then Success else Failure(a.status.value)
  }

  /** How a request ends that finds no further account: a selector outage always shows. */
  function OutOfAccounts(pick: Pick, last: Option<int>): Outcome {
    if pick.SelectorDown? then Failure(SELECTOR_DOWN) else if last.Some? then Failure(last.value) else Failure(BUSY)
  }

  /**
   Whether the pick can be taken now: chosen, fit, known and not tried before, under a positive limit, and
   the conversation has a slot on the account already or there are fewer slots in use than the limit.
   */
  ghost predicate Available(views: map<string, AccountSlots.Slots>, pick: Pick, tried: set<string>, conversation: string) {
    && pick.Chosen? && pick.fit && pick.id in views && pick.id !in tried && pick.limit > 0
    && (conversation in views[pick.id].conversations || |views[pick.id].conversations| + views[pick.id].unattributed < pick.limit)
  }

  lemma AvailableExactly(views: map<string, AccountSlots.Slots>, held: Holdings, conversation: string, cap: Cap, pick: Pick, tried: set<string>)
    requires Exact(views, held, None, conversation, cap) && pick.Chosen? && pick.id in views
    ensures Available(views, pick, tried, conversation) <==> pick.fit && pick.id !in tried && AccountSlots.CanAcquire(views[pick.id], conversation, pick.limit)
  {
    assert ExactOn(views[pick.id], pick.id, On(held, pick.id), Own(None, pick.id, conversation), cap);
  }

  /** The last critical section of acquire: everything is checked again, and the slot is taken if and only if it is available then. */
  method Acquire(accounts: map<string, ManagedAccount>, ghost held: Holdings, tried: set<string>, conversation: string, pick: Pick, ghost cap: Cap) returns (r: Reservation?)
    requires Separate(accounts) && Exact(Views(accounts), held, None, conversation, cap) && (pick.Chosen? ==> Respects(cap, pick.id, pick.limit))
    modifies accounts.Values
    ensures r != null <==> Available(old(Views(accounts)), pick, tried, conversation)
    ensures r != null ==> pick.Chosen? && pick.fit && pick.id in accounts && pick.id !in tried && fresh(r) && !r.done && r.account == accounts[pick.id] && r.conversation == conversation
    ensures Views(accounts) == if r != null then old(Views(accounts))[pick.id := AccountSlots.Reserve(old(Views(accounts))[pick.id], conversation)] else old(Views(accounts))
    ensures Exact(Views(accounts), held, if r != null then Some(pick.id) else None, conversation, cap)
    ensures r != null ==> Restores(Views(accounts), pick.id, conversation, old(Views(accounts)))
  {
    hide Exact, Views, AccountSlots.Reserve, AccountSlots.CanAcquire, Respects;
    ViewKeys(accounts);
    if pick.Chosen? && pick.fit && pick.id in accounts && pick.id !in tried {
      ghost var views := Views(accounts);
      AvailableExactly(views, held, conversation, cap, pick, tried);
      var ok := ReserveOn(accounts, pick.id, conversation, pick.limit);
      if ok {
        ITake(views, held, conversation, cap, pick.id, pick.limit);
        Undone(views, held, conversation, cap, pick.id);
        r := new Reservation(accounts[pick.id], conversation);
        return;
      }
    }
    return null;
  }

  lemma ViewKeys(accounts: map<string, ManagedAccount>)
    ensures Views(accounts).Keys == accounts.Keys
  {
  }

  /** Giving back the slot on the account leaves the counters as in the result. */
  ghost predicate Restores(views: map<string, AccountSlots.Slots>, id: string, conversation: string, result: map<string, AccountSlots.Slots>) {
    id in views && result == views[id := AccountSlots.Release(views[id], conversation)]
  }

  /** Calls a release that was not called before: the slot is given back, and only this one. */
  method GiveBack(accounts: map<string, ManagedAccount>, ghost held: Holdings, id: string, r: Reservation, ghost cap: Cap)
    requires Separate(accounts) && id in accounts && r.account == accounts[id] && !r.done
    requires Exact(Views(accounts), held, Some(id), r.conversation, cap)
    modifies r`done, accounts[id]
    ensures r.done && Exact(Views(accounts), held, None, r.conversation, cap)
    ensures Restores(old(Views(accounts)), id, r.conversation, Views(accounts))
  {
    hide Exact, AccountSlots.Release;
    ghost var before := Views(accounts);
    IGive(before, held, r.conversation, cap, id);
    r.Call();
    forall j | j in accounts && j != id ensures accounts[j].View() == before[j] { assert accounts[j] != accounts[id]; }
    assert Views(accounts) == before[id := AccountSlots.Release(before[id], r.conversation)];
  }

  /** The deferred releases, latest first; all but the latest have been called before and do nothing. */
  method RunDeferred(accounts: map<string, ManagedAccount>, ghost held: Holdings, id: string, deferred: seq<Reservation>, ghost cap: Cap)
    requires deferred != []
    requires var latest := deferred[|deferred| - 1];
             !latest.done && forall i :: 0 <= i < |deferred| - 1 ==> deferred[i] != latest && deferred[i].done
    requires Separate(accounts) && id in accounts && deferred[|deferred| - 1].account == accounts[id]
    requires Exact(Views(accounts), held, Some(id), deferred[|deferred| - 1].conversation, cap)
    modifies deferred, accounts[id]
    ensures forall i :: 0 <= i < |deferred| ==> deferred[i].done
    ensures Exact(Views(accounts), held, None, deferred[|deferred| - 1].conversation, cap)
  {
    hide Exact, AccountSlots.Release;
    GiveBack(accounts, held, id, deferred[|deferred| - 1], cap);
    ghost var after := Views(accounts);
    var i := |deferred| - 1;
    while i > 0
      invariant 0 <= i < |deferred|
      invariant forall j :: 0 <= j < |deferred| ==> deferred[j].done
      invariant Views(accounts) == after
    {
      i := i - 1;
      deferred[i].Call();
    }
  }

  /** The acts of sending the updates. */
  function Emits(updates: seq<string>): seq<P.Act> {
    if updates == [] then [] else Emits(updates[..|updates| - 1]) + [P.Emit(updates[|updates| - 1])]
  }

  /** The runner's updates, each sent on as it comes. */
  method Stream(id: string, updates: seq<string>, before: seq<P.Event>, ghost begin: P.Request, ghost sofar: seq<P.Act>) returns (log: seq<P.Event>)
    requires var q := P.Replay(begin, sofar); q.phase == P.Running(id) && q.log == before
    ensures P.Replay(begin, sofar + Emits(updates)) == P.Replay(begin, sofar).(log := log)
    ensures P.ReservedIn(log) == P.ReservedIn(before) && P.Output(log) == P.Output(before) + updates && P.Last(log) == P.Last(before)
    ensures P.Silent(before) ==> (P.Silent(log) <==> updates == [])
  {
    hide P.Replay, P.ReservedIn, P.ReleasedIn, P.Output, P.Last, P.Silent;
    log := before;
    assert sofar + Emits([]) == sofar;
    for i := 0 to |updates|
      invariant P.Replay(begin, sofar + Emits(updates[..i])) == P.Replay(begin, sofar).(log := log)
      invariant P.ReservedIn(log) == P.ReservedIn(before) && P.Output(log) == P.Output(before) + updates[..i] && P.Last(log) == P.Last(before)
      invariant P.Silent(before) ==> (P.Silent(log) <==> i == 0)
    {
      assert updates[..i + 1][..i] == updates[..i];
      assert updates[..i + 1] == updates[..i] + [updates[i]];
      assert sofar + Emits(updates[..i + 1]) == sofar + Emits(updates[..i]) + [P.Emit(updates[i])];
      P.ReplaySnoc(begin, sofar + Emits(updates[..i]), P.Emit(updates[i]));
      P.Snoc(log, P.Emitted(id, updates[i]));
      log := log + [P.Emitted(id, updates[i])];
    }
    assert updates[..|updates|] == updates;
  }

  /** Between attempts: every account tried once, nothing sent, and none of the attempts final. */
  predicate OnTheWay(all: set<string>, tried: set<string>, tries: nat, log: seq<P.Event>, last: Option<int>, direct: bool, attempts: nat -> Attempt) {
    && tried == P.ReservedIn(log) && tried <= all && tries == |tried| && P.Silent(log) && P.Output(log) == []
    && (forall i :: 0 <= i < tries ==> MovesOn(direct, attempts(i)) && attempts(i).pick.Chosen? && attempts(i).pick.fit && attempts(i).pick.id in tried)
    && last == (if tries == 0 then None else attempts(tries - 1).status)
    && (tries > 0 ==> P.Last(log) == Some(attempts(tries - 1).pick.id))
  }

  /** What OnTheWay says when the request ends here, or goes on to one more account. */
  lemma SoFar(all: set<string>, tried: set<string>, tries: nat, log: seq<P.Event>, last: Option<int>, direct: bool, attempts: nat -> Attempt)
    requires OnTheWay(all, tried, tries, log, last, direct, attempts)
    ensures tried == P.ReservedIn(log) && tries == |tried| <= |all| && tried <= all && P.Silent(log) && P.Output(log) == []
    ensures forall i :: 0 <= i < tries ==> MovesOn(direct, attempts(i)) && attempts(i).pick.Chosen? && attempts(i).pick.fit && attempts(i).pick.id in P.ReservedIn(log)
    ensures tries > 0 ==> P.Last(log) == Some(attempts(tries - 1).pick.id) && attempts(tries - 1).updates == []
    ensures last == if tries == 0 then None else attempts(tries - 1).status
  {
    hide P.ReservedIn, P.Silent, P.Output, P.Last;
    SubsetSize(tried, all);
  }

  lemma OneMore(all: set<string>, tried: set<string>, tries: nat, before: seq<P.Event>, last: Option<int>, direct: bool, attempts: nat -> Attempt,
                id: string, log: seq<P.Event>)
    requires OnTheWay(all, tried, tries, before, last, direct, attempts) && id in all && id !in tried
    requires attempts(tries).pick.Chosen? && attempts(tries).pick.fit && attempts(tries).pick.id == id && P.Last(log) == Some(id)
    requires P.ReservedIn(log) == P.ReservedIn(before) + {id} && P.Output(log) == attempts(tries).updates
    requires P.Silent(log) <==> attempts(tries).updates == []
    ensures |P.ReservedIn(log)| == tries + 1 <= |all| && P.ReservedIn(log) <= all
    ensures forall i :: 0 <= i < tries ==> attempts(i).pick.Chosen? && attempts(i).pick.fit && attempts(i).pick.id in P.ReservedIn(log)
    ensures MovesOn(direct, attempts(tries)) ==> OnTheWay(all, tried + {id}, tries + 1, log, attempts(tries).status, direct, attempts)
  {
    hide P.ReservedIn, P.Silent, P.Output, P.Last;
    SubsetSize(tried + {id}, all);
  }

  lemma GivenBack(all: set<string>, tried: set<string>, tries: nat, log: seq<P.Event>, last: Option<int>, direct: bool, attempts: nat -> Attempt, id: string)
    requires OnTheWay(all, tried, tries, log, last, direct, attempts)
    ensures OnTheWay(all, tried, tries, log + [P.Released(id)], last, direct, attempts)
  {
    hide P.ReservedIn, P.Silent, P.Output, P.Last;
    P.Snoc(log, P.Released(id));
  }

  /** One attempt, from the selection to the runner's return; null if no slot was taken. */
  method TryAccount(accounts: map<string, ManagedAccount>, others: OtherRequests, conversation: string, attempt: Attempt,
                    before: seq<P.Event>, tried: set<string>, ghost begin: P.Request, ghost sofar: seq<P.Act>, ghost cap: Cap)
    returns (r: Reservation?, log: seq<P.Event>, ghost acts: seq<P.Act>)
    requires Separate(accounts) && Exact(Views(accounts), others.held, None, conversation, cap) && AttemptRespects(cap, attempt)
    requires var q := P.Replay(begin, sofar); q.phase.Choosing? && q.tried == tried && q.log == before
    requires P.Silent(before)
    modifies others, accounts.Values
    ensures r == null ==> log == before && P.Replay(begin, acts) == P.Replay(begin, sofar).(phase := P.Ended)
                          && Exact(Views(accounts), others.held, None, conversation, cap)
    ensures r != null ==> Taking(accounts, conversation, attempt, tried, r) && fresh(r)
                          && Attempted(P.Replay(begin, sofar), P.Replay(begin, acts), attempt) && P.Replay(begin, acts).log == log
                          && Exact(Views(accounts), others.held, Some(attempt.pick.id), conversation, cap)
    ensures Undisturbed(attempt) ==>
              && (r != null <==> Available(old(Views(accounts)), attempt.pick, tried, conversation))
              && if r == null then Views(accounts) == old(Views(accounts)) else Restores(Views(accounts), attempt.pick.id, conversation, old(Views(accounts)))
  {
    hide P.Replay, P.ReservedIn, P.ReleasedIn, P.Output, P.Last, P.Silent, Exact, Views, Separate, P.Final, AccountSlots.Reserve, MovesRespect, Respects, Restores, Available;
    log := before;
    others.Act(accounts, attempt.selecting, None, conversation, cap);
    r := Acquire(accounts, others.held, tried, conversation, attempt.pick, cap);
    if r == null {
      P.ReplaySnoc(begin, sofar, P.GiveUp);
      acts := sofar + [P.GiveUp];
      return;
    }
    var id := attempt.pick.id;
    Begun(begin, sofar, id, attempt.pick.limit);
    P.Snoc(log, P.Reserved(id));
    acts := sofar + [P.Choose(id, attempt.pick.limit)] + [P.Take];
    log := log + [P.Reserved(id)];
    others.Act(accounts, attempt.running, Some(id), conversation, cap);
    log := Stream(id, attempt.updates, log, begin, acts);
    acts := acts + Emits(attempt.updates);
    P.ReplaySnoc(begin, acts, P.Return(attempt.status, attempt.cancelled));
    acts := acts + [P.Return(attempt.status, attempt.cancelled)];
    others.Act(accounts, attempt.leaving, Some(id), conversation, cap);
  }

  ghost predicate AttemptRespects(cap: Cap, a: Attempt) {
    && (a.pick.Chosen? ==> Respects(cap, a.pick.id, a.pick.limit))
    && MovesRespect(cap, a.selecting) && MovesRespect(cap, a.running) && MovesRespect(cap, a.leaving)
  }

  /** No other request acts during any of the attempts. */
  ghost predicate Alone(attempts: nat -> Attempt) {
    forall i :: Undisturbed(attempts(i))
  }

  lemma AloneNow(attempts: nat -> Attempt, i: nat)
    ensures Alone(attempts) ==> Undisturbed(attempts(i))
  {
  }

  /** No other request acts during the attempt. */
  predicate Undisturbed(a: Attempt) {
    a.selecting == [] && a.running == [] && a.leaving == []
  }

  /** The release of a slot on an account not tried before. */
  ghost predicate Taking(accounts: map<string, ManagedAccount>, conversation: string, attempt: Attempt, tried: set<string>, r: Reservation)
    reads r
  {
    && attempt.pick.Chosen? && attempt.pick.fit && attempt.pick.id in accounts && attempt.pick.id !in tried
    && !r.done && r.account == accounts[attempt.pick.id] && r.conversation == conversation
  }

  /** What an attempt makes of the request: one account more, its output sent, and on the way out or on to the next. */
  ghost predicate Attempted(q: P.Request, next: P.Request, attempt: Attempt) {
    && attempt.pick.Chosen?
    && next == q.(phase := if Final(q.direct, attempt) then P.Leaving(q, attempt.pick.id) else P.Retrying(attempt.pick.id),
                  tried := q.tried + {attempt.pick.id}, log := next.log)
    && P.ReservedIn(next.log) == P.ReservedIn(q.log) + {attempt.pick.id} && P.Last(next.log) == Some(attempt.pick.id)
    && P.Output(next.log) == P.Output(q.log) + attempt.updates && (P.Silent(next.log) <==> attempt.updates == [])
  }

  /**
   RunStream, with the other requests free to act between any two of its critical sections. Whatever they,
   the selector, the runners and the client do: the call runs the request's program, and on return the
   accounts' counters are exactly what the others hold, and one slot on the account recorded last if that
   is handed over; and if all are held to limits within a cap, no account's slots ever pass it. With nobody
   else about, it ends without a final attempt only if the next pick cannot be taken.
   */
  method RunStream(accounts: map<string, ManagedAccount>, others: OtherRequests, conversation: string, direct: bool, handsOver: bool, attempts: nat -> Attempt,
                   ghost cap: Cap)
    returns (log: seq<P.Event>, tries: nat, outcome: Outcome, handle: Reservation?, ghost acts: seq<P.Act>)
    requires Separate(accounts) && Exact(Views(accounts), others.held, None, conversation, cap) && forall i :: AttemptRespects(cap, attempts(i))
    modifies others, accounts.Values
    ensures Returned(accounts.Keys, P.Replay(P.Begin(conversation, direct, handsOver), acts), log, tries, outcome, handle != null, attempts)
    ensures handle != null ==> P.Last(log).Some? && P.Last(log).value in accounts && handle.account == accounts[P.Last(log).value]
                               && handle.conversation == conversation && !handle.done
    ensures Exact(Views(accounts), others.held, if handle != null then P.Last(log) else None, conversation, cap)
    ensures Alone(attempts) && (tries == 0 || MovesOn(direct, attempts(tries - 1))) ==>
              !Available(old(Views(accounts)), attempts(tries).pick, P.ReservedIn(log), conversation)
  {
    hide P.Replay, P.ReservedIn, P.Last, Exact, Views, Separate, Going, Returned, AttemptRespects, Available, Restores, MovesOn, Alone, Final;
    var begin := P.Begin(conversation, direct, handsOver);
    ghost var initial := Views(accounts);
    var tried: set<string> := {};
    var last: Option<int> := None;
    var deferred: seq<Reservation> := [];
    log, tries, handle, acts := [], 0, null, [];
    SettingOut(accounts.Keys, begin, attempts);
    while true
      invariant Going(accounts.Keys, begin, acts, tried, tries, log, last, attempts)
      invariant tried <= accounts.Keys
      invariant Exact(Views(accounts), others.held, None, conversation, cap)
      invariant Alone(attempts) ==> Views(accounts) == initial
      invariant forall i :: 0 <= i < |deferred| ==> deferred[i].done && fresh(deferred[i])
      decreases accounts.Keys - tried
    {
      var attempt := attempts(tries);
      MovesOnExactly(direct, attempt);
      var reservation;
      reservation, log, acts := TryNext(accounts, others, begin, attempts, tried, tries, last, log, acts, cap);
      if reservation == null {
        return log, tries, OutOfAccounts(attempt.pick, last), null, acts;
      }
      var id := attempt.pick.id;
      tried, tries, last := tried + {id}, tries + 1, attempt.status;
      if Final(direct, attempt) && handsOver {
        return log, tries, OutcomeOf(attempt), reservation, acts;
      }
      acts := acts + [P.Release];
      log := log + [P.Released(id)];
      if !handsOver {
        deferred := deferred + [reservation];
      }
      if Final(direct, attempt) {
        RunDeferred(accounts, others.held, id, deferred, cap);
        return log, tries, OutcomeOf(attempt), null, acts;
      }
      ghost var views := Views(accounts);
      GiveBack(accounts, others.held, id, reservation, cap);
      if Alone(attempts) { Restored(views, id, conversation, initial, Views(accounts)); }
    }
  }

  /** The call between attempts. */
  ghost predicate Going(all: set<string>, begin: P.Request, acts: seq<P.Act>, tried: set<string>, tries: nat, log: seq<P.Event>, last: Option<int>, attempts: nat -> Attempt) {
    && begin == P.Begin(begin.conversation, begin.direct, begin.handsOver)
    && P.Replay(begin, acts) == begin.(phase := P.Choosing, tried := tried, log := log)
    && OnTheWay(all, tried, tries, log, last, begin.direct, attempts)
  }

  lemma SettingOut(all: set<string>, begin: P.Request, attempts: nat -> Attempt)
    requires begin == P.Begin(begin.conversation, begin.direct, begin.handsOver)
    ensures Going(all, begin, [], {}, 0, [], None, attempts)
  {
    assert P.Replay(begin, []) == begin;
  }

  /** The next attempt, and what it makes of the call: over, or on to another attempt once the slot is given back. */
  method TryNext(accounts: map<string, ManagedAccount>, others: OtherRequests, begin: P.Request, attempts: nat -> Attempt,
                 tried: set<string>, tries: nat, last: Option<int>, before: seq<P.Event>, ghost sofar: seq<P.Act>, ghost cap: Cap)
    returns (r: Reservation?, log: seq<P.Event>, ghost acts: seq<P.Act>)
    requires Separate(accounts) && Exact(Views(accounts), others.held, None, begin.conversation, cap) && AttemptRespects(cap, attempts(tries))
    requires Going(accounts.Keys, begin, sofar, tried, tries, before, last, attempts)
    modifies others, accounts.Values
    ensures var attempt := attempts(tries);
            if r == null then
              && Returned(accounts.Keys, P.Replay(begin, acts), log, tries, OutOfAccounts(attempt.pick, last), false, attempts)
              && Exact(Views(accounts), others.held, None, begin.conversation, cap)
            else
              && Taking(accounts, begin.conversation, attempt, tried, r) && fresh(r) && P.Last(log) == Some(attempt.pick.id)
              && Exact(Views(accounts), others.held, Some(attempt.pick.id), begin.conversation, cap)
              && var released, back := acts + [P.Release], log + [P.Released(attempt.pick.id)];
              && (if !Final(begin.direct, attempt) then Going(accounts.Keys, begin, released, tried + {attempt.pick.id}, tries + 1, back, attempt.status, attempts)
                  else if begin.handsOver then Returned(accounts.Keys, P.Replay(begin, acts), log, tries + 1, OutcomeOf(attempt), true, attempts)
                  else Returned(accounts.Keys, P.Replay(begin, released), back, tries + 1, OutcomeOf(attempt), false, attempts))
    ensures Alone(attempts) && r == null ==> !Available(old(Views(accounts)), attempts(tries).pick, P.ReservedIn(log), begin.conversation)
    ensures Alone(attempts) && r != null ==> Restores(Views(accounts), attempts(tries).pick.id, begin.conversation, old(Views(accounts)))
  {
    hide P.Final, P.WellKept, P.Replay, P.ReservedIn, P.ReleasedIn, P.Output, P.Last, P.Silent, Exact, Views, Separate, OnTheWay, Attempted, Returned,
         AttemptRespects, Available, Restores, Alone, Final;
    SoFar(accounts.Keys, tried, tries, before, last, begin.direct, attempts);
    AloneNow(attempts, tries);
    r, log, acts := TryAccount(accounts, others, begin.conversation, attempts(tries), before, tried, begin, sofar, cap);
    if r == null {
      NoneLeft(accounts.Keys, begin, acts, tried, tries, log, last, attempts);
    } else {
      AttemptEnds(accounts.Keys, begin, sofar, acts, tries, last, attempts);
    }
  }

  lemma Restored(views: map<string, AccountSlots.Slots>, id: string, conversation: string, one: map<string, AccountSlots.Slots>, other: map<string, AccountSlots.Slots>)
    requires Restores(views, id, conversation, one) && Restores(views, id, conversation, other)
    ensures one == other
  {
  }

  lemma Undone(views: map<string, AccountSlots.Slots>, held: Holdings, conversation: string, cap: Cap, id: string)
    requires Exact(views, held, None, conversation, cap)
    ensures id in views ==> Restores(views[id := AccountSlots.Reserve(views[id], conversation)], id, conversation, views)
  {
    hide AccountSlots.Reserve, AccountSlots.Release, AccountSlots.Represents;
    if id in views {
      var holders := On(held, id) + Own(None, id, conversation);
      assert ExactOn(views[id], id, On(held, id), Own(None, id, conversation), cap);
      AccountSlots.ReleaseUndoes(views[id], |holders|, CountOf(holders), conversation);
    }
  }

  /** An attempt that leads to another: nothing sent, not cancelled, not direct, and a failure that another account may not have. */
  predicate MovesOn(direct: bool, a: Attempt) {
    !direct && !a.cancelled && a.updates == [] && a.status in {Some(429), Some(401), Some(403), Some(503)}
  }

  lemma MovesOnExactly(direct: bool, a: Attempt)
    ensures MovesOn(direct, a) <==> !Final(direct, a)
  {
  }

  /**
   What the call has done when it returns: run the request's program to its end, with a well-kept log; made
   no more attempts than there are accounts; sent what the last attempt sent, and nothing in earlier ones;
   and left its slot to the owner exactly if it hands over and the last attempt was final.
   */
  ghost predicate Returned(all: set<string>, q: P.Request, log: seq<P.Event>, tries: nat, outcome: Outcome, handed: bool, attempts: nat -> Attempt) {
    && P.WellKept(q) && q.log == log
    && (if handed then q.phase.Handed? && P.Last(log) == Some(q.phase.account) else q.phase.Ended?)
    && tries == |P.ReservedIn(log)| <= |all| && P.ReservedIn(log) <= all
    && (forall i :: 0 <= i < tries - 1 ==> MovesOn(q.direct, attempts(i)))
    && (forall i :: 0 <= i < tries ==> attempts(i).pick.Chosen? && attempts(i).pick.fit && attempts(i).pick.id in P.ReservedIn(log))
    && (tries > 0 ==> P.Last(log) == Some(attempts(tries - 1).pick.id))
    && P.Output(log) == (if tries == 0 then [] else attempts(tries - 1).updates)
    && (handed <==> q.handsOver && tries > 0 && !MovesOn(q.direct, attempts(tries - 1)))
    && outcome == if tries > 0 && !MovesOn(q.direct, attempts(tries - 1)) then OutcomeOf(attempts(tries - 1))
                  else OutOfAccounts(attempts(tries).pick, if tries == 0 then None else attempts(tries - 1).status)
  }

  lemma NoneLeft(all: set<string>, begin: P.Request, acts: seq<P.Act>, tried: set<string>, tries: nat, log: seq<P.Event>, last: Option<int>, attempts: nat -> Attempt)
    requires begin == P.Begin(begin.conversation, begin.direct, begin.handsOver)
    requires OnTheWay(all, tried, tries, log, last, begin.direct, attempts)
    requires var q := P.Replay(begin, acts); q == begin.(phase := P.Ended, tried := tried, log := log)
    ensures Returned(all, P.Replay(begin, acts), log, tries, OutOfAccounts(attempts(tries).pick, last), false, attempts)
  {
    hide P.WellKept, P.Replay, P.ReservedIn, P.Output, P.Last, P.Silent, P.Final, OnTheWay;
    P.BeginKept(begin.conversation, begin.direct, begin.handsOver);
    P.ReplayKept(begin, acts);
    SoFar(all, tried, tries, log, last, begin.direct, attempts);
  }

  /** After an attempt: the slot is handed over, or given back and the call returns or goes on. */
  lemma AttemptEnds(all: set<string>, begin: P.Request, sofar: seq<P.Act>, acts: seq<P.Act>, tries: nat, last: Option<int>, attempts: nat -> Attempt)
    requires begin == P.Begin(begin.conversation, begin.direct, begin.handsOver)
    requires var q := P.Replay(begin, sofar);
             && q.direct == begin.direct && q.handsOver == begin.handsOver && OnTheWay(all, q.tried, tries, q.log, last, q.direct, attempts)
             && Attempted(q, P.Replay(begin, acts), attempts(tries)) && attempts(tries).pick.fit && attempts(tries).pick.id in all && attempts(tries).pick.id !in q.tried
    ensures var attempt, q, next := attempts(tries), P.Replay(begin, sofar), P.Replay(begin, acts);
            var after, id := P.Replay(begin, acts + [P.Release]), attempt.pick.id;
            && P.Last(next.log) == Some(id) && after.log == next.log + [P.Released(id)]
            && (if !Final(q.direct, attempt) then
                  && after == q.(phase := P.Choosing, tried := q.tried + {id}, log := after.log)
                  && OnTheWay(all, q.tried + {id}, tries + 1, after.log, attempt.status, q.direct, attempts)
                else if q.handsOver then Returned(all, next, next.log, tries + 1, OutcomeOf(attempt), true, attempts)
                else Returned(all, after, after.log, tries + 1, OutcomeOf(attempt), false, attempts))
  {
    hide P.WellKept, P.Replay, P.ReservedIn, P.ReleasedIn, P.Output, P.Last, P.Silent, P.Final, OnTheWay;
    var attempt, q, next := attempts(tries), P.Replay(begin, sofar), P.Replay(begin, acts);
    var id := attempt.pick.id;
    P.BeginKept(begin.conversation, begin.direct, begin.handsOver);
    P.ReplayKept(begin, acts);
    P.ReplaySnoc(begin, acts, P.Release);
    P.ReplayKept(begin, acts + [P.Release]);
    SoFar(all, q.tried, tries, q.log, last, q.direct, attempts);
    OneMore(all, q.tried, tries, q.log, last, q.direct, attempts, id, next.log);
    P.Snoc(next.log, P.Released(id));
    MovesOnExactly(q.direct, attempt);
    if !Final(q.direct, attempt) { GivenBack(all, q.tried + {id}, tries + 1, next.log, attempt.status, q.direct, attempts, id); }
  }

  /** Choosing an account not tried before and taking its slot. */
  lemma Begun(begin: P.Request, acts: seq<P.Act>, id: string, limit: int)
    requires var q := P.Replay(begin, acts); q.phase.Choosing? && id !in q.tried
    ensures var q := P.Replay(begin, acts);
            P.Replay(begin, acts + [P.Choose(id, limit)] + [P.Take]) == q.(phase := P.Running(id), tried := q.tried + {id}, log := q.log + [P.Reserved(id)])
  {
    hide P.Replay;
    P.ReplaySnoc(begin, acts, P.Choose(id, limit));
    P.ReplaySnoc(begin, acts + [P.Choose(id, limit)], P.Take);
  }
}
