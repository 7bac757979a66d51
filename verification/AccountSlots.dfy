/**
 Slot accounting of internal/antigravity/accounts.go: executions of one conversation share a slot, and
 requests without a conversation take one each.
 */
module AccountSlots {
  datatype Slots = Slots(active: int, conversations: map<string, int>, unattributed: int)

  const IDLE := Slots(0, map[], 0)

  function ActiveSlots(s: Slots): int {
    |s.conversations| + s.unattributed
  }

  predicate CanAcquire(s: Slots, conversation: string, limit: int) {
    limit > 0 && ((conversation in s.conversations && s.conversations[conversation] > 0) || ActiveSlots(s) < limit)
  }

  function Reserve(s: Slots, conversation: string): Slots {
    if conversation == "" then s.(active := s.active + 1, unattributed := s.unattributed + 1)
    else
      var before := if conversation in s.conversations then s.conversations[conversation] else 0;
      s.(active := s.active + 1, conversations := s.conversations[conversation := before + 1])
  }

  function Release(s: Slots, conversation: string): Slots {
    if conversation == "" then s.(active := s.active - 1, unattributed := s.unattributed - 1)
    else if conversation in s.conversations && s.conversations[conversation] > 1 then
      s.(active := s.active - 1, conversations := s.conversations[conversation := s.conversations[conversation] - 1])
    else s.(active := s.active - 1, conversations := s.conversations - {conversation})
  }

  /** The counters say how many reservations there are in all and in each conversation, with no entry for none. */
  ghost predicate Represents(s: Slots, total: nat, count: string -> nat) {
    && s.active == total && s.unattributed == count("") && "" !in s.conversations
    && (forall c :: c in s.conversations ==> s.conversations[c] == count(c) > 0)
    && (forall c :: c != "" && c !in s.conversations ==> count(c) == 0)
  }

  lemma ReserveRepresents(s: Slots, total: nat, count: string -> nat, conversation: string, more: string -> nat)
    requires Represents(s, total, count)
    requires forall c :: more(c) == count(c) + if c == conversation then 1 else 0
    ensures Represents(Reserve(s, conversation), total + 1, more)
  {
  }

  lemma ReleaseRepresents(s: Slots, total: nat, count: string -> nat, conversation: string, less: string -> nat)
    requires Represents(s, total, count) && total > 0
    requires forall c :: count(c) == less(c) + if c == conversation then 1 else 0
    ensures Represents(Release(s, conversation), total - 1, less)
  {
  }

  lemma SameRepresents(s: Slots, total: nat, count: string -> nat, same: string -> nat)
    requires Represents(s, total, count) && forall c :: same(c) == count(c)
    ensures Represents(s, total, same)
  {
  }

  /** A release undoes its reservation exactly, the map entry included. */
  lemma ReleaseUndoes(s: Slots, total: nat, count: string -> nat, conversation: string)
    requires Represents(s, total, count)
    ensures Release(Reserve(s, conversation), conversation) == s
  {
    if conversation != "" && conversation !in s.conversations {
      assert s.conversations[conversation := 1] - {conversation} == s.conversations;
    } else if conversation != "" {
      var n := s.conversations[conversation];
      assert s.conversations[conversation := n + 1][conversation := n] == s.conversations;
    }
  }

  /** A reservation the limit admits keeps the slots within it, and within any larger bound they were in. */
  lemma ReserveBounded(s: Slots, conversation: string, limit: int, bound: int)
    requires "" !in s.conversations && limit <= bound && CanAcquire(s, conversation, limit) && ActiveSlots(s) <= bound
    ensures ActiveSlots(Reserve(s, conversation)) <= bound
  {
    var before := if conversation in s.conversations then s.conversations[conversation] else 0;
    var reserved := s.conversations[conversation := before + 1];
    assert reserved.Keys == s.conversations.Keys + {conversation};
    if conversation in s.conversations { assert reserved.Keys == s.conversations.Keys; }
    KeyCount(reserved);
    KeyCount(s.conversations);
  }

  /** A release never adds a slot. */
  lemma ReleaseBounded(s: Slots, conversation: string)
    ensures ActiveSlots(Release(s, conversation)) <= ActiveSlots(s)
  {
    var fewer := s.conversations - {conversation};
    KeyCount(s.conversations);
    KeyCount(fewer);
    assert s.conversations.Keys == fewer.Keys + (s.conversations.Keys * {conversation});
    if conversation in s.conversations {
      var lowered := s.conversations[conversation := s.conversations[conversation] - 1];
      assert lowered.Keys == s.conversations.Keys;
      KeyCount(lowered);
    }
  }

  lemma KeyCount(m: map<string, int>)
    ensures |m| == |m.Keys|
  {
  }
}
