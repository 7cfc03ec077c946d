/** PQC.c: the transmit queue of 96 slots. */
module TxQueue {
  import opened Protocol
  import opened Fragmentation

  const QUEUE_SIZE := 96
  const MAX_PACKET_LEN := 74
  const INVALID_NODE := 0xffff

  const HIGH := 0
  const NORMAL := 1
  const LOW := 2

  function PriorityFor(msgType: Byte): (p: nat)
    ensures p <= LOW
  {
    if msgType == MSG_ACK || msgType == MSG_NACK || msgType == MSG_GETPK then HIGH
    else if msgType == MSG_PK || msgType == MSG_CT || msgType == MSG_TEMP then NORMAL
    else LOW
  }

  datatype Entry = Entry(priority: nat, nodeId: NodeId, dest: nat, data: Bytes)

  /** The entry that pqc_udp_send_fragment makes of a packet. */
  function EntryFor(data: Bytes, dest: nat): Entry
    requires HeaderValid(data)
  {
    Entry(PriorityFor(data[1]), HeaderNodeId(data), dest, data)
  }

  /** What pqc_udp_send_fragment lets into the queue. */
  predicate Sendable(data: Bytes) { 0 < |data| <= MAX_PACKET_LEN && HeaderValid(data) }

  /** An entry as pqc_udp_send_fragment leaves it. */
  predicate Proper(e: Entry) { Sendable(e.data) && e == EntryFor(e.data, e.dest) }

  type Slots = seq<Option<Entry>>

  function Contents(s: Slots): multiset<Entry> {
    if s == [] then multiset{}
    else Contents(s[..|s| - 1]) + if s[|s| - 1].Some? then multiset{s[|s| - 1].value} else multiset{}
  }

  lemma {:induction false} ContentsFill(s: Slots, i: nat, e: Entry)
    requires i < |s| && s[i].None?
    ensures Contents(s[i := Some(e)]) == Contents(s) + multiset{e}
  {
    var n := |s| - 1;
    if i < n {
      ContentsFill(s[..n], i, e);
      assert s[i := Some(e)][..n] == s[..n][i := Some(e)];
    } else {
      assert s[i := Some(e)][..n] == s[..n];
    }
  }

  lemma ContentsClear(s: Slots, i: nat)
    requires i < |s| && s[i].Some?
    ensures Contents(s) == Contents(s[i := None]) + multiset{s[i].value}
    ensures s[i].value in Contents(s)
  {
    var t := s[i := None];
    ContentsFill(t, i, s[i].value);
    assert t[i := Some(s[i].value)] == s;
  }

  lemma {:induction false} ContentsEmpty(s: Slots)
    requires forall i :: 0 <= i < |s| ==> s[i].None?
    ensures Contents(s) == multiset{}
  {
    if s != [] { ContentsEmpty(s[..|s| - 1]); }
  }

  predicate AllActive(s: Slots) { forall i :: 0 <= i < |s| ==> s[i].Some? }

  predicate NoneActive(s: Slots) { forall i :: 0 <= i < |s| ==> s[i].None? }

  lemma {:induction false} ContentsFull(s: Slots)
    ensures |Contents(s)| <= |s|
    ensures |Contents(s)| == |s| <==> AllActive(s)
  {
    if s != [] {
      var n := |s| - 1;
      ContentsFull(s[..n]);
      assert s == s[..n] + [s[n]];
      assert AllActive(s) <==> AllActive(s[..n]) && s[n].Some?;
    }
  }

  lemma {:induction false} ContentsNone(s: Slots)
    ensures |Contents(s)| == 0 <==> NoneActive(s)
  {
    if s != [] {
      var n := |s| - 1;
      ContentsNone(s[..n]);
      assert s == s[..n] + [s[n]];
      assert NoneActive(s) <==> NoneActive(s[..n]) && s[n].None?;
    }
  }

  lemma ContentsSize(s: Slots)
    ensures |Contents(s)| <= |s|
    ensures |Contents(s)| == |s| <==> AllActive(s)
    ensures |Contents(s)| == 0 <==> NoneActive(s)
  {
    ContentsFull(s);
    ContentsNone(s);
  }

  /** The slots after dropping: the entries that match are cleared, the others stay where they are. */
  ghost predicate Dropped(before: Slots, after: Slots, hit: Entry -> bool) {
    && |after| == |before|
    && forall i :: 0 <= i < |before| ==>
         after[i] == if before[i].Some? && hit(before[i].value) then None else before[i]
  }

  function DropMatch(nodeId: NodeId, msgType: Byte, msgId: Byte): Entry -> bool {
    (e: Entry) => e.nodeId == nodeId && |e.data| >= HEADER_LEN && e.data[1] == msgType && e.data[4] == msgId
  }

  function NodeMatch(nodeId: NodeId): Entry -> bool {
    (e: Entry) => e.nodeId == nodeId
  }

  /** What pqc_tx_drop and pqc_tx_drop_node look for, in terms of the packet queued. */
  lemma MatchedPackets(p: Packet, dest: nat, nodeId: NodeId, msgType: Byte, msgId: Byte)
    requires InRange(p) && Wellformed(p)
    ensures HeaderValid(Serialize(p))
    ensures DropMatch(nodeId, msgType, msgId)(EntryFor(Serialize(p), dest)) <==> p.nodeId == nodeId && p.msgType == msgType && p.msgId == msgId
    ensures NodeMatch(nodeId)(EntryFor(Serialize(p), dest)) <==> p.nodeId == nodeId
  {
    ParseSerialize(p, []);
    assert Serialize(p) + [] == Serialize(p);
  }

  /** The best candidate: lowest priority number, then the first slot of another node, then the first slot. */
  ghost predicate Best(s: Slots, last: nat, idx: nat) {
    && idx < |s| && s[idx].Some?
    && (forall j :: 0 <= j < |s| && s[j].Some? ==> s[idx].value.priority <= s[j].value.priority)
    && ((exists j :: 0 <= j < |s| && s[j].Some? && s[j].value.priority == s[idx].value.priority && s[j].value.nodeId != last)
        ==> s[idx].value.nodeId != last)
  }

  /** Acknowledgements, NACKs and key requests. */
  predicate Control(e: Entry) {
    |e.data| >= HEADER_LEN && (e.data[1] == MSG_ACK || e.data[1] == MSG_NACK || e.data[1] == MSG_GETPK)
  }

  /** Key and ciphertext fragments and encrypted readings. */
  predicate Bulk(e: Entry) {
    |e.data| >= HEADER_LEN && (e.data[1] == MSG_PK || e.data[1] == MSG_CT || e.data[1] == MSG_TEMP)
  }

  /** A queued control packet is never overtaken by anything else, nor a fragment or reading by a report. */
  lemma ControlFirst(s: Slots, last: nat, idx: nat)
    requires Best(s, last, idx) && forall j :: 0 <= j < |s| && s[j].Some? ==> Proper(s[j].value)
    ensures (exists j :: 0 <= j < |s| && s[j].Some? && Control(s[j].value)) ==> Control(s[idx].value)
    ensures (exists j :: 0 <= j < |s| && s[j].Some? && Bulk(s[j].value)) ==> Control(s[idx].value) || Bulk(s[idx].value)
  {
    var e := s[idx].value;
    assert Proper(e);
    forall j | 0 <= j < |s| && s[j].Some?
      ensures Control(s[j].value) ==> Control(e)
      ensures Bulk(s[j].value) ==> Control(e) || Bulk(e)
    {
      assert Proper(s[j].value);
    }
  }

  class Queue {
    const slots: array<Option<Entry>>
    var tail: nat
    var count: nat
    var lastNode: nat
    ghost var accepted: multiset<Entry>
    ghost var sent: multiset<Entry>
    ghost var dropped: multiset<Entry>

    /** The count is the number of active slots; what was accepted is queued, sent or dropped, each packet once. */
    ghost predicate Valid()
      reads this, slots
    {
      && slots.Length == QUEUE_SIZE && tail < QUEUE_SIZE
      && count == |Contents(slots[..])|
      && accepted == Contents(slots[..]) + sent + dropped
      && (forall i :: 0 <= i < QUEUE_SIZE && slots[i].Some? ==> Proper(slots[i].value))
    }

    /** pqc_tx_init. */
    constructor ()
      ensures Valid() && fresh(slots) && count == 0 && accepted == sent == dropped == multiset{}
    {
      slots := new Option<Entry>[QUEUE_SIZE](i => None);
      tail, count, lastNode := 0, 0, INVALID_NODE;
      accepted, sent, dropped := multiset{}, multiset{}, multiset{};
      new;
      ContentsEmpty(slots[..]);
    }

    function FreeSlots(): nat
      reads this, slots
      requires Valid()
    {
      ContentsSize(slots[..]);
      QUEUE_SIZE - count
    }

    method FindFreeSlot() returns (idx: int)
      requires Valid()
      modifies `tail
      ensures Valid()
      ensures idx == -1 <==> count == QUEUE_SIZE
      ensures idx != -1 ==> 0 <= idx < QUEUE_SIZE && slots[idx].None? && tail == idx
    {
      ContentsSize(slots[..]);
      var checked := 0;
      while checked < QUEUE_SIZE
        invariant 0 <= checked <= QUEUE_SIZE && tail == old(tail)
        invariant forall i :: 0 <= i < QUEUE_SIZE && (i - tail) % QUEUE_SIZE < checked ==> slots[i].Some?
      {
        idx := (tail + checked) % QUEUE_SIZE;
        if slots[idx].None? {
          tail := idx;
          return;
        }
        forall i | 0 <= i < QUEUE_SIZE && (i - tail) % QUEUE_SIZE == checked ensures slots[i].Some? { Wrapped(tail, checked, i); }
        checked := checked + 1;
      }
      assert AllActive(slots[..]);
      idx := -1;
    }

    method SelectSlot() returns (idx: int)
      requires Valid()
      ensures idx == -1 <==> count == 0
      ensures idx != -1 ==> idx >= 0 && Best(slots[..], lastNode, idx)
    {
      ContentsSize(slots[..]);
      var priority := HIGH;
      while priority <= LOW
        invariant priority <= LOW + 1
        invariant forall j :: 0 <= j < QUEUE_SIZE && slots[j].Some? ==> slots[j].value.priority >= priority
      {
        var first := -1;
        var i := 0;
        while i < QUEUE_SIZE
          invariant 0 <= i <= QUEUE_SIZE && -1 <= first < i
          invariant first == -1 ==> forall j :: 0 <= j < i && slots[j].Some? ==> slots[j].value.priority != priority
          invariant first != -1 ==> slots[first].Some? && slots[first].value.priority == priority
          invariant forall j :: 0 <= j < i && slots[j].Some? && slots[j].value.priority == priority ==> slots[j].value.nodeId == lastNode
        {
          if slots[i].Some? && slots[i].value.priority == priority {
            if first < 0 {
              first := i;
            }
            if slots[i].value.nodeId != lastNode {
              return i;
            }
          }
          i := i + 1;
        }
        if first >= 0 {
          return first;
        }
        priority := priority + 1;
      }
      idx := -1;
    }

    /** Empties one active slot. */
    method ClearEntry(idx: nat)
      requires Valid() && idx < QUEUE_SIZE && slots[idx].Some?
      modifies this, slots
      ensures Valid() && slots[..] == old(slots[..])[idx := None]
      ensures count == old(count) - 1 && tail == old(tail) && lastNode == old(lastNode)
      ensures accepted == old(accepted) && sent == old(sent) && dropped == old(dropped) + multiset{old(slots[idx]).value}
    {
      ContentsClear(slots[..], idx);
      dropped := dropped + multiset{slots[idx].value};
      slots[idx] := None;
      if count > 0 {
        count := count - 1;
      }
    }

    /** The loop shared by pqc_tx_drop and pqc_tx_drop_node. */
    method DropMatching(hit: Entry -> bool) returns (n: nat)
      requires Valid()
      modifies this, slots
      ensures Valid() && Dropped(old(slots[..]), slots[..], hit)
      ensures count == old(count) - n && |dropped| == |old(dropped)| + n
      ensures tail == old(tail) && lastNode == old(lastNode) && accepted == old(accepted) && sent == old(sent)
    {
      n := 0;
      ghost var before := slots[..];
      var i := 0;
      while i < QUEUE_SIZE
        invariant 0 <= i <= QUEUE_SIZE && Valid()
        invariant forall j :: 0 <= j < QUEUE_SIZE ==>
          slots[j] == if j < i && before[j].Some? && hit(before[j].value) then None else before[j]
        invariant count == old(count) - n && |dropped| == |old(dropped)| + n
        invariant tail == old(tail) && lastNode == old(lastNode) && accepted == old(accepted) && sent == old(sent)
      {
        if slots[i].Some? && hit(slots[i].value) {
          ClearEntry(i);
          n := n + 1;
        }
        i := i + 1;
      }
    }

    method Drop(nodeId: NodeId, msgType: Byte, msgId: Byte) returns (n: nat)
      requires Valid()
      modifies this, slots
      ensures Valid() && Dropped(old(slots[..]), slots[..], DropMatch(nodeId, msgType, msgId))
      ensures count == old(count) - n && accepted == old(accepted) && sent == old(sent)
    {
      n := DropMatching(DropMatch(nodeId, msgType, msgId));
    }

    method DropNode(nodeId: NodeId) returns (n: nat)
      requires Valid()
      modifies this, slots
      ensures Valid() && Dropped(old(slots[..]), slots[..], NodeMatch(nodeId))
      ensures count == old(count) - n && accepted == old(accepted) && sent == old(sent)
    {
      n := DropMatching(NodeMatch(nodeId));
    }

    /** pqc_tx_process: sends the best entry, if there is any, and empties its slot. */
    method Process() returns (packet: Option<Entry>)
      requires Valid()
      modifies this, slots
      ensures Valid() && accepted == old(accepted) && dropped == old(dropped)
      ensures packet.None? <==> old(count) == 0
      ensures packet.None? ==> count == 0 && sent == old(sent) && lastNode == old(lastNode)
      ensures packet.Some? ==> count == old(count) - 1 && sent == old(sent) + multiset{packet.value} && lastNode == packet.value.nodeId
      ensures packet.Some? ==> exists idx: nat {:trigger Best(old(slots[..]), old(lastNode), idx)} ::
        Best(old(slots[..]), old(lastNode), idx) && old(slots[..])[idx] == packet && slots[..] == old(slots[..])[idx := None]
    {
      ContentsSize(slots[..]);
      if count == 0 {
        return None;
      }
      var idx := SelectSlot();
      packet := slots[idx];
      ContentsClear(slots[..], idx);
      lastNode := packet.value.nodeId;
      slots[idx] := None;
      count := count - 1;
      sent := sent + multiset{packet.value};
    }

    /** pqc_udp_send_fragment: accepts a well-formed packet exactly when a slot is free. */
    method SendFragment(data: Bytes, dest: nat) returns (ok: bool)
      requires Valid()
      modifies this, slots
      ensures Valid() && sent == old(sent) && dropped == old(dropped) && lastNode == old(lastNode)
      ensures ok <==> Sendable(data) && old(count) < QUEUE_SIZE
      ensures ok ==> count == old(count) + 1 && accepted == old(accepted) + multiset{EntryFor(data, dest)}
      ensures ok ==> Contents(slots[..]) == Contents(old(slots[..])) + multiset{EntryFor(data, dest)}
      ensures !ok ==> count == old(count) && accepted == old(accepted) && slots[..] == old(slots[..])
    {
      hide Contents, HeaderValid, EntryFor, Proper;
      ContentsSize(slots[..]);
      if |data| == 0 || |data| > MAX_PACKET_LEN || count >= QUEUE_SIZE || !HeaderValid(data) {
        return false;
      }
      var idx := FindFreeSlot();
      ContentsFill(slots[..], idx, EntryFor(data, dest));
      ProperEntry(data, dest);
      slots[idx] := Some(EntryFor(data, dest));
      tail := (idx + 1) % QUEUE_SIZE;
      count := count + 1;
      accepted := accepted + multiset{EntryFor(data, dest)};
      ok := true;
    }

    /** fragment_tx with this queue as its sender: with room for all fragments, all are queued, in order;
        without, the first ones that fill the queue stay in it. */
    method FragmentTx(msg: Bytes, msgType: Byte, nodeId: NodeId, msgId: Byte, flags: Byte, dest: nat) returns (ok: bool)
      requires Valid()
      modifies this, slots
      ensures Valid() && sent == old(sent) && dropped == old(dropped)
      ensures TxCount(|msg|) == 0 ==> !ok && slots[..] == old(slots[..])
      ensures TxCount(|msg|) > 0 ==> (ok <==> old(QUEUE_SIZE - count) >= TxCount(|msg|))
      ensures ok ==> count == old(count) + TxCount(|msg|)
      ensures ok ==> Contents(slots[..]) == Contents(old(slots[..])) + FragmentEntries(msg, msgType, nodeId, msgId, flags, dest, TxCount(|msg|))
      ensures !ok && TxCount(|msg|) > 0 ==> count == QUEUE_SIZE && 0 <= old(QUEUE_SIZE - count) <= TxCount(|msg|)
      ensures !ok && TxCount(|msg|) > 0 ==>
        Contents(slots[..]) == Contents(old(slots[..])) + FragmentEntries(msg, msgType, nodeId, msgId, flags, dest, old(QUEUE_SIZE - count))
    {
      hide Contents, Serialize, EntryFor, HeaderValid, Proper, Fragment, FragmentEntries, Valid;
      CountBound();
      assert FragmentEntries(msg, msgType, nodeId, msgId, flags, dest, 0) == multiset{} by { NoEntries(msg, msgType, nodeId, msgId, flags, dest); }
      ok := false;
      var total := TxCount(|msg|);
      if total == 0 {
        return;
      }
      var i := 0;
      while i < total
        invariant 0 <= i <= total && Valid() && sent == old(sent) && dropped == old(dropped)
        invariant count == old(count) + i
        invariant Contents(slots[..]) == Contents(old(slots[..])) + FragmentEntries(msg, msgType, nodeId, msgId, flags, dest, i)
      {
        var p := Fragment(msg, msgType, nodeId, msgId, i, flags);
        FragmentSendable(p);
        EntriesUnfold(msg, msgType, nodeId, msgId, flags, dest, i);
        ok := SendFragment(Serialize(p), dest);
        CountBound();
        if !ok {
          return;
        }
        i := i + 1;
      }
      CountBound();
      ok := true;
    }

    lemma CountBound()
      requires Valid()
      ensures count <= QUEUE_SIZE
    {
      ContentsSize(slots[..]);
    }
  }

  lemma NoEntries(msg: Bytes, msgType: Byte, nodeId: NodeId, msgId: Byte, flags: Byte, dest: nat)
    ensures FragmentEntries(msg, msgType, nodeId, msgId, flags, dest, 0) == multiset{}
  {}

  lemma ProperEntry(data: Bytes, dest: nat)
    requires Sendable(data)
    ensures Proper(EntryFor(data, dest))
  {}

  lemma Wrapped(tail: nat, c: nat, i: nat)
    requires tail < QUEUE_SIZE && i < QUEUE_SIZE && (i - tail) % QUEUE_SIZE == c
    ensures (tail + c) % QUEUE_SIZE == i
  {}

  lemma FragmentSendable(p: Packet)
    requires InRange(p) && Wellformed(p)
    ensures Sendable(Serialize(p))
  {
    ParseSerialize(p, []);
    assert Serialize(p) + [] == Serialize(p);
  }

  /** The queue entries of the first n fragments of a message. */
  function FragmentEntries(msg: Bytes, msgType: Byte, nodeId: NodeId, msgId: Byte, flags: Byte, dest: nat, n: nat): multiset<Entry>
    requires n <= TxCount(|msg|)
  {
    if n == 0 then multiset{}
    else
      var p := Fragment(msg, msgType, nodeId, msgId, n - 1, flags);
      FragmentSendable(p);
      FragmentEntries(msg, msgType, nodeId, msgId, flags, dest, n - 1) + multiset{EntryFor(Serialize(p), dest)}
  }

  lemma EntriesUnfold(msg: Bytes, msgType: Byte, nodeId: NodeId, msgId: Byte, flags: Byte, dest: nat, n: nat)
    requires n < TxCount(|msg|)
    ensures var p := Fragment(msg, msgType, nodeId, msgId, n, flags);
      && HeaderValid(Serialize(p))
      && FragmentEntries(msg, msgType, nodeId, msgId, flags, dest, n + 1)
         == FragmentEntries(msg, msgType, nodeId, msgId, flags, dest, n) + multiset{EntryFor(Serialize(p), dest)}
  {
    hide Serialize, EntryFor, Fragment;
    FragmentSendable(Fragment(msg, msgType, nodeId, msgId, n, flags));
  }

  /** e holds one of the first n fragments of the message, its header intact. */
  ghost predicate Carries(e: Entry, msg: Bytes, msgType: Byte, nodeId: NodeId, msgId: Byte, flags: Byte, n: nat)
    requires n <= TxCount(|msg|)
  {
    e.nodeId == nodeId && exists i: nat :: i < n && Parse(e.data) == Some(Fragment(msg, msgType, nodeId, msgId, i, flags))
  }

  /** The headers of the queued fragments parse back to the type, node, id, index and total they were made with. */
  lemma {:induction false} EntriesParse(msg: Bytes, msgType: Byte, nodeId: NodeId, msgId: Byte, flags: Byte, dest: nat, n: nat)
    requires n <= TxCount(|msg|)
    ensures |FragmentEntries(msg, msgType, nodeId, msgId, flags, dest, n)| == n
    ensures forall e :: e in FragmentEntries(msg, msgType, nodeId, msgId, flags, dest, n) ==>
      Carries(e, msg, msgType, nodeId, msgId, flags, n)
  {
    hide Serialize, Parse, EntryFor, Fragment, Carries, FragmentEntries, HeaderValid;
    if n == 0 {
      NoEntries(msg, msgType, nodeId, msgId, flags, dest);
    } else {
      EntriesParse(msg, msgType, nodeId, msgId, flags, dest, n - 1);
      EntriesUnfold(msg, msgType, nodeId, msgId, flags, dest, n - 1);
      EntryCarries(msg, msgType, nodeId, msgId, flags, dest, n - 1);
      forall e | e in FragmentEntries(msg, msgType, nodeId, msgId, flags, dest, n - 1)
        ensures Carries(e, msg, msgType, nodeId, msgId, flags, n)
      {
        CarriesMore(e, msg, msgType, nodeId, msgId, flags, n - 1);
      }
    }
  }

  lemma CarriesMore(e: Entry, msg: Bytes, msgType: Byte, nodeId: NodeId, msgId: Byte, flags: Byte, n: nat)
    requires n < TxCount(|msg|)
    ensures Carries(e, msg, msgType, nodeId, msgId, flags, n) ==> Carries(e, msg, msgType, nodeId, msgId, flags, n + 1)
  {
    hide Parse, Fragment;
  }

  lemma EntryCarries(msg: Bytes, msgType: Byte, nodeId: NodeId, msgId: Byte, flags: Byte, dest: nat, i: nat)
    requires i < TxCount(|msg|)
    ensures var p := Fragment(msg, msgType, nodeId, msgId, i, flags);
      HeaderValid(Serialize(p)) && Carries(EntryFor(Serialize(p), dest), msg, msgType, nodeId, msgId, flags, i + 1)
  {
    hide Serialize, Parse, HeaderNodeId, HeaderValid;
    var p := Fragment(msg, msgType, nodeId, msgId, i, flags);
    ParseSerialize(p, []);
    assert Serialize(p) + [] == Serialize(p);
  }
}
