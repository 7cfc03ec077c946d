/** What the handler and the retry send, packet by packet and byte by byte, and what they leave in the session. */
module HandshakeRules {
  import opened Protocol
  import opened Fragmentation
  import opened Nack
  import opened SessionManager
  import opened Handshake
  import opened KeyExchange
  import opened AttemptEnds

  // ---- packets

  /** p carries the bytes of msg from 64 * i on, and its header says so. */
  ghost predicate PartOf(p: Packet, msg: Bytes, msgType: Byte, n: NodeId, id: Byte, i: nat, flags: Byte) {
    && p.msgType == msgType && p.nodeId == n && p.msgId == id && p.flags == flags && p.fragIdx == i
    && 64 * (p.totalFrags - 1) < |msg| <= 64 * p.totalFrags
    && 0 < |p.payload| <= 64 && 64 * i + |p.payload| <= |msg|
    && (|p.payload| == 64 || 64 * i + |p.payload| == |msg|)
    && forall x :: 0 <= x < |p.payload| ==> p.payload[x] == msg[64 * i + x]
  }

  /** out is the whole message, fragment by fragment. */
  ghost predicate Whole(out: seq<Packet>, msg: Bytes, msgType: Byte, n: NodeId, id: Byte, flags: Byte) {
    && 64 * (|out| - 1) < |msg| <= 64 * |out|
    && forall i :: 0 <= i < |out| ==> PartOf(out[i], msg, msgType, n, id, i, flags)
  }

  lemma FragmentIsPart(msg: Bytes, msgType: Byte, n: NodeId, id: Byte, i: nat, flags: Byte)
    requires i < TxCount(|msg|)
    ensures PartOf(Fragment(msg, msgType, n, id, i, flags), msg, msgType, n, id, i, flags)
  {}

  lemma PartFields(p: Packet, msg: Bytes, msgType: Byte, n: NodeId, id: Byte, i: nat, flags: Byte)
    requires PartOf(p, msg, msgType, n, id, i, flags)
    ensures p.msgType == msgType && p.nodeId == n && p.msgId == id && p.fragIdx == i && p.flags == flags
  {}

  /** These properties leave no choice: the packet is the one that the sender functions build. */
  lemma PartIsFragment(p: Packet, msg: Bytes, msgType: Byte, n: NodeId, id: Byte, i: nat, flags: Byte)
    requires PartOf(p, msg, msgType, n, id, i, flags) && |msg| <= FRAG_MAX_MESSAGE
    ensures i < TxCount(|msg|) && p == Fragment(msg, msgType, n, id, i, flags)
  {
    assert TxCount(|msg|) == p.totalFrags;
    assert |p.payload| == SliceLen(|msg|, i);
    assert p.payload == Slice(msg, i);
  }

  lemma FragmentsWhole(msg: Bytes, msgType: Byte, n: NodeId, id: Byte, flags: Byte)
    requires TxCount(|msg|) > 0
    ensures Whole(Fragments(msg, msgType, n, id, flags), msg, msgType, n, id, flags)
  {
    hide Fragment, PartOf;
    forall i | 0 <= i < TxCount(|msg|)
      ensures PartOf(Fragments(msg, msgType, n, id, flags)[i], msg, msgType, n, id, i, flags)
    {
      FragmentIsPart(msg, msgType, n, id, i, flags);
    }
  }

  // ---- serving a NACK

  /** The message that the session waits to have answered: the key at the root, the ciphertext at the node. */
  ghost predicate Pends(h: Hs, k: Kem, msg: Bytes) {
    || (h.s.role == RootRole && h.s.phase == WaitCt && h.s.pendingType == MSG_PK && msg == k.pk)
    || (h.s.role == NodeRole && h.s.phase == WaitAck && msg == h.ct)
  }

  /** The payload asks for the fragments idx of the message of this type and id. */
  ghost predicate Asks(payload: Bytes, msgType: Byte, id: Byte, total: Byte, idx: seq<Byte>) {
    && 1 <= |idx| <= 16 && payload == [msgType, id, total, |idx|] + idx
    && 1 <= total <= 72 && forall j :: 0 <= j < |idx| ==> idx[j] < total
  }

  /** The decoder accepts exactly the payloads of this form. */
  lemma DecodeExact(b: Bytes, msgType: Byte, id: Byte, total: Byte, idx: seq<Byte>)
    ensures Decode(b) == Some(NackMsg(msgType, id, total, idx)) <==> Asks(b, msgType, id, total, idx)
  {
    if Asks(b, msgType, id, total, idx) {
      assert b[FIXED_LEN..] == idx;
      forall i | FIXED_LEN <= i < |b| ensures b[i] < b[2] { assert b[i] == idx[i - FIXED_LEN]; }
    }
    if Decode(b) == Some(NackMsg(msgType, id, total, idx)) {
      DecodeInRange(b);
      assert b == [msgType, id, total, |idx|] + idx;
    }
  }

  /** One NACK packet for this session's node. */
  predicate IsNack(p: Packet, n: NodeId) {
    p.msgType == MSG_NACK && p.nodeId == n && p.fragIdx == 0 && p.totalFrags == 1
  }

  /** The packets requested are sent again, in the order asked for, or the retry is put off for lack of room. */
  lemma NackServed(h: Hs, who: nat, p: Packet, has: bool, k: Kem, env: Env, msg: Bytes, total: Byte, idx: seq<Byte>)
    requires Coherent(h.s) && Stocked(h) && Pends(h, k, msg) && IsNack(p, h.s.nodeId)
    requires Asks(p.payload, h.s.pendingType, h.s.pendingId, total, idx) && 64 * (total - 1) < |msg| <= 64 * total
    ensures var e := Handle(h, who, p, has, k, env);
      && e.ok && e.h.ct == h.ct && e.h.slots == Gc(h.slots, env.now)
      && if env.free < |idx| then e.out == [] && e.h.s == h.s.(deadline := env.now + 1 * SECOND)
         else
           && |e.out| == |idx| && e.h.s == h.s.(deadline := env.now + 130 * SECOND + total * SECOND / 4)
           && forall j :: 0 <= j < |idx| ==> PartOf(e.out[j], msg, h.s.pendingType, h.s.nodeId, h.s.pendingId, idx[j], FLAG_RETRY)
  {
    hide Gc, Fragment, PartOf, Decode, Asks, TxCount;
    DecodeExact(p.payload, h.s.pendingType, h.s.pendingId, total, idx);
    TotalIsCount(msg, total);
    if env.free >= |idx| {
      forall j | 0 <= j < |idx|
        ensures idx[j] < TxCount(|msg|)
        ensures PartOf(Fragment(msg, h.s.pendingType, h.s.nodeId, h.s.pendingId, idx[j], FLAG_RETRY),
                       msg, h.s.pendingType, h.s.nodeId, h.s.pendingId, idx[j], FLAG_RETRY)
      {
        AskedInRange(p.payload, h.s.pendingType, h.s.pendingId, total, idx, j);
        FragmentIsPart(msg, h.s.pendingType, h.s.nodeId, h.s.pendingId, idx[j], FLAG_RETRY);
      }
    }
  }

  lemma TotalIsCount(msg: Bytes, total: Byte)
    requires 64 * (total - 1) < |msg| <= 64 * total && |msg| <= FRAG_MAX_MESSAGE
    ensures TxCount(|msg|) == total
  {}

  lemma AskedInRange(b: Bytes, msgType: Byte, id: Byte, total: Byte, idx: seq<Byte>, j: nat)
    requires Asks(b, msgType, id, total, idx) && j < |idx|
    ensures idx[j] < total
  {}

  /** The session can serve the payload of a NACK. */
  ghost predicate Serves(h: Hs, k: Kem, payload: Bytes) {
    exists msg: Bytes, total: Byte, idx: seq<Byte> ::
      Pends(h, k, msg) && Asks(payload, h.s.pendingType, h.s.pendingId, total, idx) && 64 * (total - 1) < |msg| <= 64 * total
  }

  /** Any other NACK of this node is refused without effect. */
  lemma NackRefused(h: Hs, who: nat, p: Packet, has: bool, k: Kem, env: Env)
    requires Coherent(h.s) && Stocked(h) && p.msgType == MSG_NACK && p.nodeId == h.s.nodeId
    requires !(IsNack(p, h.s.nodeId) && Serves(h, k, p.payload))
    ensures var e := Handle(h, who, p, has, k, env); !e.ok && e.out == [] && e.h.s == h.s && e.h.ct == h.ct
  {
    hide Gc, Fragment, Decode, Asks, TxCount;
    var d := Decode(p.payload);
    if IsNack(p, h.s.nodeId) && d.Some? && d.value.msgId == h.s.pendingId && d.value.msgType == h.s.pendingType {
      var n := d.value;
      DecodeExact(p.payload, n.msgType, n.msgId, n.totalFrags, n.missing);
      var msg := Servable(h, k);
      NoFragments();
    }
  }

  lemma NoFragments()
    ensures TxCount(0) == 0
  {}

  // ---- what a NACK asks for

  /** idx lists the first absent fragments in order: all of them, or the first sixteen. */
  ghost predicate FirstAbsent(idx: seq<nat>, bitmap: seq<bool>, total: nat)
    requires total <= |bitmap|
  {
    && (forall j :: 0 <= j < |idx| ==> idx[j] < total && !bitmap[idx[j]])
    && (forall i, j :: 0 <= i < j < |idx| ==> idx[i] < idx[j])
    && (forall x :: 0 <= x < total && !bitmap[x] ==> x in idx || (|idx| == 16 && idx[15] < x))
  }

  lemma Prefix(all: seq<nat>, y: nat)
    requires y < |all| && forall i, j :: 0 <= i < j < |all| ==> all[i] < all[j]
    ensures var idx := all[..Least(MAX_MISSING, |all|)]; idx != [] && (all[y] in idx || (|idx| == 16 && idx[15] < all[y]))
  {
    var idx := all[..Least(MAX_MISSING, |all|)];
    if y < |idx| { assert idx[y] == all[y]; } else { assert all[15] < all[y]; }
  }

  lemma FirstMissingIsFirst(c: Ctx)
    ensures FirstAbsent(FirstMissing(c), c.bitmap, c.totalFrags) && |FirstMissing(c)| <= 16
  {
    hide Absent;
    var b := c.bitmap[..c.totalFrags];
    var all := Absent(b, 0);
    forall x | 0 <= x < c.totalFrags && !c.bitmap[x]
      ensures x in FirstMissing(c) || (|FirstMissing(c)| == 16 && FirstMissing(c)[15] < x)
    {
      AbsentComplete(b, 0, x);
      var y :| 0 <= y < |all| && all[y] == x;
      Prefix(all, y);
    }
  }

  /** p is the NACK for the reception c. */
  ghost predicate NackFor(p: Packet, c: Ctx, n: NodeId, id: Byte) {
    IsNack(p, n) && p.msgId == id && p.flags == FLAG_NONE && Asks(p.payload, c.msgType, c.msgId, c.totalFrags, FirstMissing(c))
  }

  /** The number of fragments that such a NACK asks for. */
  function AskedFragments(c: Ctx): nat { Least(16, MissingCount(c)) }

  lemma NackBuilt(h: Hs, c: Ctx, free: nat)
    requires c.active && 0 < c.totalFrags && MissingCount(c) > 0
    ensures var (e, n) := SendNack(h, c, free);
      if free == 0 then e == Effect(h, [], false) && n == 0
      else
        && |e.out| == 1 && NackFor(e.out[0], c, h.s.nodeId, h.s.nextMsgId) && n == AskedFragments(c) > 0 && e.ok
        && e.h == h.(s := h.s.(nextMsgId := (h.s.nextMsgId + 1) % 256))
  {
    hide Encode, Absent;
    var idx: seq<Byte> := FirstMissing(c);
    var m := NackMsg(c.msgType, c.msgId, c.totalFrags, idx);
    NackRoundTrip(c, m, h.s.nodeId, h.s.nextMsgId);
    DecodeExact(Encode(m), c.msgType, c.msgId, c.totalFrags, idx);
  }

  // ---- the retry

  /** The session's slots: at most one. */
  predicate OneSlot(slots: Slots, who: nat) { !Owned(slots, 0, who) || !Owned(slots, 1, who) }

  predicate Slotless(slots: Slots, who: nat) { !Owned(slots, 0, who) && !Owned(slots, 1, who) }

  /** The session has no slot any more; what other sessions are receiving is kept. */
  predicate Vacated(before: Slots, after: Slots, who: nat, now: int) {
    && Slotless(after, who)
    && forall l :: 0 <= l < SLOT_COUNT && before[l].active && before[l].owner != who ==>
         after[l] == if now - before[l].startedAt > 120 * SECOND then FreeSlot() else before[l]
  }

  lemma ReleaseFrees(slots: Slots, who: nat, now: int)
    requires OneSlot(slots, who)
    ensures Vacated(slots, Release(Gc(slots, now), who), who, now)
  {}

  /** A retry is due, the queue is empty, and fewer than three were made. */
  predicate Ripe(h: Hs, env: Env) {
    h.s.waiting && env.now >= h.s.deadline && env.free >= 96 && h.s.retryCount < 3
  }

  /** The node asks for the key again with one packet. */
  lemma RetryGetPk(h: Hs, who: nat, has: bool, k: Kem, env: Env)
    requires Coherent(h.s) && Ripe(h, env) && h.s.phase == WaitPk
    ensures var e := Retry(h, who, has, k, env);
      && e.ok && e.out == [Packet(MSG_GETPK, h.s.nodeId, h.s.pendingId, 0, 1, [], FLAG_RETRY)]
      && e.h.s == h.s.(retryCount := h.s.retryCount + 1, deadline := env.now + 130 * SECOND + 1 * SECOND / 4) && e.h.ct == h.ct
      && (OneSlot(h.slots, who) ==> Vacated(h.slots, e.h.slots, who, env.now))
  {
    hide Release, Gc;
    if OneSlot(h.slots, who) { ReleaseFrees(h.slots, who, env.now); }
  }

  /** The node sends the whole ciphertext again. */
  lemma RetryCiphertext(h: Hs, who: nat, has: bool, k: Kem, env: Env)
    requires Coherent(h.s) && Ripe(h, env) && h.s.phase == WaitAck && Stocked(h)
    ensures var e := Retry(h, who, has, k, env);
      && e.ok && Whole(e.out, h.ct, MSG_CT, h.s.nodeId, h.s.pendingId, FLAG_RETRY)
      && e.h.s == h.s.(retryCount := h.s.retryCount + 1, deadline := env.now + 130 * SECOND + 71 * SECOND / 4) && e.h.ct == h.ct
      && (OneSlot(h.slots, who) ==> Vacated(h.slots, e.h.slots, who, env.now))
  {
    hide Release, Gc, Fragments, Whole;
    if OneSlot(h.slots, who) { ReleaseFrees(h.slots, who, env.now); }
    FragmentsWhole(h.ct, MSG_CT, h.s.nodeId, h.s.pendingId, FLAG_RETRY);
  }

  /** The root sends the whole key again. */
  lemma RetryKey(h: Hs, who: nat, has: bool, k: Kem, env: Env)
    requires Coherent(h.s) && Ripe(h, env) && h.s.phase == WaitCt && h.s.pendingType == MSG_PK
    ensures var e := Retry(h, who, has, k, env);
      && (OneSlot(h.slots, who) ==> Vacated(h.slots, e.h.slots, who, env.now)) && e.h.ct == h.ct
      && if has then
           && e.ok && Whole(e.out, k.pk, MSG_PK, h.s.nodeId, h.s.pendingId, FLAG_RETRY)
           && e.h.s == h.s.(retryCount := h.s.retryCount + 1, deadline := env.now + 130 * SECOND + 36 * SECOND / 4)
         else !e.ok && e.out == [] && e.h.s.phase == Failed && !e.h.s.waiting
  {
    hide Release, Gc, Fragments, Whole;
    if OneSlot(h.slots, who) { ReleaseFrees(h.slots, who, env.now); }
    FragmentsWhole(k.pk, MSG_PK, h.s.nodeId, h.s.pendingId, FLAG_RETRY);
  }

  /** Slot i is the session's and has not been idle for too long. */
  predicate Slotted(slots: Slots, who: nat, i: nat, now: int) {
    i < SLOT_COUNT && Owned(slots, i, who) && (forall j :: 0 <= j < i ==> !Owned(slots, j, who)) && now - slots[i].startedAt <= 120 * SECOND
  }

  lemma SlottedFound(slots: Slots, who: nat, i: nat, now: int)
    requires Slotted(slots, who, i, now)
    ensures FindSlot(Gc(slots, now), who) == i && Gc(slots, now)[i] == slots[i]
  {
    var g := Gc(slots, now);
    assert Owned(g, i, who);
    assert i == 1 ==> !Owned(slots, 0, who) && !Owned(g, 0, who);
  }

  /** The root asks for the first absent fragments of the ciphertext and gives the slot and the session new time. */
  lemma RetryAsks(h: Hs, who: nat, has: bool, k: Kem, env: Env, i: nat)
    requires Coherent(h.s) && Ripe(h, env) && h.s.phase == WaitCt && h.s.pendingType == MSG_CT
    requires Slotted(h.slots, who, i, env.now)
    requires var c := h.slots[i].ctx; c.active && !c.Complete() && 0 < c.totalFrags && MissingCount(c) > 0
    ensures var e, c := Retry(h, who, has, k, env), h.slots[i].ctx;
      && e.ok && |e.out| == 1 && NackFor(e.out[0], c, h.s.nodeId, h.s.nextMsgId) && e.h.ct == h.ct
      && e.h.s == h.s.(nextMsgId := (h.s.nextMsgId + 1) % 256, retryCount := h.s.retryCount + 1, deadline := env.now + 120 * SECOND)
      && e.h.slots == Gc(h.slots, env.now)[i := h.slots[i].(startedAt := env.now, lastNackAt := env.now, lastReceived := c.receivedFrags, lastMissing := AskedFragments(c))]
  {
    hide SendNack, Gc, NackFor, MissingCount;
    SlottedFound(h.slots, who, i, env.now);
    NackBuilt(h.(slots := Gc(h.slots, env.now)), h.slots[i].ctx, env.free);
  }

  /** Without an incomplete reception that is still fresh, the session fails. */
  lemma RetryGivesUp(h: Hs, who: nat, has: bool, k: Kem, env: Env)
    requires Coherent(h.s) && Ripe(h, env) && h.s.phase == WaitCt && h.s.pendingType == MSG_CT && OneSlot(h.slots, who)
    requires forall i :: 0 <= i < SLOT_COUNT && Owned(h.slots, i, who) ==>
      env.now - h.slots[i].startedAt > 120 * SECOND || !h.slots[i].ctx.active || h.slots[i].ctx.Complete()
    ensures var e := Retry(h, who, has, k, env);
      !e.ok && e.out == [] && e.h.s.phase == Failed && !e.h.s.waiting && Vacated(h.slots, e.h.slots, who, env.now) && e.h.ct == h.ct
  {
    hide SendNack, NoteNack;
    ReleaseFrees(h.slots, who, env.now);
  }

  /** Before the deadline nothing happens; a queue that is not empty puts the retry off by a second. */
  lemma RetryWaits(h: Hs, who: nat, has: bool, k: Kem, env: Env)
    requires !(h.s.waiting && env.now >= h.s.deadline) || env.free < 96
    ensures var e := Retry(h, who, has, k, env);
      && e.ok && e.out == [] && e.h.ct == h.ct && e.h.slots == Gc(h.slots, env.now)
      && e.h.s == if h.s.waiting && env.now >= h.s.deadline then h.s.(deadline := env.now + 1 * SECOND) else h.s
  {}

  /** After three retries the session fails, and the node forgets its ciphertext. */
  lemma RetriesExhausted(h: Hs, who: nat, has: bool, k: Kem, env: Env)
    requires h.s.waiting && env.now >= h.s.deadline && env.free >= 96 && h.s.retryCount >= 3
    ensures var e := Retry(h, who, has, k, env);
      && !e.ok && e.out == [] && e.h.s.phase == Failed && !e.h.s.established && !e.h.s.waiting && e.h.s.retryCount == 0
      && e.h.ct == (if h.s.role == NodeRole then [] else h.ct)
      && (OneSlot(h.slots, who) ==> Vacated(h.slots, e.h.slots, who, env.now))
  {
    hide Release, Gc;
    if OneSlot(h.slots, who) { ReleaseFrees(h.slots, who, env.now); }
  }

  /** While no NACK was sent, the root's deadline for the ciphertext lies exactly where its slot becomes too old:
      the timer asks for the missing fragments at that very tick, and at any later one gives up. */
  lemma TimerTick(h: Hs, who: nat, has: bool, k: Kem, env: Env, i: nat)
    requires Coherent(h.s) && Ripe(h, env) && h.s.phase == WaitCt && h.s.pendingType == MSG_CT && OneSlot(h.slots, who)
    requires i < SLOT_COUNT && Owned(h.slots, i, who) && h.s.deadline == h.slots[i].startedAt + 120 * SECOND
    requires var c := h.slots[i].ctx; c.active && !c.Complete() && 0 < c.totalFrags && MissingCount(c) > 0
    ensures var e := Retry(h, who, has, k, env);
      && (e.out != [] <==> env.now == h.s.deadline) && (e.h.s.phase == Failed <==> env.now > h.s.deadline)
  {
    hide Retry, MissingCount, NackFor;
    if env.now == h.s.deadline {
      RetryAsks(h, who, has, k, env, i);
    } else {
      RetryGivesUp(h, who, has, k, env);
    }
  }
}
