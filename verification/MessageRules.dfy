/** What the handler makes of key, ciphertext and acknowledgement fragments, and how the root answers a request. */
module MessageRules {
  import opened Protocol
  import opened Fragmentation
  import opened Nack
  import opened SessionManager
  import opened Handshake
  import opened KeyExchange
  import opened HandshakeRules

  // ---- the request for the key

  /** In every phase the root answers a request with the whole key in a fresh session, given a key pair and room. */
  lemma GetPkAnswered(r: Root, who: nat, p: Packet, k: Kem, env: Env)
    requires Coherent(r.h.s) && r.h.s.role == RootRole && p.msgType == MSG_GETPK
    ensures var (r', out) := RootReceive(r, who, p, k, env);
      var s, s', idle := r.h.s, r'.h.s, r.h.s.phase == Idle;
      && s'.role == RootRole && s'.nodeId == s.nodeId && !s'.established && s'.retryCount == 0 && r'.h.ct == r.h.ct
      && r'.hasKeypair == (r.hasKeypair || env.keygen)
      && if !r.hasKeypair && !env.keygen then s'.phase == Failed && !s'.waiting && out == []
         else if env.free < 36 then s'.phase == Idle && out == [] && (idle ==> s' == s)
         else
           && s'.phase == WaitCt && s'.pendingType == MSG_PK && s'.waiting && s'.deadline == env.now + 130 * SECOND + 36 * SECOND / 4
           && s'.pendingId == (if idle then s.nextMsgId else 0) && s'.nextMsgId == (s'.pendingId + 1) % 256
           && Whole(out, k.pk, MSG_PK, s.nodeId, s'.pendingId, FLAG_NONE)
  {
    hide Gc, Fragments, Whole;
    FragmentsWhole(k.pk, MSG_PK, r.h.s.nodeId, if r.h.s.phase == Idle then r.h.s.nextMsgId else 0, FLAG_NONE);
  }

  // ---- packets that change nothing, or little

  /** The role, phase and type go together. */
  predicate Expected(s: Session, msgType: Byte) {
    || (s.role == NodeRole && s.phase == WaitPk && msgType == MSG_PK)
    || (s.role == NodeRole && s.phase == WaitAck && msgType == MSG_ACK)
    || (s.role == RootRole && s.phase == WaitCt && msgType == MSG_CT)
  }

  /** A key or an acknowledgement at the wrong time, or a ciphertext, or a packet of another node, is dropped. */
  lemma Unexpected(h: Hs, who: nat, p: Packet, has: bool, k: Kem, env: Env)
    requires Coherent(h.s) && (h.s.role == NodeRole ==> h.s.nodeId != INVALID_NODE_ID)
    requires p.nodeId != h.s.nodeId || (!h.s.IsEstablished() && !Expected(h.s, p.msgType)
      && p.msgType == if h.s.role == RootRole then MSG_CT else if h.s.phase == WaitPk then MSG_ACK else MSG_PK)
    ensures var e := Handle(h, who, p, has, k, env); !e.ok && e.out == [] && e.h.s == h.s && e.h.ct == h.ct && e.h.slots == Gc(h.slots, env.now)
  {
    hide Gc, Collect, Retransmit, Decode;
  }

  /** A node without a number takes it from the first packet. */
  lemma Numbered(h: Hs, who: nat, p: Packet, has: bool, k: Kem, env: Env)
    requires h.s.role == NodeRole && h.s.nodeId == INVALID_NODE_ID
    ensures Handle(h, who, p, has, k, env) == Handle(h.(s := h.s.(nodeId := p.nodeId)), who, p, has, k, env)
    ensures Handle(h, who, p, has, k, env).h.s.nodeId == p.nodeId
  {
    hide Gc, Collect, Retransmit, Decode;
    DecodeInRange(p.payload);
    var h1 := h.(slots := Gc(h.slots, env.now), s := h.s.(nodeId := p.nodeId));
    CollectKeepsNumber(h1, who, p, has, k, env);
    if Decode(p.payload).Some? {
      RetransmitKeepsNumber(h1, Decode(p.payload).value, k, env.now, env.free);
    }
  }

  lemma CollectKeepsNumber(h: Hs, who: nat, p: Packet, has: bool, k: Kem, env: Env)
    ensures Collect(h, who, p, has, k, env).h.s.nodeId == h.s.nodeId
  {
    hide Added, Accepts, Fragments, Release, GetSlot, FirstMissing, Encode, NackDue, TransferExtra;
  }

  lemma RetransmitKeepsNumber(h: Hs, n: NackMsg, k: Kem, now: int, free: nat)
    requires forall j :: 0 <= j < |n.missing| ==> n.missing[j] < n.totalFrags
    ensures Retransmit(h, n, k, now, free).h.s.nodeId == h.s.nodeId
  {
    hide Served, TransferExtra, Servable;
  }

  /** An established root acknowledges again at the first and the last fragment of a ciphertext sent again. */
  lemma DuplicateCiphertext(h: Hs, who: nat, p: Packet, has: bool, k: Kem, env: Env)
    requires h.s.role == RootRole && h.s.IsEstablished() && p.msgType == MSG_CT && p.nodeId == h.s.nodeId
    ensures var e := Handle(h, who, p, has, k, env);
      && e.ok && e.h.ct == h.ct && e.h.slots == Gc(h.slots, env.now)
      && if (p.fragIdx == 0 || p.fragIdx + 1 == p.totalFrags) && env.free > 0 then
           && e.out == [Packet(MSG_ACK, h.s.nodeId, h.s.nextMsgId, 0, 1, [p.msgId], FLAG_NONE)]
           && e.h.s == h.s.(nextMsgId := (h.s.nextMsgId + 1) % 256)
         else e.out == [] && e.h.s == h.s
  {
    hide Gc, Fragments;
    OneByte(p.msgId, MSG_ACK, h.s.nodeId, h.s.nextMsgId);
  }

  lemma OneByte(b: Byte, msgType: Byte, n: NodeId, id: Byte)
    ensures Fragments([b], msgType, n, id, FLAG_NONE) == [Packet(msgType, n, id, 0, 1, [b], FLAG_NONE)]
    ensures TxCount(1) == 1
  {
    assert Slice([b], 0) == [b];
  }

  // ---- a fragment of an expected message

  /** After collection the session receives in slot i, where c is what it has. */
  ghost predicate ReceivesIn(slots: Slots, who: nat, now: int, i: nat, c: Ctx) {
    var g := GetSlot(Gc(slots, now), who, now);
    g.1 == i < SLOT_COUNT && g.0[i].ctx == c
  }

  /** p is a fragment of msg, expected by the session, and c holds other fragments of the same message. */
  ghost predicate Fits(h: Hs, p: Packet, msg: Bytes, c: Ctx) {
    && Coherent(h.s) && p.nodeId == h.s.nodeId && Expected(h.s, p.msgType) && 1 <= |msg| <= FRAG_MAX_MESSAGE
    && PartOf(p, msg, p.msgType, p.nodeId, p.msgId, p.fragIdx, p.flags) && Holds(c, msg, p.msgType, p.nodeId, p.msgId)
  }

  /** With p the message is there. */
  ghost predicate Completes(p: Packet, msg: Bytes, c: Ctx) {
    forall x :: 0 <= x < TxCount(|msg|) && x != p.fragIdx ==> c.bitmap[x]
  }

  /** The slots before and after: only slot i has changed. */
  function Into(slots: Slots, who: nat, now: int, i: nat, d: Ctx): Slots
    requires i < SLOT_COUNT
  {
    var g := GetSlot(Gc(slots, now), who, now).0;
    g[i := g[i].(ctx := d)]
  }

  lemma FitsHolds(h: Hs, p: Packet, msg: Bytes, c: Ctx)
    requires Fits(h, p, msg, c)
    ensures var d := Added(c, p);
      && Accepts(c, p) && Holds(d, msg, p.msgType, p.nodeId, p.msgId) && d.active && d.bitmap == c.bitmap[p.fragIdx := true]
      && d.msgType == p.msgType && d.msgId == p.msgId && d.totalFrags == TxCount(|msg|) == p.totalFrags && p.fragIdx < d.totalFrags
      && (d.Complete() <==> Completes(p, msg, c)) && (d.Complete() ==> d.receivedLen == |msg| && d.buffer[..|msg|] == msg)
  {
    hide Holds, Added, Accepts;
    PartIsFragment(p, msg, p.msgType, p.nodeId, p.msgId, p.fragIdx, p.flags);
    AddedHolds(c, msg, p.msgType, p.nodeId, p.msgId, p.fragIdx, p.flags);
    var d := Added(c, p);
    CompleteMeansMessage(d, msg, p.msgType, p.nodeId, p.msgId);
    HoldsShape(d, msg, p.msgType, p.nodeId, p.msgId);
    ActiveFields(d, msg, p.msgType, p.nodeId, p.msgId);
    forall x | 0 <= x < TxCount(|msg|) ensures d.bitmap[x] == (x == p.fragIdx || c.bitmap[x]) {}
    if d.Complete() {
      forall x | 0 <= x < TxCount(|msg|) && x != p.fragIdx ensures c.bitmap[x] { assert d.bitmap[x]; }
    }
  }

  /** Up to the outcome, every expected fragment takes the same way. */
  lemma Collected(h: Hs, who: nat, p: Packet, has: bool, k: Kem, env: Env, i: nat, c: Ctx, msg: Bytes)
    requires Fits(h, p, msg, c) && ReceivesIn(h.slots, who, env.now, i, c)
    ensures var d := Added(c, p);
      var h1 := h.(slots := Into(h.slots, who, env.now, i, d));
      && (h.s.role == NodeRole && h.s.nodeId == INVALID_NODE_ID ==> p.nodeId == INVALID_NODE_ID)
      && Handle(h, who, p, has, k, env) == if Completes(p, msg, c) then Finish(h1, who, d, p, has, k, env) else Continue(h1, i, p.fragIdx, env)
  {
    hide Holds, Added, Accepts, Continue, Finish, GetSlot, Gc, Completes, PartOf;
    FitsHolds(h, p, msg, c);
  }

  /** A NACK is due: the last fragment is there, and either it just came and none was asked for before,
      or everything asked for has come, or the last NACK is four seconds old. */
  predicate AskNow(slot: Slot, d: Ctx, fragIdx: nat, now: int)
    requires d.totalFrags > 0
  {
    && d.bitmap[d.totalFrags - 1]
    && if slot.lastMissing == 0 then fragIdx == d.totalFrags - 1
       else d.receivedFrags >= (slot.lastReceived + slot.lastMissing) % 256 || now - slot.lastNackAt >= 4 * SECOND
  }

  /** An incomplete message: the fragment is kept, and when a NACK is due and there is room one is sent. */
  lemma Kept(h: Hs, who: nat, p: Packet, has: bool, k: Kem, env: Env, i: nat, c: Ctx, msg: Bytes)
    requires Fits(h, p, msg, c) && ReceivesIn(h.slots, who, env.now, i, c) && !Completes(p, msg, c)
    ensures var e, d := Handle(h, who, p, has, k, env), Added(c, p);
      var slot := GetSlot(Gc(h.slots, env.now), who, env.now).0[i];
      && e.ok && e.h.ct == h.ct && e.h.slots[i].ctx == d && Holds(d, msg, p.msgType, p.nodeId, p.msgId) && d.bitmap == c.bitmap[p.fragIdx := true]
      && if AskNow(slot, d, p.fragIdx, env.now) && env.free > 0 then
           && |e.out| == 1 && NackFor(e.out[0], d, h.s.nodeId, h.s.nextMsgId)
           && e.h.s == h.s.(nextMsgId := (h.s.nextMsgId + 1) % 256, deadline := env.now + 4 * SECOND)
           && e.h.slots == Into(h.slots, who, env.now, i, d)[i := slot.(ctx := d, lastNackAt := env.now, lastReceived := d.receivedFrags, lastMissing := AskedFragments(d))]
         else e.out == [] && e.h.s == h.s && e.h.slots == Into(h.slots, who, env.now, i, d)
  {
    hide Holds, Added, Accepts, GetSlot, Gc, Completes, PartOf, Handle, SendNack, NackFor, MissingCount;
    Collected(h, who, p, has, k, env, i, c, msg);
    FitsHolds(h, p, msg, c);
    var d := Added(c, p);
    MissingReceived(d, msg, p.msgType, p.nodeId, p.msgId);
    NackBuilt(h.(slots := Into(h.slots, who, env.now, i, d)), d, env.free);
  }

  lemma IntoReleased(slots: Slots, who: nat, now: int, i: nat, d: Ctx)
    requires OneSlot(slots, who) && i == GetSlot(Gc(slots, now), who, now).1 < SLOT_COUNT
    ensures Vacated(slots, Release(Into(slots, who, now, i, d), who), who, now)
  {}

  /** The node has a whole key: it encapsulates and sends the ciphertext, or fails. */
  lemma KeyComplete(h: Hs, who: nat, p: Packet, has: bool, k: Kem, env: Env, i: nat, c: Ctx, msg: Bytes)
    requires Fits(h, p, msg, c) && ReceivesIn(h.slots, who, env.now, i, c) && Completes(p, msg, c) && OneSlot(h.slots, who)
    requires h.s.phase == WaitPk
    ensures var e := Handle(h, who, p, has, k, env);
      && Vacated(h.slots, e.h.slots, who, env.now)
      && if |msg| == PK_LEN && k.encaps(msg, env.coins).Some? && env.free >= 71 then
           var (ct, ss) := k.encaps(msg, env.coins).value;
           && e.ok && Whole(e.out, ct, MSG_CT, h.s.nodeId, h.s.nextMsgId, FLAG_NONE) && e.h.ct == ct
           && e.h.s == h.s.(phase := WaitAck, ss := ss, pendingType := MSG_CT, pendingId := h.s.nextMsgId, nextMsgId := (h.s.nextMsgId + 1) % 256,
                            retryCount := 0, deadline := env.now + 130 * SECOND + 71 * SECOND / 4)
         else
           && !e.ok && e.out == [] && e.h.s.phase == Failed && !e.h.s.waiting && e.h.s.retryCount == 0
           && e.h.ct == if |msg| == PK_LEN && k.encaps(msg, env.coins).Some? then [] else h.ct
  {
    hide Holds, Added, Accepts, GetSlot, Gc, Completes, PartOf, Handle, Release, Into, Fragments, Whole;
    Collected(h, who, p, has, k, env, i, c, msg);
    FitsHolds(h, p, msg, c);
    IntoReleased(h.slots, who, env.now, i, Added(c, p));
    if |msg| == PK_LEN && k.encaps(msg, env.coins).Some? {
      FragmentsWhole(k.encaps(msg, env.coins).value.0, MSG_CT, h.s.nodeId, h.s.nextMsgId, FLAG_NONE);
    }
  }

  /** The node has a whole acknowledgement: it is established exactly when that names the pending ciphertext. */
  lemma AcknowledgementComplete(h: Hs, who: nat, p: Packet, has: bool, k: Kem, env: Env, i: nat, c: Ctx, msg: Bytes)
    requires Fits(h, p, msg, c) && ReceivesIn(h.slots, who, env.now, i, c) && Completes(p, msg, c) && OneSlot(h.slots, who)
    requires h.s.phase == WaitAck
    ensures var e := Handle(h, who, p, has, k, env);
      && Vacated(h.slots, e.h.slots, who, env.now) && e.out == []
      && if msg == [h.s.pendingId] then e.ok && e.h.s.IsEstablished() && e.h.s.ss == h.s.ss && !e.h.s.waiting && e.h.s.retryCount == 0 && e.h.ct == []
         else !e.ok && e.h.s == h.s && e.h.ct == h.ct
  {
    hide Holds, Added, Accepts, GetSlot, Gc, Completes, PartOf, Handle, Release, Into;
    Collected(h, who, p, has, k, env, i, c, msg);
    FitsHolds(h, p, msg, c);
    IntoReleased(h.slots, who, env.now, i, Added(c, p));
    var d := Added(c, p);
    if |msg| == 1 && d.buffer[0] == h.s.pendingId { assert msg == [d.buffer[..1][0]]; }
    if msg == [h.s.pendingId] { assert d.buffer[..1][0] == h.s.pendingId; }
  }

  /** The root has a whole ciphertext: it derives the secret, is established and acknowledges, or fails. */
  lemma CiphertextComplete(h: Hs, who: nat, p: Packet, has: bool, k: Kem, env: Env, i: nat, c: Ctx, msg: Bytes)
    requires Fits(h, p, msg, c) && ReceivesIn(h.slots, who, env.now, i, c) && Completes(p, msg, c) && OneSlot(h.slots, who)
    requires h.s.phase == WaitCt
    ensures var e := Handle(h, who, p, has, k, env);
      && Vacated(h.slots, e.h.slots, who, env.now)
      && if |msg| == CT_LEN && has && k.decaps(k.sk, msg).Some? then
           && e.h.s.IsEstablished() && e.h.s.ss == k.decaps(k.sk, msg).value && !e.h.s.waiting && e.h.s.retryCount == 0
           && e.h.s.nodeId == h.s.nodeId && e.h.s.role == RootRole
           && e.out == (if env.free > 0 then [Packet(MSG_ACK, h.s.nodeId, h.s.nextMsgId, 0, 1, [p.msgId], FLAG_NONE)] else [])
           && e.h.s.nextMsgId == (if env.free > 0 then (h.s.nextMsgId + 1) % 256 else h.s.nextMsgId)
         else !e.ok && e.out == [] && e.h.s.phase == Failed && !e.h.s.waiting && e.h.s.retryCount == 0
  {
    hide Holds, Added, Accepts, GetSlot, Gc, Completes, PartOf, Handle, Release, Into, Fragments;
    Collected(h, who, p, has, k, env, i, c, msg);
    FitsHolds(h, p, msg, c);
    IntoReleased(h.slots, who, env.now, i, Added(c, p));
    OneByte(p.msgId, MSG_ACK, h.s.nodeId, h.s.nextMsgId);
  }

  // ---- fragments that do not fit, and messages that nobody waits for

  /** Every slot is taken by other sessions: the fragment is lost. */
  lemma NoSlot(h: Hs, who: nat, p: Packet, has: bool, k: Kem, env: Env)
    requires Coherent(h.s) && p.nodeId == h.s.nodeId && Expected(h.s, p.msgType)
    requires forall j :: 0 <= j < SLOT_COUNT ==> h.slots[j].active && h.slots[j].owner != who && env.now - h.slots[j].startedAt <= 120 * SECOND
    ensures var e := Handle(h, who, p, has, k, env); !e.ok && e.out == [] && e.h.s == h.s && e.h.ct == h.ct && e.h.slots == h.slots
  {
    hide Added, Accepts, Finish, Continue;
    assert Gc(h.slots, env.now) == h.slots;
  }

  /** A fragment of another message than the one in the slot, or a malformed one, changes nothing in it. */
  lemma Misfit(h: Hs, who: nat, p: Packet, has: bool, k: Kem, env: Env, i: nat, c: Ctx)
    requires Coherent(h.s) && p.nodeId == h.s.nodeId && Expected(h.s, p.msgType) && ReceivesIn(h.slots, who, env.now, i, c)
    requires (c.active && (c.msgType != p.msgType || c.nodeId != p.nodeId || c.msgId != p.msgId || c.totalFrags != p.totalFrags))
      || p.fragIdx >= p.totalFrags || p.totalFrags > 72 || |p.payload| > 64 || 64 * p.fragIdx + |p.payload| > 4608
    ensures var e := Handle(h, who, p, has, k, env);
      !e.ok && e.out == [] && e.h.s == h.s && e.h.ct == h.ct && e.h.slots == Into(h.slots, who, env.now, i, c)
  {
    hide GetSlot, Gc, Finish, Continue;
  }

  /** A whole message of a type that this side does not wait for only gives the slot back. */
  lemma Stray(h: Hs, who: nat, p: Packet, has: bool, k: Kem, env: Env, i: nat, c: Ctx)
    requires Coherent(h.s) && p.nodeId == h.s.nodeId && ReceivesIn(h.slots, who, env.now, i, c) && OneSlot(h.slots, who)
    requires p.msgType != MSG_NACK && if h.s.role == NodeRole then p.msgType != MSG_PK && p.msgType != MSG_ACK else p.msgType != MSG_CT
    requires Accepts(c, p) && Added(c, p).Complete()
    ensures var e := Handle(h, who, p, has, k, env);
      !e.ok && e.out == [] && e.h.s == h.s && e.h.ct == h.ct && Vacated(h.slots, e.h.slots, who, env.now)
  {
    hide Added, Accepts, Gc, GetSlot, Release, Decode;
    IntoReleased(h.slots, who, env.now, i, Added(c, p));
  }
}
