/** Lost fragments come back: the packets that one side's handler sends for a NACK, fed into the other side's handler. */
module NackRecovery {
  import opened Protocol
  import opened Fragmentation
  import opened Nack
  import opened SessionManager
  import opened Handshake
  import opened AttemptEnds
  import opened HandshakeRules
  import opened MessageRules

  /** The handler on one packet after the other: the state in the end, and all that was sent. */
  function Feed(h: Hs, who: nat, ps: seq<Packet>, has: bool, k: Kem, env: Env): (r: (Hs, seq<Packet>)) {
    if ps == [] then (h, [])
    else
      var (h0, out) := Feed(h, who, ps[..|ps| - 1], has, k, env);
      var e := Handle(h0, who, ps[|ps| - 1], has, k, env);
      (e.h, out + e.out)
  }

  /** The session of who receives msg in slot i and lacks fragments. */
  ghost predicate Lacking(h: Hs, who: nat, i: nat, msg: Bytes, msgType: Byte, id: Byte, now: int) {
    && Coherent(h.s) && Expected(h.s, msgType) && OneSlot(h.slots, who) && 1 <= |msg| <= FRAG_MAX_MESSAGE
    && i < SLOT_COUNT && Owned(h.slots, i, who) && now - h.slots[i].startedAt <= 120 * SECOND
    && var c := h.slots[i].ctx;
       Holds(c, msg, msgType, h.s.nodeId, id) && c.active && MissingCount(c) > 0
  }

  /** The last fragment is there, and a NACK for the first absent ones went out less than four seconds ago. */
  ghost predicate Asked(slot: Slot, now: int) {
    && slot.ctx.totalFrags > 0 && slot.ctx.bitmap[slot.ctx.totalFrags - 1]
    && slot.lastReceived == slot.ctx.receivedFrags && slot.lastMissing == AskedFragments(slot.ctx) && now - slot.lastNackAt < 4 * SECOND
  }

  /** After j of the requested fragments. */
  ghost predicate Partway(h: Hs, h': Hs, who: nat, i: nat, msg: Bytes, msgType: Byte, id: Byte, idx: seq<nat>, j: nat)
    requires i < SLOT_COUNT && j <= |idx|
  {
    && h' == h.(slots := h'.slots) && (forall l :: 0 <= l < SLOT_COUNT ==> (Owned(h'.slots, l, who) <==> Owned(h.slots, l, who)))
    && h'.slots[i] == h.slots[i].(ctx := h'.slots[i].ctx)
    && var c, d := h.slots[i].ctx, h'.slots[i].ctx;
       && Holds(d, msg, msgType, h.s.nodeId, id) && d.active
       && d.bitmap == Marked(c.bitmap, idx, j)
  }

  function Marked(bitmap: seq<bool>, idx: seq<nat>, j: nat): (b: seq<bool>)
    requires j <= |idx|
    ensures |b| == |bitmap|
  {
    seq(|bitmap|, x requires 0 <= x < |bitmap| => bitmap[x] || x in idx[..j])
  }

  lemma Listed(c: Ctx, msg: Bytes, msgType: Byte, n: NodeId, id: Byte, x: nat)
    requires Holds(c, msg, msgType, n, id) && c.active && x < |FirstMissing(c)|
    ensures c.totalFrags == TxCount(|msg|) && |FirstMissing(c)| == AskedFragments(c) <= 16
    ensures FirstMissing(c)[x] < TxCount(|msg|) && !c.bitmap[FirstMissing(c)[x]]
    ensures forall y :: 0 <= y < x ==> FirstMissing(c)[y] < FirstMissing(c)[x]
  {
    hide Holds, Absent;
    HoldsShape(c, msg, msgType, n, id);
  }

  /** The next requested fragment fits what is there. */
  lemma NextFits(h: Hs, h': Hs, who: nat, i: nat, msg: Bytes, msgType: Byte, id: Byte, p: Packet, j: nat, now: int)
    requires Lacking(h, who, i, msg, msgType, id, now)
    requires var c := h.slots[i].ctx; var idx := FirstMissing(c);
      j < |idx| && Partway(h, h', who, i, msg, msgType, id, idx, j) && PartOf(p, msg, msgType, h.s.nodeId, id, idx[j], FLAG_RETRY)
    ensures Fits(h', p, msg, h'.slots[i].ctx) && ReceivesIn(h'.slots, who, now, i, h'.slots[i].ctx)
    ensures GetSlot(Gc(h'.slots, now), who, now).0[i] == h'.slots[i]
    ensures var idx := FirstMissing(h.slots[i].ctx); h'.slots[i].ctx.bitmap[idx[j] := true] == Marked(h.slots[i].ctx.bitmap, idx, j + 1)
  {
    hide Holds, PartOf, FirstMissing, MissingCount;
    var c := h.slots[i].ctx;
    var idx := FirstMissing(c);
    PartFields(p, msg, msgType, h.s.nodeId, id, idx[j], FLAG_RETRY);
    Listed(c, msg, msgType, h.s.nodeId, id, j);
    assert idx[..j + 1] == idx[..j] + [idx[j]];
    var g := Gc(h'.slots, now);
    assert Owned(g, i, who) && g[i] == h'.slots[i];
  }

  /** The packets of an answer to a NACK for c. */
  ghost predicate Answer(ps: seq<Packet>, msg: Bytes, msgType: Byte, n: NodeId, id: Byte, idx: seq<nat>) {
    |ps| == |idx| && forall j :: 0 <= j < |idx| ==> PartOf(ps[j], msg, msgType, n, id, idx[j], FLAG_RETRY)
  }

  lemma PartwayStart(h: Hs, who: nat, i: nat, msg: Bytes, msgType: Byte, id: Byte, now: int)
    requires Lacking(h, who, i, msg, msgType, id, now)
    ensures Partway(h, h, who, i, msg, msgType, id, FirstMissing(h.slots[i].ctx), 0)
  {
    hide Holds, FirstMissing;
    assert Marked(h.slots[i].ctx.bitmap, FirstMissing(h.slots[i].ctx), 0) == h.slots[i].ctx.bitmap;
  }

  /** One more received fragment, none of the last ones. */
  lemma OneMoreCounted(h: Hs, h': Hs, who: nat, i: nat, msg: Bytes, msgType: Byte, id: Byte, p: Packet, j: nat, now: int)
    requires Lacking(h, who, i, msg, msgType, id, now)
    requires var c := h.slots[i].ctx; var idx := FirstMissing(c);
      && j < |idx| && Partway(h, h', who, i, msg, msgType, id, idx, j) && PartOf(p, msg, msgType, h.s.nodeId, id, idx[j], FLAG_RETRY)
      && h'.slots[i].ctx.receivedFrags == c.receivedFrags + j
    ensures Added(h'.slots[i].ctx, p).receivedFrags == h.slots[i].ctx.receivedFrags + j + 1
    ensures Completes(p, msg, h'.slots[i].ctx) <==> MissingCount(h.slots[i].ctx) == j + 1
  {
    hide Holds, PartOf, Completes, FirstMissing, Added, MissingCount, Accepts;
    var c, c' := h.slots[i].ctx, h'.slots[i].ctx;
    var idx := FirstMissing(c);
    NextFits(h, h', who, i, msg, msgType, id, p, j, now);
    FitsHolds(h', p, msg, c');
    PartFields(p, msg, msgType, h.s.nodeId, id, idx[j], FLAG_RETRY);
    Listed(c, msg, msgType, h.s.nodeId, id, j);
    assert idx[j] !in idx[..j];
    AddedCount(c', p);
    MissingReceived(c, msg, msgType, h.s.nodeId, id);
    MissingReceived(Added(c', p), msg, msgType, h.s.nodeId, id);
  }

  /** The requested fragments up to the last but one are kept in silence. */
  lemma {:induction false} FeedPart(h: Hs, who: nat, i: nat, msg: Bytes, msgType: Byte, id: Byte, ps: seq<Packet>, has: bool, k: Kem, env: Env, j: nat)
    requires Lacking(h, who, i, msg, msgType, id, env.now) && Asked(h.slots[i], env.now)
    requires Answer(ps, msg, msgType, h.s.nodeId, id, FirstMissing(h.slots[i].ctx)) && j < |ps|
    ensures var (h', out) := Feed(h, who, ps[..j], has, k, env);
      && Partway(h, h', who, i, msg, msgType, id, FirstMissing(h.slots[i].ctx), j) && out == []
      && h'.slots[i].ctx.receivedFrags == h.slots[i].ctx.receivedFrags + j
  {
    hide Holds, PartOf, FirstMissing, Handle, Completes, MissingCount, NackFor;
    if j == 0 {
      PartwayStart(h, who, i, msg, msgType, id, env.now);
    } else {
      FeedPart(h, who, i, msg, msgType, id, ps, has, k, env, j - 1);
      assert ps[..j][..j - 1] == ps[..j - 1];
      var h0 := Feed(h, who, ps[..j - 1], has, k, env).0;
      Silent(h, h0, who, i, msg, msgType, id, ps[j - 1], has, k, env, j - 1);
    }
  }

  lemma Silent(h: Hs, h0: Hs, who: nat, i: nat, msg: Bytes, msgType: Byte, id: Byte, p: Packet, has: bool, k: Kem, env: Env, j: nat)
    requires Lacking(h, who, i, msg, msgType, id, env.now) && Asked(h.slots[i], env.now)
    requires var c := h.slots[i].ctx; var idx := FirstMissing(c);
      && j + 1 < |idx| && Partway(h, h0, who, i, msg, msgType, id, idx, j) && PartOf(p, msg, msgType, h.s.nodeId, id, idx[j], FLAG_RETRY)
      && h0.slots[i].ctx.receivedFrags == c.receivedFrags + j
    ensures var e := Handle(h0, who, p, has, k, env);
      && e.out == [] && Partway(h, e.h, who, i, msg, msgType, id, FirstMissing(h.slots[i].ctx), j + 1)
      && e.h.slots[i].ctx.receivedFrags == h.slots[i].ctx.receivedFrags + j + 1
  {
    hide Holds, PartOf, FirstMissing, Handle, Completes, MissingCount, NackFor, GetSlot;
    var c := h.slots[i].ctx;
    NextFits(h, h0, who, i, msg, msgType, id, p, j, env.now);
    OneMoreCounted(h, h0, who, i, msg, msgType, id, p, j, env.now);
    Listed(c, msg, msgType, h.s.nodeId, id, j + 1);
    Enough(c);
    Kept(h0, who, p, has, k, env, i, h0.slots[i].ctx, msg);
    PartFields(p, msg, msgType, h.s.nodeId, id, FirstMissing(c)[j], FLAG_RETRY);
    MissingReceived(c, msg, msgType, h.s.nodeId, id);
    SameOwners(h0.slots, who, env.now, i, Added(h0.slots[i].ctx, p));
  }

  lemma Enough(c: Ctx)
    ensures |FirstMissing(c)| == AskedFragments(c) <= MissingCount(c)
  {}

  lemma SameOwners(slots: Slots, who: nat, now: int, i: nat, d: Ctx)
    requires OneSlot(slots, who) && i < SLOT_COUNT && Owned(slots, i, who) && now - slots[i].startedAt <= 120 * SECOND
    ensures forall l :: 0 <= l < SLOT_COUNT ==> (Owned(Into(slots, who, now, i, d), l, who) <==> Owned(slots, l, who))
    ensures Into(slots, who, now, i, d)[i] == slots[i].(ctx := d)
  {}

  // ---- whole rounds

  /** The answer up to its last packet, and that packet. */
  lemma FeedAll(h: Hs, who: nat, ps: seq<Packet>, has: bool, k: Kem, env: Env)
    requires ps != []
    ensures var (h', out) := Feed(h, who, ps[..|ps| - 1], has, k, env);
      var e := Handle(h', who, ps[|ps| - 1], has, k, env);
      Feed(h, who, ps, has, k, env) == (e.h, out + e.out)
  {
    hide Handle;
  }

  /** Everything before the last packet of the answer, and that packet. */
  lemma UpToLast(h: Hs, who: nat, i: nat, msg: Bytes, msgType: Byte, id: Byte, ps: seq<Packet>, has: bool, k: Kem, env: Env)
    returns (h0: Hs)
    requires Lacking(h, who, i, msg, msgType, id, env.now) && Asked(h.slots[i], env.now)
    requires Answer(ps, msg, msgType, h.s.nodeId, id, FirstMissing(h.slots[i].ctx))
    ensures |ps| == AskedFragments(h.slots[i].ctx) > 0
    ensures var p := ps[|ps| - 1];
      && Partway(h, h0, who, i, msg, msgType, id, FirstMissing(h.slots[i].ctx), |ps| - 1)
      && PartOf(p, msg, msgType, h.s.nodeId, id, FirstMissing(h.slots[i].ctx)[|ps| - 1], FLAG_RETRY)
      && h0.slots[i].ctx.receivedFrags == h.slots[i].ctx.receivedFrags + |ps| - 1
      && Feed(h, who, ps, has, k, env) == (Handle(h0, who, p, has, k, env).h, Handle(h0, who, p, has, k, env).out)
  {
    hide Holds, PartOf, FirstMissing, Handle, MissingCount, Feed, Partway;
    var c, last := h.slots[i].ctx, |ps| - 1;
    Enough(c);
    FeedPart(h, who, i, msg, msgType, id, ps, has, k, env, last);
    FeedAll(h, who, ps, has, k, env);
    h0 := Feed(h, who, ps[..last], has, k, env).0;
    assert [] + Handle(h0, who, ps[last], has, k, env).out == Handle(h0, who, ps[last], has, k, env).out;
  }

  /** More than sixteen are missing: the answer leaves exactly sixteen fewer, and its last packet brings out the next NACK. */
  lemma AnswerShrinks(h: Hs, who: nat, i: nat, msg: Bytes, msgType: Byte, id: Byte, ps: seq<Packet>, has: bool, k: Kem, env: Env)
    requires Lacking(h, who, i, msg, msgType, id, env.now) && Asked(h.slots[i], env.now) && env.free > 0
    requires Answer(ps, msg, msgType, h.s.nodeId, id, FirstMissing(h.slots[i].ctx)) && MissingCount(h.slots[i].ctx) > 16
    ensures var (h', out) := Feed(h, who, ps, has, k, env);
      && Lacking(h', who, i, msg, msgType, id, env.now) && Asked(h'.slots[i], env.now)
      && MissingCount(h'.slots[i].ctx) == MissingCount(h.slots[i].ctx) - 16
      && |out| == 1 && NackFor(out[0], h'.slots[i].ctx, h.s.nodeId, h.s.nextMsgId)
      && h'.s == h.s.(nextMsgId := (h.s.nextMsgId + 1) % 256, deadline := env.now + 4 * SECOND) && h'.ct == h.ct
      && h'.slots[i].startedAt == h.slots[i].startedAt && h'.slots[i].lastNackAt == env.now
  {
    hide Holds, PartOf, FirstMissing, Handle, Completes, MissingCount, NackFor, GetSlot, Feed;
    var c, last := h.slots[i].ctx, |ps| - 1;
    var h0 := UpToLast(h, who, i, msg, msgType, id, ps, has, k, env);
    LastShrinks(h, h0, who, i, msg, msgType, id, ps[last], has, k, env);
  }

  lemma LastShrinks(h: Hs, h0: Hs, who: nat, i: nat, msg: Bytes, msgType: Byte, id: Byte, p: Packet, has: bool, k: Kem, env: Env)
    requires Lacking(h, who, i, msg, msgType, id, env.now) && Asked(h.slots[i], env.now) && env.free > 0
    requires var c := h.slots[i].ctx; var idx := FirstMissing(c);
      && MissingCount(c) > 16 && |idx| == 16 && Partway(h, h0, who, i, msg, msgType, id, idx, 15)
      && PartOf(p, msg, msgType, h.s.nodeId, id, idx[15], FLAG_RETRY) && h0.slots[i].ctx.receivedFrags == c.receivedFrags + 15
    ensures var e := Handle(h0, who, p, has, k, env);
      && Lacking(e.h, who, i, msg, msgType, id, env.now) && Asked(e.h.slots[i], env.now)
      && MissingCount(e.h.slots[i].ctx) == MissingCount(h.slots[i].ctx) - 16
      && |e.out| == 1 && NackFor(e.out[0], e.h.slots[i].ctx, h.s.nodeId, h.s.nextMsgId)
      && e.h.s == h.s.(nextMsgId := (h.s.nextMsgId + 1) % 256, deadline := env.now + 4 * SECOND) && e.h.ct == h.ct
      && e.h.slots[i].startedAt == h.slots[i].startedAt && e.h.slots[i].lastNackAt == env.now
  {
    hide Holds, PartOf, FirstMissing, Handle, Completes, MissingCount, NackFor, GetSlot;
    var c, c0 := h.slots[i].ctx, h0.slots[i].ctx;
    Listed(c, msg, msgType, h.s.nodeId, id, 15);
    NextFits(h, h0, who, i, msg, msgType, id, p, 15, env.now);
    OneMoreCounted(h, h0, who, i, msg, msgType, id, p, 15, env.now);
    PartFields(p, msg, msgType, h.s.nodeId, id, FirstMissing(c)[15], FLAG_RETRY);
    FitsHolds(h0, p, msg, c0);
    Kept(h0, who, p, has, k, env, i, c0, msg);
    MissingReceived(c, msg, msgType, h.s.nodeId, id);
    MissingReceived(Added(c0, p), msg, msgType, h.s.nodeId, id);
    SameOwners(h0.slots, who, env.now, i, Added(c0, p));
  }

  /** At most sixteen are missing: the last packet of the answer completes the message. */
  lemma AnswerCompletes(h: Hs, who: nat, i: nat, msg: Bytes, msgType: Byte, id: Byte, ps: seq<Packet>, has: bool, k: Kem, env: Env)
    returns (h0: Hs)
    requires Lacking(h, who, i, msg, msgType, id, env.now) && Asked(h.slots[i], env.now)
    requires Answer(ps, msg, msgType, h.s.nodeId, id, FirstMissing(h.slots[i].ctx)) && MissingCount(h.slots[i].ctx) <= 16
    ensures ps != [] && h0.s == h.s && h0.ct == h.ct && OneSlot(h0.slots, who)
    ensures var p, c := ps[|ps| - 1], h0.slots[i].ctx;
      && p.msgId == id && p.msgType == msgType && Fits(h0, p, msg, c) && ReceivesIn(h0.slots, who, env.now, i, c) && Completes(p, msg, c)
      && Feed(h, who, ps, has, k, env) == (Handle(h0, who, p, has, k, env).h, Handle(h0, who, p, has, k, env).out)
  {
    hide Holds, PartOf, FirstMissing, Handle, Completes, MissingCount, NackFor, GetSlot, Feed, Fits, ReceivesIn;
    var c, last := h.slots[i].ctx, |ps| - 1;
    h0 := UpToLast(h, who, i, msg, msgType, id, ps, has, k, env);
    NextFits(h, h0, who, i, msg, msgType, id, ps[last], last, env.now);
    OneMoreCounted(h, h0, who, i, msg, msgType, id, ps[last], last, env.now);
    PartFields(ps[last], msg, msgType, h.s.nodeId, id, FirstMissing(c)[last], FLAG_RETRY);
  }

  // ---- round after round

  /** The side that has the message, the side that lacks fragments of it, and the NACK on its way. */
  datatype Sides = Sides(sender: Hs, receiver: Hs, nack: Packet)

  /** Whose slots, and whether there is a key pair. */
  datatype Ends = Ends(sender: nat, receiver: nat, senderHas: bool, receiverHas: bool)

  /** The sender handles the NACK, the receiver handles every packet that this sends. */
  function Exchange(x: Sides, w: Ends, k: Kem, env: Env): Sides {
    var e := Handle(x.sender, w.sender, x.nack, w.senderHas, k, env);
    var (h, out) := Feed(x.receiver, w.receiver, e.out, w.receiverHas, k, env);
    Sides(e.h, h, if out == [] then x.nack else out[|out| - 1])
  }

  function Exchanges(x: Sides, w: Ends, k: Kem, envs: nat -> Env, r: nat): Sides {
    if r == 0 then x else Exchange(Exchanges(x, w, k, envs, r - 1), w, k, envs(r - 1))
  }

  /** The fragments that the receiver lacks. */
  function Missing(x: Sides, i: nat): nat { if i < SLOT_COUNT then MissingCount(x.receiver.slots[i].ctx) else 0 }

  function StartedAt(x: Sides, i: nat): int { if i < SLOT_COUNT then x.receiver.slots[i].startedAt else 0 }

  /** The sender waits with msg, the receiver lacks fragments of it and has just asked for the first of them. */
  ghost predicate InRecovery(x: Sides, w: Ends, k: Kem, i: nat, msg: Bytes, now: int) {
    && Coherent(x.sender.s) && Stocked(x.sender) && Pends(x.sender, k, msg) && x.sender.s.nodeId == x.receiver.s.nodeId
    && Lacking(x.receiver, w.receiver, i, msg, x.sender.s.pendingType, x.sender.s.pendingId, now) && Asked(x.receiver.slots[i], now)
    && NackFor(x.nack, x.receiver.slots[i].ctx, x.receiver.s.nodeId, x.nack.msgId)
  }

  /** Both sides are where they were, but for their deadlines and the receiver's next message id. */
  ghost predicate Unmoved(x: Sides, y: Sides, i: nat) {
    && y.receiver.s == x.receiver.s.(nextMsgId := y.receiver.s.nextMsgId, deadline := y.receiver.s.deadline) && y.receiver.ct == x.receiver.ct
    && y.sender.s == x.sender.s.(deadline := y.sender.s.deadline) && y.sender.ct == x.sender.ct && StartedAt(y, i) == StartedAt(x, i)
  }

  lemma StillUnmoved(x: Sides, y: Sides, z: Sides, i: nat)
    requires Unmoved(x, y, i) && Unmoved(y, z, i)
    ensures Unmoved(x, z, i)
  {}

  /** The rounds follow each other within four seconds, and all within two minutes of the slot's start. */
  ghost predicate Prompt(envs: nat -> Env, startedAt: int) {
    && (forall r: nat {:trigger envs(r)} :: envs(r).free >= 16 && envs(r).now <= startedAt + 120 * SECOND)
    && (forall q: nat, r: nat {:trigger envs(q), envs(r)} :: r == q + 1 ==> envs(r).now - envs(q).now < 4 * SECOND)
  }

  /** What the sender's handler sends is the answer to the NACK. */
  lemma Served(x: Sides, w: Ends, k: Kem, i: nat, msg: Bytes, env: Env)
    requires InRecovery(x, w, k, i, msg, env.now) && env.free >= 16
    ensures var e, s := Handle(x.sender, w.sender, x.nack, w.senderHas, k, env), x.sender.s;
      && Answer(e.out, msg, s.pendingType, s.nodeId, s.pendingId, FirstMissing(x.receiver.slots[i].ctx))
      && e.h.s == s.(deadline := e.h.s.deadline) && e.h.ct == x.sender.ct && e.h.slots == Gc(x.sender.slots, env.now)
  {
    hide Holds, PartOf, Handle, MissingCount, Asks, Absent;
    var c, s := x.receiver.slots[i].ctx, x.sender.s;
    ActiveFields(c, msg, s.pendingType, s.nodeId, s.pendingId);
    Listed(c, msg, s.pendingType, s.nodeId, s.pendingId, 0) by { hide FirstMissing; Enough(c); }
    CountedTotal(msg);
    NackServed(x.sender, w.sender, x.nack, w.senderHas, k, env, msg, c.totalFrags, FirstMissing(c));
  }

  lemma CountedTotal(msg: Bytes)
    requires 1 <= |msg| <= FRAG_MAX_MESSAGE
    ensures 1 <= TxCount(|msg|) <= 72 && 64 * (TxCount(|msg|) - 1) < |msg| <= 64 * TxCount(|msg|)
  {}

  /** While more than sixteen fragments are missing, a round brings sixteen of them and the next NACK. */
  lemma OneRound(y: Sides, w: Ends, k: Kem, i: nat, msg: Bytes, env: Env)
    requires InRecovery(y, w, k, i, msg, env.now) && env.free >= 16 && Missing(y, i) > 16
    ensures var z := Exchange(y, w, k, env);
      && InRecovery(z, w, k, i, msg, env.now) && Missing(z, i) == Missing(y, i) - 16
      && z.receiver.slots[i].lastNackAt == env.now && Unmoved(y, z, i)
  {
    hide Holds, PartOf, FirstMissing, Handle, MissingCount, Feed, Lacking, Asked, Answer, Asks;
    Served(y, w, k, i, msg, env);
    var e := Handle(y.sender, w.sender, y.nack, w.senderHas, k, env);
    AnswerShrinks(y.receiver, w.receiver, i, msg, y.sender.s.pendingType, y.sender.s.pendingId, e.out, w.receiverHas, k, env);
  }

  /** A little later nothing has changed. */
  lemma Later(z: Sides, w: Ends, k: Kem, i: nat, msg: Bytes, now: int, later: int)
    requires InRecovery(z, w, k, i, msg, now) && z.receiver.slots[i].lastNackAt == now
    requires later - now < 4 * SECOND && later <= StartedAt(z, i) + 120 * SECOND
    ensures InRecovery(z, w, k, i, msg, later)
  {
    hide Holds, NackFor, MissingCount;
  }

  lemma {:induction false} AfterRounds(x: Sides, w: Ends, k: Kem, envs: nat -> Env, i: nat, msg: Bytes, r: nat)
    requires InRecovery(x, w, k, i, msg, envs(0).now) && Prompt(envs, StartedAt(x, i)) && 16 * r < Missing(x, i)
    ensures var y := Exchanges(x, w, k, envs, r); InRecovery(y, w, k, i, msg, envs(r).now) && Missing(y, i) == Missing(x, i) - 16 * r && Unmoved(x, y, i)
  {
    hide InRecovery, Exchange, Missing, MissingCount;
    if r == 0 {
      Start(x, w, k, envs, i);
    } else {
      AfterRounds(x, w, k, envs, i, msg, r - 1);
      var y := Exchanges(x, w, k, envs, r - 1);
      AfterRound(y, w, k, envs, i, msg, r - 1);
      StillUnmoved(x, y, Exchange(y, w, k, envs(r - 1)), i);
    }
  }

  lemma Start(x: Sides, w: Ends, k: Kem, envs: nat -> Env, i: nat)
    ensures Exchanges(x, w, k, envs, 0) == x && Unmoved(x, x, i)
  {}

  lemma AfterRound(y: Sides, w: Ends, k: Kem, envs: nat -> Env, i: nat, msg: Bytes, r: nat)
    requires InRecovery(y, w, k, i, msg, envs(r).now) && Prompt(envs, StartedAt(y, i)) && Missing(y, i) > 16
    ensures var z := Exchange(y, w, k, envs(r)); InRecovery(z, w, k, i, msg, envs(r + 1).now) && Missing(z, i) == Missing(y, i) - 16 && Unmoved(y, z, i)
  {
    hide InRecovery, Exchange, Missing, MissingCount;
    assert envs(r).free >= 16 && envs(r + 1).free >= 16;
    OneRound(y, w, k, i, msg, envs(r));
    Later(Exchange(y, w, k, envs(r)), w, k, i, msg, envs(r).now, envs(r + 1).now) by {
      assert InRecovery(Exchange(y, w, k, envs(r)), w, k, i, msg, envs(r).now);
    }
  }

  /** The number of rounds for m missing fragments. */
  function RoundsFor(m: nat): nat { (m + 15) / 16 }

  /** In the first r rounds the receiver stays in its phase. */
  ghost predicate Stays(x: Sides, w: Ends, k: Kem, envs: nat -> Env, r: nat) {
    forall q :: 0 <= q < r ==> Exchanges(x, w, k, envs, q).receiver.s.phase == x.receiver.s.phase
  }

  lemma StaysSo(x: Sides, w: Ends, k: Kem, envs: nat -> Env, i: nat, msg: Bytes)
    requires InRecovery(x, w, k, i, msg, envs(0).now) && Prompt(envs, StartedAt(x, i))
    ensures Stays(x, w, k, envs, RoundsFor(Missing(x, i)))
  {
    hide InRecovery, Exchange, Exchanges, Missing;
    forall q | 0 <= q < RoundsFor(Missing(x, i)) ensures Exchanges(x, w, k, envs, q).receiver.s.phase == x.receiver.s.phase {
      AfterRounds(x, w, k, envs, i, msg, q);
    }
  }

  /** The session is established with the secret in the ciphertext. */
  ghost predicate Derives(h: Hs, k: Kem, ct: CtBytes) {
    h.s.IsEstablished() && k.decaps(k.sk, ct) == Some(h.s.ss)
  }

  /** The session has encapsulated to the root's key and waits for the acknowledgement. */
  ghost predicate Encapsulates(h: Hs, k: Kem, coins: Bytes) {
    h.s.phase == WaitAck && k.encaps(k.pk, coins).Some? && h.ct == k.encaps(k.pk, coins).value.0 && h.s.ss == k.encaps(k.pk, coins).value.1
  }

  /** The last round, at the root. */
  lemma RootLast(y: Sides, w: Ends, k: Kem, i: nat, ct: CtBytes, env: Env)
    requires InRecovery(y, w, k, i, ct, env.now) && env.free >= 16 && Missing(y, i) <= 16
    requires y.receiver.s.role == RootRole && w.receiverHas && k.decaps(k.sk, ct).Some?
    ensures Derives(Exchange(y, w, k, env).receiver, k, ct)
    ensures Exchange(y, w, k, env).nack
      == Packet(MSG_ACK, y.receiver.s.nodeId, y.receiver.s.nextMsgId, 0, 1, [y.sender.s.pendingId], FLAG_NONE)
    ensures var s := Exchange(y, w, k, env).receiver.s;
      s.role == RootRole && s.nodeId == y.receiver.s.nodeId && s.nextMsgId == (y.receiver.s.nextMsgId + 1) % 256
    ensures var x := Exchange(y, w, k, env).sender; x.s == y.sender.s.(deadline := x.s.deadline) && x.ct == y.sender.ct
  {
    hide Holds, PartOf, FirstMissing, Handle, MissingCount, Feed, Answer, Asks, Fits, ReceivesIn, Completes;
    Served(y, w, k, i, ct, env);
    var e, s := Handle(y.sender, w.sender, y.nack, w.senderHas, k, env), y.sender.s;
    var h0 := AnswerCompletes(y.receiver, w.receiver, i, ct, s.pendingType, s.pendingId, e.out, w.receiverHas, k, env);
    CiphertextComplete(h0, w.receiver, e.out[|e.out| - 1], w.receiverHas, k, env, i, h0.slots[i].ctx, ct);
  }

  /** The last round, at the node. */
  lemma NodeLast(y: Sides, w: Ends, k: Kem, i: nat, env: Env)
    requires InRecovery(y, w, k, i, k.pk, env.now) && env.free >= 71 && Missing(y, i) <= 16
    requires y.receiver.s.role == NodeRole && y.receiver.s.phase == WaitPk && k.encaps(k.pk, env.coins).Some?
    ensures Encapsulates(Exchange(y, w, k, env).receiver, k, env.coins)
  {
    hide Holds, PartOf, FirstMissing, Handle, MissingCount, Feed, Answer, Asks, Fits, ReceivesIn, Completes, Whole;
    Served(y, w, k, i, k.pk, env);
    var e, s := Handle(y.sender, w.sender, y.nack, w.senderHas, k, env), y.sender.s;
    var h0 := AnswerCompletes(y.receiver, w.receiver, i, k.pk, s.pendingType, s.pendingId, e.out, w.receiverHas, k, env);
    KeyComplete(h0, w.receiver, e.out[|e.out| - 1], w.receiverHas, k, env, i, h0.slots[i].ctx, k.pk);
  }

  /** A root that lacks fragments of the ciphertext is established after exactly ceil(missing / 16) rounds, with the secret in it. */
  lemma RootRecovers(x: Sides, w: Ends, k: Kem, envs: nat -> Env, i: nat, ct: CtBytes)
    requires InRecovery(x, w, k, i, ct, envs(0).now) && Prompt(envs, StartedAt(x, i))
    requires x.receiver.s.role == RootRole && w.receiverHas && k.decaps(k.sk, ct).Some?
    ensures Derives(Exchanges(x, w, k, envs, RoundsFor(Missing(x, i))).receiver, k, ct)
    ensures Stays(x, w, k, envs, RoundsFor(Missing(x, i)))
  {
    hide InRecovery, Exchange, Missing, Derives, Stays;
    StaysSo(x, w, k, envs, i, ct);
    MissingSome(x, w, k, i, ct, envs(0).now);
    var last := RoundsFor(Missing(x, i)) - 1;
    AfterRounds(x, w, k, envs, i, ct, last);
    assert envs(last).free >= 16;
    RootLast(Exchanges(x, w, k, envs, last), w, k, i, ct, envs(last));
  }

  /** A node that lacks fragments of the key encapsulates to it after exactly ceil(missing / 16) rounds. */
  lemma NodeRecovers(x: Sides, w: Ends, k: Kem, envs: nat -> Env, i: nat)
    requires InRecovery(x, w, k, i, k.pk, envs(0).now) && Prompt(envs, StartedAt(x, i))
    requires x.receiver.s.role == NodeRole && x.receiver.s.phase == WaitPk
    requires forall r: nat {:trigger envs(r)} :: envs(r).free >= 71 && k.encaps(k.pk, envs(r).coins).Some?
    ensures RoundsFor(Missing(x, i)) > 0
    ensures Encapsulates(Exchanges(x, w, k, envs, RoundsFor(Missing(x, i))).receiver, k, envs(RoundsFor(Missing(x, i)) - 1).coins)
    ensures Stays(x, w, k, envs, RoundsFor(Missing(x, i)))
  {
    hide InRecovery, Exchange, Missing, Encapsulates, Stays;
    StaysSo(x, w, k, envs, i, k.pk);
    MissingSome(x, w, k, i, k.pk, envs(0).now);
    var last := RoundsFor(Missing(x, i)) - 1;
    AfterRounds(x, w, k, envs, i, k.pk, last);
    assert envs(last).free >= 71;
    NodeLast(Exchanges(x, w, k, envs, last), w, k, i, envs(last));
  }

  lemma MissingSome(x: Sides, w: Ends, k: Kem, i: nat, msg: Bytes, now: int)
    requires InRecovery(x, w, k, i, msg, now)
    ensures Missing(x, i) > 0
  {
    hide Holds, NackFor, MissingCount;
  }
}
