/** The handshake can succeed: a run without losses from every start, and the stretches of which runs with losses are made. */
module HandshakeCompletes {
  import opened Protocol
  import opened Fragmentation
  import opened SessionManager
  import opened Handshake
  import opened KeyExchange
  import opened KeyAgreement
  import opened HandshakeRules
  import opened MessageRules

  function NoSlots(): Slots { [FreeSlot(), FreeSlot()] }

  /** The reception after the first j fragments of msg, in order. */
  function Partial(msg: Bytes, msgType: Byte, n: NodeId, id: Byte, j: nat): (c: Ctx)
    requires j <= TxCount(|msg|)
  {
    if j == 0 then Empty() else Added(Partial(msg, msgType, n, id, j - 1), Fragment(msg, msgType, n, id, j - 1, FLAG_NONE))
  }

  /** The slots while the first j fragments are there. */
  function Filling(msg: Bytes, msgType: Byte, n: NodeId, id: Byte, who: nat, now: int, j: nat): Slots
    requires j <= TxCount(|msg|)
  {
    if j == 0 then NoSlots() else [Slot(true, who, now, 0, 0, 0, Partial(msg, msgType, n, id, j)), FreeSlot()]
  }

  lemma {:induction false} PartialHolds(msg: Bytes, msgType: Byte, n: NodeId, id: Byte, j: nat)
    requires 1 <= |msg| <= FRAG_MAX_MESSAGE && j <= TxCount(|msg|)
    ensures var c := Partial(msg, msgType, n, id, j);
      Holds(c, msg, msgType, n, id) && (j > 0 ==> c.active) && forall i :: 0 <= i < FRAG_MAX_FRAGS ==> (c.bitmap[i] <==> i < j)
  {
    hide Holds, Added, Fragment;
    if j == 0 {
      EmptyHolds(msg, msgType, n, id);
    } else {
      PartialHolds(msg, msgType, n, id, j - 1);
      AddedHolds(Partial(msg, msgType, n, id, j - 1), msg, msgType, n, id, j - 1, FLAG_NONE);
    }
  }

  lemma PartMessage(msg: Bytes, msgType: Byte, n: NodeId, id: Byte, j: nat)
    requires 1 <= |msg| <= FRAG_MAX_MESSAGE && 0 < j < TxCount(|msg|)
    ensures var c := Partial(msg, msgType, n, id, j); !c.Complete() && c.totalFrags == TxCount(|msg|) && !c.bitmap[c.totalFrags - 1]
  {
    hide Partial;
    PartialHolds(msg, msgType, n, id, j);
    CompleteMeansMessage(Partial(msg, msgType, n, id, j), msg, msgType, n, id);
  }

  /** The flags of a fragment do not matter to the reception. */
  lemma FlagsIgnored(c: Ctx, msg: Bytes, msgType: Byte, n: NodeId, id: Byte, j: nat, flags: Byte)
    requires j < TxCount(|msg|)
    ensures Added(c, Fragment(msg, msgType, n, id, j, flags)) == Added(c, Fragment(msg, msgType, n, id, j, FLAG_NONE))
  {}

  lemma FillingKept(msg: Bytes, msgType: Byte, n: NodeId, id: Byte, who: nat, now: int, j: nat)
    requires j <= TxCount(|msg|)
    ensures var slots, c := Filling(msg, msgType, n, id, who, now, j), Partial(msg, msgType, n, id, j);
      && Gc(slots, now) == slots && OneSlot(slots, who) && ReceivesIn(slots, who, now, 0, c)
      && GetSlot(slots, who, now).0 == [Slot(true, who, now, 0, 0, 0, c), FreeSlot()]
      && (j == 0 ==> slots == NoSlots())
  {
    hide Partial;
    assert j == 0 ==> Partial(msg, msgType, n, id, j) == Empty() by { NothingYet(msg, msgType, n, id); }
  }

  lemma NothingYet(msg: Bytes, msgType: Byte, n: NodeId, id: Byte)
    ensures Partial(msg, msgType, n, id, 0) == Empty()
  {}

  /** The session waits for such a message and has its first j fragments. */
  ghost predicate Takes(h: Hs, msg: Bytes, msgType: Byte, n: NodeId, id: Byte, who: nat, now: int, j: nat) {
    && Coherent(h.s) && h.s.nodeId == n && n != INVALID_NODE_ID && Expected(h.s, msgType)
    && 1 <= |msg| <= FRAG_MAX_MESSAGE && j <= TxCount(|msg|) && h.slots == Filling(msg, msgType, n, id, who, now, j)
  }

  lemma TakesFits(h: Hs, msg: Bytes, msgType: Byte, n: NodeId, id: Byte, flags: Byte, who: nat, now: int, j: nat)
    requires Takes(h, msg, msgType, n, id, who, now, j) && j < TxCount(|msg|)
    ensures var p, c := Fragment(msg, msgType, n, id, j, flags), Partial(msg, msgType, n, id, j);
      && Fits(h, p, msg, c) && ReceivesIn(h.slots, who, now, 0, c) && OneSlot(h.slots, who)
      && p.msgType == msgType && p.msgId == id && p.fragIdx == j && p.nodeId == n && p.totalFrags == TxCount(|msg|)
      && (Completes(p, msg, c) <==> j + 1 == TxCount(|msg|)) && Added(c, p) == Partial(msg, msgType, n, id, j + 1)
      && Into(h.slots, who, now, 0, Added(c, p)) == Filling(msg, msgType, n, id, who, now, j + 1)
  {
    hide Holds, Added, Gc, GetSlot, PartOf;
    var c, p := Partial(msg, msgType, n, id, j), Fragment(msg, msgType, n, id, j, flags);
    FillingKept(msg, msgType, n, id, who, now, j);
    PartialHolds(msg, msgType, n, id, j);
    FragmentIsPart(msg, msgType, n, id, j, flags);
    FlagsIgnored(c, msg, msgType, n, id, j, flags);
    if j + 1 < TxCount(|msg|) { assert !c.bitmap[j + 1]; }
  }

  /** A fragment that is not the last one only fills the slot. */
  lemma CollectMore(h: Hs, msg: Bytes, msgType: Byte, n: NodeId, id: Byte, flags: Byte, who: nat, has: bool, k: Kem, env: Env, j: nat)
    requires Takes(h, msg, msgType, n, id, who, env.now, j) && j + 1 < TxCount(|msg|)
    ensures Handle(h, who, Fragment(msg, msgType, n, id, j, flags), has, k, env)
      == Effect(h.(slots := Filling(msg, msgType, n, id, who, env.now, j + 1)), [], true)
  {
    hide Fragment, Partial, Handle, Fits, ReceivesIn, Completes, GetSlot, Gc;
    TakesFits(h, msg, msgType, n, id, flags, who, env.now, j);
    PartMessage(msg, msgType, n, id, j + 1);
    Kept(h, who, Fragment(msg, msgType, n, id, j, flags), has, k, env, 0, Partial(msg, msgType, n, id, j), msg);
  }

  // ---- the stages of an exchange

  ghost predicate Offered(packets: set<Packet>, msg: Bytes, msgType: Byte, n: NodeId, id: Byte, flags: Byte) {
    forall j :: 0 <= j < TxCount(|msg|) ==> Fragment(msg, msgType, n, id, j, flags) in packets
  }

  lemma WholeOffered(out: seq<Packet>, packets: set<Packet>, msg: Bytes, msgType: Byte, n: NodeId, id: Byte, flags: Byte)
    requires Whole(out, msg, msgType, n, id, flags) && 1 <= |msg| <= FRAG_MAX_MESSAGE
    ensures Offered(packets + AsSet(out), msg, msgType, n, id, flags)
  {
    hide PartOf, Fragment;
    assert |out| == TxCount(|msg|) by { TotalIsCount(msg, |out|); }
    forall j | 0 <= j < TxCount(|msg|) ensures Fragment(msg, msgType, n, id, j, flags) in packets + AsSet(out) {
      PartIsFragment(out[j], msg, msgType, n, id, j, flags);
      assert out[j] in AsSet(out);
    }
  }

  /** The root waits for the ciphertext; nothing of it is there, or part of it. */
  ghost predicate RootWaits(r: Root, n: NodeId) {
    Coherent(r.h.s) && r.h.s.role == RootRole && r.h.s.nodeId == n && r.h.s.phase == WaitCt && r.hasKeypair
  }

  ghost predicate NodeWaits(d: Node, n: NodeId, ct: Bytes, ss: Bytes, id: Byte) {
    && Coherent(d.h.s) && d.h.s.role == NodeRole && d.h.s.nodeId == n && n != INVALID_NODE_ID && d.h.s.phase == WaitAck
    && d.h.ct == ct && d.h.s.ss == ss && d.h.s.pendingId == id && d.h.slots == NoSlots()
  }

  /** The key is on its way and its first j fragments have arrived. */
  ghost predicate KeyArriving(w: World, n: NodeId, k: Kem, id: Byte, flags: Byte, now: int, j: nat) {
    && w.node.h.s.role == NodeRole && Takes(w.node.h, k.pk, MSG_PK, n, id, LOCAL, now, j) && w.node.h.s.phase == WaitPk
    && RootWaits(w.root, n) && w.root.h.slots == NoSlots() && Offered(w.toNode, k.pk, MSG_PK, n, id, flags)
  }

  /** The ciphertext is on its way and its first j fragments have arrived. */
  ghost predicate CtArriving(w: World, who: nat, n: NodeId, ct: CtBytes, ss: Bytes, id: Byte, flags: Byte, now: int, j: nat) {
    && NodeWaits(w.node, n, ct, ss, id)
    && RootWaits(w.root, n) && Takes(w.root.h, ct, MSG_CT, n, id, who, now, j) && Offered(w.toRoot, ct, MSG_CT, n, id, flags)
  }

  /** The root has derived the secret, and its acknowledgement is on its way. */
  ghost predicate AckArriving(w: World, n: NodeId, ct: Bytes, ss: Bytes, id: Byte, ack: Byte) {
    && NodeWaits(w.node, n, ct, ss, id) && Packet(MSG_ACK, n, ack, 0, 1, [id], FLAG_NONE) in w.toNode
    && w.root.h.s.IsEstablished() && w.root.h.s.role == RootRole && w.root.h.s.nodeId == n && w.root.h.s.ss == ss
    && w.root.h.s.nextMsgId == (ack + 1) % 256
  }

  predicate Both(w: World, ss: Bytes) {
    w.node.h.s.IsEstablished() && w.root.h.s.IsEstablished() && w.node.h.s.ss == ss && w.root.h.s.ss == ss
  }

  // ---- one step of one side

  predicate Ample(env: Env) { env.free >= QUEUE_SIZE && env.keygen }

  /** The node sends its request. */
  lemma NodeAsks(d: Node, env: Env)
    requires Ample(env) && ShouldRequest(d)
    ensures NodeRequest(d, env) == (
      Node(d.h.(s := d.h.s.(phase := WaitPk, pendingType := MSG_GETPK, pendingId := 0, waiting := true, deadline := env.now + 120 * SECOND)), true),
      [Packet(MSG_GETPK, d.h.s.nodeId, 0, 0, 1, [], FLAG_NONE)])
  {}

  lemma NodeTakes(d: Node, k: Kem, n: NodeId, id: Byte, flags: Byte, env: Env, j: nat)
    requires Takes(d.h, k.pk, MSG_PK, n, id, LOCAL, env.now, j) && j + 1 < TxCount(PK_LEN)
    ensures NodeReceive(d, Fragment(k.pk, MSG_PK, n, id, j, flags), k, env)
      == (Node(d.h.(slots := Filling(k.pk, MSG_PK, n, id, LOCAL, env.now, j + 1)), d.getPkInFlight && d.h.s.pendingType == MSG_GETPK), [])
  {
    hide Fragment, Handle, Takes;
    CollectMore(d.h, k.pk, MSG_PK, n, id, flags, LOCAL, false, k, env, j);
  }

  /** The last fragment of the key brings out the ciphertext. */
  lemma NodeAnswers(d: Node, k: Kem, n: NodeId, id: Byte, flags: Byte, env: Env)
    requires Takes(d.h, k.pk, MSG_PK, n, id, LOCAL, env.now, TxCount(PK_LEN) - 1) && d.h.s.role == NodeRole
    requires Ample(env) && k.encaps(k.pk, env.coins).Some?
    ensures var (d', out) := NodeReceive(d, Fragment(k.pk, MSG_PK, n, id, TxCount(PK_LEN) - 1, flags), k, env);
      var e := k.encaps(k.pk, env.coins).value;
      && NodeWaits(d', n, e.0, e.1, d.h.s.nextMsgId) && Whole(out, e.0, MSG_CT, n, d.h.s.nextMsgId, FLAG_NONE)
      && !d'.getPkInFlight && d'.h.s.retryCount == 0 && d'.h.s.deadline == env.now + 130 * SECOND + 71 * SECOND / 4
  {
    hide Fragment, Partial, Handle, Fits, ReceivesIn, Completes, GetSlot, Gc, Whole;
    var t := TxCount(PK_LEN);
    TakesFits(d.h, k.pk, MSG_PK, n, id, flags, LOCAL, env.now, t - 1);
    var p := Fragment(k.pk, MSG_PK, n, id, t - 1, flags);
    KeyComplete(d.h, LOCAL, p, false, k, env, 0, Partial(k.pk, MSG_PK, n, id, t - 1), k.pk);
    EmptiedSlots(d.h, LOCAL, p, false, k, env, k.pk, MSG_PK, n, id, flags);
  }

  /** Completing a message leaves both slots free. */
  lemma EmptiedSlots(h: Hs, who: nat, p: Packet, has: bool, k: Kem, env: Env, msg: Bytes, msgType: Byte, n: NodeId, id: Byte, flags: Byte)
    requires TxCount(|msg|) > 0 && Takes(h, msg, msgType, n, id, who, env.now, TxCount(|msg|) - 1)
    requires p == Fragment(msg, msgType, n, id, TxCount(|msg|) - 1, flags)
    ensures Handle(h, who, p, has, k, env).h.slots == NoSlots()
  {
    hide Fragment, Partial, Handle, Fits, ReceivesIn, Completes, GetSlot, Gc, Fragments, Into, Takes;
    var t := TxCount(|msg|);
    TakesFits(h, msg, msgType, n, id, flags, who, env.now, t - 1);
    Collected(h, who, p, has, k, env, 0, Partial(msg, msgType, n, id, t - 1), msg);
    FinishEmpties(h.(slots := Filling(msg, msgType, n, id, who, env.now, t)), who, Partial(msg, msgType, n, id, t), p, has, k, env);
    assert Release(Filling(msg, msgType, n, id, who, env.now, t), who) == NoSlots();
  }

  lemma FinishEmpties(h: Hs, who: nat, c: Ctx, p: Packet, has: bool, k: Kem, env: Env)
    ensures Finish(h, who, c, p, has, k, env).h.slots == Release(h.slots, who)
  {
    hide Fragments, Release;
  }

  /** The root's session once the first fragment of the ciphertext has come. */
  function Started(s: Session, id: Byte, now: int): Session {
    if s.pendingType == MSG_PK then s.(pendingType := MSG_CT, pendingId := id, waiting := true, deadline := now + 120 * SECOND) else s
  }

  lemma RootTakes(r: Root, who: nat, ct: CtBytes, k: Kem, n: NodeId, id: Byte, flags: Byte, env: Env, j: nat)
    requires RootWaits(r, n) && Takes(r.h, ct, MSG_CT, n, id, who, env.now, j) && j + 1 < TxCount(CT_LEN)
    ensures RootReceive(r, who, Fragment(ct, MSG_CT, n, id, j, flags), k, env)
      == (r.(h := r.h.(s := Started(r.h.s, id, env.now), slots := Filling(ct, MSG_CT, n, id, who, env.now, j + 1))), [])
  {
    hide Fragment, Handle;
    CollectMore(r.h.(s := Started(r.h.s, id, env.now)), ct, MSG_CT, n, id, flags, who, r.hasKeypair, k, env, j);
    TakesFits(r.h, ct, MSG_CT, n, id, flags, who, env.now, j);
  }

  /** The last fragment of the ciphertext brings out the acknowledgement. */
  lemma RootAcknowledges(r: Root, who: nat, ct: CtBytes, ss: Bytes, k: Kem, n: NodeId, id: Byte, flags: Byte, env: Env)
    requires RootWaits(r, n) && Takes(r.h, ct, MSG_CT, n, id, who, env.now, TxCount(CT_LEN) - 1)
    requires Ample(env) && k.decaps(k.sk, ct) == Some(ss)
    ensures var (r', out) := RootReceive(r, who, Fragment(ct, MSG_CT, n, id, TxCount(CT_LEN) - 1, flags), k, env);
      && r'.h.s.IsEstablished() && r'.h.s.ss == ss && r'.h.s.role == RootRole && r'.h.s.nodeId == n
      && r'.h.s.nextMsgId == (r.h.s.nextMsgId + 1) % 256
      && out == [Packet(MSG_ACK, n, r.h.s.nextMsgId, 0, 1, [id], FLAG_NONE)]
  {
    hide Fragment, Partial, Handle, Fits, ReceivesIn, Completes, GetSlot, Gc;
    var t := TxCount(CT_LEN);
    var h := r.h.(s := Started(r.h.s, id, env.now));
    TakesFits(h, ct, MSG_CT, n, id, flags, who, env.now, t - 1);
    CiphertextComplete(h, who, Fragment(ct, MSG_CT, n, id, t - 1, flags), r.hasKeypair, k, env, 0, Partial(ct, MSG_CT, n, id, t - 1), ct);
  }

  /** The acknowledgement establishes the node. */
  lemma NodeFinishes(d: Node, k: Kem, n: NodeId, ct: Bytes, ss: Bytes, id: Byte, ack: Byte, env: Env)
    requires NodeWaits(d, n, ct, ss, id)
    ensures var (d', out) := NodeReceive(d, Packet(MSG_ACK, n, ack, 0, 1, [id], FLAG_NONE), k, env);
      d'.h.s.IsEstablished() && d'.h.s.ss == ss && out == [] && d'.h.ct == []
  {
    hide Partial, Handle, Fits, ReceivesIn, Completes, GetSlot, Gc;
    var p := Packet(MSG_ACK, n, ack, 0, 1, [id], FLAG_NONE);
    OneByte(id, MSG_ACK, n, ack);
    assert Fragments([id], MSG_ACK, n, ack, FLAG_NONE)[0] == p;
    FillingKept([id], MSG_ACK, n, ack, LOCAL, env.now, 0);
    TakesFits(d.h, [id], MSG_ACK, n, ack, FLAG_NONE, LOCAL, env.now, 0);
    AcknowledgementComplete(d.h, LOCAL, p, false, k, env, 0, Partial([id], MSG_ACK, n, ack, 0), [id]);
  }
}
