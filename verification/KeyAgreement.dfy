/** Key agreement over whole runs of one attempt, whatever the network does. */
module KeyAgreement {
  import opened Protocol
  import opened Fragmentation
  import opened Nack
  import opened SessionManager
  import opened Handshake
  import opened KeyExchange
  import opened AttemptEnds

  // ---- the world

  /** The ciphertext the node made, the secret in it, and the message id it is sent under. */
  datatype Secret = Secret(ct: Bytes, ss: Bytes, id: Byte)

  /**
   * Both sides and every packet sent so far. A packet stays in its set for ever: it may be delivered at any later
   * time, in any order, any number of times, or never. The last two fields remember what has happened.
   */
  datatype World = World(node: Node, root: Root, toRoot: set<Packet>, toNode: set<Packet>,
                         encapsulated: Option<Secret>, derived: Option<Bytes>)

  datatype Event =
    | Request(env: Env)
    | NodeGets(p: Packet, env: Env)
    | NodeClock(env: Env)
    | RootGets(p: Packet, env: Env)
    | RootClock(env: Env)
    | Others(slots: Slots)

  function AsSet(ps: seq<Packet>): set<Packet> { set i | 0 <= i < |ps| :: ps[i] }

  /** Sessions of other nodes may take, change and give back reception slots, but not this session's slot. */
  predicate OthersMay(slots: Slots, slots': Slots, who: nat) {
    forall i :: 0 <= i < SLOT_COUNT ==> if Owned(slots, i, who) then slots'[i] == slots[i] else !Owned(slots', i, who)
  }

  predicate Enabled(w: World, who: nat, e: Event) {
    match e
    case NodeGets(p, _) => p in w.toNode
    case RootGets(p, _) => p in w.toRoot
    case Others(slots) => OthersMay(w.root.h.slots, slots, who)
    case _ => true
  }

  /** The node encapsulates exactly when it goes from waiting for the key to waiting for the acknowledgement. */
  function Encapsulated(before: Hs, after: Hs, previous: Option<Secret>): Option<Secret> {
    if before.s.phase == WaitPk && after.s.phase == WaitAck then Some(Secret(after.ct, after.s.ss, after.s.pendingId)) else previous
  }

  /** The root derives a secret exactly when its session becomes established. */
  function Derived(before: Hs, after: Hs, previous: Option<Bytes>): Option<Bytes> {
    if !before.s.IsEstablished() && after.s.IsEstablished() then Some(after.s.ss) else previous
  }

  function Step(w: World, who: nat, e: Event, k: Kem): World {
    match e
    case Request(env) =>
      var (d, out) := NodeRequest(w.node, env);
      w.(node := d, toRoot := w.toRoot + AsSet(out))
    case NodeGets(p, env) =>
      var (d, out) := NodeReceive(w.node, p, k, env);
      w.(node := d, toRoot := w.toRoot + AsSet(out), encapsulated := Encapsulated(w.node.h, d.h, w.encapsulated))
    case NodeClock(env) =>
      var (d, out) := NodeTick(w.node, k, env);
      w.(node := d, toRoot := w.toRoot + AsSet(out))
    case RootGets(p, env) =>
      var (r, out) := RootReceive(w.root, who, p, k, env);
      w.(root := r, toNode := w.toNode + AsSet(out), derived := Derived(w.root.h, r.h, w.derived))
    case RootClock(env) =>
      var (r, out) := RootTick(w.root, who, k, env);
      w.(root := r, toNode := w.toNode + AsSet(out))
    case Others(slots) =>
      w.(root := w.root.(h := w.root.h.(slots := slots)))
  }

  /** The start of an attempt: both sessions fresh, nothing in flight, no slot held by either session. */
  ghost predicate Initial(w: World, who: nat, n: NodeId) {
    && w.node.h.s == Fresh(NodeRole, n) && w.root.h.s == Fresh(RootRole, n) && n != INVALID_NODE_ID
    && w.toRoot == {} && w.toNode == {} && w.encapsulated == None && w.derived == None
    && (forall i :: 0 <= i < SLOT_COUNT ==> !Owned(w.node.h.slots, i, LOCAL) && !Owned(w.root.h.slots, i, who))
  }

  ghost predicate Run(ws: seq<World>, es: seq<Event>, who: nat, n: NodeId, k: Kem) {
    && |ws| == |es| + 1 && Initial(ws[0], who, n)
    && forall i :: 0 <= i < |es| ==> Enabled(ws[i], who, es[i]) && ws[i + 1] == Step(ws[i], who, es[i], k)
  }

  // ---- what every packet and every slot holds

  /** p is the fragment of msg that its header says it is. */
  predicate FragmentOf(p: Packet, msg: Bytes) {
    p.fragIdx < TxCount(|msg|) && p == Fragment(msg, p.msgType, p.nodeId, p.msgId, p.fragIdx, p.flags)
  }

  predicate GoodToRoot(p: Packet, n: NodeId, enc: Option<Secret>) {
    && p.nodeId == n && (p.msgType == MSG_GETPK || p.msgType == MSG_CT || p.msgType == MSG_NACK)
    && (p.msgType == MSG_CT ==> enc.Some? && p.msgId == enc.value.id && FragmentOf(p, enc.value.ct))
  }

  predicate GoodToNode(p: Packet, n: NodeId, pk: Bytes, der: Option<Bytes>) {
    && p.nodeId == n && (p.msgType == MSG_PK || p.msgType == MSG_ACK || p.msgType == MSG_NACK)
    && (p.msgType == MSG_PK ==> FragmentOf(p, pk))
    && (p.msgType == MSG_ACK ==> der.Some?)
  }

  /** A slot of the node: empty, or part of the root's public key, or an acknowledgement. */
  ghost predicate NodeCtx(c: Rx, n: NodeId, pk: Bytes, der: Option<Bytes>) {
    || c == Empty()
    || (c.active && c.msgType == MSG_PK && Holds(c, pk, MSG_PK, n, c.msgId))
    || (c.active && c.msgType == MSG_ACK && der.Some?)
  }

  /** The root's slot for this node: empty, or part of the node's ciphertext. */
  ghost predicate RootCtx(c: Rx, n: NodeId, enc: Option<Secret>) {
    || c == Empty()
    || (enc.Some? && c.active && c.msgType == MSG_CT && Holds(c, enc.value.ct, MSG_CT, n, enc.value.id))
  }

  ghost predicate NodeSlots(slots: Slots, n: NodeId, pk: Bytes, der: Option<Bytes>) {
    forall i :: 0 <= i < SLOT_COUNT && Owned(slots, i, LOCAL) ==> NodeCtx(slots[i].ctx, n, pk, der)
  }

  ghost predicate RootSlots(slots: Slots, who: nat, n: NodeId, enc: Option<Secret>) {
    forall i :: 0 <= i < SLOT_COUNT && Owned(slots, i, who) ==> RootCtx(slots[i].ctx, n, enc)
  }

  ghost predicate NodeSession(h: Hs, n: NodeId, enc: Option<Secret>, der: Option<Bytes>) {
    && h.s.role == NodeRole && h.s.nodeId == n && n != INVALID_NODE_ID && Coherent(h.s)
    && (enc.None? ==> h.s.phase == Idle || h.s.phase == WaitPk || h.s.phase == Failed)
    && (enc.Some? ==> h.s.phase == WaitAck || h.s.phase == Established || h.s.phase == Failed)
    && (h.s.phase == WaitAck ==> Secret(h.ct, h.s.ss, h.s.pendingId) == enc.value)
    && (h.s.phase == Established ==> h.s.ss == enc.value.ss && der.Some?)
  }

  /** What the node made is a ciphertext for the root's key, and the root derives nothing else. */
  ghost predicate Secrets(k: Kem, enc: Option<Secret>, der: Option<Bytes>) {
    && (enc.Some? ==> |enc.value.ct| == CT_LEN && k.decaps(k.sk, enc.value.ct) == Some(enc.value.ss))
    && (der.Some? ==> enc.Some? && der.value == enc.value.ss)
  }

  ghost predicate RootSession(h: Hs, n: NodeId, der: Option<Bytes>) {
    && h.s.role == RootRole && h.s.nodeId == n && Coherent(h.s)
    && (h.s.phase == Established ==> der == Some(h.s.ss))
  }

  ghost predicate Inv(w: World, who: nat, n: NodeId, k: Kem) {
    && Secrets(k, w.encapsulated, w.derived)
    && NodeSession(w.node.h, n, w.encapsulated, w.derived) && NodeSlots(w.node.h.slots, n, k.pk, w.derived)
    && RootSession(w.root.h, n, w.derived) && RootSlots(w.root.h.slots, who, n, w.encapsulated)
    && (forall p :: p in w.toRoot ==> GoodToRoot(p, n, w.encapsulated))
    && (forall p :: p in w.toNode ==> GoodToNode(p, n, k.pk, w.derived))
  }

  predicate AllToRoot(out: seq<Packet>, n: NodeId, enc: Option<Secret>) {
    forall i :: 0 <= i < |out| ==> GoodToRoot(out[i], n, enc)
  }

  predicate AllToNode(out: seq<Packet>, n: NodeId, pk: Bytes, der: Option<Bytes>) {
    forall i :: 0 <= i < |out| ==> GoodToNode(out[i], n, pk, der)
  }

  // ---- slots

  lemma GcSlots(slots: Slots, now: int, who: nat, i: nat)
    requires i < SLOT_COUNT && Owned(Gc(slots, now), i, who)
    ensures Owned(slots, i, who) && Gc(slots, now)[i] == slots[i]
  {}

  lemma GcNode(slots: Slots, now: int, n: NodeId, pk: Bytes, der: Option<Bytes>)
    requires NodeSlots(slots, n, pk, der)
    ensures NodeSlots(Gc(slots, now), n, pk, der)
  {
    hide NodeCtx;
    forall i | 0 <= i < SLOT_COUNT && Owned(Gc(slots, now), i, LOCAL) ensures NodeCtx(Gc(slots, now)[i].ctx, n, pk, der) {
      GcSlots(slots, now, LOCAL, i);
    }
  }

  lemma GcRoot(slots: Slots, now: int, who: nat, n: NodeId, enc: Option<Secret>)
    requires RootSlots(slots, who, n, enc)
    ensures RootSlots(Gc(slots, now), who, n, enc)
  {
    hide RootCtx;
    forall i | 0 <= i < SLOT_COUNT && Owned(Gc(slots, now), i, who) ensures RootCtx(Gc(slots, now)[i].ctx, n, enc) {
      GcSlots(slots, now, who, i);
    }
  }

  lemma ReleaseNode(slots: Slots, n: NodeId, pk: Bytes, der: Option<Bytes>)
    requires NodeSlots(slots, n, pk, der)
    ensures NodeSlots(Release(slots, LOCAL), n, pk, der)
  {
    hide NodeCtx;
  }

  lemma ReleaseRoot(slots: Slots, who: nat, n: NodeId, enc: Option<Secret>)
    requires RootSlots(slots, who, n, enc)
    ensures RootSlots(Release(slots, who), who, n, enc)
  {
    hide RootCtx;
  }

  /** Slots that differ from good ones only in entry i are good when entry i is. */
  lemma PutNode(slots: Slots, i: nat, slot: Slot, n: NodeId, pk: Bytes, der: Option<Bytes>)
    requires i < SLOT_COUNT && NodeCtx(slot.ctx, n, pk, der)
    requires forall j :: 0 <= j < SLOT_COUNT && j != i && Owned(slots, j, LOCAL) ==> NodeCtx(slots[j].ctx, n, pk, der)
    ensures NodeSlots(slots[i := slot], n, pk, der)
  {
    hide NodeCtx;
  }

  lemma PutRoot(slots: Slots, i: nat, slot: Slot, who: nat, n: NodeId, enc: Option<Secret>)
    requires i < SLOT_COUNT && RootCtx(slot.ctx, n, enc)
    requires forall j :: 0 <= j < SLOT_COUNT && j != i && Owned(slots, j, who) ==> RootCtx(slots[j].ctx, n, enc)
    ensures RootSlots(slots[i := slot], who, n, enc)
  {
    hide RootCtx;
  }

  lemma GetNode(slots: Slots, now: int, n: NodeId, pk: Bytes, der: Option<Bytes>)
    requires NodeSlots(slots, n, pk, der)
    ensures NodeSlots(GetSlot(slots, LOCAL, now).0, n, pk, der)
  {
    hide NodeCtx, Empty;
    assert NodeCtx(Empty(), n, pk, der) by { EmptyNodeCtx(n, pk, der); }
  }

  lemma EmptyNodeCtx(n: NodeId, pk: Bytes, der: Option<Bytes>)
    ensures NodeCtx(Empty(), n, pk, der)
  {}

  lemma GetRoot(slots: Slots, who: nat, now: int, n: NodeId, enc: Option<Secret>)
    requires RootSlots(slots, who, n, enc)
    ensures RootSlots(GetSlot(slots, who, now).0, who, n, enc)
  {
    hide RootCtx, Empty;
    assert RootCtx(Empty(), n, enc) by { EmptyRootCtx(n, enc); }
  }

  lemma EmptyRootCtx(n: NodeId, enc: Option<Secret>)
    ensures RootCtx(Empty(), n, enc)
  {}

  // ---- adding a good packet to a good slot

  lemma AddToNode(c: Ctx, p: Packet, n: NodeId, pk: Bytes, der: Option<Bytes>)
    requires NodeCtx(c, n, pk, der) && GoodToNode(p, n, pk, der) && p.msgType != MSG_NACK
    requires |pk| == PK_LEN
    ensures NodeCtx(Added(c, p), n, pk, der)
    ensures Accepts(c, p) && Added(c, p).Complete() && p.msgType == MSG_PK ==>
      Added(c, p).receivedLen == PK_LEN && Added(c, p).buffer[..PK_LEN] == pk
    ensures Accepts(c, p) && p.msgType == MSG_ACK ==> der.Some?
  {
    hide Holds, Empty;
    if Accepts(c, p) && p.msgType == MSG_PK {
      assert Holds(c, pk, MSG_PK, n, p.msgId) by { StartHolds(c, pk, MSG_PK, n, p.msgId); }
      AddedHolds(c, pk, MSG_PK, n, p.msgId, p.fragIdx, p.flags);
      var d := Added(c, p);
      CompleteMeansMessage(d, pk, MSG_PK, n, p.msgId);
      AddedFields(c, p);
    } else if Accepts(c, p) {
      AddedFields(c, p);
    }
  }

  lemma AddedFields(c: Rx, p: Packet)
    requires c.Shape() && Accepts(c, p)
    ensures Added(c, p).active && Added(c, p).msgType == p.msgType && Added(c, p).msgId == p.msgId
  {}

  lemma StartHolds(c: Rx, msg: Bytes, msgType: Byte, n: NodeId, msgId: Byte)
    requires 1 <= |msg| <= FRAG_MAX_MESSAGE
    requires c == Empty() || (c.active && c.msgType == msgType && c.msgId == msgId && Holds(c, msg, msgType, n, c.msgId))
    ensures Holds(c, msg, msgType, n, msgId)
  {
    hide Holds;
    EmptyHolds(msg, msgType, n, msgId);
  }

  lemma AddToRoot(c: Ctx, p: Packet, n: NodeId, enc: Option<Secret>)
    requires RootCtx(c, n, enc) && GoodToRoot(p, n, enc) && p.msgType == MSG_CT && |enc.value.ct| == CT_LEN
    ensures RootCtx(Added(c, p), n, enc)
    ensures Accepts(c, p) && Added(c, p).Complete() ==>
      Added(c, p).receivedLen == CT_LEN && Added(c, p).buffer[..CT_LEN] == enc.value.ct
  {
    hide Holds, Empty;
    var ct, id := enc.value.ct, enc.value.id;
    if Accepts(c, p) {
      EmptyHolds(ct, MSG_CT, n, id);
      AddedHolds(c, ct, MSG_CT, n, id, p.fragIdx, p.flags);
      CompleteMeansMessage(Added(c, p), ct, MSG_CT, n, id);
      AddedFields(c, p);
    }
  }

  // ---- what the two sides send

  lemma FragmentsToRoot(ct: Bytes, n: NodeId, id: Byte, flags: Byte, enc: Option<Secret>)
    requires enc.Some? && enc.value.ct == ct && enc.value.id == id
    ensures AllToRoot(Fragments(ct, MSG_CT, n, id, flags), n, enc)
  {}

  lemma NackGoes(h: Hs, c: Ctx, free: nat, n: NodeId, enc: Option<Secret>, pk: Bytes, der: Option<Bytes>)
    requires h.s.nodeId == n
    ensures var e := SendNack(h, c, free).0;
      && AllToRoot(e.out, n, enc) && AllToNode(e.out, n, pk, der)
      && (e.h == h || e.h == h.(s := h.s.TakeMsgId()))
  {
    hide FirstMissing, Encode;
  }

  lemma FragmentsToNode(pk: Bytes, n: NodeId, id: Byte, flags: Byte, der: Option<Bytes>)
    ensures AllToNode(Fragments(pk, MSG_PK, n, id, flags), n, pk, der)
  {}

  lemma AckToNode(payload: Bytes, n: NodeId, id: Byte, pk: Bytes, der: Option<Bytes>)
    requires der.Some?
    ensures AllToNode(Fragments(payload, MSG_ACK, n, id, FLAG_NONE), n, pk, der)
  {}

  // ---- the node handles a packet

  lemma NodeRetransmits(h: Hs, m: NackMsg, n: NodeId, k: Kem, env: Env, enc: Option<Secret>, der: Option<Bytes>)
    requires NodeSession(h, n, enc, der) && forall j :: 0 <= j < |m.missing| ==> m.missing[j] < m.totalFrags
    ensures var e := Retransmit(h, m, k, env.now, env.free);
      NodeSession(e.h, n, enc, der) && e.h.slots == h.slots && e.h.s.phase == h.s.phase && AllToRoot(e.out, n, enc)
  {
    hide TransferExtra;
  }

  /** A reception that stays incomplete: at most a NACK goes out. */
  lemma NodeNacks(h: Hs, i: nat, n: NodeId, pk: Bytes, env: Env, enc: Option<Secret>, der: Option<Bytes>)
    requires i < SLOT_COUNT && NodeSession(h, n, enc, der) && NodeSlots(h.slots, n, pk, der)
    ensures var (e, missing) := SendNack(h, h.slots[i].ctx, env.free);
      var h2 := NoteNack(e.h, i, missing, env.now);
      NodeSession(h2, n, enc, der) && NodeSlots(h2.slots, n, pk, der) && h2.s.phase == h.s.phase && AllToRoot(e.out, n, enc)
  {
    hide NodeCtx, SendNack, AllToRoot;
    NackGoes(h, h.slots[i].ctx, env.free, n, enc, pk, der);
  }

  /** The node completes the public key: from now on there is a secret. */
  lemma NodeEncapsulates(h: Hs, c: Ctx, n: NodeId, k: Kem, env: Env, enc: Option<Secret>, der: Option<Bytes>)
    requires Lawful(k) && NodeSession(h, n, enc, der) && NodeSlots(h.slots, n, k.pk, der) && Secrets(k, enc, der)
    requires h.s.phase == WaitPk && (c.receivedLen == PK_LEN ==> c.buffer[..PK_LEN] == k.pk)
    ensures var e := PkComplete(h, LOCAL, c, k, env);
      var enc' := Encapsulated(h, e.h, enc);
      && Secrets(k, enc', der) && NodeSession(e.h, n, enc', der) && NodeSlots(e.h.slots, n, k.pk, der) && AllToRoot(e.out, n, enc')
  {
    hide NodeCtx, Fragments, TransferExtra, NodeSlots, Release;
    ReleaseNode(h.slots, n, k.pk, der);
    var e := PkComplete(h, LOCAL, c, k, env);
    if e.out != [] {
      FragmentsToRoot(e.h.ct, n, h.s.nextMsgId, FLAG_NONE, Encapsulated(h, e.h, enc));
    }
  }

  lemma NodeAcknowledged(h: Hs, c: Ctx, n: NodeId, k: Kem, enc: Option<Secret>, der: Option<Bytes>)
    requires NodeSession(h, n, enc, der) && NodeSlots(h.slots, n, k.pk, der) && h.s.phase == WaitAck && der.Some?
    ensures var e := AckComplete(h, LOCAL, c);
      NodeSession(e.h, n, enc, der) && NodeSlots(e.h.slots, n, k.pk, der) && e.out == []
  {
    hide NodeCtx, NodeSlots, Release;
    ReleaseNode(h.slots, n, k.pk, der);
  }

  lemma NodeCollects(h: Hs, p: Packet, n: NodeId, k: Kem, env: Env, enc: Option<Secret>, der: Option<Bytes>)
    requires Lawful(k) && NodeSession(h, n, enc, der) && NodeSlots(h.slots, n, k.pk, der) && Secrets(k, enc, der)
    requires GoodToNode(p, n, k.pk, der) && !Refusal(h.s, p) && p.msgType != MSG_NACK
    ensures var e := Collect(h, LOCAL, p, false, k, env);
      var enc' := Encapsulated(h, e.h, enc);
      && Secrets(k, enc', der) && NodeSession(e.h, n, enc', der) && NodeSlots(e.h.slots, n, k.pk, der) && AllToRoot(e.out, n, enc')
  {
    hide NodeCtx, Added, Accepts, GetSlot, SendNack, NoteNack, PkComplete, AckComplete, NackDue, Release, FragmentOf, Holds;
    var (slots, i) := GetSlot(h.slots, LOCAL, env.now);
    GetNode(h.slots, env.now, n, k.pk, der);
    if i < SLOT_COUNT {
      var c0: Ctx := slots[i].ctx;
      AddToNode(c0, p, n, k.pk, der);
      var c: Ctx := Added(c0, p);
      var slot := slots[i].(ctx := c);
      PutNode(slots, i, slot, n, k.pk, der);
      var h1 := h.(slots := slots[i := slot]);
      hide NodeSlots;
      if Accepts(c0, p) {
        if !c.Complete() {
          NodeNacks(h1, i, n, k.pk, env, enc, der);
        } else if p.msgType == MSG_PK {
          NodeEncapsulates(h1, c, n, k, env, enc, der);
        } else {
          NodeAcknowledged(h1, c, n, k, enc, der);
        }
      }
    }
  }

  lemma NodeHandles(h0: Hs, p: Packet, n: NodeId, k: Kem, env: Env, enc: Option<Secret>, der: Option<Bytes>)
    requires Lawful(k) && NodeSession(h0, n, enc, der) && NodeSlots(h0.slots, n, k.pk, der) && Secrets(k, enc, der)
    requires GoodToNode(p, n, k.pk, der)
    ensures var e := Handle(h0, LOCAL, p, false, k, env);
      var enc' := Encapsulated(h0, e.h, enc);
      && Secrets(k, enc', der) && NodeSession(e.h, n, enc', der) && NodeSlots(e.h.slots, n, k.pk, der) && AllToRoot(e.out, n, enc')
  {
    hide NodeCtx, NodeSlots, Collect, Retransmit, Gc, Decode, FragmentOf, Refusal;
    GcNode(h0.slots, env.now, n, k.pk, der);
    var h := h0.(slots := Gc(h0.slots, env.now));
    DecodeInRange(p.payload);
    if p.msgType == MSG_NACK && Decode(p.payload).Some? {
      NodeRetransmits(h, Decode(p.payload).value, n, k, env, enc, der);
    }
    if p.msgType != MSG_NACK && !Refusal(h.s, p) {
      NodeCollects(h, p, n, k, env, enc, der);
    }
  }

  lemma NodeRetries(h0: Hs, n: NodeId, k: Kem, env: Env, enc: Option<Secret>, der: Option<Bytes>)
    requires NodeSession(h0, n, enc, der) && NodeSlots(h0.slots, n, k.pk, der)
    ensures var e := Retry(h0, LOCAL, false, k, env);
      NodeSession(e.h, n, enc, der) && NodeSlots(e.h.slots, n, k.pk, der) && AllToRoot(e.out, n, enc)
  {
    hide NodeCtx, NodeSlots, Gc, Release, Fragments, TransferExtra;
    GcNode(h0.slots, env.now, n, k.pk, der);
    ReleaseNode(Gc(h0.slots, env.now), n, k.pk, der);
    var s := h0.s;
    if s.pendingType == MSG_CT {
      FragmentsToRoot(h0.ct, n, s.pendingId, FLAG_RETRY, enc);
    }
  }

  // ---- the root handles a packet

  lemma RootRetransmits(h: Hs, m: NackMsg, n: NodeId, k: Kem, env: Env, der: Option<Bytes>)
    requires RootSession(h, n, der) && forall j :: 0 <= j < |m.missing| ==> m.missing[j] < m.totalFrags
    ensures var e := Retransmit(h, m, k, env.now, env.free);
      && RootSession(e.h, n, der) && e.h.slots == h.slots && AllToNode(e.out, n, k.pk, der)
      && (h.s.IsEstablished() <==> e.h.s.IsEstablished())
  {
    hide TransferExtra;
  }

  lemma RootNacks(h: Hs, who: nat, i: nat, n: NodeId, pk: Bytes, env: Env, enc: Option<Secret>, der: Option<Bytes>)
    requires i < SLOT_COUNT && RootSession(h, n, der) && RootSlots(h.slots, who, n, enc)
    ensures var (e, missing) := SendNack(h, h.slots[i].ctx, env.free);
      var h2 := NoteNack(e.h, i, missing, env.now);
      && RootSession(h2, n, der) && RootSlots(h2.slots, who, n, enc) && AllToNode(e.out, n, pk, der)
      && h2.s.phase == h.s.phase && h2.s.ss == h.s.ss
  {
    hide RootCtx, SendNack, AllToNode;
    NackGoes(h, h.slots[i].ctx, env.free, n, enc, pk, der);
  }

  lemma AckGoes(h: Hs, confirmed: Byte, free: nat, n: NodeId, pk: Bytes, der: Option<Bytes>)
    requires RootSession(h, n, der) && der.Some?
    ensures var e := SendAck(h, confirmed, free);
      && AllToNode(e.out, n, pk, der) && RootSession(e.h, n, der) && e.h.slots == h.slots
      && e.h.s.phase == h.s.phase && e.h.s.ss == h.s.ss
  {
    hide Fragments;
    AckToNode([confirmed], n, h.s.nextMsgId, pk, der);
  }

  /** The root completes the ciphertext: it derives the node's secret. */
  lemma RootDecapsulates(h: Hs, who: nat, c: Ctx, msgId: Byte, has: bool, n: NodeId, k: Kem, env: Env,
                         enc: Option<Secret>, der: Option<Bytes>)
    requires RootSession(h, n, der) && RootSlots(h.slots, who, n, enc) && Secrets(k, enc, der) && enc.Some?
    requires h.s.phase == WaitCt && (c.receivedLen == CT_LEN ==> c.buffer[..CT_LEN] == enc.value.ct)
    ensures var e := CtComplete(h, who, c, msgId, has, k, env);
      var der' := Derived(h, e.h, der);
      && Secrets(k, enc, der') && RootSession(e.h, n, der') && RootSlots(e.h.slots, who, n, enc) && AllToNode(e.out, n, k.pk, der')
  {
    hide RootCtx, RootSlots, Release, SendAck, AllToNode;
    ReleaseRoot(h.slots, who, n, enc);
    assert AllToNode([], n, k.pk, der) by { NoneToNode(n, k.pk, der); }
    var released := h.(slots := Release(h.slots, who));
    var d := k.decaps(k.sk, c.buffer[..CT_LEN]);
    if c.receivedLen == CT_LEN && has && d.Some? {
      AckGoes(released.(s := h.s.(ss := d.value).SetEstablished()), msgId, env.free, n, k.pk, Some(enc.value.ss));
    }
  }

  lemma RootCollects(h: Hs, who: nat, p: Packet, has: bool, n: NodeId, k: Kem, env: Env, enc: Option<Secret>, der: Option<Bytes>)
    requires RootSession(h, n, der) && RootSlots(h.slots, who, n, enc) && Secrets(k, enc, der)
    requires GoodToRoot(p, n, enc) && p.msgType == MSG_CT && h.s.phase == WaitCt
    ensures var e := Collect(h, who, p, has, k, env);
      var der' := Derived(h, e.h, der);
      && Secrets(k, enc, der') && RootSession(e.h, n, der') && RootSlots(e.h.slots, who, n, enc) && AllToNode(e.out, n, k.pk, der')
  {
    hide RootCtx, Added, Accepts, GetSlot, SendNack, NoteNack, CtComplete, NackDue, Release, FragmentOf, Holds, AllToNode;
    assert AllToNode([], n, k.pk, der) by { NoneToNode(n, k.pk, der); }
    var (slots, i) := GetSlot(h.slots, who, env.now);
    GetRoot(h.slots, who, env.now, n, enc);
    if i < SLOT_COUNT {
      var c0: Ctx := slots[i].ctx;
      AddToRoot(c0, p, n, enc);
      var c: Ctx := Added(c0, p);
      var slot := slots[i].(ctx := c);
      PutRoot(slots, i, slot, who, n, enc);
      var h1 := h.(slots := slots[i := slot]);
      hide RootSlots;
      if Accepts(c0, p) {
        if !c.Complete() {
          RootNacks(h1, who, i, n, k.pk, env, enc, der);
        } else {
          RootDecapsulates(h1, who, c, p.msgId, has, n, k, env, enc, der);
        }
      }
    }
  }

  lemma NoneToNode(n: NodeId, pk: Bytes, der: Option<Bytes>)
    ensures AllToNode([], n, pk, der)
  {}

  lemma RootHandles(h0: Hs, who: nat, p: Packet, has: bool, n: NodeId, k: Kem, env: Env, enc: Option<Secret>, der: Option<Bytes>)
    requires RootSession(h0, n, der) && RootSlots(h0.slots, who, n, enc) && Secrets(k, enc, der)
    requires GoodToRoot(p, n, enc) && p.msgType != MSG_GETPK
    ensures var e := Handle(h0, who, p, has, k, env);
      var der' := Derived(h0, e.h, der);
      && Secrets(k, enc, der') && RootSession(e.h, n, der') && RootSlots(e.h.slots, who, n, enc) && AllToNode(e.out, n, k.pk, der')
  {
    hide RootCtx, RootSlots, Collect, Retransmit, Gc, Decode, FragmentOf, SendAck, AllToNode;
    assert AllToNode([], n, k.pk, der) by { NoneToNode(n, k.pk, der); }
    GcRoot(h0.slots, env.now, who, n, enc);
    var h := h0.(slots := Gc(h0.slots, env.now));
    DecodeInRange(p.payload);
    if h.s.phase == Established {
      AckGoes(h, p.msgId, env.free, n, k.pk, der);
    }
    if p.msgType == MSG_NACK && Decode(p.payload).Some? {
      RootRetransmits(h, Decode(p.payload).value, n, k, env, der);
    }
    if p.msgType == MSG_CT && h.s.phase == WaitCt {
      RootCollects(h, who, p, has, n, k, env, enc, der);
    }
  }

  lemma RootStarts(r: Root, who: nat, n: NodeId, k: Kem, env: Env, enc: Option<Secret>, der: Option<Bytes>)
    requires RootSession(r.h, n, der) && r.h.s.phase == Idle && RootSlots(r.h.slots, who, n, enc)
    ensures var (r', out) := RootStart(r, k, env);
      RootSession(r'.h, n, der) && RootSlots(r'.h.slots, who, n, enc) && AllToNode(out, n, k.pk, der) && !r'.h.s.IsEstablished()
  {
    hide RootCtx, RootSlots, Gc, Fragments, TransferExtra, FragmentOf;
    GcRoot(r.h.slots, env.now, who, n, enc);
    FragmentsToNode(k.pk, n, r.h.s.nextMsgId, FLAG_NONE, der);
  }

  lemma RootReceives(r: Root, who: nat, p: Packet, n: NodeId, k: Kem, env: Env, enc: Option<Secret>, der: Option<Bytes>)
    requires RootSession(r.h, n, der) && RootSlots(r.h.slots, who, n, enc) && Secrets(k, enc, der) && GoodToRoot(p, n, enc)
    ensures var (r', out) := RootReceive(r, who, p, k, env);
      var der' := Derived(r.h, r'.h, der);
      && Secrets(k, enc, der') && RootSession(r'.h, n, der') && RootSlots(r'.h.slots, who, n, enc) && AllToNode(out, n, k.pk, der')
  {
    hide RootCtx, RootSlots, Handle, RootStart, FragmentOf, AllToNode;
    assert AllToNode([], n, k.pk, der) by { NoneToNode(n, k.pk, der); }
    if p.msgType == MSG_GETPK {
      if r.h.s.phase == Idle { RootStarts(r, who, n, k, env, enc, der); }
      RootStarts(Restarted(r), who, n, k, env, enc, der);
    } else {
      var s := r.h.s;
      var s1 := if p.msgType == MSG_CT && s.phase == WaitCt && s.pendingType == MSG_PK then s.SetPending(MSG_CT, p.msgId, env.now) else s;
      RootHandles(r.h.(s := s1), who, p, r.hasKeypair, n, k, env, enc, der);
    }
  }

  lemma RootTicks(r: Root, who: nat, n: NodeId, k: Kem, env: Env, enc: Option<Secret>, der: Option<Bytes>)
    requires RootSession(r.h, n, der) && RootSlots(r.h.slots, who, n, enc)
    ensures var (r', out) := RootTick(r, who, k, env);
      && RootSession(r'.h, n, der) && RootSlots(r'.h.slots, who, n, enc) && AllToNode(out, n, k.pk, der)
  {
    hide RootCtx, RootSlots, Retry;
    if !r.h.s.IsEstablished() { RootRetries(r.h, who, r.hasKeypair, n, k, env, enc, der); }
  }

  lemma TouchRoot(slots: Slots, who: nat, now: int, n: NodeId, enc: Option<Secret>)
    requires RootSlots(slots, who, n, enc)
    ensures RootSlots(Touch(slots, who, now), who, n, enc)
  {
    hide RootCtx;
  }

  lemma RootRetries(h0: Hs, who: nat, has: bool, n: NodeId, k: Kem, env: Env, enc: Option<Secret>, der: Option<Bytes>)
    requires RootSession(h0, n, der) && RootSlots(h0.slots, who, n, enc) && h0.s.phase != Established
    ensures var e := Retry(h0, who, has, k, env);
      RootSession(e.h, n, der) && RootSlots(e.h.slots, who, n, enc) && AllToNode(e.out, n, k.pk, der) && e.h.s.phase != Established
  {
    hide RootCtx, RootSlots, Gc, Release, Fragments, TransferExtra, RetryCt, AllToNode;
    GcRoot(h0.slots, env.now, who, n, enc);
    var h := h0.(slots := Gc(h0.slots, env.now));
    assert AllToNode([], n, k.pk, der) by { NoneToNode(n, k.pk, der); }
    ReleaseRoot(h.slots, who, n, enc);
    if h.s.phase == WaitCt {
      if h.s.CanRetry() { RootRetriesCt(h, who, n, k, env, enc, der); }
      FragmentsToNode(k.pk, n, h.s.pendingId, FLAG_RETRY, der);
    }
  }

  lemma RootRetriesCt(h: Hs, who: nat, n: NodeId, k: Kem, env: Env, enc: Option<Secret>, der: Option<Bytes>)
    requires RootSession(h, n, der) && RootSlots(h.slots, who, n, enc) && h.s.phase == WaitCt && h.s.CanRetry()
    ensures var e := RetryCt(h, who, env);
      RootSession(e.h, n, der) && RootSlots(e.h.slots, who, n, enc) && AllToNode(e.out, n, k.pk, der) && e.h.s.phase != Established
  {
    hide RootCtx, Release, SendNack, AllToNode;
    ReleaseRoot(h.slots, who, n, enc);
    assert AllToNode([], n, k.pk, der) by { NoneToNode(n, k.pk, der); }
    var i := FindSlot(h.slots, who);
    if i < SLOT_COUNT {
      NackGoes(h, h.slots[i].ctx, env.free, n, enc, k.pk, der);
      TouchRoot(h.slots, who, env.now, n, enc);
    }
  }

  // ---- the invariant over every run

  lemma InitialInv(w: World, who: nat, n: NodeId, k: Kem)
    requires Initial(w, who, n)
    ensures Inv(w, who, n, k)
  {
    FreshCoherent(NodeRole, n);
    FreshCoherent(RootRole, n);
  }

  /** What was good stays good when the history grows. */
  lemma Later(w: World, who: nat, n: NodeId, pk: Bytes, enc: Option<Secret>, der: Option<Bytes>)
    requires w.encapsulated == enc || (w.encapsulated == None && w.derived == None)
    requires w.derived.Some? ==> der.Some?
    ensures forall p :: GoodToRoot(p, n, w.encapsulated) ==> GoodToRoot(p, n, enc)
    ensures forall p :: GoodToNode(p, n, pk, w.derived) ==> GoodToNode(p, n, pk, der)
    ensures RootSlots(w.root.h.slots, who, n, w.encapsulated) ==> RootSlots(w.root.h.slots, who, n, enc)
    ensures NodeSlots(w.node.h.slots, n, pk, w.derived) ==> NodeSlots(w.node.h.slots, n, pk, der)
  {
    hide Holds, FragmentOf, Empty;
  }

  lemma StepInv(w: World, who: nat, n: NodeId, k: Kem, e: Event)
    requires Lawful(k) && Inv(w, who, n, k) && Enabled(w, who, e)
    ensures Inv(Step(w, who, e, k), who, n, k)
  {
    match e
    case Request(env) => RequestInv(w, who, n, k, env);
    case NodeGets(p, env) => NodeGetsInv(w, who, n, k, p, env);
    case NodeClock(env) => NodeClockInv(w, who, n, k, env);
    case RootGets(p, env) => RootGetsInv(w, who, n, k, p, env);
    case RootClock(env) => RootClockInv(w, who, n, k, env);
    case Others(slots) => OthersInv(w, who, n, k, slots);
  }

  lemma RequestInv(w: World, who: nat, n: NodeId, k: Kem, env: Env)
    requires Inv(w, who, n, k)
    ensures Inv(Step(w, who, Request(env), k), who, n, k)
  {
    hide NodeSlots, RootSlots, FragmentOf;
  }

  lemma NodeGetsInv(w: World, who: nat, n: NodeId, k: Kem, p: Packet, env: Env)
    requires Lawful(k) && Inv(w, who, n, k) && p in w.toNode
    ensures Inv(Step(w, who, NodeGets(p, env), k), who, n, k)
  {
    hide NodeSlots, RootSlots, FragmentOf, Handle, GoodToRoot, GoodToNode;
    NodeHandles(w.node.h, p, n, k, env, w.encapsulated, w.derived);
    var w' := Step(w, who, NodeGets(p, env), k);
    Later(w, who, n, k.pk, w'.encapsulated, w'.derived);
  }

  lemma NodeClockInv(w: World, who: nat, n: NodeId, k: Kem, env: Env)
    requires Inv(w, who, n, k)
    ensures Inv(Step(w, who, NodeClock(env), k), who, n, k)
  {
    hide NodeSlots, RootSlots, FragmentOf, Retry, GoodToRoot, GoodToNode;
    NodeRetries(w.node.h, n, k, env, w.encapsulated, w.derived);
  }

  lemma RootGetsInv(w: World, who: nat, n: NodeId, k: Kem, p: Packet, env: Env)
    requires Inv(w, who, n, k) && p in w.toRoot
    ensures Inv(Step(w, who, RootGets(p, env), k), who, n, k)
  {
    hide NodeSlots, RootSlots, FragmentOf, RootReceive, GoodToRoot, GoodToNode;
    RootReceives(w.root, who, p, n, k, env, w.encapsulated, w.derived);
    var w' := Step(w, who, RootGets(p, env), k);
    Later(w, who, n, k.pk, w'.encapsulated, w'.derived);
  }

  lemma RootClockInv(w: World, who: nat, n: NodeId, k: Kem, env: Env)
    requires Inv(w, who, n, k)
    ensures Inv(Step(w, who, RootClock(env), k), who, n, k)
  {
    hide NodeSlots, RootSlots, FragmentOf, RootTick, GoodToRoot, GoodToNode;
    RootTicks(w.root, who, n, k, env, w.encapsulated, w.derived);
  }

  lemma OthersInv(w: World, who: nat, n: NodeId, k: Kem, slots: Slots)
    requires Inv(w, who, n, k) && OthersMay(w.root.h.slots, slots, who)
    ensures Inv(Step(w, who, Others(slots), k), who, n, k)
  {
    hide NodeSlots, RootCtx, FragmentOf, GoodToRoot, GoodToNode;
  }

  lemma {:induction false} RunInv(ws: seq<World>, es: seq<Event>, who: nat, n: NodeId, k: Kem, i: nat)
    requires Lawful(k) && Run(ws, es, who, n, k) && i < |ws|
    ensures Inv(ws[i], who, n, k)
  {
    hide Inv, Step, Initial, Enabled;
    if i == 0 {
      InitialInv(ws[0], who, n, k);
    } else {
      RunInv(ws, es, who, n, k, i - 1);
      StepInv(ws[i - 1], who, n, k, es[i - 1]);
    }
  }

  /**
   * Key agreement: in every state of every run, an established root session holds the secret the node encapsulated,
   * and the node is established only after the root derived that same secret, which the node then holds too.
   */
  lemma KeyAgreement(ws: seq<World>, es: seq<Event>, who: nat, n: NodeId, k: Kem, i: nat)
    requires Lawful(k) && Run(ws, es, who, n, k) && i < |ws|
    ensures var w := ws[i];
      && (w.root.h.s.IsEstablished() ==> w.encapsulated.Some? && w.root.h.s.ss == w.encapsulated.value.ss)
      && (w.node.h.s.IsEstablished() ==>
            w.encapsulated.Some? && w.node.h.s.ss == w.encapsulated.value.ss && w.derived == Some(w.node.h.s.ss))
  {
    hide Run;
    RunInv(ws, es, who, n, k, i);
  }

  /** When both sides are established they hold the same secret. */
  lemma SameSecret(ws: seq<World>, es: seq<Event>, who: nat, n: NodeId, k: Kem, i: nat)
    requires Lawful(k) && Run(ws, es, who, n, k) && i < |ws|
    requires ws[i].node.h.s.IsEstablished() && ws[i].root.h.s.IsEstablished()
    ensures ws[i].node.h.s.ss == ws[i].root.h.s.ss
  {
    hide Run;
    KeyAgreement(ws, es, who, n, k, i);
  }

  /** In every reachable state the ciphertext that the node may have to send again is there, as the retry argument needs. */
  lemma ReachableStocked(ws: seq<World>, es: seq<Event>, who: nat, n: NodeId, k: Kem, i: nat)
    requires Lawful(k) && Run(ws, es, who, n, k) && i < |ws|
    ensures Stocked(ws[i].node.h) && Stocked(ws[i].root.h)
    ensures Coherent(ws[i].node.h.s) && Coherent(ws[i].root.h.s)
  {
    hide Run, NodeSlots, RootSlots;
    RunInv(ws, es, who, n, k, i);
  }
}
