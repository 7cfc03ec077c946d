/** The two drivers around the handshake, and a world in which packets are lost, repeated and reordered. */
module KeyExchange {
  import opened Protocol
  import opened Fragmentation
  import opened Nack
  import opened SessionManager
  import opened Handshake

  /** The local session of a node owns its reception slots under this number. */
  const LOCAL := 0

  // ---- the node driver

  datatype Node = Node(h: Hs, getPkInFlight: bool)

  /** should_request_pk. */
  predicate ShouldRequest(d: Node) {
    d.h.s.phase == Idle && d.h.s.pendingType == 0 && !d.getPkInFlight && !d.h.s.IsEstablished()
  }

  /** The request of the node's main process. */
  function NodeRequest(d: Node, env: Env): (r: (Node, seq<Packet>)) {
    if !ShouldRequest(d) || env.free == 0 then (d, [])
    else
      (Node(d.h.(s := d.h.s.(phase := WaitPk).SetPending(MSG_GETPK, 0, env.now)), true), [GetPk(d.h.s.nodeId, 0, FLAG_NONE)])
  }

  function NodeReceive(d: Node, p: Packet, k: Kem, env: Env): (r: (Node, seq<Packet>)) {
    var e := Handle(d.h, LOCAL, p, false, k, env);
    (Node(e.h, d.getPkInFlight && e.h.s.pendingType == MSG_GETPK), e.out)
  }

  /** The node's retry process up to the reset of a failed session, which ends the attempt. */
  function NodeTick(d: Node, k: Kem, env: Env): (r: (Node, seq<Packet>)) {
    if d.h.s.IsEstablished() then (d, [])
    else
      var e := Retry(d.h, LOCAL, false, k, env);
      (d.(h := e.h), e.out)
  }

  /** The reset that the retry process makes of a failed session. */
  function NodeAfterTick(d: Node): Node {
    if d.h.s.phase == Failed then Node(d.h.(s := Reset(d.h.s)), false) else d
  }

  // ---- the root driver, for the session of one node

  datatype Root = Root(h: Hs, hasKeypair: bool)

  function Restarted(r: Root): Root { r.(h := r.h.(s := Reset(r.h.s))) }

  function RootStart(r: Root, k: Kem, env: Env): (res: (Root, seq<Packet>)) {
    var (e, has) := Start(r.h, r.hasKeypair, k, env);
    (Root(e.h, has), e.out)
  }

  /** udp_rx_callback for a packet of this node. */
  function RootReceive(r: Root, who: nat, p: Packet, k: Kem, env: Env): (res: (Root, seq<Packet>)) {
    if p.msgType == MSG_GETPK then
      var r1 := if r.h.s.phase == Failed then Restarted(r) else r;
      if r1.h.s.phase == Idle then RootStart(r1, k, env)
      else if r1.h.s.phase == WaitCt || r1.h.s.IsEstablished() then RootStart(Restarted(r1), k, env)
      else (r1, [])
    else if p.msgType == MSG_TEMP || p.msgType == MSG_METRICS then (r, [])
    else
      var s := r.h.s;
      var s1 := if p.msgType == MSG_CT && s.phase == WaitCt && s.pendingType == MSG_PK then s.SetPending(MSG_CT, p.msgId, env.now) else s;
      var e := Handle(r.h.(s := s1), who, p, r.hasKeypair, k, env);
      (r.(h := e.h), e.out)
  }

  /** The root's retry process for this session; a failed session is reset at once. */
  function RootTick(r: Root, who: nat, k: Kem, env: Env): (res: (Root, seq<Packet>)) {
    if r.h.s.IsEstablished() then (r, [])
    else
      var e := Retry(r.h, who, r.hasKeypair, k, env);
      (if e.h.s.phase == Failed then Restarted(r.(h := e.h)) else r.(h := e.h), e.out)
  }

  // ---- sessions stay coherent

  lemma HandleCoherent(h: Hs, who: nat, p: Packet, has: bool, k: Kem, env: Env)
    requires Coherent(h.s)
    ensures Coherent(Handle(h, who, p, has, k, env).h.s)
    ensures Handle(h, who, p, has, k, env).h.s.role == h.s.role
  {
    hide Collect, Retransmit, Gc, Decode, Fragments;
    DecodeInRange(p.payload);
    var h1 := h.(slots := Gc(h.slots, env.now),
                 s := if h.s.role == NodeRole && h.s.nodeId == INVALID_NODE_ID then h.s.(nodeId := p.nodeId) else h.s);
    if h1.s.nodeId == p.nodeId && !Refusal(h1.s, p) {
      if p.msgType == MSG_NACK {
        if Decode(p.payload).Some? {
          RetransmitCoherent(h1, Decode(p.payload).value, k, env.now, env.free);
        }
      } else {
        CollectCoherent(h1, who, p, has, k, env);
      }
    }
  }

  lemma RetransmitCoherent(h: Hs, n: NackMsg, k: Kem, now: int, free: nat)
    requires Coherent(h.s) && forall j :: 0 <= j < |n.missing| ==> n.missing[j] < n.totalFrags
    ensures Coherent(Retransmit(h, n, k, now, free).h.s) && Retransmit(h, n, k, now, free).h.s.role == h.s.role
  {
    hide Served, Servable;
  }

  lemma CollectCoherent(h: Hs, who: nat, p: Packet, has: bool, k: Kem, env: Env)
    requires Coherent(h.s) && !Refusal(h.s, p)
    requires h.s.role == RootRole && h.s.IsEstablished() ==> p.msgType != MSG_CT
    ensures Coherent(Collect(h, who, p, has, k, env).h.s)
    ensures Collect(h, who, p, has, k, env).h.s.role == h.s.role
  {
    hide Added, Accepts, GetSlot, Finish, Continue, Coherent, Refusal;
    var (slots, i) := GetSlot(h.slots, who, env.now);
    if i < SLOT_COUNT {
      var c := Added(slots[i].ctx, p);
      var h1 := h.(slots := slots[i := slots[i].(ctx := c)]);
      FinishCoherent(h1, who, c, p, has, k, env);
      ContinueCoherent(h1, i, p.fragIdx, env);
    }
  }

  lemma FinishCoherent(h: Hs, who: nat, c: Ctx, p: Packet, has: bool, k: Kem, env: Env)
    requires Coherent(h.s) && !Refusal(h.s, p)
    requires h.s.role == RootRole && h.s.IsEstablished() ==> p.msgType != MSG_CT
    ensures Coherent(Finish(h, who, c, p, has, k, env).h.s)
    ensures Finish(h, who, c, p, has, k, env).h.s.role == h.s.role
  {
    hide Fragments, Release;
  }

  lemma ContinueCoherent(h: Hs, i: nat, fragIdx: nat, env: Env)
    requires Coherent(h.s) && i < SLOT_COUNT
    ensures Coherent(Continue(h, i, fragIdx, env).h.s)
    ensures Continue(h, i, fragIdx, env).h.s.role == h.s.role
  {
    hide Fragments, FirstMissing, Encode, NackDue;
  }

  lemma RetryCoherent(h: Hs, who: nat, has: bool, k: Kem, env: Env)
    requires Coherent(h.s)
    ensures Coherent(Retry(h, who, has, k, env).h.s)
    ensures Retry(h, who, has, k, env).h.s.role == h.s.role
  {
    hide Fragments, Release, FirstMissing, Encode, Gc, Touch;
  }
}
