/** What the two drivers make of a request, a packet and a tick, field by field, and that a failed attempt can start over. */
module DriverRules {
  import opened Protocol
  import opened Fragmentation
  import opened Nack
  import opened SessionManager
  import opened Handshake
  import opened KeyExchange
  import opened AttemptEnds
  import opened HandshakeRules
  import opened MessageRules
  import opened Drivers

  // ---- the node

  /** A request for the key is in flight exactly while the node waits for the key. */
  predicate InFlight(d: Node) {
    d.getPkInFlight <==> d.h.s.phase == WaitPk
  }

  /** Every step of the node driver keeps this; a tick counts with the reset that ends it. */
  lemma InFlightKept(d: Node, p: Packet, k: Kem, env: Env)
    requires Coherent(d.h.s) && d.h.s.role == NodeRole && InFlight(d)
    ensures InFlight(NodeRequest(d, env).0) && InFlight(NodeReceive(d, p, k, env).0) && InFlight(NodeAfterTick(NodeTick(d, k, env).0))
  {
    hide Handle, Retry;
    HandleCoherent(d.h, LOCAL, p, false, k, env);
    HandleWaits(d.h, LOCAL, p, false, k, env);
    RetryCoherent(d.h, LOCAL, false, k, env);
    RetryWaitsOn(d.h, LOCAL, false, k, env);
  }

  /** No packet makes a node wait for the key. */
  lemma HandleWaits(h: Hs, who: nat, p: Packet, has: bool, k: Kem, env: Env)
    requires Coherent(h.s) && h.s.role == NodeRole
    ensures Handle(h, who, p, has, k, env).h.s.phase == WaitPk ==> h.s.phase == WaitPk
  {
    hide Gc, Collect, Retransmit, Decode;
    DecodeInRange(p.payload);
    var h1 := h.(slots := Gc(h.slots, env.now), s := if h.s.nodeId == INVALID_NODE_ID then h.s.(nodeId := p.nodeId) else h.s);
    CollectWaits(h1, who, p, has, k, env);
    if Decode(p.payload).Some? {
      RetransmitWaits(h1, Decode(p.payload).value, k, env.now, env.free);
    }
  }

  lemma CollectWaits(h: Hs, who: nat, p: Packet, has: bool, k: Kem, env: Env)
    requires h.s.role == NodeRole
    ensures Collect(h, who, p, has, k, env).h.s.phase == WaitPk ==> h.s.phase == WaitPk
  {
    hide Added, Accepts, GetSlot, Release, NackDue, Fragments, FirstMissing, Encode, TransferExtra;
  }

  lemma RetransmitWaits(h: Hs, n: NackMsg, k: Kem, now: int, free: nat)
    requires forall j :: 0 <= j < |n.missing| ==> n.missing[j] < n.totalFrags
    ensures Retransmit(h, n, k, now, free).h.s.phase == h.s.phase
  {
    hide Served, TransferExtra, Servable;
  }

  lemma RetryWaitsOn(h: Hs, who: nat, has: bool, k: Kem, env: Env)
    requires Coherent(h.s) && h.s.role == NodeRole
    ensures var s := Retry(h, who, has, k, env).h.s; s.phase == h.s.phase || s.phase == Failed
  {
    hide Gc, Release, Fragments, FirstMissing, Encode, TransferExtra;
  }

  /** The node asks exactly when it is idle and the queue has room, and then waits two minutes for the key. */
  lemma Requested(d: Node, env: Env)
    requires Coherent(d.h.s) && InFlight(d)
    ensures var (d', out) := NodeRequest(d, env);
      if d.h.s.phase == Idle && env.free > 0 then
        && out == [Packet(MSG_GETPK, d.h.s.nodeId, 0, 0, 1, [], FLAG_NONE)] && d'.h.slots == d.h.slots && d'.h.ct == d.h.ct
        && d'.h.s == d.h.s.(phase := WaitPk, pendingType := MSG_GETPK, pendingId := 0, waiting := true, deadline := env.now + 120 * SECOND)
      else out == [] && d' == d
  {}

  /** A session at its start. */
  predicate Blank(s: Session, role: Role, n: NodeId) {
    s == Session(role, n, Idle, false, 0, [], 0, 0, 0, false, 0)
  }

  /** A node whose attempt has failed, or fails at this tick after three retries, starts over and asks again. */
  lemma NodeStartsOver(d: Node, k: Kem, env: Env)
    requires Coherent(d.h.s) && d.h.s.role == NodeRole && InFlight(d)
    requires d.h.s.phase == Failed || (d.h.s.waiting && env.now >= d.h.s.deadline && env.free >= 96 && d.h.s.retryCount == 3)
    ensures var d', out := NodeAfterTick(NodeTick(d, k, env).0), NodeTick(d, k, env).1;
      && out == [] && Blank(d'.h.s, NodeRole, d.h.s.nodeId) && !d'.getPkInFlight
      && (forall now: Env :: now.free > 0 ==> NodeRequest(d', now).1 == [Packet(MSG_GETPK, d.h.s.nodeId, 0, 0, 1, [], FLAG_NONE)])
  {
    hide Retry, Gc;
    if d.h.s.phase == Failed {
      RetryWaits(d.h, LOCAL, false, k, env);
    } else {
      RetriesExhausted(d.h, LOCAL, false, k, env);
    }
    RetryCoherent(d.h, LOCAL, false, k, env);
    RetryKeepsNode(d.h, LOCAL, false, k, env);
  }

  lemma RetryKeepsNode(h: Hs, who: nat, has: bool, k: Kem, env: Env)
    ensures var s := Retry(h, who, has, k, env).h.s; s.nodeId == h.s.nodeId && s.role == h.s.role
  {
    hide Gc, Release, Fragments, FirstMissing, Encode, TransferExtra;
  }

  /** An established side leaves the tick alone; any other sends what the retry sends. */
  lemma Ticked(d: Node, r: Root, who: nat, k: Kem, env: Env)
    ensures NodeTick(d, k, env) == if d.h.s.phase == Established && d.h.s.established then (d, [])
      else (Node(Retry(d.h, LOCAL, false, k, env).h, d.getPkInFlight), Retry(d.h, LOCAL, false, k, env).out)
    ensures r.h.s.phase == Established && r.h.s.established ==> RootTick(r, who, k, env) == (r, [])
    ensures !(r.h.s.phase == Established && r.h.s.established) ==> RootTick(r, who, k, env).1 == Retry(r.h, who, r.hasKeypair, k, env).out
  {
    hide Retry;
  }

  // ---- the root

  /** No failed session outlives a tick of the root: its session is blank, its slots and key pair are kept. */
  lemma RootStartsOver(r: Root, who: nat, k: Kem, env: Env)
    requires Coherent(r.h.s) && r.h.s.role == RootRole
    ensures var (r', e) := (RootTick(r, who, k, env).0, Retry(r.h, who, r.hasKeypair, k, env));
      && r'.h.s.phase != Failed && r'.hasKeypair == r.hasKeypair
      && (if r.h.s.IsEstablished() then r' == r
          else r'.h.slots == e.h.slots && if e.h.s.phase == Failed then Blank(r'.h.s, RootRole, r.h.s.nodeId) else r'.h.s == e.h.s)
  {
    hide Retry;
    RetryKeepsNode(r.h, who, r.hasKeypair, k, env);
  }

  /** The first fragment of the ciphertext makes the root wait for that message, and is then handled like any other. */
  lemma CiphertextBegins(r: Root, who: nat, p: Packet, k: Kem, env: Env)
    requires p.msgType == MSG_CT
    ensures var (r', out) := RootReceive(r, who, p, k, env);
      var s := if r.h.s.phase == WaitCt && r.h.s.pendingType == MSG_PK
        then r.h.s.(pendingType := MSG_CT, pendingId := p.msgId, waiting := true, deadline := env.now + 120 * SECOND) else r.h.s;
      var e := Handle(r.h.(s := s), who, p, r.hasKeypair, k, env);
      r' == Root(e.h, r.hasKeypair) && out == e.out
  {
    hide Handle;
  }

  /** Readings and reports pass the session by; a NACK reaches the handler. */
  lemma PassedBy(r: Root, who: nat, p: Packet, k: Kem, env: Env)
    requires p.msgType != MSG_GETPK && p.msgType != MSG_CT
    ensures RootReceive(r, who, p, k, env) == if p.msgType == MSG_TEMP || p.msgType == MSG_METRICS then (r, [])
      else (Root(Handle(r.h, who, p, r.hasKeypair, k, env).h, r.hasKeypair), Handle(r.h, who, p, r.hasKeypair, k, env).out)
  {
    hide Handle;
  }

  // ---- packets with a valid header that do not parse

  /** At the root a request is answered all the same, and a ciphertext moves the pending message; nothing else is sent. */
  lemma Unparsed(r: Root, who: nat, msgType: Byte, msgId: Byte, k: Kem, env: Env)
    requires Coherent(r.h.s) && r.h.s.role == RootRole
    ensures var (r', out) := RootReject(r, who, msgType, msgId, k, env);
      var s, s' := r.h.s, r'.h.s;
      if msgType == MSG_GETPK then
        (r.hasKeypair || env.keygen) && env.free >= 36 ==>
          s'.phase == WaitCt && s'.pendingType == MSG_PK && !s'.established && s'.retryCount == 0
          && Whole(out, k.pk, MSG_PK, s.nodeId, s'.pendingId, FLAG_NONE)
      else
        && out == [] && r'.hasKeypair == r.hasKeypair && r'.h.ct == r.h.ct
        && s' == (if msgType == MSG_CT && s.phase == WaitCt && s.pendingType == MSG_PK
                  then s.(pendingType := MSG_CT, pendingId := msgId, waiting := true, deadline := env.now + 120 * SECOND) else s)
        && r'.h.slots == if msgType == MSG_TEMP || msgType == MSG_METRICS then r.h.slots else Gc(r.h.slots, env.now)
  {
    hide RootReceive, Whole, Gc;
    if msgType == MSG_GETPK {
      GetPkAnswered(r, who, GetPk(r.h.s.nodeId, 0, FLAG_NONE), k, env);
    }
  }
}
