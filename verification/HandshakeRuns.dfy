/** Runs that end with both sides established: without losses, and after losing the key, the ciphertext, the
    acknowledgement, the answer to a request, or single fragments. */
module HandshakeRuns {
  import opened Protocol
  import opened Fragmentation
  import opened SessionManager
  import opened Handshake
  import opened KeyExchange
  import opened AttemptEnds
  import opened KeyAgreement
  import opened HandshakeRules
  import opened MessageRules
  import opened HandshakeCompletes

  /** The start of an attempt with free slots. */
  function Start0(n: NodeId, has: bool): World {
    World(Node(Hs(Fresh(NodeRole, n), NoSlots(), []), false), Root(Hs(Fresh(RootRole, n), NoSlots(), []), has), {}, {}, None, None)
  }

  function Last(ws: seq<World>): World
    requires ws != []
  {
    ws[|ws| - 1]
  }

  /** The packets that the root has received. */
  ghost function ToRoot(es: seq<Event>): set<Packet> {
    if es == [] then {} else ToRoot(es[..|es| - 1]) + if es[|es| - 1].RootGets? then {es[|es| - 1].p} else {}
  }

  /** The packets that the node has received. */
  ghost function ToNode(es: seq<Event>): set<Packet> {
    if es == [] then {} else ToNode(es[..|es| - 1]) + if es[|es| - 1].NodeGets? then {es[|es| - 1].p} else {}
  }

  /** What has come since is of this type and these flags. */
  ghost predicate Only(now: set<Packet>, before: set<Packet>, msgType: Byte, flags: Byte) {
    before <= now && forall p <- now :: p in before || (p.msgType == msgType && p.flags == flags)
  }

  /** Any enabled event makes a run longer. */
  lemma Extend(ws: seq<World>, es: seq<Event>, who: nat, n: NodeId, k: Kem, e: Event) returns (ws': seq<World>, es': seq<Event>)
    requires Run(ws, es, who, n, k) && Enabled(Last(ws), who, e)
    ensures Run(ws', es', who, n, k) && Last(ws') == Step(Last(ws), who, e, k)
    ensures ToRoot(es') == ToRoot(es) + if e.RootGets? then {e.p} else {}
    ensures ToNode(es') == ToNode(es) + if e.NodeGets? then {e.p} else {}
  {
    hide Step, Enabled;
    ws', es' := ws + [Step(Last(ws), who, e, k)], es + [e];
    assert es'[..|es|] == es;
  }

  lemma RunStarts(ws: seq<World>, es: seq<Event>, who: nat, n: NodeId, k: Kem)
    requires Run(ws, es, who, n, k)
    ensures ws != []
  {}

  lemma Stamped(msg: Bytes, msgType: Byte, n: NodeId, id: Byte, j: nat, flags: Byte)
    requires j < TxCount(|msg|)
    ensures var p := Fragment(msg, msgType, n, id, j, flags); p.msgType == msgType && p.flags == flags && p.fragIdx == j && p.msgId == id && p.nodeId == n
  {}

  // ---- the stretches

  /** The node asks; every other stage starts from here. */
  lemma Opening(who: nat, n: NodeId, has: bool, k: Kem, env: Env) returns (ws: seq<World>, es: seq<Event>)
    requires Ample(env) && n != INVALID_NODE_ID
    ensures Run(ws, es, who, n, k) && Asking(Last(ws), n) && Last(ws).node.h.s.deadline == env.now + 120 * SECOND && Last(ws).node.h.s.retryCount == 0
    ensures ToRoot(es) == ToNode(es) == {}
    ensures Packet(MSG_GETPK, n, 0, 0, 1, [], FLAG_NONE) in Last(ws).toRoot
    ensures Last(ws).root == Start0(n, has).root
  {
    hide NodeRequest;
    ws, es := [Start0(n, has)], [];
    NodeAsks(Start0(n, has).node, env);
    ws, es := Extend(ws, es, who, n, k, Request(env));
    var p := Packet(MSG_GETPK, n, 0, 0, 1, [], FLAG_NONE);
    assert [p][0] in AsSet([p]);
  }

  /** The node has asked and waits for the key. */
  ghost predicate Asking(w: World, n: NodeId) {
    && Coherent(w.node.h.s) && w.node.h.s.role == NodeRole && w.node.h.s.nodeId == n && n != INVALID_NODE_ID
    && w.node.h.s.phase == WaitPk && w.node.h.slots == NoSlots()
  }

  /** Whatever the root was doing, a request makes it send the key. */
  lemma Answering(ws: seq<World>, es: seq<Event>, who: nat, n: NodeId, k: Kem, p: Packet, env: Env)
    returns (ws': seq<World>, es': seq<Event>, id: Byte)
    requires Run(ws, es, who, n, k) && Asking(Last(ws), n) && p in Last(ws).toRoot && p.msgType == MSG_GETPK && Ample(env)
    requires var r := Last(ws).root.h; Coherent(r.s) && r.s.role == RootRole && r.s.nodeId == n && r.slots == NoSlots()
    ensures Run(ws', es', who, n, k) && KeyArriving(Last(ws'), n, k, id, FLAG_NONE, env.now, 0) 
    ensures ToRoot(es') == ToRoot(es) + {p} && ToNode(es') == ToNode(es)
    ensures var s := Last(ws').root.h.s; s.pendingType == MSG_PK && s.retryCount == 0 && s.deadline == env.now + 130 * SECOND + 36 * SECOND / 4
    ensures Last(ws').node == Last(ws).node && Asking(Last(ws'), n)
  {
    hide RootReceive, Whole, Offered;
    var w := Last(ws);
    GetPkAnswered(w.root, who, p, k, env);
    var (r, out) := RootReceive(w.root, who, p, k, env);
    id := r.h.s.pendingId;
    WholeOffered(out, w.toNode, k.pk, MSG_PK, n, id, FLAG_NONE);
    GetPkSlots(w.root, who, p, k, env);
    FillingKept(k.pk, MSG_PK, n, id, LOCAL, env.now, 0);
    ws', es' := Extend(ws, es, who, n, k, RootGets(p, env));
  }

  lemma GetPkSlots(r: Root, who: nat, p: Packet, k: Kem, env: Env)
    requires r.h.slots == NoSlots() && p.msgType == MSG_GETPK && Coherent(r.h.s) && r.h.s.role == RootRole
    requires Ample(env)
    ensures var r' := RootReceive(r, who, p, k, env).0; r'.h.slots == NoSlots() && r'.hasKeypair && Coherent(r'.h.s)
  {
    hide Handle, Retry, Gc, Fragments;
    RootStepsCoherent(r, who, p, k, env);
    assert Gc(NoSlots(), env.now) == NoSlots() by { NothingCollected(env.now); }
  }

  lemma NothingCollected(now: int)
    ensures Gc(NoSlots(), now) == NoSlots()
  {}

  /** The fragments of the key arrive one by one. */
  lemma {:induction false} KeyRun(ws: seq<World>, es: seq<Event>, who: nat, n: NodeId, k: Kem, id: Byte, flags: Byte, env: Env, j: nat)
    returns (ws': seq<World>, es': seq<Event>)
    requires Run(ws, es, who, n, k) && j < TxCount(PK_LEN) && KeyArriving(Last(ws), n, k, id, flags, env.now, j)
    ensures Run(ws', es', who, n, k) && KeyArriving(Last(ws'), n, k, id, flags, env.now, TxCount(PK_LEN) - 1)
    ensures ToRoot(es') == ToRoot(es) && Only(ToNode(es'), ToNode(es), MSG_PK, flags)
    decreases TxCount(PK_LEN) - j
  {
    hide Run, Filling, Fragment, NodeReceive;
    RunStarts(ws, es, who, n, k);
    if j + 1 == TxCount(PK_LEN) {
      ws', es' := ws, es;
    } else {
      Stamped(k.pk, MSG_PK, n, id, j, flags);
      NodeTakes(Last(ws).node, k, n, id, flags, env, j);
      ws', es' := Extend(ws, es, who, n, k, NodeGets(Fragment(k.pk, MSG_PK, n, id, j, flags), env));
      ws', es' := KeyRun(ws', es', who, n, k, id, flags, env, j + 1);
    }
  }

  /** The last key fragment brings out the ciphertext. */
  lemma AnswerRun(ws: seq<World>, es: seq<Event>, who: nat, n: NodeId, k: Kem, id: Byte, flags: Byte, env: Env)
    returns (ws': seq<World>, es': seq<Event>, ctId: Byte)
    requires Run(ws, es, who, n, k) && KeyArriving(Last(ws), n, k, id, flags, env.now, TxCount(PK_LEN) - 1)
    requires Ample(env) && k.encaps(k.pk, env.coins).Some?
    ensures var e := k.encaps(k.pk, env.coins).value;
      Run(ws', es', who, n, k) && CtArriving(Last(ws'), who, n, e.0, e.1, ctId, FLAG_NONE, env.now, 0)
    ensures ToRoot(es') == ToRoot(es) && Only(ToNode(es'), ToNode(es), MSG_PK, flags)
    ensures var s := Last(ws').node.h.s; s.retryCount == 0 && s.deadline == env.now + 130 * SECOND + 71 * SECOND / 4
  {
    hide Run, Filling, Fragment, NodeReceive, Whole, Offered;
    RunStarts(ws, es, who, n, k);
    var w, e := Last(ws), k.encaps(k.pk, env.coins).value;
    var p := Fragment(k.pk, MSG_PK, n, id, TxCount(PK_LEN) - 1, flags);
    Stamped(k.pk, MSG_PK, n, id, TxCount(PK_LEN) - 1, flags);
    NodeAnswers(w.node, k, n, id, flags, env);
    ctId := w.node.h.s.nextMsgId;
    WholeOffered(NodeReceive(w.node, p, k, env).1, w.toRoot, e.0, MSG_CT, n, ctId, FLAG_NONE);
    FillingKept(e.0, MSG_CT, n, ctId, who, env.now, 0);
    assert p in w.toNode by { OfferedOne(w.toNode, k.pk, MSG_PK, n, id, flags, TxCount(PK_LEN) - 1); }
    ws', es' := Extend(ws, es, who, n, k, NodeGets(p, env));
  }

  lemma OfferedOne(packets: set<Packet>, msg: Bytes, msgType: Byte, n: NodeId, id: Byte, flags: Byte, j: nat)
    requires Offered(packets, msg, msgType, n, id, flags) && j < TxCount(|msg|)
    ensures Fragment(msg, msgType, n, id, j, flags) in packets
  {}

  /** The fragments of the ciphertext arrive one by one. */
  lemma {:induction false} CtRun(ws: seq<World>, es: seq<Event>, who: nat, n: NodeId, k: Kem, ct: CtBytes, ss: Bytes, id: Byte, flags: Byte, env: Env, j: nat)
    returns (ws': seq<World>, es': seq<Event>)
    requires Run(ws, es, who, n, k) && j < TxCount(CT_LEN) && CtArriving(Last(ws), who, n, ct, ss, id, flags, env.now, j)
    ensures Run(ws', es', who, n, k) && CtArriving(Last(ws'), who, n, ct, ss, id, flags, env.now, TxCount(CT_LEN) - 1)
    ensures Last(ws').node == Last(ws).node && ToNode(es') == ToNode(es) && Only(ToRoot(es'), ToRoot(es), MSG_CT, flags)
    decreases TxCount(CT_LEN) - j
  {
    hide Run, Filling, Fragment, RootReceive;
    RunStarts(ws, es, who, n, k);
    if j + 1 == TxCount(CT_LEN) {
      ws', es' := ws, es;
    } else {
      Stamped(ct, MSG_CT, n, id, j, flags);
      RootTakes(Last(ws).root, who, ct, k, n, id, flags, env, j);
      ws', es' := Extend(ws, es, who, n, k, RootGets(Fragment(ct, MSG_CT, n, id, j, flags), env));
      ws', es' := CtRun(ws', es', who, n, k, ct, ss, id, flags, env, j + 1);
    }
  }

  /** The last ciphertext fragment brings out the acknowledgement. */
  lemma AcknowledgeRun(ws: seq<World>, es: seq<Event>, who: nat, n: NodeId, k: Kem, ct: CtBytes, ss: Bytes, id: Byte, flags: Byte, env: Env)
    returns (ws': seq<World>, es': seq<Event>, ack: Byte)
    requires Run(ws, es, who, n, k) && CtArriving(Last(ws), who, n, ct, ss, id, flags, env.now, TxCount(CT_LEN) - 1)
    requires Ample(env) && k.decaps(k.sk, ct) == Some(ss)
    ensures Run(ws', es', who, n, k) && AckArriving(Last(ws'), n, ct, ss, id, ack)
    ensures Last(ws').node == Last(ws).node && ToNode(es') == ToNode(es) && Only(ToRoot(es'), ToRoot(es), MSG_CT, flags)
  {
    hide Run, Filling, Fragment, RootReceive, Offered;
    RunStarts(ws, es, who, n, k);
    var w := Last(ws);
    var p := Fragment(ct, MSG_CT, n, id, TxCount(CT_LEN) - 1, flags);
    Stamped(ct, MSG_CT, n, id, TxCount(CT_LEN) - 1, flags);
    RootAcknowledges(w.root, who, ct, ss, k, n, id, flags, env);
    ack := w.root.h.s.nextMsgId;
    assert p in w.toRoot by { OfferedOne(w.toRoot, ct, MSG_CT, n, id, flags, TxCount(CT_LEN) - 1); }
    ws', es' := Extend(ws, es, who, n, k, RootGets(p, env));
    var a := Packet(MSG_ACK, n, ack, 0, 1, [id], FLAG_NONE);
    assert [a][0] in AsSet([a]);
  }

  /** The acknowledgement establishes the node. */
  lemma ClosingRun(ws: seq<World>, es: seq<Event>, who: nat, n: NodeId, k: Kem, ct: Bytes, ss: Bytes, id: Byte, ack: Byte, env: Env)
    returns (ws': seq<World>, es': seq<Event>)
    requires Run(ws, es, who, n, k) && AckArriving(Last(ws), n, ct, ss, id, ack)
    ensures Run(ws', es', who, n, k) && Both(Last(ws'), ss)
    ensures ToRoot(es') == ToRoot(es) && ToNode(es') == ToNode(es) + {Packet(MSG_ACK, n, ack, 0, 1, [id], FLAG_NONE)}
    ensures Last(ws').toNode == Last(ws).toNode
  {
    hide Run, NodeReceive;
    RunStarts(ws, es, who, n, k);
    NodeFinishes(Last(ws).node, k, n, ct, ss, id, ack, env);
    ws', es' := Extend(ws, es, who, n, k, NodeGets(Packet(MSG_ACK, n, ack, 0, 1, [id], FLAG_NONE), env));
  }

  // ---- whole runs

  /** What every run below needs: a lawful key encapsulation that succeeds, and free queues. */
  predicate Good(n: NodeId, k: Kem, env: Env) {
    Ample(env) && n != INVALID_NODE_ID && k.encaps(k.pk, env.coins).Some?
  }

  function SecretOf(k: Kem, env: Env): Bytes
    requires k.encaps(k.pk, env.coins).Some?
  {
    k.encaps(k.pk, env.coins).value.1
  }

  /** From the key on its way to the ciphertext on its way. */
  lemma ToCiphertext(ws: seq<World>, es: seq<Event>, who: nat, n: NodeId, k: Kem, id: Byte, flags: Byte, env: Env)
    returns (ws': seq<World>, es': seq<Event>, ctId: Byte)
    requires Run(ws, es, who, n, k) && KeyArriving(Last(ws), n, k, id, flags, env.now, 0) && Good(n, k, env)
    ensures var e := k.encaps(k.pk, env.coins).value;
      Run(ws', es', who, n, k) && CtArriving(Last(ws'), who, n, e.0, e.1, ctId, FLAG_NONE, env.now, 0)
    ensures ToRoot(es') == ToRoot(es) && Only(ToNode(es'), ToNode(es), MSG_PK, flags)
    ensures var s := Last(ws').node.h.s; s.retryCount == 0 && s.deadline == env.now + 130 * SECOND + 71 * SECOND / 4
  {
    hide Run, KeyArriving, CtArriving;
    RunStarts(ws, es, who, n, k);
    ws', es' := KeyRun(ws, es, who, n, k, id, flags, env, 0);
    ws', es', ctId := AnswerRun(ws', es', who, n, k, id, flags, env);
  }

  /** From the ciphertext on its way to both sides established. */
  lemma FromCiphertext(ws: seq<World>, es: seq<Event>, who: nat, n: NodeId, k: Kem, ct: CtBytes, ss: Bytes, id: Byte, flags: Byte, env: Env)
    returns (ws': seq<World>, es': seq<Event>)
    requires Run(ws, es, who, n, k) && CtArriving(Last(ws), who, n, ct, ss, id, flags, env.now, 0) && Ample(env) && k.decaps(k.sk, ct) == Some(ss)
    ensures Run(ws', es', who, n, k) && Both(Last(ws'), ss)
    ensures Only(ToRoot(es'), ToRoot(es), MSG_CT, flags) && Only(ToNode(es'), ToNode(es), MSG_ACK, FLAG_NONE)
  {
    hide Run, CtArriving, AckArriving;
    RunStarts(ws, es, who, n, k);
    var ack;
    ws', es' := CtRun(ws, es, who, n, k, ct, ss, id, flags, env, 0);
    ws', es', ack := AcknowledgeRun(ws', es', who, n, k, ct, ss, id, flags, env);
    ws', es' := ClosingRun(ws', es', who, n, k, ct, ss, id, ack, env);
  }

  /** From the key on its way to both sides established. */
  lemma FromKey(ws: seq<World>, es: seq<Event>, who: nat, n: NodeId, k: Kem, id: Byte, flags: Byte, env: Env)
    returns (ws': seq<World>, es': seq<Event>)
    requires Run(ws, es, who, n, k) && KeyArriving(Last(ws), n, k, id, flags, env.now, 0) && Good(n, k, env) && Lawful(k)
    ensures Run(ws', es', who, n, k) && Both(Last(ws'), SecretOf(k, env))
    ensures Only(ToRoot(es'), ToRoot(es), MSG_CT, FLAG_NONE)
    ensures forall p <- ToNode(es') :: p in ToNode(es) || p.msgType == MSG_ACK || (p.msgType == MSG_PK && p.flags == flags)
  {
    hide Run, KeyArriving, CtArriving;
    RunStarts(ws, es, who, n, k);
    var e := k.encaps(k.pk, env.coins).value;
    var id';
    ws', es', id' := ToCiphertext(ws, es, who, n, k, id, flags, env);
    ws', es' := FromCiphertext(ws', es', who, n, k, e.0, e.1, id', FLAG_NONE, env);
  }

  /** The key has been sent in answer to the first request. */
  lemma KeySent(who: nat, n: NodeId, has: bool, k: Kem, env: Env) returns (ws: seq<World>, es: seq<Event>, id: Byte)
    requires Good(n, k, env)
    ensures Run(ws, es, who, n, k) && KeyArriving(Last(ws), n, k, id, FLAG_NONE, env.now, 0) && Asking(Last(ws), n)
    ensures var s := Last(ws).root.h.s; s.pendingType == MSG_PK && s.retryCount == 0 && s.deadline == env.now + 130 * SECOND + 36 * SECOND / 4
    ensures Last(ws).node.h.s.deadline == env.now + 120 * SECOND && Last(ws).node.h.s.retryCount == 0
    ensures ToRoot(es) == {Packet(MSG_GETPK, n, 0, 0, 1, [], FLAG_NONE)} && ToNode(es) == {}
  {
    hide Run, KeyArriving;
    ws, es := Opening(who, n, has, k, env);
    ws, es, id := Answering(ws, es, who, n, k, Packet(MSG_GETPK, n, 0, 0, 1, [], FLAG_NONE), env);
  }

  /** Without losses some run establishes both sides with the encapsulated secret. */
  lemma HandshakeCanComplete(who: nat, n: NodeId, has: bool, k: Kem, env: Env) returns (ws: seq<World>, es: seq<Event>)
    requires Good(n, k, env) && Lawful(k)
    ensures Run(ws, es, who, n, k) && Both(Last(ws), SecretOf(k, env))
  {
    hide Run, KeyArriving;
    var id;
    ws, es, id := KeySent(who, n, has, k, env);
    ws, es := FromKey(ws, es, who, n, k, id, FLAG_NONE, env);
  }

  // ---- runs with losses

  /** Where there was no slot, the retry of a whole message leaves none. */
  lemma RetryKeepsFree(h: Hs, who: nat, has: bool, k: Kem, env: Env)
    requires h.slots == NoSlots() && Ripe(h, env) && !(h.s.role == RootRole && h.s.pendingType == MSG_CT)
    ensures Retry(h, who, has, k, env).h.slots == NoSlots()
  {
    hide Fragments;
    NothingCollected(env.now);
    assert Release(NoSlots(), who) == NoSlots();
  }

  /** The root's timer fires while nothing of the ciphertext is there: the key is sent again. */
  lemma KeyAgain(ws: seq<World>, es: seq<Event>, who: nat, n: NodeId, k: Kem, id: Byte, flags: Byte, now: int, env: Env)
    returns (ws': seq<World>, es': seq<Event>)
    requires Run(ws, es, who, n, k) && KeyArriving(Last(ws), n, k, id, flags, now, 0) && Ample(env)
    requires var s := Last(ws).root.h.s; s.pendingType == MSG_PK && s.retryCount < 3 && env.now >= s.deadline
    ensures Run(ws', es', who, n, k) && KeyArriving(Last(ws'), n, k, Last(ws).root.h.s.pendingId, FLAG_RETRY, env.now, 0)
    ensures ToRoot(es') == ToRoot(es) && ToNode(es') == ToNode(es)
  {
    hide Retry, Whole, Offered;
    var w := Last(ws);
    var h, id' := w.root.h, w.root.h.s.pendingId;
    RetryKey(h, who, true, k, env);
    RetryCoherent(h, who, true, k, env);
    RetryKeepsFree(h, who, true, k, env);
    WholeOffered(Retry(h, who, true, k, env).out, w.toNode, k.pk, MSG_PK, n, id', FLAG_RETRY);
    FillingKept(k.pk, MSG_PK, n, id, LOCAL, now, 0);
    FillingKept(k.pk, MSG_PK, n, id', LOCAL, env.now, 0);
    ws', es' := Extend(ws, es, who, n, k, RootClock(env));
  }

  /** The node's timer fires while it waits for the acknowledgement: the ciphertext is sent again. */
  lemma CiphertextAgain(ws: seq<World>, es: seq<Event>, who: nat, n: NodeId, k: Kem, ct: CtBytes, ss: Bytes, id: Byte, env: Env)
    returns (ws': seq<World>, es': seq<Event>)
    requires Run(ws, es, who, n, k) && NodeWaits(Last(ws).node, n, ct, ss, id) && Ample(env)
    requires var s := Last(ws).node.h.s; s.retryCount < 3 && env.now >= s.deadline
    ensures Run(ws', es', who, n, k) && NodeWaits(Last(ws').node, n, ct, ss, id) && Offered(Last(ws').toRoot, ct, MSG_CT, n, id, FLAG_RETRY)
    ensures Last(ws').root == Last(ws).root && Last(ws').toNode == Last(ws).toNode && ToRoot(es') == ToRoot(es) && ToNode(es') == ToNode(es)
  {
    hide Retry, Whole, Offered;
    var w := Last(ws);
    RetryCiphertext(w.node.h, LOCAL, false, k, env);
    RetryCoherent(w.node.h, LOCAL, false, k, env);
    RetryKeepsFree(w.node.h, LOCAL, false, k, env);
    WholeOffered(Retry(w.node.h, LOCAL, false, k, env).out, w.toRoot, ct, MSG_CT, n, id, FLAG_RETRY);
    ws', es' := Extend(ws, es, who, n, k, NodeClock(env));
  }

  /** The node's timer fires while it waits for the key: it asks again. */
  lemma RequestAgain(ws: seq<World>, es: seq<Event>, who: nat, n: NodeId, k: Kem, env: Env) returns (ws': seq<World>, es': seq<Event>)
    requires Run(ws, es, who, n, k) && Asking(Last(ws), n) && Ample(env)
    requires Last(ws).node.h.s.retryCount < 3 && env.now >= Last(ws).node.h.s.deadline
    ensures Run(ws', es', who, n, k) && Packet(MSG_GETPK, n, Last(ws).node.h.s.pendingId, 0, 1, [], FLAG_RETRY) in Last(ws').toRoot
    ensures Last(ws').root == Last(ws).root && ToRoot(es') == ToRoot(es) && ToNode(es') == ToNode(es)
    ensures Asking(Last(ws'), n)
  {
    hide Retry;
    var w := Last(ws);
    RetryGetPk(w.node.h, LOCAL, false, k, env);
    RetryCoherent(w.node.h, LOCAL, false, k, env);
    RetryKeepsFree(w.node.h, LOCAL, false, k, env);
    var p := Packet(MSG_GETPK, n, w.node.h.s.pendingId, 0, 1, [], FLAG_RETRY);
    assert [p][0] in AsSet([p]);
    ws', es' := Extend(ws, es, who, n, k, NodeClock(env));
  }

  /** All fragments of the first key are lost: the root's timer sends them again, and the exchange succeeds. */
  lemma LostKey(who: nat, n: NodeId, has: bool, k: Kem, env: Env, later: Env) returns (ws: seq<World>, es: seq<Event>)
    requires Good(n, k, env) && Good(n, k, later) && Lawful(k) && later.now >= env.now + 139 * SECOND
    ensures Run(ws, es, who, n, k) && Both(Last(ws), SecretOf(k, later))
    ensures forall p <- ToNode(es) :: p.msgType == MSG_PK ==> p.flags == FLAG_RETRY
  {
    hide Run, KeyArriving, Asking;
    var id;
    ws, es, id := KeySent(who, n, has, k, env);
    RunStarts(ws, es, who, n, k);
    var id' := Last(ws).root.h.s.pendingId;
    ws, es := KeyAgain(ws, es, who, n, k, id, FLAG_NONE, env.now, later);
    ws, es := FromKey(ws, es, who, n, k, id', FLAG_RETRY, later);
  }

  /** All fragments of the first ciphertext are lost: the node's timer sends them again, and the exchange succeeds. */
  lemma LostCiphertext(who: nat, n: NodeId, has: bool, k: Kem, env: Env, later: Env) returns (ws: seq<World>, es: seq<Event>)
    requires Good(n, k, env) && Ample(later) && Lawful(k) && later.now >= env.now + 148 * SECOND
    ensures Run(ws, es, who, n, k) && Both(Last(ws), SecretOf(k, env))
    ensures forall p <- ToRoot(es) :: p.msgType == MSG_CT ==> p.flags == FLAG_RETRY
  {
    hide Run, KeyArriving, NodeWaits, RootWaits, Offered, Asking;
    var e := k.encaps(k.pk, env.coins).value;
    var id, ctId;
    ws, es, id := KeySent(who, n, has, k, env);
    ws, es, ctId := ToCiphertext(ws, es, who, n, k, id, FLAG_NONE, env);
    FillingKept(e.0, MSG_CT, n, ctId, who, env.now, 0);
    FillingKept(e.0, MSG_CT, n, ctId, who, later.now, 0);
    ws, es := CiphertextAgain(ws, es, who, n, k, e.0, e.1, ctId, later);
    ws, es := FromCiphertext(ws, es, who, n, k, e.0, e.1, ctId, FLAG_RETRY, later);
  }

  /** The first request is lost: the node's timer repeats it, and the exchange succeeds. */
  lemma LostRequest(who: nat, n: NodeId, has: bool, k: Kem, env: Env, later: Env) returns (ws: seq<World>, es: seq<Event>)
    requires Good(n, k, env) && Good(n, k, later) && Lawful(k) && later.now >= env.now + 120 * SECOND
    ensures Run(ws, es, who, n, k) && Both(Last(ws), SecretOf(k, later))
    ensures forall p <- ToRoot(es) :: p.msgType == MSG_GETPK ==> p.flags == FLAG_RETRY
  {
    hide Run, KeyArriving;
    var id;
    ws, es := Opening(who, n, has, k, env);
    RunStarts(ws, es, who, n, k);
    var p := Packet(MSG_GETPK, n, Last(ws).node.h.s.pendingId, 0, 1, [], FLAG_RETRY);
    ws, es := RequestAgain(ws, es, who, n, k, later);
    ws, es, id := Answering(ws, es, who, n, k, p, later);
    ws, es := FromKey(ws, es, who, n, k, id, FLAG_NONE, later);
  }

  /** The answer to the first request is lost and the node asks again: the waiting root starts over, and the exchange succeeds. */
  lemma RepeatedRequest(who: nat, n: NodeId, has: bool, k: Kem, env: Env, later: Env) returns (ws: seq<World>, es: seq<Event>)
    requires Good(n, k, env) && Good(n, k, later) && Lawful(k) && later.now >= env.now + 120 * SECOND
    ensures Run(ws, es, who, n, k) && Both(Last(ws), SecretOf(k, later))
    ensures Packet(MSG_GETPK, n, 0, 0, 1, [], FLAG_NONE) in ToRoot(es) && exists p <- ToRoot(es) :: p.msgType == MSG_GETPK && p.flags == FLAG_RETRY
  {
    hide Run;
    var id;
    ws, es, id := KeySent(who, n, has, k, env);
    RunStarts(ws, es, who, n, k);
    var p := Packet(MSG_GETPK, n, Last(ws).node.h.s.pendingId, 0, 1, [], FLAG_RETRY);
    ws, es := RequestAgain(ws, es, who, n, k, later);
    ws, es, id := Answering(ws, es, who, n, k, p, later);
    ws, es := FromKey(ws, es, who, n, k, id, FLAG_NONE, later);
  }

  /** The first fragment of a ciphertext sent again makes the established root acknowledge again. */
  lemma AcknowledgeAgain(ws: seq<World>, es: seq<Event>, who: nat, n: NodeId, k: Kem, ct: CtBytes, ss: Bytes, id: Byte, ack: Byte, env: Env)
    returns (ws': seq<World>, es': seq<Event>)
    requires Run(ws, es, who, n, k) && AckArriving(Last(ws), n, ct, ss, id, ack) && Offered(Last(ws).toRoot, ct, MSG_CT, n, id, FLAG_RETRY) && Ample(env)
    ensures Run(ws', es', who, n, k) && AckArriving(Last(ws'), n, ct, ss, id, (ack + 1) % 256)
    ensures Last(ws).toNode <= Last(ws').toNode && ToNode(es') == ToNode(es)
  {
    hide Run, Fragment, Handle, NodeWaits;
    RunStarts(ws, es, who, n, k);
    var w, p := Last(ws), Fragment(ct, MSG_CT, n, id, 0, FLAG_RETRY);
    Stamped(ct, MSG_CT, n, id, 0, FLAG_RETRY);
    DuplicateCiphertext(w.root.h, who, p, w.root.hasKeypair, k, env);
    var a := Packet(MSG_ACK, n, (ack + 1) % 256, 0, 1, [id], FLAG_NONE);
    assert [a][0] in AsSet([a]);
    ws', es' := Extend(ws, es, who, n, k, RootGets(p, env));
  }

  /** The acknowledgement is lost: the node sends its ciphertext again, its first fragment makes the root acknowledge again,
      and that establishes the node. */
  lemma LostAcknowledgement(who: nat, n: NodeId, has: bool, k: Kem, env: Env, later: Env) returns (ws: seq<World>, es: seq<Event>, ack: Byte, ctId: Byte)
    requires Good(n, k, env) && Ample(later) && Lawful(k) && later.now >= env.now + 148 * SECOND
    ensures Run(ws, es, who, n, k) && Both(Last(ws), SecretOf(k, env))
    ensures forall p <- ToNode(es) :: p.msgType == MSG_ACK ==> p.msgId == (ack + 1) % 256
    ensures Packet(MSG_ACK, n, ack, 0, 1, [ctId], FLAG_NONE) in Last(ws).toNode
  {
    hide Run, KeyArriving, NodeWaits, RootWaits, Offered, Asking, Takes;
    var e := k.encaps(k.pk, env.coins).value;
    var id;
    ws, es, id := KeySent(who, n, has, k, env);
    ws, es, ctId := ToCiphertext(ws, es, who, n, k, id, FLAG_NONE, env);
    ws, es := CtRun(ws, es, who, n, k, e.0, e.1, ctId, FLAG_NONE, env, 0);
    ws, es, ack := AcknowledgeRun(ws, es, who, n, k, e.0, e.1, ctId, FLAG_NONE, env);
    RunStarts(ws, es, who, n, k);
    ws, es := CiphertextAgain(ws, es, who, n, k, e.0, e.1, ctId, later);
    ws, es := AcknowledgeAgain(ws, es, who, n, k, e.0, e.1, ctId, ack, later);
    ws, es := ClosingRun(ws, es, who, n, k, e.0, e.1, ctId, (ack + 1) % 256, later);
  }
}
