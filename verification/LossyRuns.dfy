/** A run in which any fragments of the ciphertext but the last are lost: the root's NACKs bring them back. */
module LossyRuns {
  import opened Protocol
  import opened Fragmentation
  import opened Nack
  import opened SessionManager
  import opened Handshake
  import opened KeyExchange
  import opened AttemptEnds
  import opened KeyAgreement
  import opened HandshakeRules
  import opened MessageRules
  import opened HandshakeCompletes
  import opened HandshakeRuns
  import R = NackRecovery

  /** The fragments lost on the way; the last one is not. */
  type Losses = lost: seq<bool> | |lost| == 71 && !lost[70] witness seq(71, i => false)

  /** The slots of a session that has received c, and nothing else in them. */
  function SlotFor(c: Ctx, who: nat, now: int): Slots {
    if c == Empty() then NoSlots() else [Slot(true, who, now, 0, 0, 0, c), FreeSlot()]
  }

  /** Of the first j fragments those have arrived that are not lost. */
  ghost predicate PartArriving(w: World, who: nat, n: NodeId, ct: CtBytes, ss: Bytes, id: Byte, now: int, lost: Losses, c: Ctx, j: nat) {
    && NodeWaits(w.node, n, ct, ss, id) && RootWaits(w.root, n) && n != INVALID_NODE_ID
    && (c != Empty() ==> c.active && w.root.h.s.pendingType == MSG_CT) && w.root.h.slots == SlotFor(c, who, now)
    && Holds(c, ct, MSG_CT, n, id) && j <= 71 && (forall x :: 0 <= x < 71 ==> (c.bitmap[x] <==> x < j && !lost[x]))
    && Offered(w.toRoot, ct, MSG_CT, n, id, FLAG_NONE)
  }

  lemma SlotForReceives(c: Ctx, who: nat, now: int)
    requires c != Empty() ==> c.active
    ensures var slots := SlotFor(c, who, now);
      && Gc(slots, now) == slots && OneSlot(slots, who) && ReceivesIn(slots, who, now, 0, c)
      && GetSlot(Gc(slots, now), who, now).0 == [Slot(true, who, now, 0, 0, 0, c), FreeSlot()]
  {
    hide Empty;
  }

  /** One fragment arrives; the last one, when others are missing, brings out a NACK for the first of them. */
  lemma PartTakes(w: World, who: nat, n: NodeId, k: Kem, ct: CtBytes, ss: Bytes, id: Byte, env: Env, lost: Losses, c: Ctx, j: nat)
    requires PartArriving(w, who, n, ct, ss, id, env.now, lost, c, j) && j < 71 && !lost[j] && Ample(env)
    requires exists x :: 0 <= x < 71 && lost[x]
    ensures var (r, out) := RootReceive(w.root, who, Fragment(ct, MSG_CT, n, id, j, FLAG_NONE), k, env);
      var d := Added(c, Fragment(ct, MSG_CT, n, id, j, FLAG_NONE));
      && Holds(d, ct, MSG_CT, n, id) && d.active && d.bitmap == c.bitmap[j := true]
      && RootWaits(r, n) && r.h.s.pendingType == MSG_CT
      && if j < 70 then out == [] && r.h.slots == SlotFor(d, who, env.now)
         else
           && |out| == 1 && NackFor(out[0], d, n, w.root.h.s.nextMsgId)
           && r.h.slots == [Slot(true, who, env.now, env.now, d.receivedFrags, AskedFragments(d), d), FreeSlot()]
  {
    hide Holds, PartOf, Handle, Fits, Completes, Added, NackFor, MissingCount, GetSlot, Gc, ReceivesIn, Fragment, Offered;
    var p := Fragment(ct, MSG_CT, n, id, j, FLAG_NONE);
    Stamped(ct, MSG_CT, n, id, j, FLAG_NONE);
    FragmentIsPart(ct, MSG_CT, n, id, j, FLAG_NONE);
    var h := w.root.h.(s := Started(w.root.h.s, id, env.now));
    assert Fits(h, p, ct, c) by { FitsHere(h, p, ct, c, n, id); }
    SlotForReceives(c, who, env.now);
    FitsHolds(h, p, ct, c);
    var x :| 0 <= x < 71 && lost[x];
    assert !Completes(p, ct, c) by { Incomplete(p, ct, c, x); }
    Kept(h, who, p, w.root.hasKeypair, k, env, 0, c, ct);
    NotEmpty(Added(c, p));
    if j == 70 { LastPresent(Added(c, p), ct, n, id); } else { LastAbsent(Added(c, p), ct, n, id, j); }
  }

  lemma FitsHere(h: Hs, p: Packet, msg: Bytes, c: Ctx, n: NodeId, id: Byte)
    requires Coherent(h.s) && h.s.role == RootRole && h.s.phase == WaitCt && h.s.nodeId == n && |msg| == CT_LEN
    requires PartOf(p, msg, MSG_CT, n, id, p.fragIdx, FLAG_NONE) && Holds(c, msg, MSG_CT, n, id)
    ensures Fits(h, p, msg, c)
  {
    hide Holds;
  }

  lemma Incomplete(p: Packet, msg: Bytes, c: Ctx, x: nat)
    requires |msg| == CT_LEN && x < 71 && !c.bitmap[x] && x != p.fragIdx
    ensures !Completes(p, msg, c)
  {}

  lemma NotEmpty(c: Ctx)
    requires c.active
    ensures c != Empty()
  {}

  lemma LastPresent(c: Ctx, ct: CtBytes, n: NodeId, id: Byte)
    requires Holds(c, ct, MSG_CT, n, id) && c.active && c.bitmap[70]
    ensures c.totalFrags == 71 && c.bitmap[c.totalFrags - 1]
  {}

  lemma LastAbsent(c: Ctx, ct: CtBytes, n: NodeId, id: Byte, j: nat)
    requires Holds(c, ct, MSG_CT, n, id) && c.active && !c.bitmap[70]
    ensures c.totalFrags == 71 && !c.bitmap[c.totalFrags - 1]
  {}

  /** The fragments that are not lost arrive, up to the last but one. */
  lemma {:induction false} PartRun(ws: seq<World>, es: seq<Event>, who: nat, n: NodeId, k: Kem, ct: CtBytes, ss: Bytes, id: Byte, env: Env, lost: Losses, c: Ctx, j: nat)
    returns (ws': seq<World>, es': seq<Event>, d: Ctx)
    requires Run(ws, es, who, n, k) && PartArriving(Last(ws), who, n, ct, ss, id, env.now, lost, c, j) && j <= 70 && Ample(env)
    requires (exists x :: 0 <= x < 71 && lost[x]) && Unheard(ToRoot(es), lost)
    ensures Run(ws', es', who, n, k) && PartArriving(Last(ws'), who, n, ct, ss, id, env.now, lost, d, 70) && Unheard(ToRoot(es'), lost)
    decreases 70 - j
  {
    hide Run, Fragment, RootReceive, Holds, SlotFor, NodeWaits, RootWaits, Offered, Added, NackFor;
    RunStarts(ws, es, who, n, k);
    if j == 70 {
      ws', es', d := ws, es, c;
    } else if lost[j] {
      ws', es', d := PartRun(ws, es, who, n, k, ct, ss, id, env, lost, c, j + 1);
    } else {
      var p := Fragment(ct, MSG_CT, n, id, j, FLAG_NONE);
      PartTakes(Last(ws), who, n, k, ct, ss, id, env, lost, c, j);
      OfferedOne(Last(ws).toRoot, ct, MSG_CT, n, id, FLAG_NONE, j);
      StillOffered(Last(ws).toRoot, ct, n, id);
      Stamped(ct, MSG_CT, n, id, j, FLAG_NONE);
      ws', es' := Extend(ws, es, who, n, k, RootGets(p, env));
      ws', es', d := PartRun(ws', es', who, n, k, ct, ss, id, env, lost, Added(c, p), j + 1);
    }
  }

  lemma StillOffered(packets: set<Packet>, ct: CtBytes, n: NodeId, id: Byte)
    requires Offered(packets, ct, MSG_CT, n, id, FLAG_NONE)
    ensures Offered(packets + AsSet([]), ct, MSG_CT, n, id, FLAG_NONE)
  {}

  /** No lost fragment of the first transmission has reached the root. */
  ghost predicate Unheard(got: set<Packet>, lost: Losses) {
    forall p <- got :: p.msgType == MSG_CT && p.flags == FLAG_NONE ==> p.fragIdx < 71 && !lost[p.fragIdx]
  }

  // ---- the rounds

  /** The two handshakes of the world and the NACK on its way. */
  ghost predicate Linked(w: World, x: R.Sides) {
    && w.node.h == x.sender && w.root.h == x.receiver && x.nack in w.toNode && w.root.hasKeypair
    && x.receiver.s.role == RootRole && x.receiver.s.pendingType != MSG_PK
  }

  function Who(who: nat): R.Ends { R.Ends(LOCAL, who, false, true) }

  /** A ciphertext fragment does not bring the root back to waiting for the first one. */
  lemma StillPastKey(h: Hs, who: nat, p: Packet, has: bool, k: Kem, env: Env)
    requires h.s.role == RootRole && h.s.pendingType != MSG_PK && p.msgType == MSG_CT
    ensures var s := Handle(h, who, p, has, k, env).h.s; s.role == RootRole && s.pendingType != MSG_PK
  {
    hide Collect, Fragments, Gc;
    CollectPastKey(h.(slots := Gc(h.slots, env.now)), who, p, has, k, env);
  }

  lemma CollectPastKey(h: Hs, who: nat, p: Packet, has: bool, k: Kem, env: Env)
    requires h.s.role == RootRole && h.s.pendingType != MSG_PK && p.msgType == MSG_CT
    ensures var s := Collect(h, who, p, has, k, env).h.s; s.role == RootRole && s.pendingType != MSG_PK
  {
    hide Added, Accepts, Fragments, Release, GetSlot, FirstMissing, Encode, NackDue;
  }

  /** The root receives packet after packet as its handler does. */
  lemma {:induction false} FeedRun(ws: seq<World>, es: seq<Event>, who: nat, n: NodeId, k: Kem, ps: seq<Packet>, env: Env)
    returns (ws': seq<World>, es': seq<Event>)
    requires Run(ws, es, who, n, k)
    requires var w := Last(ws); w.root.hasKeypair && w.root.h.s.role == RootRole && w.root.h.s.pendingType != MSG_PK
    requires forall p <- ps :: p in Last(ws).toRoot && p.msgType == MSG_CT && p.flags == FLAG_RETRY
    ensures Run(ws', es', who, n, k) && Last(ws').node == Last(ws).node && Last(ws').root.hasKeypair && Last(ws).toRoot <= Last(ws').toRoot
    ensures var (h, out) := R.Feed(Last(ws).root.h, who, ps, true, k, env);
      Last(ws').root.h == h && Last(ws').toNode == Last(ws).toNode + AsSet(out) && h.s.role == RootRole && h.s.pendingType != MSG_PK
    ensures forall p <- ToRoot(es') :: p in ToRoot(es) || p.flags == FLAG_RETRY
  {
    hide Run, Handle;
    RunStarts(ws, es, who, n, k);
    if ps == [] {
      ws', es' := ws, es;
      assert AsSet([]) == {};
    } else {
      var m := |ps| - 1;
      ws', es' := FeedRun(ws, es, who, n, k, ps[..m], env);
      RunStarts(ws', es', who, n, k);
      var w := Last(ws');
      StillPastKey(w.root.h, who, ps[m], true, k, env);
      var out := R.Feed(Last(ws).root.h, who, ps[..m], true, k, env).1;
      SetOfBoth(out, Handle(w.root.h, who, ps[m], true, k, env).out);
      ws', es' := Extend(ws', es', who, n, k, RootGets(ps[m], env));
    }
  }

  lemma SetOfBoth(a: seq<Packet>, b: seq<Packet>)
    ensures AsSet(a + b) == AsSet(a) + AsSet(b)
  {
    forall p | p in AsSet(a) + AsSet(b) ensures p in AsSet(a + b) {
      if p in AsSet(a) {
        var i :| 0 <= i < |a| && a[i] == p;
        assert (a + b)[i] == p;
      } else {
        var i :| 0 <= i < |b| && b[i] == p;
        assert (a + b)[|a| + i] == p;
      }
    }
  }

  /** One round: the node serves the NACK, and the root receives what it sends. */
  lemma RoundRun(ws: seq<World>, es: seq<Event>, who: nat, n: NodeId, k: Kem, x: R.Sides, ct: CtBytes, env: Env)
    returns (ws': seq<World>, es': seq<Event>)
    requires Run(ws, es, who, n, k) && Linked(Last(ws), x) && R.InRecovery(x, Who(who), k, 0, ct, env.now) && Ample(env)
    ensures Run(ws', es', who, n, k) && Linked(Last(ws'), R.Exchange(x, Who(who), k, env))
    ensures forall p <- ToRoot(es') :: p in ToRoot(es) || p.flags == FLAG_RETRY
  {
    hide Run, Handle, R.Feed, R.InRecovery, PartOf, FirstMissing;
    RunStarts(ws, es, who, n, k);
    var e := Handle(x.sender, LOCAL, x.nack, false, k, env);
    R.Served(x, Who(who), k, 0, ct, env);
    ServedCiphertext(x, who, k, ct, env.now);
    forall p | p in e.out ensures p.msgType == MSG_CT && p.flags == FLAG_RETRY {
      var j :| 0 <= j < |e.out| && e.out[j] == p;
      PartFields(p, ct, x.sender.s.pendingType, x.sender.s.nodeId, x.sender.s.pendingId, FirstMissing(x.receiver.slots[0].ctx)[j], FLAG_RETRY);
    }
    ws', es' := Extend(ws, es, who, n, k, NodeGets(x.nack, env));
    RunStarts(ws', es', who, n, k);
    forall p | p in e.out ensures p in Last(ws').toRoot {
      var j :| 0 <= j < |e.out| && e.out[j] == p;
      assert e.out[j] in AsSet(e.out);
    }
    ws', es' := FeedRun(ws', es', who, n, k, e.out, env);
    var out := R.Feed(x.receiver, who, e.out, true, k, env).1;
    if out != [] { assert out[|out| - 1] in AsSet(out); }
  }

  lemma ServedCiphertext(x: R.Sides, who: nat, k: Kem, ct: CtBytes, now: int)
    requires R.InRecovery(x, Who(who), k, 0, ct, now) && x.receiver.s.role == RootRole
    ensures x.sender.s.pendingType == MSG_CT && x.sender.s.role == NodeRole && x.sender.s.phase == WaitAck && x.sender.ct == ct
  {
    hide Holds, NackFor, MissingCount;
  }

  /** Round after round until the root is established and has acknowledged. */
  lemma {:induction false} RecoverRun(ws: seq<World>, es: seq<Event>, who: nat, n: NodeId, k: Kem, x: R.Sides, ct: CtBytes, ss: Bytes, id: Byte, env: Env)
    returns (ws': seq<World>, es': seq<Event>, ack: Byte)
    requires Run(ws, es, who, n, k) && Linked(Last(ws), x) && R.InRecovery(x, Who(who), k, 0, ct, env.now) && Ample(env)
    requires NodeWaits(Last(ws).node, n, ct, ss, id) && k.decaps(k.sk, ct) == Some(ss)
    ensures Run(ws', es', who, n, k) && AckArriving(Last(ws'), n, ct, ss, id, ack)
    ensures forall p <- ToRoot(es') :: p in ToRoot(es) || p.flags == FLAG_RETRY
    decreases R.Missing(x, 0)
  {
    hide Run, R.Exchange, R.InRecovery, R.Missing;
    RunStarts(ws, es, who, n, k);
    var y := R.Exchange(x, Who(who), k, env);
    ServedCiphertext(x, who, k, ct, env.now);
    SameNumber(x, who, k, ct, env.now);
    ws', es' := RoundRun(ws, es, who, n, k, x, ct, env);
    RunStarts(ws', es', who, n, k);
    if R.Missing(x, 0) > 16 {
      R.OneRound(x, Who(who), k, 0, ct, env);
      NodeStillWaits(Last(ws).node, Last(ws').node, x, who, k, n, ct, ss, id, env);
      ws', es', ack := RecoverRun(ws', es', who, n, k, y, ct, ss, id, env);
    } else {
      R.RootLast(x, Who(who), k, 0, ct, env);
      NodeStillWaits(Last(ws).node, Last(ws').node, x, who, k, n, ct, ss, id, env);
      ack := x.receiver.s.nextMsgId;
    }
  }

  lemma SameNumber(x: R.Sides, who: nat, k: Kem, ct: CtBytes, now: int)
    requires R.InRecovery(x, Who(who), k, 0, ct, now)
    ensures x.sender.s.nodeId == x.receiver.s.nodeId
  {
    hide Holds, NackFor, MissingCount;
  }

  /** Serving a NACK leaves the node waiting. */
  lemma NodeStillWaits(d: Node, d': Node, x: R.Sides, who: nat, k: Kem, n: NodeId, ct: CtBytes, ss: Bytes, id: Byte, env: Env)
    requires R.InRecovery(x, Who(who), k, 0, ct, env.now) && Ample(env)
    requires NodeWaits(d, n, ct, ss, id) && d.h == x.sender && d'.h == R.Exchange(x, Who(who), k, env).sender
    ensures NodeWaits(d', n, ct, ss, id)
  {
    hide R.InRecovery, R.Feed, Handle, R.Answer, Gc;
    R.Served(x, Who(who), k, 0, ct, env);
    NothingCollected(env.now);
  }

  // ---- the whole run

  /** The last fragment of the first transmission arrives while others are missing. */
  lemma GapRun(ws: seq<World>, es: seq<Event>, who: nat, n: NodeId, k: Kem, ct: CtBytes, ss: Bytes, id: Byte, env: Env, lost: Losses, c: Ctx)
    returns (ws': seq<World>, es': seq<Event>, x: R.Sides)
    requires Run(ws, es, who, n, k) && PartArriving(Last(ws), who, n, ct, ss, id, env.now, lost, c, 70) && Ample(env)
    requires (exists x :: 0 <= x < 71 && lost[x]) && Unheard(ToRoot(es), lost)
    ensures Run(ws', es', who, n, k) && Linked(Last(ws'), x) && R.InRecovery(x, Who(who), k, 0, ct, env.now)
    ensures NodeWaits(Last(ws').node, n, ct, ss, id) && Unheard(ToRoot(es'), lost)
  {
    hide Run, Fragment, RootReceive, Offered, Holds, Added, Asks, FirstMissing, MissingCount, NodeWaits;
    RunStarts(ws, es, who, n, k);
    var w, p := Last(ws), Fragment(ct, MSG_CT, n, id, 70, FLAG_NONE);
    PartTakes(w, who, n, k, ct, ss, id, env, lost, c, 70);
    OfferedOne(w.toRoot, ct, MSG_CT, n, id, FLAG_NONE, 70);
    Stamped(ct, MSG_CT, n, id, 70, FLAG_NONE);
    ws', es' := Extend(ws, es, who, n, k, RootGets(p, env));
    RunStarts(ws', es', who, n, k);
    var d, out := Added(c, p), RootReceive(w.root, who, p, k, env).1;
    assert out[0] in AsSet(out);
    x := R.Sides(w.node.h, Last(ws').root.h, out[0]);
    var y :| 0 <= y < 71 && lost[y];
    SomeMissing(d, ct, n, id, y);
    LastPresent(d, ct, n, id);
    NodeStocked(w.node, n, ct, ss, id);
  }

  lemma NodeStocked(d: Node, n: NodeId, ct: CtBytes, ss: Bytes, id: Byte)
    requires NodeWaits(d, n, ct, ss, id)
    ensures Coherent(d.h.s) && Stocked(d.h) && d.h.s.role == NodeRole && d.h.s.phase == WaitAck && d.h.ct == ct && d.h.s.nodeId == n
    ensures d.h.s.pendingId == id && d.h.s.pendingType == MSG_CT
  {}

  lemma SomeMissing(d: Ctx, ct: CtBytes, n: NodeId, id: Byte, y: nat)
    requires Holds(d, ct, MSG_CT, n, id) && d.active && y < 71 && !d.bitmap[y]
    ensures MissingCount(d) > 0
  {
    hide Holds;
    HoldsShape(d, ct, MSG_CT, n, id);
    AbsentComplete(d.bitmap[..d.totalFrags], 0, y);
  }

  /** Whichever fragments of the first ciphertext are lost, the last one excepted: the NACKs of the root and the answers of the
      node bring them back, and both sides end up established. */
  lemma LostFragments(who: nat, n: NodeId, has: bool, k: Kem, env: Env, lost: Losses) returns (ws: seq<World>, es: seq<Event>)
    requires Good(n, k, env) && Lawful(k) && exists x :: 0 <= x < 71 && lost[x]
    ensures Run(ws, es, who, n, k) && Both(Last(ws), SecretOf(k, env))
    ensures Unheard(ToRoot(es), lost)
  {
    hide Run, KeyArriving, R.InRecovery, PartArriving, NodeWaits, Asking;
    var e := k.encaps(k.pk, env.coins).value;
    var id, ctId, c, x, ack;
    ws, es, id := KeySent(who, n, has, k, env);
    ws, es, ctId := ToCiphertext(ws, es, who, n, k, id, FLAG_NONE, env);
    RunStarts(ws, es, who, n, k);
    NothingArrived(Last(ws), who, n, e.0, e.1, ctId, env.now, lost);
    ws, es, c := PartRun(ws, es, who, n, k, e.0, e.1, ctId, env, lost, Empty(), 0);
    ws, es, x := GapRun(ws, es, who, n, k, e.0, e.1, ctId, env, lost, c);
    ws, es, ack := RecoverRun(ws, es, who, n, k, x, e.0, e.1, ctId, env);
    ws, es := ClosingRun(ws, es, who, n, k, e.0, e.1, ctId, ack, env);
  }

  lemma NothingArrived(w: World, who: nat, n: NodeId, ct: CtBytes, ss: Bytes, id: Byte, now: int, lost: Losses)
    requires CtArriving(w, who, n, ct, ss, id, FLAG_NONE, now, 0)
    ensures PartArriving(w, who, n, ct, ss, id, now, lost, Empty(), 0)
  {
    hide Holds, Offered, Fragment;
    EmptyHolds(ct, MSG_CT, n, id);
    FillingKept(ct, MSG_CT, n, id, who, now, 0);
  }
}
