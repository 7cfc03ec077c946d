/** Every handshake attempt ends: coherent sessions, at most three counted retries, and failure when nothing arrives. */
module AttemptEnds {
  import opened Protocol
  import opened Fragmentation
  import opened Nack
  import opened SessionManager
  import opened Handshake
  import opened KeyExchange

  // ---- coherence over every step of both drivers, resets and new attempts included

  lemma FreshCoherent(role: Role, n: NodeId)
    ensures Coherent(Fresh(role, n))
  {}

  lemma NodeStepsCoherent(d: Node, p: Packet, k: Kem, env: Env)
    requires Coherent(d.h.s) && d.h.s.role == NodeRole
    ensures Coherent(NodeRequest(d, env).0.h.s)
    ensures Coherent(NodeReceive(d, p, k, env).0.h.s)
    ensures Coherent(NodeTick(d, k, env).0.h.s)
    ensures Coherent(NodeAfterTick(d).h.s)
  {
    hide Handle, Retry;
    HandleCoherent(d.h, LOCAL, p, false, k, env);
    RetryCoherent(d.h, LOCAL, false, k, env);
  }

  lemma RootStepsCoherent(r: Root, who: nat, p: Packet, k: Kem, env: Env)
    requires Coherent(r.h.s) && r.h.s.role == RootRole
    ensures Coherent(RootReceive(r, who, p, k, env).0.h.s)
    ensures Coherent(RootTick(r, who, k, env).0.h.s)
  {
    hide Handle, Retry, Gc, Fragments;
    var s := r.h.s;
    var s1 := if p.msgType == MSG_CT && s.phase == WaitCt && s.pendingType == MSG_PK then s.SetPending(MSG_CT, p.msgId, env.now) else s;
    HandleCoherent(r.h.(s := s1), who, p, r.hasKeypair, k, env);
    RetryCoherent(r.h, who, r.hasKeypair, k, env);
  }

  /** The last return of hs_fsm_retry, a retry without a pending message, is never reached. */
  lemma RetryHasMessage(h: Hs, now: int)
    requires Coherent(h.s) && h.s.RetryDue(now)
    ensures !NothingPending(h.s)
  {}

  /** The ciphertext that the node may have to send again is there. */
  predicate Stocked(h: Hs) {
    h.s.phase == WaitAck ==> |h.ct| == CT_LEN
  }

  /** A retry acts only on an empty queue, so there is always room for what it sends. */
  lemma RetryHasRoom(h: Hs, k: Kem, env: Env)
    requires Coherent(h.s) && Stocked(h) && h.s.waiting && env.free >= QUEUE_SIZE
    ensures RoomFor(env.free, |k.pk|) && (h.s.phase == WaitAck ==> RoomFor(env.free, |h.ct|)) && env.free > 0
  {}

  // ---- a quiet device: nothing arrives, time passes, the queue drains

  datatype Quiet = Quiet(h: Hs, queued: nat, now: int)

  /** What happens outside in one round: how many packets leave the queue, how much time passes. */
  datatype Pace = Pace(drained: nat, passed: nat)

  predicate Moves(p: Pace) { p.drained >= 1 && p.passed >= 1 }

  function Drained(queued: nat, n: nat): nat { if n < queued then queued - n else 0 }

  /** One period of the retry process. */
  function Round(q: Quiet, p: Pace, who: nat, has: bool, k: Kem): Quiet {
    var queued, now := Drained(q.queued, p.drained), q.now + p.passed;
    var e := Retry(q.h, who, has, k, Env(now, if queued <= QUEUE_SIZE then QUEUE_SIZE - queued else 0, [], false));
    Quiet(e.h, queued + |e.out|, now)
  }

  predicate Pending(q: Quiet) { Coherent(q.h.s) && q.h.s.waiting && Stocked(q.h) }

  function Left(q: Quiet): nat { if q.h.s.deadline > q.now then q.h.s.deadline - q.now else 0 }

  /** The lexicographic measure: retries left, packets queued, time to the deadline. */
  predicate Less(a: Quiet, b: Quiet) {
    || a.h.s.retryCount > b.h.s.retryCount
    || (a.h.s.retryCount == b.h.s.retryCount && a.queued < b.queued)
    || (a.h.s.retryCount == b.h.s.retryCount && a.queued == b.queued && Left(a) < Left(b))
  }

  /** A round fails the session or makes the measure smaller; it counts at most one retry. */
  lemma RoundDecreases(q: Quiet, p: Pace, who: nat, has: bool, k: Kem)
    requires Pending(q) && Moves(p)
    ensures var q' := Round(q, p, who, has, k);
      && (q'.h.s.phase == Failed || (Pending(q') && Less(q', q)))
      && (q'.h.s.phase != Failed ==> q.h.s.retryCount <= q'.h.s.retryCount <= q.h.s.retryCount + 1)
      && (q'.h.s.phase == Failed ==> q.h.s.retryCount == SESSION_MAX_RETRIES || q.h.s.role == RootRole)
  {
    hide Fragments, Release, FirstMissing, Encode, Gc, Touch, TransferExtra;
    var queued, now := Drained(q.queued, p.drained), q.now + p.passed;
    var env := Env(now, if queued <= QUEUE_SIZE then QUEUE_SIZE - queued else 0, [], false);
    RetryCoherent(q.h, who, has, k, env);
    if queued == 0 { RetryHasRoom(q.h, k, env); }
  }

  function After(q: Quiet, pace: nat -> Pace, n: nat, who: nat, has: bool, k: Kem): Quiet {
    if n == 0 then q else Round(After(q, pace, n - 1, who, has, k), pace(n - 1), who, has, k)
  }

  lemma {:induction false} AfterShift(q: Quiet, pace: nat -> Pace, later: nat -> Pace, n: nat, who: nat, has: bool, k: Kem)
    requires forall i: nat {:trigger later(i)} :: later(i) == pace(i + 1)
    ensures After(Round(q, pace(0), who, has, k), later, n, who, has, k) == After(q, pace, n + 1, who, has, k)
  {
    hide Round;
    if n > 0 {
      AfterShift(q, pace, later, n - 1, who, has, k);
    } else {
      assert After(q, pace, 0, who, has, k) == q;
    }
  }

  /** However the queue drains and time passes: a pending session that receives nothing fails, after at most three counted retries. */
  lemma {:induction false} AttemptFails(q: Quiet, pace: nat -> Pace, who: nat, has: bool, k: Kem) returns (n: nat)
    requires Pending(q) && forall i: nat {:trigger pace(i)} :: Moves(pace(i))
    ensures After(q, pace, n, who, has, k).h.s.phase == Failed
    ensures forall i :: 0 <= i < n ==> After(q, pace, i, who, has, k).h.s.retryCount <= SESSION_MAX_RETRIES
    ensures forall i :: 0 <= i < n ==> After(q, pace, i, who, has, k).h.s.waiting
    decreases SESSION_MAX_RETRIES - q.h.s.retryCount, q.queued, Left(q)
  {
    hide Round;
    var q' := Round(q, pace(0), who, has, k);
    RoundDecreases(q, pace(0), who, has, k);
    var later := (i: nat) => pace(i + 1);
    assert After(q, pace, 0, who, has, k) == q;
    if q'.h.s.phase == Failed {
      n := 1;
      assert After(q, pace, 1, who, has, k) == q';
    } else {
      forall i: nat {:trigger later(i)} ensures Moves(later(i)) { assert Moves(pace(i + 1)); }
      var m := AttemptFails(q', later, who, has, k);
      n := m + 1;
      AfterShift(q, pace, later, m, who, has, k);
      forall i | 0 <= i < n
        ensures After(q, pace, i, who, has, k).h.s.retryCount <= SESSION_MAX_RETRIES && After(q, pace, i, who, has, k).h.s.waiting
      {
        if i > 0 { AfterShift(q, pace, later, i - 1, who, has, k); }
      }
    }
  }
}
