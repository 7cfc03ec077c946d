/** handshake_fsm.c as it runs: one device whose session, slots, ciphertext and transmit queue are updated in place. */
module HandshakeDevice {
  import opened Protocol
  import opened Fragmentation
  import opened Nack
  import opened SessionManager
  import TxQueue
  import opened Handshake

  /** The queue entries of packets sent to dest. */
  function EntriesOf(out: seq<Packet>, dest: nat): multiset<TxQueue.Entry>
    requires forall i :: 0 <= i < |out| ==> Wellformed(out[i])
  {
    if out == [] then multiset{}
    else EntriesOf(out[..|out| - 1], dest) + multiset{EntryOf(out[|out| - 1], dest)}
  }

  function EntryOf(p: Packet, dest: nat): TxQueue.Entry
    requires Wellformed(p)
  {
    ParseSerialize(p, []);
    assert Serialize(p) + [] == Serialize(p);
    TxQueue.EntryFor(Serialize(p), dest)
  }

  predicate AllWellformed(out: seq<Packet>) { forall i :: 0 <= i < |out| ==> Wellformed(out[i]) }

  lemma {:induction false} FragmentEntriesOf(msg: Bytes, msgType: Byte, nodeId: NodeId, msgId: Byte, flags: Byte, dest: nat, n: nat)
    requires n <= TxCount(|msg|)
    ensures EntriesOf(Fragments(msg, msgType, nodeId, msgId, flags)[..n], dest)
         == TxQueue.FragmentEntries(msg, msgType, nodeId, msgId, flags, dest, n)
  {
    hide Fragment, Serialize, TxQueue.EntryFor, HeaderValid;
    var out := Fragments(msg, msgType, nodeId, msgId, flags);
    if n > 0 {
      FragmentEntriesOf(msg, msgType, nodeId, msgId, flags, dest, n - 1);
      assert out[..n][..n - 1] == out[..n - 1];
      TxQueue.EntriesUnfold(msg, msgType, nodeId, msgId, flags, dest, n - 1);
    }
  }

  lemma NothingSent(dest: nat)
    ensures AllWellformed([]) && EntriesOf([], dest) == multiset{}
  {}

  lemma SingleEntry(p: Packet, dest: nat)
    requires Wellformed(p)
    ensures EntriesOf([p], dest) == multiset{EntryOf(p, dest)}
  {
    hide EntryOf;
    assert [p][..0] == [];
    assert EntriesOf([], dest) == multiset{};
  }

  class Device {
    const queue: TxQueue.Queue
    const dest: nat
    var s: Session
    var slots: Slots
    var ct: Bytes

    ghost predicate Valid()
      reads this, queue, queue.slots
    {
      queue.Valid()
    }

    function View(): Hs
      reads this
    {
      Hs(s, slots, ct)
    }

    ghost function Queued(): multiset<TxQueue.Entry>
      reads queue, queue.slots
    {
      TxQueue.Contents(queue.slots[..])
    }

    constructor (q: TxQueue.Queue, d: nat, role: Role, nodeId: NodeId)
      requires q.Valid()
      ensures Valid() && queue == q && dest == d && View() == Hs(Fresh(role, nodeId), [FreeSlot(), FreeSlot()], [])
    {
      queue, dest := q, d;
      s, slots, ct := Fresh(role, nodeId), [FreeSlot(), FreeSlot()], [];
    }

    // ---- reception slots

    method RxSlotsGc(now: int)
      modifies `slots
      ensures slots == Gc(old(slots), now)
    {
      var i := 0;
      while i < SLOT_COUNT
        invariant 0 <= i <= SLOT_COUNT
        invariant forall j :: 0 <= j < SLOT_COUNT ==>
          slots[j] == if j < i && old(slots)[j].active && now - old(slots)[j].startedAt > RX_TIMEOUT then FreeSlot() else old(slots)[j]
      {
        if slots[i].active && now - slots[i].startedAt > RX_TIMEOUT {
          slots := slots[i := FreeSlot()];
        }
        i := i + 1;
      }
    }

    method RxSlotFind(who: nat) returns (i: nat)
      ensures i == FindSlot(slots, who)
    {
      i := 0;
      while i < SLOT_COUNT
        invariant 0 <= i <= SLOT_COUNT && forall j :: 0 <= j < i ==> !Owned(slots, j, who)
      {
        if slots[i].active && slots[i].owner == who {
          return;
        }
        i := i + 1;
      }
    }

    method RxSlotGet(who: nat, now: int) returns (i: nat)
      modifies `slots
      ensures (slots, i) == GetSlot(Gc(old(slots), now), who, now)
    {
      RxSlotsGc(now);
      i := RxSlotFind(who);
      if i < SLOT_COUNT {
        return;
      }
      i := 0;
      while i < SLOT_COUNT
        invariant 0 <= i <= SLOT_COUNT && forall j :: 0 <= j < i ==> slots[j].active
      {
        if !slots[i].active {
          slots := slots[i := Slot(true, who, now, 0, 0, 0, Empty())];
          return;
        }
        i := i + 1;
      }
    }

    method RxSlotRelease(who: nat)
      modifies `slots
      ensures slots == Release(old(slots), who)
    {
      var i := RxSlotFind(who);
      if i < SLOT_COUNT {
        slots := slots[i := FreeSlot()];
      }
    }

    // ---- sending

    /** fragment_tx into the queue, after the check that there is room. */
    method Transmit(msg: Bytes, msgType: Byte, msgId: Byte, flags: Byte) returns (ok: bool)
      requires Valid() && RoomFor(queue.FreeSlots(), |msg|)
      modifies queue, queue.slots
      ensures Valid() && ok
      ensures AllWellformed(Fragments(msg, msgType, s.nodeId, msgId, flags))
      ensures Queued() == old(Queued()) + EntriesOf(Fragments(msg, msgType, s.nodeId, msgId, flags), dest)
    {
      hide TxQueue.Queue.Valid, TxQueue.Contents, EntriesOf, Fragment, TxCount, TxQueue.FragmentEntries;
      ok := queue.FragmentTx(msg, msgType, s.nodeId, msgId, flags, dest);
      FragmentEntriesOf(msg, msgType, s.nodeId, msgId, flags, dest, TxCount(|msg|));
      ghost var out := Fragments(msg, msgType, s.nodeId, msgId, flags);
      assert out[..|out|] == out;
    }

    method Ack(confirmed: Byte) returns (ok: bool)
      requires Valid()
      modifies `s, queue, queue.slots
      ensures Valid()
      ensures var e := SendAck(old(View()), confirmed, old(queue.FreeSlots()));
        View() == e.h && ok == e.ok && AllWellformed(e.out) && Queued() == old(Queued()) + EntriesOf(e.out, dest)
    {
      hide TxQueue.Queue.Valid, Fragments, EntriesOf, AllWellformed, TxQueue.Queue.FreeSlots, TxQueue.Contents;
      NothingSent(dest);
      if !RoomFor(queue.FreeSlots(), 1) {
        return false;
      }
      var id := s.nextMsgId;
      s := s.TakeMsgId();
      ok := Transmit([confirmed], MSG_ACK, id, FLAG_NONE);
    }

    /** What a method must do: the new state, the answer, and the packets in the queue. */
    twostate predicate Did(new e: Effect)
      reads this, queue, queue.slots
    {
      && Valid() && old(Valid()) && View() == e.h && AllWellformed(e.out)
      && Queued() == old(Queued()) + EntriesOf(e.out, dest)
    }

    /** send_nack: builds the list of missing indices, encodes it and sends it; the number of indices asked for. */
    method Nack(c: Ctx) returns (count: nat)
      requires Valid()
      modifies `s, queue, queue.slots
      ensures var (e, missing) := SendNack(old(View()), c, old(queue.FreeSlots()));
        Did(e) && count == missing
    {
      hide TxQueue.Queue.Valid, Fragments, EntriesOf, AllWellformed, TxQueue.Queue.FreeSlots, TxQueue.Contents, FirstMissing, Encode, TxCount;
      NothingSent(dest);
      var n := BuildFromRx(c);
      if n.missing == [] {
        return 0;
      }
      var payload := Encode(n);
      if !RoomFor(queue.FreeSlots(), |payload|) {
        return 0;
      }
      var id := s.nextMsgId;
      s := s.TakeMsgId();
      var ok := Transmit(payload, MSG_NACK, id, FLAG_NONE);
      count := |n.missing|;
    }

    /** rx_slot_note_nack. */
    method NoteNackSent(i: nat, missing: nat, now: int)
      requires i < SLOT_COUNT
      modifies `s, `slots
      ensures View() == NoteNack(old(View()), i, missing, now)
    {
      if missing != 0 {
        var slot := slots[i];
        slots := slots[i := slot.(lastNackAt := now, lastReceived := slot.ctx.receivedFrags, lastMissing := missing)];
        s := s.(deadline := now + NACK_REPEAT_DELAY);
      }
    }

    /** retransmit_nack_fragments: one slice after the other. */
    method RetransmitNack(n: NackMsg, k: Kem, now: int) returns (ok: bool)
      requires Valid() && forall j :: 0 <= j < |n.missing| ==> n.missing[j] < n.totalFrags
      modifies `s, queue, queue.slots
      ensures var e := Retransmit(old(View()), n, k, now, old(queue.FreeSlots())); Did(e) && ok == e.ok
    {
      hide TxQueue.Queue.Valid, TransferExtra, Fragment, Wellformed, TxCount, TxQueue.Contents, EntriesOf;
      NothingSent(dest);
      if n.msgId != s.pendingId || n.msgType != s.pendingType {
        return false;
      }
      var data := Servable(View(), k);
      if TxCount(|data|) == 0 || n.totalFrags != TxCount(|data|) {
        return false;
      }
      if queue.FreeSlots() < |n.missing| {
        s := s.(deadline := now + TX_DRAIN_DELAY);
        return true;
      }
      SendSlices(n, data);
      s := s.(deadline := now + SESSION_RETRY_TIMEOUT + TransferExtra(|data|));
      ok := true;
    }

    /** The loop over send_fragment_slice. */
    method SendSlices(n: NackMsg, data: Bytes)
      requires Valid() && n.totalFrags == TxCount(|data|) && queue.FreeSlots() >= |n.missing|
      requires forall j :: 0 <= j < |n.missing| ==> n.missing[j] < n.totalFrags
      modifies queue, queue.slots
      ensures Valid() && AllWellformed(Served(n, data, s.nodeId))
      ensures Queued() == old(Queued()) + EntriesOf(Served(n, data, s.nodeId), dest)
    {
      hide TxQueue.Queue.Valid, EntryOf, Fragment, Serialize, TxQueue.EntryFor, TxQueue.Contents, AllWellformed;
      ghost var out := Served(n, data, s.nodeId);
      assert AllWellformed(out) by { ServedWellformed(n, data, s.nodeId); }
      var i := 0;
      assert out[..0] == [] && EntriesOf([], dest) == multiset{};
      while i < |n.missing|
        invariant 0 <= i <= |n.missing| && Valid() && queue.count == old(queue.count) + i
        invariant Queued() == old(Queued()) + EntriesOf(out[..i], dest)
      {
        var p := Fragment(data, n.msgType, s.nodeId, n.msgId, n.missing[i], FLAG_RETRY);
        assert p == out[i];
        assert out[..i + 1][..i] == out[..i];
        SliceEntry(p, dest);
        var ok := queue.SendFragment(Serialize(p), dest);
        i := i + 1;
      }
      assert out[..|out|] == out;
    }

    // ---- complete messages

    method CompletePk(who: nat, c: Ctx, k: Kem, env: Env) returns (ok: bool)
      requires Valid() && env.free == queue.FreeSlots()
      modifies this, queue, queue.slots
      ensures var e := PkComplete(old(View()), who, c, k, env); Did(e) && ok == e.ok
    {
      hide TxQueue.Queue.Valid, Fragments, EntriesOf, AllWellformed, TxQueue.Queue.FreeSlots, TxQueue.Contents, SendCt, Release, TxCount;
      NothingSent(dest);
      if c.receivedLen != PK_LEN {
        s := s.SetFailed();
        RxSlotRelease(who);
        return false;
      }
      var e := k.encaps(c.buffer[..PK_LEN], env.coins);
      if e.None? {
        s := s.SetFailed();
        RxSlotRelease(who);
        return false;
      }
      ct, s := e.value.0, s.(ss := e.value.1);
      RxSlotRelease(who);
      ok := SendCiphertext(env);
    }

    method SendCiphertext(env: Env) returns (ok: bool)
      requires Valid() && env.free == queue.FreeSlots() && |ct| == CT_LEN
      modifies this, queue, queue.slots
      ensures var e := SendCt(old(View()), env); Did(e) && ok == e.ok
    {
      hide TxQueue.Queue.Valid, Fragments, EntriesOf, AllWellformed, TxQueue.Queue.FreeSlots, TxQueue.Contents,
        TransferExtra, TxCount;
      NothingSent(dest);
      if !RoomFor(queue.FreeSlots(), CT_LEN) {
        ct := [];
        s := s.SetFailed();
        return false;
      }
      s := s.ClearPending();
      var id := s.nextMsgId;
      s := s.TakeMsgId();
      s := s.(phase := WaitAck);
      s := s.SetPending(MSG_CT, id, env.now);
      s := s.(deadline := env.now + SESSION_RETRY_TIMEOUT + TransferExtra(CT_LEN));
      ok := Transmit(ct, MSG_CT, id, FLAG_NONE);
    }

    method CompleteAck(who: nat, c: Ctx) returns (ok: bool)
      requires Valid()
      modifies this
      ensures var e := AckComplete(old(View()), who, c); Did(e) && ok == e.ok
    {
      hide TxQueue.Queue.Valid, Release;
      if c.receivedLen != 1 || c.buffer[0] != s.pendingId {
        RxSlotRelease(who);
        return false;
      }
      s := s.SetEstablished();
      ct := [];
      RxSlotRelease(who);
      ok := true;
    }

    method CompleteCt(who: nat, c: Ctx, msgId: Byte, hasKeypair: bool, k: Kem, env: Env) returns (ok: bool)
      requires Valid() && env.free == queue.FreeSlots()
      modifies this, queue, queue.slots
      ensures var e := CtComplete(old(View()), who, c, msgId, hasKeypair, k, env); Did(e) && ok == e.ok
    {
      hide TxQueue.Queue.Valid, Fragments, EntriesOf, AllWellformed, TxQueue.Queue.FreeSlots, TxQueue.Contents, Release, TxCount;
      NothingSent(dest);
      if c.receivedLen != CT_LEN {
        s := s.SetFailed();
        RxSlotRelease(who);
        return false;
      }
      var rootCt := c.buffer[..CT_LEN];
      RxSlotRelease(who);
      if !hasKeypair {
        s := s.SetFailed();
        return false;
      }
      var d := k.decaps(k.sk, rootCt);
      if d.None? {
        s := s.SetFailed();
        return false;
      }
      s := s.(ss := d.value);
      s := s.SetEstablished();
      ok := Ack(msgId);
    }

    // ---- the message handler

    method CollectFragment(who: nat, p: Packet, hasKeypair: bool, k: Kem, env: Env) returns (ok: bool)
      requires Valid() && env.free == queue.FreeSlots() && Gc(slots, env.now) == slots
      modifies this, queue, queue.slots
      ensures var e := Collect(old(View()), who, p, hasKeypair, k, env); Did(e) && ok == e.ok
    {
      hide TxQueue.Queue.Valid, Fragments, EntriesOf, AllWellformed, TxQueue.Queue.FreeSlots, TxQueue.Contents,
        Added, Accepts, Finish, Continue, Gc, GetSlot;
      NothingSent(dest);
      GetSlotBound(slots, who, env.now);
      var i := RxSlotGet(who, env.now);
      if i == SLOT_COUNT {
        return false;
      }
      var c0: Ctx := slots[i].ctx;
      if !Accepts(c0, p) {
        RejectedAdd(c0, p);
        return false;
      }
      var c: Ctx := Added(c0, p);
      slots := slots[i := slots[i].(ctx := c)];
      if !c.Complete() {
        ok := ContinueMessage(i, p.fragIdx, env);
      } else {
        ok := FinishMessage(who, c, p, hasKeypair, k, env);
      }
    }

    method ContinueMessage(i: nat, fragIdx: nat, env: Env) returns (ok: bool)
      requires Valid() && env.free == queue.FreeSlots() && i < SLOT_COUNT
      modifies this, queue, queue.slots
      ensures var e := Continue(old(View()), i, fragIdx, env); Did(e) && ok == e.ok
    {
      hide TxQueue.Queue.Valid, Fragments, EntriesOf, AllWellformed, TxQueue.Queue.FreeSlots, TxQueue.Contents, NackDue, SendNack;
      NothingSent(dest);
      if NackDue(slots[i], fragIdx, env.now) {
        var count := Nack(slots[i].ctx);
        NoteNackSent(i, count, env.now);
      }
      ok := true;
    }

    method FinishMessage(who: nat, c: Ctx, p: Packet, hasKeypair: bool, k: Kem, env: Env) returns (ok: bool)
      requires Valid() && env.free == queue.FreeSlots()
      modifies this, queue, queue.slots
      ensures var e := Finish(old(View()), who, c, p, hasKeypair, k, env); Did(e) && ok == e.ok
    {
      hide TxQueue.Queue.Valid, Fragments, EntriesOf, AllWellformed, TxQueue.Queue.FreeSlots, TxQueue.Contents,
        Release, PkComplete, AckComplete, CtComplete;
      NothingSent(dest);
      if s.role == NodeRole && p.msgType == MSG_PK {
        ok := CompletePk(who, c, k, env);
      } else if s.role == NodeRole && p.msgType == MSG_ACK {
        ok := CompleteAck(who, c);
      } else if s.role == RootRole && p.msgType == MSG_CT {
        ok := CompleteCt(who, c, p.msgId, hasKeypair, k, env);
      } else {
        RxSlotRelease(who);
        ok := false;
      }
    }

    method RoutePacket(who: nat, p: Packet, hasKeypair: bool, k: Kem, env: Env) returns (ok: bool)
      requires Valid() && env.free == queue.FreeSlots() && Gc(slots, env.now) == slots
      modifies this, queue, queue.slots
      ensures var e := Route(old(View()), who, p, hasKeypair, k, env); Did(e) && ok == e.ok
    {
      hide TxQueue.Queue.Valid, Fragments, EntriesOf, AllWellformed, TxQueue.Queue.FreeSlots, TxQueue.Contents,
        Collect, Retransmit, SendAck, Refusal, Gc;
      NothingSent(dest);
      if s.nodeId != p.nodeId {
        return false;
      }
      if s.role == RootRole && s.IsEstablished() && p.msgType == MSG_CT {
        if p.fragIdx == 0 || p.fragIdx + 1 == p.totalFrags {
          var sent := Ack(p.msgId);
        }
        return true;
      }
      if Refusal(s, p) {
        return false;
      }
      if p.msgType == MSG_NACK {
        var n := DecodeLoop(p.payload);
        if p.fragIdx != 0 || p.totalFrags != 1 || n.None? {
          return false;
        }
        DecodeInRange(p.payload);
        ok := RetransmitNack(n.value, k, env.now);
      } else {
        ok := CollectFragment(who, p, hasKeypair, k, env);
      }
    }

    /** hs_fsm_handle_fragment on the bytes of a packet. */
    method HandleFragment(who: nat, data: Bytes, hasKeypair: bool, k: Kem, env: Env) returns (ok: bool)
      requires Valid() && env.free == queue.FreeSlots()
      modifies this, queue, queue.slots
      ensures Parse(data).None? ==> Did(Effect(old(View()).(slots := Gc(old(slots), env.now)), [], false)) && !ok
      ensures Parse(data).Some? ==> var e := Handle(old(View()), who, Parse(data).value, hasKeypair, k, env); Did(e) && ok == e.ok
    {
      hide TxQueue.Queue.Valid, Fragments, EntriesOf, AllWellformed, TxQueue.Queue.FreeSlots, TxQueue.Contents, Route, Parse, Gc;
      NothingSent(dest);
      GcTwice(slots, env.now);
      RxSlotsGc(env.now);
      var parsed := Parse(data);
      if parsed.None? {
        return false;
      }
      if s.role == NodeRole && s.nodeId == INVALID_NODE_ID {
        s := s.(nodeId := parsed.value.nodeId);
      }
      ok := RoutePacket(who, parsed.value, hasKeypair, k, env);
    }

    // ---- starting and retrying

    /** hs_fsm_start on the root. */
    method StartRoot(hasKeypair: bool, k: Kem, env: Env) returns (ok: bool, has: bool)
      requires Valid() && env.free == queue.FreeSlots()
      modifies this, queue, queue.slots
      ensures var (e, h) := Start(old(View()), hasKeypair, k, env); Did(e) && ok == e.ok && has == h
    {
      hide TxQueue.Queue.Valid, Fragments, EntriesOf, AllWellformed, TxQueue.Queue.FreeSlots, TxQueue.Contents,
        TransferExtra, TxCount, Gc;
      NothingSent(dest);
      has := hasKeypair;
      RxSlotsGc(env.now);
      if !has && !env.keygen {
        s := s.SetFailed();
        return false, false;
      }
      has := true;
      if !RoomFor(queue.FreeSlots(), |k.pk|) {
        return false, has;
      }
      var id := s.nextMsgId;
      s := s.TakeMsgId();
      s := s.(phase := WaitCt);
      s := s.SetPending(MSG_PK, id, env.now);
      s := s.(deadline := env.now + SESSION_RETRY_TIMEOUT + TransferExtra(|k.pk|));
      ok := Transmit(k.pk, MSG_PK, id, FLAG_NONE);
    }

    /** The resend of a whole message. */
    method ResendMessage(data: Bytes, env: Env) returns (ok: bool)
      requires Valid() && env.free == queue.FreeSlots()
      modifies `s, queue, queue.slots
      ensures var e := Resend(old(View()), data, env); Did(e) && ok == e.ok
    {
      hide TxQueue.Queue.Valid, Fragments, EntriesOf, AllWellformed, TxQueue.Queue.FreeSlots, TxQueue.Contents,
        TransferExtra, TxCount;
      NothingSent(dest);
      if !RoomFor(queue.FreeSlots(), |data|) {
        s := s.(deadline := env.now + TX_DRAIN_DELAY);
        return true;
      }
      ok := Transmit(data, s.pendingType, s.pendingId, FLAG_RETRY);
      s := s.MarkRetry(env.now, TransferExtra(|data|));
    }

    method RequestMissing(who: nat, env: Env) returns (ok: bool)
      requires Valid() && env.free == queue.FreeSlots()
      modifies this, queue, queue.slots
      ensures var e := RetryCt(old(View()), who, env); Did(e) && ok == e.ok
    {
      hide TxQueue.Queue.Valid, Fragments, EntriesOf, AllWellformed, TxQueue.Queue.FreeSlots, TxQueue.Contents, SendNack;
      NothingSent(dest);
      var i := RxSlotFind(who);
      if i < SLOT_COUNT && slots[i].ctx.active && !slots[i].ctx.Complete() {
        NoNack(View(), slots[i].ctx, queue.FreeSlots());
        var count := Nack(slots[i].ctx);
        if count != 0 {
          slots := slots[i := slots[i].(startedAt := env.now)];
          NoteNackSent(i, count, env.now);
          s := s.MarkRetry(env.now, 0);
          return true;
        }
      }
      s := s.SetFailed();
      RxSlotRelease(who);
      ok := false;
    }

    method RequestKey(env: Env) returns (ok: bool)
      requires Valid()
      modifies `s, queue, queue.slots
      ensures var p := GetPk(old(s).nodeId, old(s).pendingId, FLAG_RETRY);
        if old(queue.FreeSlots()) == 0 then Did(Effect(old(View()), [], false)) && !ok
        else Did(Effect(old(View()).(s := old(s).MarkRetry(env.now, TransferExtra(HEADER_LEN))), [p], true)) && ok
    {
      hide TransferExtra, Serialize, TxQueue.EntryFor, TxQueue.Queue.Valid, TxQueue.Contents, EntriesOf, EntryOf;
      NothingSent(dest);
      var p := GetPk(s.nodeId, s.pendingId, FLAG_RETRY);
      SliceEntry(p, dest);
      SingleEntry(p, dest);
      ok := queue.SendFragment(Serialize(p), dest);
      if ok {
        s := s.MarkRetry(env.now, TransferExtra(HEADER_LEN));
      }
    }

    /** hs_fsm_retry. */
    method RetryPending(who: nat, hasKeypair: bool, k: Kem, env: Env) returns (ok: bool)
      requires Valid() && env.free == queue.FreeSlots()
      modifies this, queue, queue.slots
      ensures var e := Retry(old(View()), who, hasKeypair, k, env); Did(e) && ok == e.ok
    {
      hide TxQueue.Queue.Valid, Fragments, EntriesOf, AllWellformed, TxQueue.Queue.FreeSlots, TxQueue.Contents,
        TransferExtra, Gc, Release, Resend, RetryCt;
      NothingSent(dest);
      RxSlotsGc(env.now);
      if !s.RetryDue(env.now) {
        return true;
      }
      if queue.FreeSlots() < QUEUE_SIZE {
        s := s.(deadline := env.now + TX_DRAIN_DELAY);
        return true;
      }
      if !s.CanRetry() {
        s := s.SetFailed();
        RxSlotRelease(who);
        if s.role == NodeRole {
          ct := [];
        }
        return false;
      }
      if s.role == RootRole && s.pendingType == MSG_CT {
        ok := RequestMissing(who, env);
        return;
      }
      RxSlotRelease(who);
      if s.role == NodeRole && s.pendingType == MSG_GETPK {
        ok := RequestKey(env);
      } else if s.role == RootRole && s.pendingType == MSG_PK {
        if !hasKeypair {
          s := s.SetFailed();
          return false;
        }
        ok := ResendMessage(k.pk, env);
      } else if s.role == NodeRole && s.pendingType == MSG_CT {
        ok := ResendMessage(ct, env);
      } else {
        ok := false;
      }
    }
  }

  lemma NoNack(h: Hs, c: Ctx, free: nat)
    ensures SendNack(h, c, free).1 == 0 ==> SendNack(h, c, free).0 == Effect(h, [], false)
  {
    hide FirstMissing, Encode;
  }

  lemma GcTwice(slots: Slots, now: int)
    ensures Gc(Gc(slots, now), now) == Gc(slots, now)
  {}

  lemma GetSlotBound(slots: Slots, who: nat, now: int)
    ensures GetSlot(slots, who, now).1 == SLOT_COUNT ==> GetSlot(slots, who, now).0 == slots
  {}

  lemma RejectedAdd(c: Ctx, p: Packet)
    requires !Accepts(c, p)
    ensures Added(c, p) == c
  {}

  lemma ServedWellformed(n: NackMsg, data: Bytes, nodeId: NodeId)
    requires n.totalFrags == TxCount(|data|) && forall j :: 0 <= j < |n.missing| ==> n.missing[j] < n.totalFrags
    ensures AllWellformed(Served(n, data, nodeId))
  {}

  lemma SliceEntry(p: Packet, dest: nat)
    requires InRange(p) && Wellformed(p)
    ensures TxQueue.Sendable(Serialize(p)) && EntryOf(p, dest) == TxQueue.EntryFor(Serialize(p), dest)
  {
    TxQueue.FragmentSendable(p);
  }
}