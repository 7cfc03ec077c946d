/** handshake_fsm.c as functions on values: reception slots, the message handler, retries and the start. */
module Handshake {
  import opened Protocol
  import opened Fragmentation
  import opened Nack
  import opened SessionManager

  const SLOT_COUNT := 2
  const RX_TIMEOUT := SESSION_RETRY_TIMEOUT
  const RESPONSE_GRACE := 10 * SECOND
  const TX_DRAIN_DELAY := SECOND
  const NACK_REPEAT_DELAY := 4 * SECOND
  const SEND_INTERVAL := SECOND / 4
  const QUEUE_SIZE := 96
  const PK_LEN := 2249
  const CT_LEN := 4481

  /** The buffers of the source have fixed lengths. */
  type PkBytes = b: Bytes | |b| == PK_LEN witness seq(PK_LEN, i => 0)
  type CtBytes = b: Bytes | |b| == CT_LEN witness seq(CT_LEN, i => 0)

  /** The key encapsulation, and the root's key pair. */
  datatype Kem = Kem(pk: PkBytes, sk: Bytes, encaps: (PkBytes, Bytes) -> Option<(CtBytes, Bytes)>, decaps: (Bytes, CtBytes) -> Option<Bytes>)

  /** Decapsulation recovers what encapsulation to the root's key made. */
  ghost predicate Lawful(k: Kem) {
    forall coins {:trigger k.encaps(k.pk, coins)} :: k.encaps(k.pk, coins).Some? ==>
      k.decaps(k.sk, k.encaps(k.pk, coins).value.0) == Some(k.encaps(k.pk, coins).value.1)
  }

  /** What a step takes from outside: the clock, the free queue slots, randomness, and whether key generation succeeds. */
  datatype Env = Env(now: int, free: nat, coins: Bytes, keygen: bool)

  // ---- the slots in which messages are put together

  datatype Slot = Slot(active: bool, owner: nat, startedAt: int, lastNackAt: int, lastReceived: nat, lastMissing: nat, ctx: Ctx)

  function FreeSlot(): Slot { Slot(false, 0, 0, 0, 0, 0, Empty()) }

  type Slots = s: seq<Slot> | |s| == SLOT_COUNT witness [FreeSlot(), FreeSlot()]

  /** rx_slots_gc: slots idle for longer than the timeout are emptied. */
  function Gc(slots: Slots, now: int): (r: Slots) {
    seq(SLOT_COUNT, i requires 0 <= i < SLOT_COUNT =>
      if slots[i].active && now - slots[i].startedAt > RX_TIMEOUT then FreeSlot() else slots[i])
  }

  predicate Owned(slots: Slots, i: nat, who: nat)
    requires i < SLOT_COUNT
  {
    slots[i].active && slots[i].owner == who
  }

  /** The slot of a session, or SLOT_COUNT. */
  function FindSlot(slots: Slots, who: nat): (i: nat)
    ensures i <= SLOT_COUNT
    ensures i < SLOT_COUNT ==> Owned(slots, i, who)
    ensures forall j :: 0 <= j < i ==> !Owned(slots, j, who)
  {
    if Owned(slots, 0, who) then 0 else if Owned(slots, 1, who) then 1 else SLOT_COUNT
  }

  /** rx_slot_get after collection: the session's slot, else the first free one, freshly started. */
  function GetSlot(slots: Slots, who: nat, now: int): (r: (Slots, nat))
    ensures r.1 <= SLOT_COUNT && (r.1 < SLOT_COUNT ==> Owned(r.0, r.1, who))
    ensures forall j :: 0 <= j < SLOT_COUNT && j != r.1 ==> r.0[j] == slots[j]
    ensures FindSlot(slots, who) < SLOT_COUNT ==> r == (slots, FindSlot(slots, who))
    ensures r.1 < SLOT_COUNT && r.0 != slots ==>
      !slots[r.1].active && r.0[r.1] == Slot(true, who, now, 0, 0, 0, Empty()) && forall j :: 0 <= j < r.1 ==> slots[j].active
    ensures r.1 == SLOT_COUNT <==> forall j :: 0 <= j < SLOT_COUNT ==> slots[j].active && slots[j].owner != who
  {
    var i := FindSlot(slots, who);
    if i < SLOT_COUNT then (slots, i)
    else
      var j := if !slots[0].active then 0 else if !slots[1].active then 1 else SLOT_COUNT;
      if j < SLOT_COUNT then (slots[j := Slot(true, who, now, 0, 0, 0, Empty())], j) else (slots, SLOT_COUNT)
  }

  function Release(slots: Slots, who: nat): (r: Slots) {
    var i := FindSlot(slots, who);
    if i < SLOT_COUNT then slots[i := FreeSlot()] else slots
  }

  /** rx_slot_touch. */
  function Touch(slots: Slots, who: nat, now: int): (r: Slots) {
    var i := FindSlot(slots, who);
    if i < SLOT_COUNT then slots[i := slots[i].(startedAt := now)] else slots
  }

  /** rx_slot_nack_due, the threshold computed in eight bits. */
  predicate NackDue(slot: Slot, fragIdx: nat, now: int) {
    && slot.ctx.totalFrags > 0 && slot.ctx.bitmap[slot.ctx.totalFrags - 1]
    && if slot.lastMissing == 0 then fragIdx + 1 == slot.ctx.totalFrags
       else slot.ctx.receivedFrags >= (slot.lastReceived + slot.lastMissing) % 0x100 || now - slot.lastNackAt >= NACK_REPEAT_DELAY
  }

  /** A slot whose last NACK was sent for c0. */
  predicate AskedFor(slot: Slot, c0: Rx)
    requires c0.Shape() && c0.totalFrags <= FRAG_MAX_FRAGS
  {
    slot.lastReceived == c0.receivedFrags && slot.lastMissing == |FirstMissing(c0)|
  }

  /** After a NACK the next one is due exactly when everything asked for has arrived or four seconds have passed:
      the eight-bit threshold does not wrap. */
  lemma DueAgain(slot: Slot, c0: Rx, msg: Bytes, msgType: Byte, n: NodeId, id: Byte, fragIdx: nat, now: int)
    requires Holds(c0, msg, msgType, n, id) && c0.active && !c0.Complete() && AskedFor(slot, c0)
    requires Holds(slot.ctx, msg, msgType, n, id) && slot.ctx.active && slot.ctx.bitmap[TxCount(|msg|) - 1]
    ensures NackDue(slot, fragIdx, now)
      <==> slot.ctx.receivedFrags >= c0.receivedFrags + |FirstMissing(c0)| || now - slot.lastNackAt >= NACK_REPEAT_DELAY
  {
    hide Holds, FirstMissing;
    HoldsShape(c0, msg, msgType, n, id);
    HoldsShape(slot.ctx, msg, msgType, n, id);
    MissingReceived(c0, msg, msgType, n, id);
    ThresholdInRange(c0, msg, msgType, n, id);
    AskedSome(c0);
  }

  lemma AskedSome(c: Rx)
    requires c.Shape() && c.totalFrags <= FRAG_MAX_FRAGS && MissingCount(c) > 0
    ensures |FirstMissing(c)| > 0
  {}

  /** A loss-free answer makes the next NACK due at once, whichever fragment came last. */
  lemma DueAfterRound(slot: Slot, c0: Rx, msg: Bytes, msgType: Byte, n: NodeId, id: Byte, fragIdx: nat, now: int)
    requires Holds(c0, msg, msgType, n, id) && c0.active && !c0.Complete() && AskedFor(slot, c0)
    requires slot.ctx == RoundOf(c0, msg, n) && slot.ctx.bitmap[TxCount(|msg|) - 1]
    ensures NackDue(slot, fragIdx, now)
  {
    hide Holds, RoundOf, FirstMissing;
    HoldsShape(c0, msg, msgType, n, id);
    RoundShrinks(c0, msg, msgType, n, id);
    MissingReceived(c0, msg, msgType, n, id);
    MissingReceived(slot.ctx, msg, msgType, n, id);
    AskedCount(c0);
    DueAgain(slot, c0, msg, msgType, n, id, fragIdx, now);
  }

  lemma AskedCount(c: Rx)
    requires c.Shape() && c.totalFrags <= FRAG_MAX_FRAGS
    ensures |FirstMissing(c)| == Least(MAX_MISSING, MissingCount(c))
  {}

  // ---- sending

  datatype Hs = Hs(s: Session, slots: Slots, ct: Bytes)

  /** The new state, the packets put into the queue, and the return value. */
  datatype Effect = Effect(h: Hs, out: seq<Packet>, ok: bool)

  predicate RoomFor(free: nat, len: nat) { TxCount(len) != 0 && free >= TxCount(len) }

  function TransferExtra(len: nat): int { RESPONSE_GRACE + TxCount(len) * SEND_INTERVAL }

  /** All fragments of a message. */
  function Fragments(msg: Bytes, msgType: Byte, nodeId: NodeId, msgId: Byte, flags: Byte): (r: seq<Packet>)
    ensures |r| == TxCount(|msg|)
  {
    seq(TxCount(|msg|), i requires 0 <= i < TxCount(|msg|) => Fragment(msg, msgType, nodeId, msgId, i, flags))
  }

  function SendAck(h: Hs, confirmed: Byte, free: nat): Effect {
    if !RoomFor(free, 1) then Effect(h, [], false)
    else Effect(h.(s := h.s.TakeMsgId()), Fragments([confirmed], MSG_ACK, h.s.nodeId, h.s.nextMsgId, FLAG_NONE), true)
  }

  /** send_nack, with the indices asked for; none when there is nothing to ask or no room. */
  function SendNack(h: Hs, c: Ctx, free: nat): (r: (Effect, nat)) {
    var missing := if !c.active || c.totalFrags == 0 then [] else FirstMissing(c);
    if missing == [] then (Effect(h, [], false), 0)
    else
      var payload := Encode(NackMsg(c.msgType, c.msgId, c.totalFrags, missing));
      if !RoomFor(free, |payload|) then (Effect(h, [], false), 0)
      else (Effect(h.(s := h.s.TakeMsgId()), Fragments(payload, MSG_NACK, h.s.nodeId, h.s.nextMsgId, FLAG_NONE), true), |missing|)
  }

  /** rx_slot_note_nack for the slot i. */
  function NoteNack(h: Hs, i: nat, missing: nat, now: int): (r: Hs)
    requires i < SLOT_COUNT
  {
    if missing == 0 then h
    else
      var slot := h.slots[i];
      h.(slots := h.slots[i := slot.(lastNackAt := now, lastReceived := slot.ctx.receivedFrags, lastMissing := missing)],
         s := h.s.(deadline := now + NACK_REPEAT_DELAY))
  }

  /** The data a NACK can ask for: the public key from the root, the ciphertext from the node. */
  function Servable(h: Hs, k: Kem): Bytes {
    if h.s.role == RootRole && h.s.pendingType == MSG_PK then k.pk
    else if h.s.role == NodeRole && h.s.pendingType == MSG_CT then h.ct
    else []
  }

  /** retransmit_nack_fragments. */
  function Retransmit(h: Hs, n: NackMsg, k: Kem, now: int, free: nat): Effect
    requires forall j :: 0 <= j < |n.missing| ==> n.missing[j] < n.totalFrags
  {
    if n.msgId != h.s.pendingId || n.msgType != h.s.pendingType then Effect(h, [], false)
    else
      var data := Servable(h, k);
      if TxCount(|data|) == 0 || n.totalFrags != TxCount(|data|) then Effect(h, [], false)
      else if free < |n.missing| then Effect(h.(s := h.s.(deadline := now + TX_DRAIN_DELAY)), [], true)
      else Effect(h.(s := h.s.(deadline := now + SESSION_RETRY_TIMEOUT + TransferExtra(|data|))), Served(n, data, h.s.nodeId), true)
  }

  // ---- complete messages

  /** The node sends its new ciphertext and waits for the acknowledgement, or fails for lack of room. */
  function SendCt(h: Hs, env: Env): Effect {
    if !RoomFor(env.free, CT_LEN) then Effect(h.(s := h.s.SetFailed(), ct := []), [], false)
    else
      var id := h.s.nextMsgId;
      var s := h.s.ClearPending().TakeMsgId().(phase := WaitAck).SetPending(MSG_CT, id, env.now);
      Effect(h.(s := s.(deadline := env.now + SESSION_RETRY_TIMEOUT + TransferExtra(CT_LEN))),
             Fragments(h.ct, MSG_CT, h.s.nodeId, id, FLAG_NONE), true)
  }

  /** The node has the public key: encapsulate and send the ciphertext. */
  function PkComplete(h: Hs, who: nat, c: Ctx, k: Kem, env: Env): Effect {
    var released := h.(slots := Release(h.slots, who));
    if c.receivedLen != PK_LEN then Effect(released.(s := h.s.SetFailed()), [], false)
    else
      var e := k.encaps(c.buffer[..PK_LEN], env.coins);
      if e.None? then Effect(released.(s := h.s.SetFailed()), [], false)
      else SendCt(released.(s := h.s.(ss := e.value.1), ct := e.value.0), env)
  }

  /** The node has an acknowledgement: it must name the ciphertext. */
  function AckComplete(h: Hs, who: nat, c: Ctx): Effect {
    var released := h.(slots := Release(h.slots, who));
    if c.receivedLen != 1 || c.buffer[0] != h.s.pendingId then Effect(released, [], false)
    else Effect(released.(s := h.s.SetEstablished(), ct := []), [], true)
  }

  /** The root has the ciphertext: decapsulate and acknowledge. */
  function CtComplete(h: Hs, who: nat, c: Ctx, msgId: Byte, hasKeypair: bool, k: Kem, env: Env): Effect {
    var released := h.(slots := Release(h.slots, who));
    if c.receivedLen != CT_LEN || !hasKeypair then Effect(released.(s := h.s.SetFailed()), [], false)
    else
      var d := k.decaps(k.sk, c.buffer[..CT_LEN]);
      if d.None? then Effect(released.(s := h.s.SetFailed()), [], false)
      else SendAck(released.(s := h.s.(ss := d.value).SetEstablished()), msgId, env.free)
  }

  // ---- the message handler

  /** A complete message, by role and type; anything unexpected only frees the slot. */
  function Finish(h: Hs, who: nat, c: Ctx, p: Packet, hasKeypair: bool, k: Kem, env: Env): Effect {
    if h.s.role == NodeRole && p.msgType == MSG_PK then PkComplete(h, who, c, k, env)
    else if h.s.role == NodeRole && p.msgType == MSG_ACK then AckComplete(h, who, c)
    else if h.s.role == RootRole && p.msgType == MSG_CT then CtComplete(h, who, c, p.msgId, hasKeypair, k, env)
    else Effect(h.(slots := Release(h.slots, who)), [], false)
  }

  /** A message still incomplete: a NACK when one is due. */
  function Continue(h: Hs, i: nat, fragIdx: nat, env: Env): Effect
    requires i < SLOT_COUNT
  {
    if NackDue(h.slots[i], fragIdx, env.now) then
      var (e, missing) := SendNack(h, h.slots[i].ctx, env.free);
      Effect(NoteNack(e.h, i, missing, env.now), e.out, true)
    else Effect(h, [], true)
  }

  /** A fragment of a message that is put together in a slot. */
  function Collect(h: Hs, who: nat, p: Packet, hasKeypair: bool, k: Kem, env: Env): Effect {
    var (slots, i) := GetSlot(h.slots, who, env.now);
    if i == SLOT_COUNT then Effect(h, [], false)
    else
      var c0 := slots[i].ctx;
      var c := Added(c0, p);
      var h1 := h.(slots := slots[i := slots[i].(ctx := c)]);
      if !Accepts(c0, p) then Effect(h1, [], false)
      else if !c.Complete() then Continue(h1, i, p.fragIdx, env)
      else Finish(h1, who, c, p, hasKeypair, k, env)
  }

  /** The checks of hs_fsm_handle_fragment before a NACK is served or a fragment collected. */
  predicate Refusal(s: Session, p: Packet) {
    || (s.role == NodeRole && p.msgType == MSG_PK && (s.phase != WaitPk || s.pendingType != MSG_GETPK))
    || (s.role == NodeRole && p.msgType == MSG_ACK && (s.phase != WaitAck || s.pendingType != MSG_CT))
    || (s.role == RootRole && p.msgType == MSG_CT && s.phase != WaitCt)
  }

  /** The handler once the slots are collected and the node knows its number. */
  function Route(h: Hs, who: nat, p: Packet, hasKeypair: bool, k: Kem, env: Env): Effect {
    if h.s.nodeId != p.nodeId then Effect(h, [], false)
    else if h.s.role == RootRole && h.s.IsEstablished() && p.msgType == MSG_CT then
      // a duplicate of the ciphertext: acknowledge again at its first and last fragment
      if p.fragIdx == 0 || p.fragIdx + 1 == p.totalFrags then SendAck(h, p.msgId, env.free).(ok := true) else Effect(h, [], true)
    else if Refusal(h.s, p) then Effect(h, [], false)
    else if p.msgType == MSG_NACK then
      var n := Decode(p.payload);
      if p.fragIdx != 0 || p.totalFrags != 1 || n.None? then Effect(h, [], false) else Retransmit(h, n.value, k, env.now, env.free)
    else Collect(h, who, p, hasKeypair, k, env)
  }

  /** hs_fsm_handle_fragment on a parsed packet. */
  function Handle(h: Hs, who: nat, p: Packet, hasKeypair: bool, k: Kem, env: Env): Effect {
    Route(h.(slots := Gc(h.slots, env.now),
             s := if h.s.role == NodeRole && h.s.nodeId == INVALID_NODE_ID then h.s.(nodeId := p.nodeId) else h.s),
          who, p, hasKeypair, k, env)
  }

  // ---- starting and retrying

  /** hs_fsm_start on the root. */
  function Start(h0: Hs, hasKeypair: bool, k: Kem, env: Env): (r: (Effect, bool)) {
    var h := h0.(slots := Gc(h0.slots, env.now));
    if !hasKeypair && !env.keygen then (Effect(h.(s := h.s.SetFailed()), [], false), false)
    else if !RoomFor(env.free, |k.pk|) then (Effect(h, [], false), true)
    else
      var id := h.s.nextMsgId;
      var s := h.s.TakeMsgId().(phase := WaitCt).SetPending(MSG_PK, id, env.now);
      (Effect(h.(s := s.(deadline := env.now + SESSION_RETRY_TIMEOUT + TransferExtra(|k.pk|))),
              Fragments(k.pk, MSG_PK, h.s.nodeId, id, FLAG_NONE), true), true)
  }

  /** The request for the public key, first sent by the driver and then by every retry. */
  function GetPk(nodeId: NodeId, msgId: Byte, flags: Byte): Packet { Packet(MSG_GETPK, nodeId, msgId, 0, 1, [], flags) }

  /** A retry of a message that is sent again as a whole. */
  function Resend(h: Hs, data: Bytes, env: Env): Effect {
    if !RoomFor(env.free, |data|) then Effect(h.(s := h.s.(deadline := env.now + TX_DRAIN_DELAY)), [], true)
    else Effect(h.(s := h.s.MarkRetry(env.now, TransferExtra(|data|))),
                Fragments(data, h.s.pendingType, h.s.nodeId, h.s.pendingId, FLAG_RETRY), true)
  }

  /** The root waits for the ciphertext: ask for what is missing, or give up. */
  function RetryCt(h: Hs, who: nat, env: Env): Effect {
    var i := FindSlot(h.slots, who);
    var (e, missing) :=
      if i < SLOT_COUNT && h.slots[i].ctx.active && !h.slots[i].ctx.Complete() then SendNack(h, h.slots[i].ctx, env.free)
      else (Effect(h, [], false), 0);
    if missing != 0 then
      var h1 := NoteNack(e.h.(slots := Touch(e.h.slots, who, env.now)), i, missing, env.now);
      Effect(h1.(s := h1.s.MarkRetry(env.now, 0)), e.out, true)
    else Effect(h.(s := h.s.SetFailed(), slots := Release(h.slots, who)), [], false)
  }

  /** The last return of hs_fsm_retry: a retry was due but there is nothing to send again. */
  predicate NothingPending(s: Session) {
    && !(s.role == RootRole && (s.pendingType == MSG_CT || s.pendingType == MSG_PK))
    && !(s.role == NodeRole && (s.pendingType == MSG_GETPK || s.pendingType == MSG_CT))
  }

  /** hs_fsm_retry. */
  function Retry(h0: Hs, who: nat, hasKeypair: bool, k: Kem, env: Env): Effect {
    var h := h0.(slots := Gc(h0.slots, env.now));
    if !h.s.RetryDue(env.now) then Effect(h, [], true)
    else if env.free < QUEUE_SIZE then Effect(h.(s := h.s.(deadline := env.now + TX_DRAIN_DELAY)), [], true)
    else if !h.s.CanRetry() then
      Effect(h.(s := h.s.SetFailed(), slots := Release(h.slots, who), ct := if h.s.role == NodeRole then [] else h.ct), [], false)
    else if h.s.role == RootRole && h.s.pendingType == MSG_CT then RetryCt(h, who, env)
    else
      var h1 := h.(slots := Release(h.slots, who));
      if h.s.role == NodeRole && h.s.pendingType == MSG_GETPK then
        if env.free == 0 then Effect(h1, [], false)
        else Effect(h1.(s := h.s.MarkRetry(env.now, TransferExtra(HEADER_LEN))), [GetPk(h.s.nodeId, h.s.pendingId, FLAG_RETRY)], true)
      else if h.s.role == RootRole && h.s.pendingType == MSG_PK then
        if !hasKeypair then Effect(h1.(s := h.s.SetFailed()), [], false) else Resend(h1, k.pk, env)
      else if h.s.role == NodeRole && h.s.pendingType == MSG_CT then Resend(h1, h.ct, env)
      else Effect(h1, [], false)
  }
}
