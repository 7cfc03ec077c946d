/** node_main.c and server_main.c: the two drivers in place, around the device that runs the handshake. */
module Drivers {
  import opened Protocol
  import opened SessionManager
  import opened Handshake
  import opened HandshakeDevice
  import opened KeyExchange
  import TxQueue

  /** What a packet does whose header is valid but which does not parse: idle slots are emptied, nothing is sent. */
  function NodeReject(d: Node, now: int): (r: Node) {
    Node(d.h.(slots := Gc(d.h.slots, now)), d.getPkInFlight && d.h.s.pendingType == MSG_GETPK)
  }

  /** The same at the root, where a request for the key and the start of a ciphertext are acted on before parsing. */
  function RootReject(r: Root, who: nat, msgType: Byte, msgId: Byte, k: Kem, env: Env): (res: (Root, seq<Packet>)) {
    if msgType == MSG_GETPK then RootReceive(r, who, GetPk(r.h.s.nodeId, 0, FLAG_NONE), k, env)
    else if msgType == MSG_TEMP || msgType == MSG_METRICS then (r, [])
    else
      var s := if msgType == MSG_CT && r.h.s.phase == WaitCt && r.h.s.pendingType == MSG_PK then r.h.s.SetPending(MSG_CT, msgId, env.now) else r.h.s;
      (r.(h := r.h.(s := s, slots := Gc(r.h.slots, env.now))), [])
  }

  /** The node's processes: the request, the retry and the receive callback. */
  class NodeDriver {
    const device: Device
    var getPkInFlight: bool

    ghost predicate Valid()
      reads this, device, device.queue, device.queue.slots
    {
      device.Valid() && device.s.role == NodeRole
    }

    function View(): Node
      reads this, device
    {
      Node(device.View(), getPkInFlight)
    }

    /** The new state, and the packets added to the queue. */
    twostate predicate Did(new r: (Node, seq<Packet>))
      reads this, device, device.queue, device.queue.slots
    {
      && device.Valid() && old(device.Valid()) && View() == r.0 && AllWellformed(r.1)
      && device.Queued() == old(device.Queued()) + EntriesOf(r.1, device.dest)
    }

    constructor (d: Device)
      requires d.Valid() && d.s.role == NodeRole
      ensures Valid() && device == d && View() == Node(d.View(), false)
    {
      device, getPkInFlight := d, false;
    }

    /** The loop body of PQC_process: asks for the public key when the session is idle. */
    method RequestPk(env: Env)
      requires Valid() && env.free == device.queue.FreeSlots()
      modifies this, device, device.queue, device.queue.slots
      ensures Did(NodeRequest(old(View()), env))
    {
      hide Serialize, TxQueue.EntryFor, TxQueue.Queue.Valid, TxQueue.Contents, EntriesOf, EntryOf;
      NothingSent(device.dest);
      if !ShouldRequest(View()) {
        return;
      }
      var p := GetPk(device.s.nodeId, 0, FLAG_NONE);
      SliceEntry(p, device.dest);
      SingleEntry(p, device.dest);
      var sent := device.queue.SendFragment(Serialize(p), device.dest);
      if sent {
        getPkInFlight := true;
        device.s := device.s.(phase := WaitPk);
        device.s := device.s.SetPending(MSG_GETPK, 0, env.now);
      }
    }

    /** udp_rx_callback of the node. */
    method Receive(data: Bytes, k: Kem, env: Env)
      requires Valid() && env.free == device.queue.FreeSlots()
      modifies this, device, device.queue, device.queue.slots
      ensures !HeaderValid(data) ==> Did((old(View()), []))
      ensures Parse(data).Some? ==> Did(NodeReceive(old(View()), Parse(data).value, k, env))
      ensures HeaderValid(data) && Parse(data).None? ==> Did((NodeReject(old(View()), env.now), []))
    {
      hide Parse, TxQueue.Queue.Valid, TxQueue.Contents, EntriesOf, Handle, AllWellformed;
      NothingSent(device.dest);
      ParseHeader(data);
      if HeaderValid(data) {
        var ok := device.HandleFragment(LOCAL, data, false, k, env);
        if device.s.pendingType != MSG_GETPK {
          getPkInFlight := false;
        }
      }
    }

    /** The loop body of PQC_retry_process: the retry, then the reset of a failed session. */
    method Tick(k: Kem, env: Env)
      requires Valid() && env.free == device.queue.FreeSlots()
      modifies this, device, device.queue, device.queue.slots
      ensures var r := NodeTick(old(View()), k, env);
        Did((if old(View()).h.s.IsEstablished() then r.0 else NodeAfterTick(r.0), r.1))
    {
      hide TxQueue.Queue.Valid, TxQueue.Contents, EntriesOf, Retry, AllWellformed;
      NothingSent(device.dest);
      if device.s.IsEstablished() {
        return;
      }
      var ok := device.RetryPending(LOCAL, false, k, env);
      if device.s.phase == Failed {
        device.s := Reset(device.s);
        getPkInFlight := false;
      }
    }
  }

  /** The root's receive callback and retry process, for the session of one node. */
  class RootDriver {
    const device: Device
    const who: nat
    var hasKeypair: bool

    ghost predicate Valid()
      reads this, device, device.queue, device.queue.slots
    {
      device.Valid() && device.s.role == RootRole
    }

    function View(): Root
      reads this, device
    {
      Root(device.View(), hasKeypair)
    }

    /** The new state, and the queue as the kept packets together with the new ones. */
    ghost predicate Answered(kept: TxQueue.Slots, r: (Root, seq<Packet>))
      reads this, device, device.queue, device.queue.slots
    {
      && device.Valid() && View() == r.0 && AllWellformed(r.1)
      && device.Queued() == TxQueue.Contents(kept) + EntriesOf(r.1, device.dest)
    }

    constructor (d: Device, who: nat)
      requires d.Valid() && d.s.role == RootRole
      ensures Valid() && device == d && this.who == who && View() == Root(d.View(), false)
    {
      device, this.who, hasKeypair := d, who, false;
    }

    /** The packets that a request for the key, or the start of a ciphertext, removes from the queue. */
    ghost predicate Keeps(before: TxQueue.Slots, kept: TxQueue.Slots, s: Session, msgType: Byte) {
      if msgType == MSG_GETPK && (s.phase == Failed || s.phase == WaitCt || s.IsEstablished()) then
        TxQueue.Dropped(before, kept, TxQueue.NodeMatch(s.nodeId))
      else if msgType == MSG_CT && s.phase == WaitCt && s.pendingType == MSG_PK then
        TxQueue.Dropped(before, kept, TxQueue.DropMatch(s.nodeId, MSG_PK, s.pendingId))
      else kept == before
    }

    /** The branch of udp_rx_callback for GETPK. */
    method ReceiveGetPk(k: Kem, env: Env) returns (ghost kept: TxQueue.Slots)
      requires Valid() && env.free == device.queue.FreeSlots()
      modifies this, device, device.queue, device.queue.slots
      ensures Keeps(old(device.queue.slots[..]), kept, old(device.s), MSG_GETPK)
      ensures Answered(kept, RootReceive(old(View()), who, GetPk(old(device.s).nodeId, 0, FLAG_NONE), k, env.(free := Free(kept))))
    {
      hide TxQueue.Queue.Valid, TxQueue.Contents, EntriesOf, Start, AllWellformed, Coherent;
      NothingSent(device.dest);
      if device.s.phase == Failed {
        var n := device.queue.DropNode(device.s.nodeId);
        device.s := Reset(device.s);
      }
      kept := device.queue.slots[..];
      if device.s.phase == Idle {
        StartKey(k, env);
      } else if device.s.phase == WaitCt || device.s.IsEstablished() {
        var n := device.queue.DropNode(device.s.nodeId);
        device.s := Reset(device.s);
        kept := device.queue.slots[..];
        StartKey(k, env);
      }
    }

    /** hs_fsm_start with the queue as it is now. */
    method StartKey(k: Kem, env: Env)
      requires Valid()
      modifies this, device, device.queue, device.queue.slots
      ensures Answered(old(device.queue.slots[..]), RootStart(old(View()), k, env.(free := Free(old(device.queue.slots[..])))))
    {
      hide TxQueue.Queue.Valid, TxQueue.Contents, EntriesOf, Start, AllWellformed;
      FreeIs(device.queue);
      var ok, has := device.StartRoot(hasKeypair, k, env.(free := device.queue.FreeSlots()));
      hasKeypair := has;
    }

    /** udp_rx_callback of the root, for a packet of this session's node. */
    method Receive(data: Bytes, k: Kem, env: Env) returns (ghost kept: TxQueue.Slots)
      requires Valid() && env.free == device.queue.FreeSlots()
      modifies this, device, device.queue, device.queue.slots
      ensures !HeaderValid(data) ==> kept == old(device.queue.slots[..]) && Answered(kept, (old(View()), []))
      ensures HeaderValid(data) ==> Keeps(old(device.queue.slots[..]), kept, old(device.s), data[1])
      ensures Parse(data).Some? ==> Answered(kept, RootReceive(old(View()), who, Parse(data).value, k, env.(free := Free(kept))))
      ensures HeaderValid(data) && Parse(data).None? ==>
        Answered(kept, RootReject(old(View()), who, data[1], data[4], k, env.(free := Free(kept))))
    {
      hide Parse, TxQueue.Queue.Valid, TxQueue.Contents, EntriesOf, Handle, AllWellformed, RootStart;
      NothingSent(device.dest);
      ParseHeader(data);
      kept := device.queue.slots[..];
      if !HeaderValid(data) {
        return;
      }
      if data[1] == MSG_GETPK {
        kept := ReceiveGetPk(k, env);
        return;
      }
      if data[1] == MSG_CT && device.s.phase == WaitCt && device.s.pendingType == MSG_PK {
        var n := device.queue.Drop(device.s.nodeId, MSG_PK, device.s.pendingId);
        device.s := device.s.SetPending(MSG_CT, data[4], env.now);
        kept := device.queue.slots[..];
      }
      if data[1] == MSG_TEMP || data[1] == MSG_METRICS {
        return;
      }
      FreeIs(device.queue);
      var ok := device.HandleFragment(who, data, hasKeypair, k, env.(free := device.queue.FreeSlots()));
    }

    /** One turn of the retry process: the retry, and the reset of a failed session with its packets dropped. */
    method Tick(k: Kem, env: Env) returns (ghost mid: TxQueue.Slots)
      requires Valid() && env.free == device.queue.FreeSlots()
      modifies this, device, device.queue, device.queue.slots
      ensures var r := RootTick(old(View()), who, k, env);
        device.Valid() && View() == r.0 && AllWellformed(r.1) && TxQueue.Contents(mid) == old(device.Queued()) + EntriesOf(r.1, device.dest)
      ensures var s, e := old(device.s), Retry(old(device.View()), who, hasKeypair, k, env);
        if !s.IsEstablished() && e.h.s.phase == Failed then TxQueue.Dropped(mid, device.queue.slots[..], TxQueue.NodeMatch(e.h.s.nodeId))
        else mid == device.queue.slots[..]
    {
      hide TxQueue.Queue.Valid, TxQueue.Contents, EntriesOf, Retry, AllWellformed;
      NothingSent(device.dest);
      mid := device.queue.slots[..];
      if device.s.IsEstablished() {
        return;
      }
      var ok := device.RetryPending(who, hasKeypair, k, env);
      mid := device.queue.slots[..];
      if device.s.phase == Failed {
        var n := device.queue.DropNode(device.s.nodeId);
        device.s := Reset(device.s);
      }
    }
  }

  /** A restart leaves no packet of the node in the queue, the start of a ciphertext no packet of the key that was sent;
      every other packet stays in its slot. */
  lemma KeptPackets(d: RootDriver, before: TxQueue.Slots, kept: TxQueue.Slots, s: Session, msgType: Byte, i: nat)
    requires d.Keeps(before, kept, s, msgType) && i < |before|
    ensures |kept| == |before| && (kept[i] == before[i] || kept[i] == None)
    ensures msgType == MSG_GETPK && (s.phase == Failed || s.phase == WaitCt || s.IsEstablished()) ==>
      (kept[i].Some? <==> before[i].Some? && before[i].value.nodeId != s.nodeId)
    ensures msgType == MSG_CT && s.phase == WaitCt && s.pendingType == MSG_PK && before[i].Some? && |before[i].value.data| >= HEADER_LEN ==>
      var e := before[i].value;
      (kept[i].None? <==> e.nodeId == s.nodeId && e.data[1] == MSG_PK && e.data[4] == s.pendingId)
    ensures msgType != MSG_GETPK && msgType != MSG_CT ==> kept[i] == before[i]
  {}

  /** The slots that the kept packets leave free. */
  ghost function Free(kept: TxQueue.Slots): (n: nat) {
    if |TxQueue.Contents(kept)| <= QUEUE_SIZE then QUEUE_SIZE - |TxQueue.Contents(kept)| else 0
  }

  lemma FreeIs(q: TxQueue.Queue)
    requires q.Valid()
    ensures q.FreeSlots() == Free(q.slots[..])
  {
    q.CountBound();
  }

  lemma ParseHeader(data: Bytes)
    ensures Parse(data).Some? ==> HeaderValid(data) && Parse(data).value.msgType == data[1] && Parse(data).value.msgId == data[4]
  {}
}
