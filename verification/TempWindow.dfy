/** Encrypted measurements: the sender's counter, and the root's window of sixteen trial counters. */
module TempWindow {
  import opened Octets
  import opened Protocol
  import opened CryptoWorker
  import AesModes
  import TxQueue

  const WINDOW := 16
  const PAYLOAD_LEN := 12

  // ---- the payload ----

  /** A measurement: the eight bytes of humidity and temperature. */
  type Measurement = m: seq<Octet> | |m| == 8 witness seq(8, i => NULL)

  /** pqc_temp_payload_t in memory: the counter, least significant byte first, and the measurement. */
  function Layout(c: Counter, m: Measurement): (b: seq<Octet>)
    ensures |b| == PAYLOAD_LEN
  {
    [OctetOf(c % 0x100), OctetOf(c / 0x100 % 0x100), OctetOf(c / 0x1_0000 % 0x100), OctetOf(c / 0x100_0000)] + m
  }

  function CounterOf(b: seq<Octet>): Counter
    requires |b| >= 4
  {
    Value(b[0]) + 0x100 * Value(b[1]) + 0x1_0000 * Value(b[2]) + 0x100_0000 * Value(b[3])
  }

  lemma LayoutCounter(c: Counter, m: Measurement)
    ensures CounterOf(Layout(c, m)) == c && Layout(c, m)[4..] == m
  {
    hide Value, OctetOf;
    Digits(c);
    OctetValue(c % 0x100, NULL);
    OctetValue(c / 0x100 % 0x100, NULL);
    OctetValue(c / 0x1_0000 % 0x100, NULL);
    OctetValue(c / 0x100_0000, NULL);
  }

  /** The counter in memory is the number of its four bytes read backwards. */
  lemma LayoutBytes(c: Counter, m: Measurement)
    ensures var b := Layout(c, m); Number([b[3], b[2], b[1], b[0]]) == c
  {
    hide Value, OctetOf;
    LayoutCounter(c, m);
    var b := Layout(c, m);
    FourBytes(b[3], b[2], b[1], b[0]);
  }

  /** What goes on the air for measurement m under counter c. */
  function Sealed(k: Keys, c: Counter, m: Measurement): (b: seq<Octet>)
    ensures |b| == PAYLOAD_LEN
  {
    Masked(k, c, Layout(c, m))
  }

  // ---- the window ----

  /** The counter that trial number offset uses. */
  function TrialCounter(rx: Counter, offset: nat): Counter { (rx + offset) % MODULUS }

  /** Under trial counter c the decrypted payload carries that same counter. */
  predicate Matches(k: Keys, data: seq<Octet>, c: Counter)
    requires |data| == PAYLOAD_LEN
  {
    CounterOf(Masked(k, c, data)) == c
  }

  /** The first of the trials, from number offset on, that succeeds. */
  function First(trial: nat -> bool, offset: nat): (r: Option<nat>)
    requires offset <= WINDOW
    ensures r.Some? ==> offset <= r.value < WINDOW && trial(r.value)
    ensures forall i {:trigger trial(i)} :: offset <= i < (if r.Some? then r.value else WINDOW) ==> !trial(i)
    decreases WINDOW - offset
  {
    if offset == WINDOW then None
    else if trial(offset) then Some(offset)
    else First(trial, offset + 1)
  }

  function Trials(k: Keys, rx: Counter, data: seq<Octet>): nat -> bool
    requires |data| == PAYLOAD_LEN
  {
    (i: nat) => Matches(k, data, TrialCounter(rx, i))
  }

  datatype Accepted = Accepted(counter: Counter, measurement: Measurement)

  /** The measurement that decrypts under counter c. */
  function Content(k: Keys, c: Counter, data: seq<Octet>): Measurement
    requires |data| == PAYLOAD_LEN
  {
    Masked(k, c, data)[4..]
  }

  /** What the root makes of a payload when it expects counter rx. */
  function Open(k: Keys, rx: Counter, data: seq<Octet>): Option<Accepted>
    requires |data| == PAYLOAD_LEN
  {
    var r := First(Trials(k, rx, data), 0);
    if r.None? then None
    else
      var c := TrialCounter(rx, r.value);
      Some(Accepted(c, Content(k, c, data)))
  }

  /** The counter expected next. */
  function Next(rx: Counter, r: Option<Accepted>): Counter {
    if r.Some? then (r.value.counter + 1) % MODULUS else rx
  }

  /** No counter from rx up to, but not including, c decrypts the payload to itself by accident. */
  predicate Clean(k: Keys, rx: Counter, c: Counter, data: seq<Octet>)
    requires |data| == PAYLOAD_LEN
  {
    forall t: Counter :: rx <= t < c ==> !Matches(k, data, t)
  }

  lemma SealedMatches(k: Keys, c: Counter, m: Measurement)
    ensures Matches(k, Sealed(k, c, m), c) && Content(k, c, Sealed(k, c, m)) == m
  {
    hide Masked, Layout, CounterOf;
    MaskedTwice(k, c, Layout(c, m));
    LayoutCounter(c, m);
  }

  /** A sealed measurement is accepted under its own counter exactly when that counter is one of the sixteen tried
      and no earlier one matches by accident; then its measurement comes out unchanged. */
  lemma OpenSealed(k: Keys, rx: Counter, c: Counter, m: Measurement)
    requires rx + WINDOW <= MODULUS
    ensures Open(k, rx, Sealed(k, c, m)) == Some(Accepted(c, m)) <==> rx <= c < rx + WINDOW && Clean(k, rx, c, Sealed(k, c, m))
  {
    hide Masked, Sealed, CounterOf, Matches, Content;
    var data := Sealed(k, c, m);
    SealedMatches(k, c, m);
    var r := First(Trials(k, rx, data), 0);
    forall i: nat | i < WINDOW ensures TrialCounter(rx, i) == rx + i {
      Unwrapped(rx, i);
    }
    if rx <= c < rx + WINDOW && Clean(k, rx, c, data) {
      assert Trials(k, rx, data)(c - rx);
      assert r.Some? && TrialCounter(rx, r.value) == c;
    }
    if r.Some? && TrialCounter(rx, r.value) == c {
      forall t: Counter | rx <= t < c ensures !Matches(k, data, t) {
        assert TrialCounter(rx, t - rx) == t && !Trials(k, rx, data)(t - rx);
      }
    }
  }

  lemma Unwrapped(rx: Counter, i: nat)
    requires rx + i < MODULUS
    ensures TrialCounter(rx, i) == rx + i
  {}

  /** Whatever arrives, an accepted counter is at least the expected one, and the next expected one is beyond it. */
  lemma OpenMoves(k: Keys, rx: Counter, data: seq<Octet>)
    requires |data| == PAYLOAD_LEN && rx + WINDOW < MODULUS
    ensures var r := Open(k, rx, data);
      (r.Some? ==> rx <= r.value.counter < rx + WINDOW && Next(rx, r) == r.value.counter + 1) && (r.None? ==> Next(rx, r) == rx)
  {
    hide Masked, Matches, Content;
    var r := First(Trials(k, rx, data), 0);
    if r.Some? {
      Unwrapped(rx, r.value);
    }
  }

  // ---- the packet ----

  function ToBytes(s: seq<Octet>): (b: Bytes)
    ensures |b| == |s|
  {
    seq(|s|, i requires 0 <= i < |s| => Value(s[i]))
  }

  function FromBytes(b: Bytes): (s: seq<Octet>)
    ensures |s| == |b|
  {
    seq(|b|, i requires 0 <= i < |b| => OctetOf(b[i]))
  }

  lemma BytesBack(s: seq<Octet>)
    ensures FromBytes(ToBytes(s)) == s
  {
    hide Value, OctetOf;
    forall i | 0 <= i < |s| ensures FromBytes(ToBytes(s))[i] == s[i] {
      OctetValue(0, s[i]);
    }
  }

  function TempPacket(k: Keys, nodeId: NodeId, msgId: Byte, c: Counter, m: Measurement): Packet {
    Packet(MSG_TEMP, nodeId, msgId, 0, 1, ToBytes(Sealed(k, c, m)), FLAG_NONE)
  }

  /** The packet on the air. */
  function Wire(k: Keys, nodeId: NodeId, msgId: Byte, c: Counter, m: Measurement): (b: Bytes)
    ensures |b| == HEADER_LEN + PAYLOAD_LEN
  {
    Serialize(TempPacket(k, nodeId, msgId, c, m))
  }

  /** The checks in front of the window. */
  predicate IsTemp(b: Bytes) {
    HeaderValid(b) && b[1] == MSG_TEMP && b[5] == 0 && b[6] == 1 && b[7] == PAYLOAD_LEN
  }

  /** pqc_handle_encrypted_temp on an established session. */
  function Handle(k: Keys, rx: Counter, b: Bytes): Option<Accepted> {
    if IsTemp(b) then Open(k, rx, FromBytes(b[HEADER_LEN..HEADER_LEN + PAYLOAD_LEN])) else None
  }

  lemma WireSealed(k: Keys, nodeId: NodeId, msgId: Byte, c: Counter, m: Measurement, rx: Counter)
    ensures var b := Wire(k, nodeId, msgId, c, m);
      IsTemp(b) && HeaderNodeId(b) == nodeId && b[4] == msgId && b[8] == FLAG_NONE && Handle(k, rx, b) == Open(k, rx, Sealed(k, c, m))
  {
    hide Sealed, Open, ToBytes, FromBytes;
    var data := Sealed(k, c, m);
    var b := Wire(k, nodeId, msgId, c, m);
    assert b[HEADER_LEN..HEADER_LEN + PAYLOAD_LEN] == ToBytes(data);
    BytesBack(data);
  }

  // ---- whole runs ----

  /** The counter expected after the packets. */
  function Expected(k: Keys, rx: Counter, packets: seq<Bytes>): Counter {
    if packets == [] then rx
    else
      var before := Expected(k, rx, packets[..|packets| - 1]);
      Next(before, Handle(k, before, packets[|packets| - 1]))
  }

  /** What comes out of packet i. */
  function Outcome(k: Keys, rx: Counter, packets: seq<Bytes>, i: nat): Option<Accepted>
    requires i < |packets|
  {
    Handle(k, Expected(k, rx, packets[..i]), packets[i])
  }

  lemma HandleMoves(k: Keys, rx: Counter, b: Bytes)
    requires rx + WINDOW < MODULUS
    ensures var r := Handle(k, rx, b);
      (r.Some? ==> rx <= r.value.counter < rx + WINDOW && Next(rx, r) == r.value.counter + 1) && (r.None? ==> Next(rx, r) == rx)
  {
    hide Open;
    if IsTemp(b) {
      OpenMoves(k, rx, FromBytes(b[HEADER_LEN..HEADER_LEN + PAYLOAD_LEN]));
    }
  }

  /** The expected counter never goes back, and moves by at most the window for each packet. */
  lemma {:induction false} ExpectedMoves(k: Keys, rx: Counter, packets: seq<Bytes>, n: nat)
    requires n <= |packets| && rx + WINDOW * (|packets| + 1) < MODULUS
    ensures Expected(k, rx, packets[..n]) <= Expected(k, rx, packets) <= rx + WINDOW * |packets|
    decreases |packets|
  {
    hide Handle, Next;
    if n == |packets| {
      assert packets[..n] == packets;
      if packets != [] {
        ExpectedMoves(k, rx, packets[..n - 1], n - 1);
        HandleMoves(k, Expected(k, rx, packets[..n - 1]), packets[n - 1]);
      }
    } else {
      var m := |packets| - 1;
      ExpectedMoves(k, rx, packets[..m], n);
      assert packets[..m][..n] == packets[..n];
      HandleMoves(k, Expected(k, rx, packets[..m]), packets[m]);
    }
  }

  /** Whatever packets arrive, in whatever order: the accepted counters strictly increase. */
  lemma AcceptedIncrease(k: Keys, rx: Counter, packets: seq<Bytes>, i: nat, j: nat)
    requires i < j < |packets| && rx + WINDOW * (|packets| + 1) < MODULUS
    requires Outcome(k, rx, packets, i).Some? && Outcome(k, rx, packets, j).Some?
    ensures Outcome(k, rx, packets, i).value.counter < Outcome(k, rx, packets, j).value.counter
  {
    hide Handle, Next;
    var a, b := Expected(k, rx, packets[..i]), Expected(k, rx, packets[..j]);
    ExpectedMoves(k, rx, packets[..i], 0);
    ExpectedMoves(k, rx, packets[..j], i + 1);
    assert packets[..j][..i + 1] == packets[..i + 1] && packets[..i + 1][..i] == packets[..i];
    HandleMoves(k, a, packets[i]);
    HandleMoves(k, b, packets[j]);
  }

  /** A delivered measurement: the counter and message id it was sent with, and the measurement. */
  datatype Sent = Sent(counter: Counter, msgId: Byte, m: Measurement)

  function Wires(k: Keys, nodeId: NodeId, sent: seq<Sent>): (b: seq<Bytes>)
    ensures |b| == |sent|
  {
    seq(|sent|, i requires 0 <= i < |sent| => Wire(k, nodeId, sent[i].msgId, sent[i].counter, sent[i].m))
  }

  /** The counter that follows those of the packets delivered so far. */
  function After(rx: Counter, sent: seq<Sent>): int {
    if sent == [] then rx else sent[|sent| - 1].counter + 1
  }

  /** The packets arrive in order with at most fifteen lost before each, and no trial matches by accident. */
  ghost predicate FewLost(k: Keys, rx: Counter, sent: seq<Sent>) {
    forall i {:trigger sent[i]} :: 0 <= i < |sent| ==>
      var start := After(rx, sent[..i]);
      start <= sent[i].counter < start + WINDOW && sent[i].counter + WINDOW < MODULUS
      && Clean(k, start, sent[i].counter, Sealed(k, sent[i].counter, sent[i].m))
  }

  /** One delivered packet within the window. */
  lemma HandleWire(k: Keys, rx: Counter, nodeId: NodeId, x: Sent)
    requires rx <= x.counter < rx + WINDOW && x.counter + WINDOW < MODULUS && Clean(k, rx, x.counter, Sealed(k, x.counter, x.m))
    ensures Handle(k, rx, Wire(k, nodeId, x.msgId, x.counter, x.m)) == Some(Accepted(x.counter, x.m))
  {
    hide Handle, Open, Sealed, Wire, Clean;
    OpenSealed(k, rx, x.counter, x.m);
    WireSealed(k, nodeId, x.msgId, x.counter, x.m, rx);
  }

  lemma FewLostInit(k: Keys, rx: Counter, sent: seq<Sent>, n: nat)
    requires FewLost(k, rx, sent) && n <= |sent|
    ensures FewLost(k, rx, sent[..n])
  {
    hide Clean, Sealed, After;
    forall i | 0 <= i < n ensures sent[..n][..i] == sent[..i] {
    }
  }

  lemma OutcomeInit(k: Keys, rx: Counter, packets: seq<Bytes>, n: nat, i: nat)
    requires i < n <= |packets|
    ensures Outcome(k, rx, packets[..n], i) == Outcome(k, rx, packets, i)
  {
    hide Handle, Expected;
    assert packets[..n][..i] == packets[..i];
  }

  /** With at most fifteen packets lost in a row, every packet that arrives is accepted with exactly its measurement. */
  lemma {:induction false} FewLostAccepted(k: Keys, rx: Counter, nodeId: NodeId, sent: seq<Sent>, i: nat)
    requires FewLost(k, rx, sent) && i < |sent|
    ensures Outcome(k, rx, Wires(k, nodeId, sent), i) == Some(Accepted(sent[i].counter, sent[i].m))
    ensures Expected(k, rx, Wires(k, nodeId, sent)) == After(rx, sent)
    decreases |sent|, i
  {
    hide Handle, Wire, Clean, Sealed, FewLost;
    var n := |sent| - 1;
    var init, w := sent[..n], Wires(k, nodeId, sent);
    assert w[..n] == Wires(k, nodeId, init);
    FewLostInit(k, rx, sent, n);
    if i < n {
      FewLostAccepted(k, rx, nodeId, init, i);
      OutcomeInit(k, rx, w, n, i);
    } else if n > 0 {
      FewLostAccepted(k, rx, nodeId, init, n - 1);
    }
    LastWithin(k, rx, sent);
    HandleWire(k, After(rx, init), nodeId, sent[n]);
  }

  lemma LastWithin(k: Keys, rx: Counter, sent: seq<Sent>)
    requires FewLost(k, rx, sent) && sent != []
    ensures var n := |sent| - 1; var start, x := After(rx, sent[..n]), sent[n];
      start <= x.counter < start + WINDOW && x.counter + WINDOW < MODULUS && Clean(k, start, x.counter, Sealed(k, x.counter, x.m))
  {
    hide Clean, Sealed;
  }

  // ---- the two ends ----

  /** The payload in a buffer, encrypted or decrypted there under a counter: the initial counter is derived first. */
  method Seal(k: Keys, ss: array<Octet>, aesKey: array<Octet>, counter: Counter, data: seq<Octet>) returns (r: seq<Octet>)
    requires |data| == PAYLOAD_LEN && ss[..] == k.ss && aesKey[..] == AesKey(k)
    ensures r == Masked(k, counter, data)
  {
    hide Iv, AesKey, AesModes.Ctr, AesModes.Expanded;
    assert Keys(k.f, k.ss) == k;
    var payload := new Octet[PAYLOAD_LEN](i requires 0 <= i < PAYLOAD_LEN => data[i]);
    assert payload[..] == data;
    var iv := new Octet[16](_ => NULL);
    DeriveAesIv(k.f, ss, counter, iv);
    assert iv[..] == Iv(k, counter);
    assert payload[..PAYLOAD_LEN] == data;
    CtrXcrypt(aesKey, iv, payload, PAYLOAD_LEN);
    assert payload[..PAYLOAD_LEN] == payload[..];
    r := payload[..];
  }

  /** The sending half of an established session. */
  class Sender {
    const k: Keys
    const ss: array<Octet>
    const aesKey: array<Octet>
    const nodeId: NodeId
    var established: bool
    var txCounter: Counter
    var nextMsgId: Byte
    ghost var log: seq<Sent>

    /** Packets queued since the reset carry the counters 0, 1, 2, .. in the order they were queued. */
    ghost predicate Valid()
      reads this, ss, aesKey
    {
      && ss[..] == k.ss && aesKey[..] == AesKey(k)
      && txCounter == |log| % MODULUS
      && forall i :: 0 <= i < |log| ==> log[i].counter == i % MODULUS
    }

    constructor (keys: Keys, node: NodeId, established: bool, nextMsgId: Byte)
      ensures Valid() && k == keys && nodeId == node && log == [] && txCounter == 0
      ensures this.established == established && this.nextMsgId == nextMsgId
    {
      k, nodeId := keys, node;
      ss := new Octet[|keys.ss|](i requires 0 <= i < |keys.ss| => keys.ss[i]);
      aesKey := new Octet[32](_ => NULL);
      this.established, this.nextMsgId := established, nextMsgId;
      txCounter, log := 0, [];
      new;
      assert ss[..] == keys.ss;
      DeriveAesKey(keys.f, ss, aesKey);
    }

    /** pqc_send_encrypted_temp: queues the measurement exactly when the session is established and a slot is free. */
    method SendTemp(m: Measurement, q: TxQueue.Queue, dest: nat) returns (queued: bool)
      requires Valid() && q.Valid()
      modifies this`txCounter, this`nextMsgId, this`log, q, q.slots
      ensures Valid() && q.Valid()
      ensures queued <==> established && old(q.count) < TxQueue.QUEUE_SIZE
      ensures !queued ==> log == old(log) && txCounter == old(txCounter) && nextMsgId == old(nextMsgId)
      ensures !queued ==> q.slots[..] == old(q.slots[..])
      ensures queued ==> log == old(log) + [Sent(old(txCounter), old(nextMsgId), m)]
      ensures queued ==> txCounter == (old(txCounter) + 1) % MODULUS && nextMsgId == (old(nextMsgId) + 1) % 0x100
      ensures queued ==> IsTemp(Wire(k, nodeId, old(nextMsgId), old(txCounter), m))
      ensures queued ==>
        var packet := Wire(k, nodeId, old(nextMsgId), old(txCounter), m);
        TxQueue.Contents(q.slots[..]) == TxQueue.Contents(old(q.slots[..])) + multiset{TxQueue.EntryFor(packet, dest)}
    {
      hide Masked, Layout, Serialize, TxQueue.Contents, TxQueue.EntryFor, HeaderValid, Handle, Open;
      if !established || q.FreeSlots() == 0 {
        return false;
      }
      var counter, msgId := txCounter, nextMsgId;
      var payload := Seal(k, ss, aesKey, counter, Layout(counter, m));
      var packet := Serialize(Packet(MSG_TEMP, nodeId, msgId, 0, 1, ToBytes(payload), FLAG_NONE));
      WireSealed(k, nodeId, msgId, counter, m, 0);
      nextMsgId := (nextMsgId + 1) % 0x100;
      queued := q.SendFragment(packet, dest);
      if queued {
        CounterStep(|log|);
        txCounter := (txCounter + 1) % MODULUS;
        log := log + [Sent(counter, msgId, m)];
      }
    }
  }

  lemma CounterStep(n: nat)
    ensures (n % MODULUS + 1) % MODULUS == (n + 1) % MODULUS
  {}

  /** The receiving half of an established session. */
  class Receiver {
    const k: Keys
    const ss: array<Octet>
    const aesKey: array<Octet>
    var established: bool
    var rxCounter: Counter

    ghost predicate Valid()
      reads ss, aesKey
    {
      ss[..] == k.ss && aesKey[..] == AesKey(k)
    }

    constructor (keys: Keys, established: bool)
      ensures Valid() && k == keys && this.established == established && rxCounter == 0
    {
      k := keys;
      ss := new Octet[|keys.ss|](i requires 0 <= i < |keys.ss| => keys.ss[i]);
      aesKey := new Octet[32](_ => NULL);
      this.established, rxCounter := established, 0;
      new;
      assert ss[..] == keys.ss;
      DeriveAesKey(keys.f, ss, aesKey);
    }

    /** The trial loop of pqc_handle_encrypted_temp. */
    method TryWindow(sealed: seq<Octet>) returns (out: Option<Accepted>)
      requires Valid() && |sealed| == PAYLOAD_LEN
      modifies this`rxCounter
      ensures Valid() && out == Open(k, old(rxCounter), sealed) && rxCounter == Next(old(rxCounter), out)
    {
      hide Masked, Matches, CounterOf, Trials, Open, First;
      var expectedCounter := rxCounter;
      ghost var trials := Trials(k, expectedCounter, sealed);
      var offset := 0;
      OpenIs(k, expectedCounter, sealed);
      while offset < WINDOW
        invariant 0 <= offset <= WINDOW && rxCounter == expectedCounter
        invariant First(trials, 0) == First(trials, offset)
      {
        var trialCounter := (expectedCounter + offset) % MODULUS;
        var payload := Seal(k, ss, aesKey, trialCounter, sealed);
        TrialIs(k, expectedCounter, sealed, offset);
        if CounterOf(payload) == trialCounter {
          rxCounter := (trialCounter + 1) % MODULUS;
          return Some(Accepted(trialCounter, payload[4..]));
        }
        offset := offset + 1;
      }
      out := None;
    }

    /** pqc_handle_encrypted_temp. */
    method HandleTemp(data: Bytes) returns (out: Option<Accepted>)
      requires Valid()
      modifies this`rxCounter
      ensures Valid() && out == if established then Handle(k, old(rxCounter), data) else None
      ensures rxCounter == Next(old(rxCounter), out)
    {
      hide Open;
      if !established || !IsTemp(data) {
        return None;
      }
      out := TryWindow(FromBytes(data[HEADER_LEN..HEADER_LEN + PAYLOAD_LEN]));
    }
  }

  lemma OpenIs(k: Keys, rx: Counter, data: seq<Octet>)
    requires |data| == PAYLOAD_LEN
    ensures var trials := Trials(k, rx, data);
      First(trials, WINDOW) == None
      && match First(trials, 0)
         case None => Open(k, rx, data) == None
         case Some(i) => Open(k, rx, data) == Some(Accepted(TrialCounter(rx, i), Content(k, TrialCounter(rx, i), data)))
  {
    hide Masked, Content, Matches;
  }

  /** One trial: the counter inside the decrypted payload is the trial counter. */
  lemma TrialIs(k: Keys, rx: Counter, data: seq<Octet>, offset: nat)
    requires |data| == PAYLOAD_LEN && offset < WINDOW
    ensures var trials, c := Trials(k, rx, data), TrialCounter(rx, offset);
      First(trials, offset) == if CounterOf(Masked(k, c, data)) == c then Some(offset) else First(trials, offset + 1)
  {
    hide Masked, CounterOf;
  }
}
