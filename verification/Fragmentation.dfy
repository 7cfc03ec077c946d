/** fragmentation.c: cutting a message into fragments and putting it together again. */
module Fragmentation {
  import opened Protocol

  // ---- the sender

  /** fragment_tx_count. */
  function TxCount(len: nat): (n: nat)
    ensures n <= FRAG_MAX_FRAGS
    ensures n > 0 <==> 1 <= len <= FRAG_MAX_MESSAGE
    ensures n > 0 ==> FRAG_MAX_PAYLOAD * (n - 1) < len <= FRAG_MAX_PAYLOAD * n
  {
    var total := (len + FRAG_MAX_PAYLOAD - 1) / FRAG_MAX_PAYLOAD;
    if len == 0 || total > FRAG_MAX_FRAGS then 0 else total
  }

  function SliceLen(len: nat, i: nat): nat {
    if len <= FRAG_MAX_PAYLOAD * i then 0
    else if len - FRAG_MAX_PAYLOAD * i > FRAG_MAX_PAYLOAD then FRAG_MAX_PAYLOAD else len - FRAG_MAX_PAYLOAD * i
  }

  /** The bytes of fragment i. */
  function Slice(msg: Bytes, i: nat): (b: Bytes)
    requires i < TxCount(|msg|)
    ensures |b| == SliceLen(|msg|, i) > 0
  {
    msg[FRAG_MAX_PAYLOAD * i..FRAG_MAX_PAYLOAD * i + SliceLen(|msg|, i)]
  }

  /** Fragment i of msg as fragment_tx and send_fragment_slice build it. */
  function Fragment(msg: Bytes, msgType: Byte, nodeId: NodeId, msgId: Byte, i: nat, flags: Byte): (p: Packet)
    requires i < TxCount(|msg|)
    ensures InRange(p) && Wellformed(p)
  {
    Packet(msgType, nodeId, msgId, i, TxCount(|msg|), Slice(msg, i), flags)
  }

  // ---- the receiver

  /** The value of a fragment_rx_ctx_t. */
  datatype Rx = Rx(active: bool, msgType: Byte, nodeId: NodeId, msgId: Byte, totalFrags: nat, receivedFrags: nat, receivedLen: nat,
                   bitmap: seq<bool>, buffer: Bytes)
  {
    predicate Shape() { |bitmap| == FRAG_MAX_FRAGS && |buffer| == FRAG_MAX_MESSAGE }

    /** fragment_rx_complete. */
    predicate Complete() { active && receivedFrags == totalFrags }
  }

  function Empty(): (c: Rx)
    ensures c.Shape() && !c.active && c.totalFrags == 0
  {
    Rx(false, 0, 0, 0, 0, 0, 0, seq(FRAG_MAX_FRAGS, i => false), seq(FRAG_MAX_MESSAGE, i => 0))
  }

  /** A context as the receiver keeps it. */
  type Ctx = c: Rx | c.Shape() && c.totalFrags <= FRAG_MAX_FRAGS witness Empty()

  /** The checks of fragment_rx_add. */
  predicate Accepts(c: Rx, p: Packet) {
    && 0 < p.totalFrags <= FRAG_MAX_FRAGS && p.fragIdx < p.totalFrags && |p.payload| <= FRAG_MAX_PAYLOAD
    && FRAG_MAX_PAYLOAD * p.fragIdx + |p.payload| <= FRAG_MAX_MESSAGE
    && (c.active ==> c.msgType == p.msgType && c.nodeId == p.nodeId && c.msgId == p.msgId && c.totalFrags == p.totalFrags)
  }

  function Overwrite(buffer: Bytes, at: nat, b: Bytes): (r: Bytes)
    requires at + |b| <= |buffer|
    ensures |r| == |buffer|
  {
    buffer[..at] + b + buffer[at + |b|..]
  }

  /** fragment_rx_add. */
  function Added(c: Rx, p: Packet): (c': Rx)
    requires c.Shape()
    ensures c'.Shape() && (c.totalFrags <= FRAG_MAX_FRAGS ==> c'.totalFrags <= FRAG_MAX_FRAGS)
  {
    if !Accepts(c, p) then c
    else
      var c1 := if c.active then c else c.(active := true, msgType := p.msgType, nodeId := p.nodeId, msgId := p.msgId, totalFrags := p.totalFrags);
      if c1.bitmap[p.fragIdx] then c1
      else c1.(buffer := Overwrite(c1.buffer, FRAG_MAX_PAYLOAD * p.fragIdx, p.payload), bitmap := c1.bitmap[p.fragIdx := true],
               receivedFrags := c1.receivedFrags + 1, receivedLen := c1.receivedLen + |p.payload|)
  }

  // ---- what the counters mean

  function Population(bitmap: seq<bool>): (n: nat)
    ensures n <= |bitmap|
  {
    if bitmap == [] then 0 else Population(bitmap[..|bitmap| - 1]) + if bitmap[|bitmap| - 1] then 1 else 0
  }

  lemma {:induction false} PopulationSet(bitmap: seq<bool>, i: nat)
    requires i < |bitmap| && !bitmap[i]
    ensures Population(bitmap[i := true]) == Population(bitmap) + 1
  {
    var n := |bitmap| - 1;
    if i < n {
      PopulationSet(bitmap[..n], i);
      assert bitmap[i := true][..n] == bitmap[..n][i := true];
    } else {
      assert bitmap[i := true][..n] == bitmap[..n];
    }
  }

  lemma {:induction false} PopulationFull(bitmap: seq<bool>)
    ensures Population(bitmap) == |bitmap| <==> forall i :: 0 <= i < |bitmap| ==> bitmap[i]
  {
    if bitmap != [] {
      var n := |bitmap| - 1;
      PopulationFull(bitmap[..n]);
      if Population(bitmap) == |bitmap| {
        forall i | 0 <= i < |bitmap| ensures bitmap[i] { if i < n { assert bitmap[..n][i]; } }
      }
    }
  }

  lemma {:induction false} PopulationNone(bitmap: seq<bool>)
    requires forall i :: 0 <= i < |bitmap| ==> !bitmap[i]
    ensures Population(bitmap) == 0
  {
    if bitmap != [] { PopulationNone(bitmap[..|bitmap| - 1]); }
  }

  /** The sum of the lengths of the fragments present. */
  function PresentLen(bitmap: seq<bool>, len: nat): nat {
    if bitmap == [] then 0
    else PresentLen(bitmap[..|bitmap| - 1], len) + if bitmap[|bitmap| - 1] then SliceLen(len, |bitmap| - 1) else 0
  }

  lemma {:induction false} PresentLenSet(bitmap: seq<bool>, len: nat, i: nat)
    requires i < |bitmap| && !bitmap[i]
    ensures PresentLen(bitmap[i := true], len) == PresentLen(bitmap, len) + SliceLen(len, i)
  {
    var n := |bitmap| - 1;
    if i < n {
      PresentLenSet(bitmap[..n], len, i);
      assert bitmap[i := true][..n] == bitmap[..n][i := true];
    } else {
      assert bitmap[i := true][..n] == bitmap[..n];
    }
  }

  lemma {:induction false} PresentLenAll(bitmap: seq<bool>, len: nat)
    requires forall i :: 0 <= i < |bitmap| ==> bitmap[i]
    ensures PresentLen(bitmap, len) == if len < FRAG_MAX_PAYLOAD * |bitmap| then len else FRAG_MAX_PAYLOAD * |bitmap|
  {
    if bitmap != [] { PresentLenAll(bitmap[..|bitmap| - 1], len); }
  }

  lemma {:induction false} PresentLenNone(bitmap: seq<bool>, len: nat)
    requires forall i :: 0 <= i < |bitmap| ==> !bitmap[i]
    ensures PresentLen(bitmap, len) == 0
  {
    if bitmap != [] { PresentLenNone(bitmap[..|bitmap| - 1], len); }
  }

  /** c has received exactly the fragments of msg marked in its bitmap, or nothing at all. */
  ghost predicate Holds(c: Rx, msg: Bytes, msgType: Byte, nodeId: NodeId, msgId: Byte) {
    && c.Shape() && TxCount(|msg|) > 0
    && (c.active ==> c.msgType == msgType && c.nodeId == nodeId && c.msgId == msgId && c.totalFrags == TxCount(|msg|))
    && (!c.active ==> forall i :: 0 <= i < FRAG_MAX_FRAGS ==> !c.bitmap[i])
    && (forall i :: TxCount(|msg|) <= i < FRAG_MAX_FRAGS ==> !c.bitmap[i])
    && c.receivedFrags == Population(c.bitmap[..TxCount(|msg|)])
    && c.receivedLen == PresentLen(c.bitmap[..TxCount(|msg|)], |msg|)
    && (forall i {:trigger c.bitmap[i]} :: 0 <= i < TxCount(|msg|) && c.bitmap[i] ==>
         c.buffer[FRAG_MAX_PAYLOAD * i..FRAG_MAX_PAYLOAD * i + SliceLen(|msg|, i)] == Slice(msg, i))
  }

  lemma EmptyHolds(msg: Bytes, msgType: Byte, nodeId: NodeId, msgId: Byte)
    requires 1 <= |msg| <= FRAG_MAX_MESSAGE
    ensures Holds(Empty(), msg, msgType, nodeId, msgId)
  {
    var b := Empty().bitmap[..TxCount(|msg|)];
    PopulationNone(b);
    PresentLenNone(b, |msg|);
  }

  /** Adding any fragment of the message keeps what is received and sets its bit. */
  lemma AddedHolds(c: Rx, msg: Bytes, msgType: Byte, nodeId: NodeId, msgId: Byte, i: nat, flags: Byte)
    requires Holds(c, msg, msgType, nodeId, msgId) && i < TxCount(|msg|)
    ensures var p := Fragment(msg, msgType, nodeId, msgId, i, flags);
      && Accepts(c, p) && Holds(Added(c, p), msg, msgType, nodeId, msgId)
      && Added(c, p).active && Added(c, p).bitmap == c.bitmap[i := true]
  {
    var p := Fragment(msg, msgType, nodeId, msgId, i, flags);
    var n, d := TxCount(|msg|), Added(c, p);
    var at := FRAG_MAX_PAYLOAD * i;
    if !c.bitmap[i] {
      PopulationSet(c.bitmap[..n], i);
      PresentLenSet(c.bitmap[..n], |msg|, i);
      assert d.bitmap[..n] == c.bitmap[..n][i := true];
      forall k {:trigger d.bitmap[k]} | 0 <= k < n && d.bitmap[k]
        ensures d.buffer[FRAG_MAX_PAYLOAD * k..FRAG_MAX_PAYLOAD * k + SliceLen(|msg|, k)] == Slice(msg, k)
      {
        if k != i { assert c.bitmap[k]; }
        OverwriteElsewhere(c.buffer, at, p.payload, FRAG_MAX_PAYLOAD * k, SliceLen(|msg|, k), k == i);
      }
    } else {
      assert d.bitmap == c.bitmap;
    }
  }

  lemma OverwriteElsewhere(buffer: Bytes, at: nat, b: Bytes, from: nat, len: nat, same: bool)
    requires at + |b| <= |buffer| && from + len <= |buffer|
    requires if same then from == at && len == |b| else from + len <= at || at + |b| <= from
    ensures Overwrite(buffer, at, b)[from..from + len] == if same then b else buffer[from..from + len]
  {
    var r := Overwrite(buffer, at, b);
    if same {
      assert r[from..from + len] == b;
    } else {
      assert r[from..from + len] == buffer[from..from + len];
    }
  }

  /** Complete exactly when every fragment is present; the buffer then starts with the message, the length is its length. */
  lemma CompleteMeansMessage(c: Rx, msg: Bytes, msgType: Byte, nodeId: NodeId, msgId: Byte)
    requires Holds(c, msg, msgType, nodeId, msgId)
    ensures c.Complete() <==> forall i :: 0 <= i < TxCount(|msg|) ==> c.bitmap[i]
    ensures c.Complete() ==> c.receivedLen == |msg| && c.buffer[..|msg|] == msg
  {
    var n := TxCount(|msg|);
    var b := c.bitmap[..n];
    PopulationFull(b);
    if forall i :: 0 <= i < n ==> c.bitmap[i] {
      assert forall i :: 0 <= i < n ==> b[i];
      assert c.bitmap[0];
    }
    if c.Complete() {
      PresentLenAll(b, |msg|);
      forall i: nat {:trigger Slice(msg, i)} | i < n
        ensures c.buffer[FRAG_MAX_PAYLOAD * i..FRAG_MAX_PAYLOAD * i + SliceLen(|msg|, i)] == Slice(msg, i)
      {
        assert b[i] && c.bitmap[i];
      }
      SlicesMakeMessage(c.buffer, msg);
    }
  }

  lemma SlicesMakeMessage(buffer: Bytes, msg: Bytes)
    requires |buffer| == FRAG_MAX_MESSAGE && TxCount(|msg|) > 0
    requires forall i {:trigger Slice(msg, i)} :: 0 <= i < TxCount(|msg|) ==>
      buffer[FRAG_MAX_PAYLOAD * i..FRAG_MAX_PAYLOAD * i + SliceLen(|msg|, i)] == Slice(msg, i)
    ensures buffer[..|msg|] == msg
  {
    forall k | 0 <= k < |msg|
      ensures buffer[k] == msg[k]
    {
      var i, j := k / FRAG_MAX_PAYLOAD, k % FRAG_MAX_PAYLOAD;
      assert k == FRAG_MAX_PAYLOAD * i + j && i < TxCount(|msg|) && j < SliceLen(|msg|, i);
      var x := Slice(msg, i);
      assert buffer[FRAG_MAX_PAYLOAD * i..FRAG_MAX_PAYLOAD * i + SliceLen(|msg|, i)][j] == x[j];
    }
  }

  /** Feeding fragments of msg in the order given, repetitions included; each may carry its own flags. */
  function AddAll(c: Rx, msg: Bytes, msgType: Byte, nodeId: NodeId, msgId: Byte, order: seq<(nat, Byte)>): (r: Rx)
    requires c.Shape() && forall k :: 0 <= k < |order| ==> order[k].0 < TxCount(|msg|)
    ensures r.Shape()
  {
    if order == [] then c
    else
      var last := |order| - 1;
      Added(AddAll(c, msg, msgType, nodeId, msgId, order[..last]), Fragment(msg, msgType, nodeId, msgId, order[last].0, order[last].1))
  }

  /** Fragment i occurs in the order of arrival. */
  predicate Arrived(order: seq<(nat, Byte)>, i: nat) { exists k :: 0 <= k < |order| && order[k].0 == i }

  lemma ArrivedLast(order: seq<(nat, Byte)>, i: nat)
    requires order != []
    ensures Arrived(order, i) <==> Arrived(order[..|order| - 1], i) || order[|order| - 1].0 == i
  {
    var init := order[..|order| - 1];
    if Arrived(init, i) {
      var k :| 0 <= k < |init| && init[k].0 == i;
      assert order[k].0 == i;
    }
    if Arrived(order, i) {
      var k :| 0 <= k < |order| && order[k].0 == i;
      if k < |init| { assert init[k].0 == i; }
    }
  }

  lemma {:induction false} AddAllHolds(msg: Bytes, msgType: Byte, nodeId: NodeId, msgId: Byte, order: seq<(nat, Byte)>)
    requires 1 <= |msg| <= FRAG_MAX_MESSAGE
    requires forall k :: 0 <= k < |order| ==> order[k].0 < TxCount(|msg|)
    ensures var c := AddAll(Empty(), msg, msgType, nodeId, msgId, order);
      && Holds(c, msg, msgType, nodeId, msgId)
      && forall i :: 0 <= i < TxCount(|msg|) ==> (c.bitmap[i] <==> Arrived(order, i))
    decreases |order|
  {
    hide Added, Fragment, Holds, Accepts;
    if order == [] {
      EmptyHolds(msg, msgType, nodeId, msgId);
    } else {
      var last := |order| - 1;
      var init := order[..last];
      var c0, c := AddAll(Empty(), msg, msgType, nodeId, msgId, init), AddAll(Empty(), msg, msgType, nodeId, msgId, order);
      AddAllHolds(msg, msgType, nodeId, msgId, init);
      AddedHolds(c0, msg, msgType, nodeId, msgId, order[last].0, order[last].1);
      forall i | 0 <= i < TxCount(|msg|)
        ensures c.bitmap[i] <==> Arrived(order, i)
      {
        ArrivedLast(order, i);
      }
    }
  }

  /** Reassembly: any order, any repetitions; complete exactly when every index has arrived, and then exactly the message. */
  lemma Reassembly(msg: Bytes, msgType: Byte, nodeId: NodeId, msgId: Byte, order: seq<(nat, Byte)>)
    requires 1 <= |msg| <= FRAG_MAX_MESSAGE
    requires forall k :: 0 <= k < |order| ==> order[k].0 < TxCount(|msg|)
    ensures var c := AddAll(Empty(), msg, msgType, nodeId, msgId, order);
      && (c.Complete() <==> forall i :: 0 <= i < TxCount(|msg|) ==> Arrived(order, i))
      && (c.Complete() ==> c.receivedLen == |msg| && c.buffer[..|msg|] == msg)
  {
    hide Holds, Added, AddAll;
    AddAllHolds(msg, msgType, nodeId, msgId, order);
    CompleteMeansMessage(AddAll(Empty(), msg, msgType, nodeId, msgId, order), msg, msgType, nodeId, msgId);
  }

  // ---- the context that the source updates in place

  class FragmentRx {
    var active: bool
    var msgType: Byte
    var nodeId: NodeId
    var msgId: Byte
    var totalFrags: nat
    var receivedFrags: nat
    var receivedLen: nat
    const bitmap: array<bool>
    const buffer: array<Byte>

    ghost predicate Valid()
      reads this
    {
      bitmap.Length == FRAG_MAX_FRAGS && buffer.Length == FRAG_MAX_MESSAGE
    }

    ghost function View(): (c: Rx)
      reads this, bitmap, buffer
      requires Valid()
      ensures c.Shape()
    {
      Rx(active, msgType, nodeId, msgId, totalFrags, receivedFrags, receivedLen, bitmap[..], buffer[..])
    }

    constructor ()
      ensures Valid() && fresh(bitmap) && fresh(buffer) && View() == Empty()
    {
      active, msgType, nodeId, msgId := false, 0, 0, 0;
      totalFrags, receivedFrags, receivedLen := 0, 0, 0;
      bitmap := new bool[FRAG_MAX_FRAGS](i => false);
      buffer := new Byte[FRAG_MAX_MESSAGE](i => 0);
    }

    /** fragment_rx_reset. */
    method Reset()
      requires Valid()
      modifies this, bitmap, buffer
      ensures Valid() && View() == Empty()
    {
      active, msgType, nodeId, msgId := false, 0, 0, 0;
      totalFrags, receivedFrags, receivedLen := 0, 0, 0;
      forall i | 0 <= i < bitmap.Length { bitmap[i] := false; }
      forall i | 0 <= i < buffer.Length { buffer[i] := 0; }
    }

    /** fragment_rx_add. */
    method Add(p: Packet) returns (ok: bool)
      requires Valid()
      modifies this, bitmap, buffer
      ensures Valid() && ok == Accepts(old(View()), p) && View() == Added(old(View()), p)
    {
      if p.totalFrags == 0 || p.fragIdx >= p.totalFrags || p.totalFrags > FRAG_MAX_FRAGS || |p.payload| > FRAG_MAX_PAYLOAD {
        return false;
      }
      var offset := FRAG_MAX_PAYLOAD * p.fragIdx;
      if offset + |p.payload| > buffer.Length {
        return false;
      }
      if !active {
        active, msgType, nodeId, msgId, totalFrags := true, p.msgType, p.nodeId, p.msgId, p.totalFrags;
      } else if msgType != p.msgType || nodeId != p.nodeId || msgId != p.msgId || totalFrags != p.totalFrags {
        return false;
      }
      if !bitmap[p.fragIdx] {
        ghost var before := buffer[..];
        forall k | 0 <= k < |p.payload| { buffer[offset + k] := p.payload[k]; }
        assert buffer[..] == Overwrite(before, offset, p.payload);
        bitmap[p.fragIdx] := true;
        receivedFrags := receivedFrags + 1;
        receivedLen := receivedLen + |p.payload|;
      }
      ok := true;
    }
  }
}
