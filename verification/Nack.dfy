/** nack.c: asking for missing fragments, at most sixteen at a time. */
module Nack {
  import opened Protocol
  import opened Fragmentation

  const MAX_MISSING := 16
  const FIXED_LEN := 4

  datatype NackMsg = NackMsg(msgType: Byte, msgId: Byte, totalFrags: Byte, missing: seq<Byte>)

  // ---- the missing indices

  /** The absent indices from i on, in ascending order. */
  function Absent(bitmap: seq<bool>, i: nat): (m: seq<nat>)
    requires i <= |bitmap|
    ensures forall k :: 0 <= k < |m| ==> i <= m[k] < |bitmap| && !bitmap[m[k]]
    ensures forall j, k :: 0 <= j < k < |m| ==> m[j] < m[k]
    decreases |bitmap| - i
  {
    if i == |bitmap| then [] else if bitmap[i] then Absent(bitmap, i + 1) else [i] + Absent(bitmap, i + 1)
  }

  lemma {:induction false} AbsentComplete(bitmap: seq<bool>, i: nat, j: nat)
    requires i <= j < |bitmap| && !bitmap[j]
    ensures j in Absent(bitmap, i)
    decreases |bitmap| - i
  {
    if i < j { AbsentComplete(bitmap, i + 1, j); }
  }

  function Least(a: nat, b: nat): nat { if a < b then a else b }

  /** The first min(16, missing) absent indices of an incomplete reception. */
  function FirstMissing(c: Rx): (m: seq<nat>)
    requires c.Shape() && c.totalFrags <= FRAG_MAX_FRAGS
  {
    var all := Absent(c.bitmap[..c.totalFrags], 0);
    all[..Least(MAX_MISSING, |all|)]
  }

  /** pqc_nack_build_from_rx with room for sixteen indices. */
  method BuildFromRx(c: Rx) returns (nack: NackMsg)
    requires c.Shape() && c.totalFrags <= FRAG_MAX_FRAGS
    ensures if !c.active || c.totalFrags == 0 then nack.missing == []
            else nack == NackMsg(c.msgType, c.msgId, c.totalFrags, FirstMissing(c))
  {
    nack := NackMsg(c.msgType, c.msgId, 0, []);
    if !c.active || c.totalFrags == 0 {
      return;
    }
    var limit: nat := c.totalFrags;
    nack := NackMsg(c.msgType, c.msgId, limit, []);
    ghost var b := c.bitmap[..limit];
    var i := 0;
    while i < limit && |nack.missing| < MAX_MISSING
      invariant 0 <= i <= limit && |nack.missing| <= MAX_MISSING
      invariant nack == NackMsg(c.msgType, c.msgId, limit, nack.missing)
      invariant Absent(b, 0) == nack.missing + Absent(b, i)
    {
      if !c.bitmap[i] {
        nack := nack.(missing := nack.missing + [i]);
      }
      i := i + 1;
    }
  }

  // ---- encoding

  function Encode(n: NackMsg): (b: Bytes) {
    if |n.missing| == 0 || |n.missing| > MAX_MISSING then []
    else [n.msgType, n.msgId, n.totalFrags, |n.missing|] + n.missing
  }

  /** pqc_nack_decode. */
  function Decode(payload: Bytes): Option<NackMsg> {
    if |payload| < FIXED_LEN then None
    else
      var count := payload[3];
      if count == 0 || count > MAX_MISSING || payload[2] == 0 || payload[2] > FRAG_MAX_FRAGS || |payload| != FIXED_LEN + count then None
      else if exists i :: FIXED_LEN <= i < |payload| && payload[i] >= payload[2] then None
      else Some(NackMsg(payload[0], payload[1], payload[2], payload[FIXED_LEN..]))
  }

  /** The decoder as the source runs it: index by index, giving up at the first one out of range. */
  method DecodeLoop(payload: Bytes) returns (r: Option<NackMsg>)
    ensures r == Decode(payload)
  {
    if |payload| < FIXED_LEN {
      return None;
    }
    var count: int := payload[3];
    if count == 0 || count > MAX_MISSING || payload[2] == 0 || payload[2] > FRAG_MAX_FRAGS || |payload| != FIXED_LEN + count {
      return None;
    }
    var missing: seq<Byte> := [];
    var i := 0;
    while i < count
      invariant 0 <= i <= count && missing == payload[FIXED_LEN..FIXED_LEN + i]
      invariant forall k :: FIXED_LEN <= k < FIXED_LEN + i ==> payload[k] < payload[2]
    {
      if payload[FIXED_LEN + i] >= payload[2] {
        return None;
      }
      missing := missing + [payload[FIXED_LEN + i]];
      i := i + 1;
    }
    assert payload[FIXED_LEN..FIXED_LEN + count] == payload[FIXED_LEN..];
    r := Some(NackMsg(payload[0], payload[1], payload[2], missing));
  }

  /** A NACK built from a reception survives encoding, one fragment and decoding unchanged. */
  lemma NackRoundTrip(c: Rx, n: NackMsg, nodeId: NodeId, msgId: Byte)
    requires c.Shape() && c.active && 0 < c.totalFrags <= FRAG_MAX_FRAGS
    requires n == NackMsg(c.msgType, c.msgId, c.totalFrags, FirstMissing(c)) && n.missing != []
    ensures Decode(Encode(n)) == Some(n)
    ensures TxCount(|Encode(n)|) == 1
    ensures Fragment(Encode(n), MSG_NACK, nodeId, msgId, 0, FLAG_NONE).payload == Encode(n)
  {
    var b := Encode(n);
    assert b[FIXED_LEN..] == n.missing;
    forall i | FIXED_LEN <= i < |b| ensures b[i] < b[2] {
      assert b[i] == n.missing[i - FIXED_LEN];
    }
    assert Slice(b, 0) == b;
  }

  lemma DecodeInRange(b: Bytes)
    ensures Decode(b).Some? ==>
      forall j :: 0 <= j < |Decode(b).value.missing| ==> Decode(b).value.missing[j] < Decode(b).value.totalFrags
  {
    if Decode(b).Some? {
      forall j | 0 <= j < |Decode(b).value.missing|
        ensures Decode(b).value.missing[j] < Decode(b).value.totalFrags
      {
        assert b[FIXED_LEN + j] < b[2];
      }
    }
  }

  // ---- serving a NACK

  /** What retransmit_nack_fragments sends: the requested fragments of msg, marked as retries. */
  function Served(n: NackMsg, msg: Bytes, nodeId: NodeId): (r: seq<Packet>)
    requires n.totalFrags == TxCount(|msg|)
    requires forall k :: 0 <= k < |n.missing| ==> n.missing[k] < n.totalFrags
    ensures |r| == |n.missing|
  {
    seq(|n.missing|, k requires 0 <= k < |n.missing| => Fragment(msg, n.msgType, nodeId, n.msgId, n.missing[k], FLAG_RETRY))
  }

  /** Receiving the whole answer to a NACK. */
  function Receive(c: Rx, ps: seq<Packet>): (r: Rx)
    requires c.Shape()
    ensures r.Shape()
  {
    if ps == [] then c else Added(Receive(c, ps[..|ps| - 1]), ps[|ps| - 1])
  }

  /** The number of fragments of msg still missing. */
  function MissingCount(c: Rx): nat
    requires c.Shape() && c.totalFrags <= FRAG_MAX_FRAGS
  {
    |Absent(c.bitmap[..c.totalFrags], 0)|
  }

  lemma {:induction false} AbsentPopulation(bitmap: seq<bool>, i: nat)
    requires i <= |bitmap|
    ensures |Absent(bitmap, i)| == |bitmap| - i - (Population(bitmap) - Population(bitmap[..i]))
    decreases |bitmap| - i
  {
    if i == |bitmap| {
      assert bitmap[..i] == bitmap;
    } else {
      AbsentPopulation(bitmap, i + 1);
      assert bitmap[..i + 1][..i] == bitmap[..i];
    }
  }

  /** missing + received = total. */
  lemma MissingReceived(c: Rx, msg: Bytes, msgType: Byte, nodeId: NodeId, msgId: Byte)
    requires Holds(c, msg, msgType, nodeId, msgId) && c.active
    ensures MissingCount(c) + c.receivedFrags == c.totalFrags == TxCount(|msg|)
    ensures c.Complete() <==> MissingCount(c) == 0
  {
    AbsentPopulation(c.bitmap[..c.totalFrags], 0);
    assert c.bitmap[..c.totalFrags][..0] == [];
  }

  /** One answer sets exactly the requested bits. */
  lemma {:induction false} ReceiveServed(c: Rx, msg: Bytes, msgType: Byte, nodeId: NodeId, msgId: Byte, idx: seq<Byte>)
    requires Holds(c, msg, msgType, nodeId, msgId) && c.active
    requires forall k :: 0 <= k < |idx| ==> idx[k] < TxCount(|msg|)
    requires forall k :: 0 <= k < |idx| ==> !c.bitmap[idx[k]]
    requires forall j, k :: 0 <= j < k < |idx| ==> idx[j] < idx[k]
    ensures var d := Receive(c, Served(NackMsg(msgType, msgId, TxCount(|msg|), idx), msg, nodeId));
      && Holds(d, msg, msgType, nodeId, msgId) && d.active
      && d.receivedFrags == c.receivedFrags + |idx|
      && (forall i :: 0 <= i < FRAG_MAX_FRAGS ==> (d.bitmap[i] <==> c.bitmap[i] || i in idx))
    decreases |idx|
  {
    hide Holds, Added, Fragment, Accepts;
    assert c.Shape() by { HoldsShape(c, msg, msgType, nodeId, msgId); }
    var total := TxCount(|msg|);
    var ps := Served(NackMsg(msgType, msgId, total, idx), msg, nodeId);
    if idx != [] {
      var last := |idx| - 1;
      assert ps[..last] == Served(NackMsg(msgType, msgId, total, idx[..last]), msg, nodeId);
      ReceiveServed(c, msg, msgType, nodeId, msgId, idx[..last]);
      assert idx[last] !in idx[..last];
      var d0 := Receive(c, ps[..last]);
      OneMore(d0, msg, msgType, nodeId, msgId, idx[last]);
      InLast(idx);
    }
  }

  lemma InLast(idx: seq<Byte>)
    requires idx != []
    ensures forall i :: i in idx <==> i in idx[..|idx| - 1] || i == idx[|idx| - 1]
  {
    assert idx == idx[..|idx| - 1] + [idx[|idx| - 1]];
  }

  lemma OneMore(d: Rx, msg: Bytes, msgType: Byte, nodeId: NodeId, msgId: Byte, i: Byte)
    requires Holds(d, msg, msgType, nodeId, msgId) && d.active
    requires i < TxCount(|msg|) && d.Shape() && !d.bitmap[i]
    ensures var e := Added(d, Fragment(msg, msgType, nodeId, msgId, i, FLAG_RETRY));
      && Holds(e, msg, msgType, nodeId, msgId) && e.active
      && e.receivedFrags == d.receivedFrags + 1 && e.bitmap == d.bitmap[i := true]
  {
    hide Holds;
    AddedHolds(d, msg, msgType, nodeId, msgId, i, FLAG_RETRY);
    AddedCount(d, Fragment(msg, msgType, nodeId, msgId, i, FLAG_RETRY));
  }

  lemma HoldsShape(c: Rx, msg: Bytes, msgType: Byte, nodeId: NodeId, msgId: Byte)
    requires Holds(c, msg, msgType, nodeId, msgId)
    ensures c.Shape() && TxCount(|msg|) > 0 && (c.active ==> c.totalFrags == TxCount(|msg|))
  {}

  lemma AddedCount(c: Rx, p: Packet)
    requires c.Shape() && c.active && Accepts(c, p) && !c.bitmap[p.fragIdx]
    ensures Added(c, p).receivedFrags == c.receivedFrags + 1 && Added(c, p).active
  {}

  /** A loss-free NACK round: what is missing shrinks by exactly min(16, missing). */
  function RoundOf(c: Rx, msg: Bytes, nodeId: NodeId): (d: Rx)
    requires c.Shape() && c.totalFrags == TxCount(|msg|)
    ensures d.Shape()
  {
    Receive(c, Served(NackMsg(c.msgType, c.msgId, c.totalFrags, FirstMissing(c)), msg, nodeId))
  }

  lemma RoundShrinks(c: Rx, msg: Bytes, msgType: Byte, nodeId: NodeId, msgId: Byte)
    requires Holds(c, msg, msgType, nodeId, msgId) && c.active
    ensures var d := RoundOf(c, msg, nodeId);
      && Holds(d, msg, msgType, nodeId, msgId) && d.active
      && MissingCount(d) == MissingCount(c) - Least(MAX_MISSING, MissingCount(c))
  {
    hide Holds, Receive, Served, Absent;
    HoldsShape(c, msg, msgType, nodeId, msgId);
    var idx := FirstMissing(c);
    ActiveFields(c, msg, msgType, nodeId, msgId);
    ReceiveServed(c, msg, msgType, nodeId, msgId, idx);
    var d := RoundOf(c, msg, nodeId);
    MissingReceived(c, msg, msgType, nodeId, msgId);
    MissingReceived(d, msg, msgType, nodeId, msgId);
  }

  lemma ActiveFields(c: Rx, msg: Bytes, msgType: Byte, nodeId: NodeId, msgId: Byte)
    requires Holds(c, msg, msgType, nodeId, msgId) && c.active
    ensures c.msgType == msgType && c.msgId == msgId
  {}

  function Rounds(c: Rx, msg: Bytes, nodeId: NodeId, k: nat): (d: Rx)
    requires c.Shape() && c.totalFrags == TxCount(|msg|)
    ensures d.Shape()
  {
    if k == 0 then c
    else
      var d := Rounds(c, msg, nodeId, k - 1);
      if d.totalFrags == TxCount(|msg|) then RoundOf(d, msg, nodeId) else d
  }

  /** Reassembly completes after exactly ceil(missing / 16) loss-free rounds. */
  lemma {:induction false} RecoveryRounds(c: Rx, msg: Bytes, msgType: Byte, nodeId: NodeId, msgId: Byte, k: nat)
    requires Holds(c, msg, msgType, nodeId, msgId) && c.active
    ensures var d := Rounds(c, msg, nodeId, k);
      && Holds(d, msg, msgType, nodeId, msgId) && d.active
      && MissingCount(d) == MissingCount(c) - Least(MAX_MISSING * k, MissingCount(c))
      && (d.Complete() <==> k >= (MissingCount(c) + MAX_MISSING - 1) / MAX_MISSING)
      && (d.Complete() ==> d.receivedLen == |msg| && d.buffer[..|msg|] == msg)
  {
    hide Holds, RoundOf, MissingCount;
    HoldsShape(c, msg, msgType, nodeId, msgId);
    if k > 0 {
      RecoveryRounds(c, msg, msgType, nodeId, msgId, k - 1);
      var d := Rounds(c, msg, nodeId, k - 1);
      HoldsShape(d, msg, msgType, nodeId, msgId);
      RoundShrinks(d, msg, msgType, nodeId, msgId);
    }
    var e := Rounds(c, msg, nodeId, k);
    MissingReceived(e, msg, msgType, nodeId, msgId);
    CompleteMeansMessage(e, msg, msgType, nodeId, msgId);
  }

  /** The threshold of rx_slot_nack_due, received plus requested, is at most the number of fragments: no wrap at 256. */
  lemma ThresholdInRange(c: Rx, msg: Bytes, msgType: Byte, nodeId: NodeId, msgId: Byte)
    requires Holds(c, msg, msgType, nodeId, msgId) && c.active
    ensures c.totalFrags <= FRAG_MAX_FRAGS && c.receivedFrags + |FirstMissing(c)| <= c.totalFrags < 0x100
  {
    MissingReceived(c, msg, msgType, nodeId, msgId);
  }
}
