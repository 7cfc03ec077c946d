/** AES-256 on one block: the transformations of the state in place, each proved against a function on
    values, and the theorem that InvCipher undoes Cipher for every block and every expanded key. */
module AesCipher {
  import opened AesTables
  import opened Octets
  import opened AesColumns

  /** A state: byte 4 * i + j is state[i][j], row j of column i. */
  type Block = s: seq<Octet> | |s| == 16 witness seq(16, i => NULL)

  /** The expanded key of AES-256: 15 round keys of 16 bytes. */
  type Schedule = s: seq<Octet> | |s| == 240 witness seq(240, i => NULL)

  // ---- the transformations on values ----

  function AddKey(s: Block, key: Schedule, round: nat): Block
    requires round <= 14
  {
    seq(16, i requires 0 <= i < 16 => Xor(s[i], key[16 * round + i]))
  }

  function Sub(a: Octet): Octet { Octet(SBox(a.v)) }

  function InvSub(a: Octet): Octet { Octet(InvSBox(a.v)) }

  function Substituted(s: Block): Block {
    seq(16, i requires 0 <= i < 16 => Sub(s[i]))
  }

  function InvSubstituted(s: Block): Block {
    seq(16, i requires 0 <= i < 16 => InvSub(s[i]))
  }

  /** Row j moves j columns to the left. */
  function Shifted(s: Block): Block {
    seq(16, i requires 0 <= i < 16 => s[(i + 4 * (i % 4)) % 16])
  }

  /** Row j moves j columns to the right. */
  function InvShifted(s: Block): Block {
    seq(16, i requires 0 <= i < 16 => s[(i + 12 * (i % 4)) % 16])
  }

  /** The index of the byte k rows below byte i, in the same column. */
  function Below(i: nat, k: nat): (r: nat)
    requires i < 16
    ensures r < 16
  {
    4 * (i / 4) + (i + k) % 4
  }

  /** Every column multiplied by the MixColumns matrix. */
  function Mixed(s: Block): Block {
    seq(16, i requires 0 <= i < 16 => Mix(s[i], s[Below(i, 1)], s[Below(i, 2)], s[Below(i, 3)]))
  }

  /** Every column multiplied by the inverse matrix. */
  function InvMixed(s: Block): Block {
    seq(16, i requires 0 <= i < 16 => InvMix(s[i], s[Below(i, 1)], s[Below(i, 2)], s[Below(i, 3)]))
  }

  /** The state after the initial key addition and the first n full rounds. */
  function AfterRounds(s: Block, key: Schedule, n: nat): Block
    requires n <= 13
  {
    if n == 0 then AddKey(s, key, 0) else AddKey(Mixed(Shifted(Substituted(AfterRounds(s, key, n - 1)))), key, n)
  }

  /** Cipher, section 5.1 of FIPS 197. */
  function Encrypt(s: Block, key: Schedule): Block {
    AddKey(Shifted(Substituted(AfterRounds(s, key, 13))), key, 14)
  }

  /** The inverse rounds n, n - 1, .., 0. */
  function InvRounds(s: Block, key: Schedule, n: nat): Block
    requires n <= 13
    decreases n
  {
    var t := AddKey(InvSubstituted(InvShifted(s)), key, n);
    if n == 0 then t else InvRounds(InvMixed(t), key, n - 1)
  }

  /** InvCipher, section 5.3 of FIPS 197. */
  function Decrypt(s: Block, key: Schedule): Block {
    InvRounds(AddKey(s, key, 14), key, 13)
  }

  /** One full round. */
  function FullRound(s: Block, key: Schedule, n: nat): Block
    requires n <= 14
  {
    AddKey(Mixed(Shifted(Substituted(s))), key, n)
  }

  /** The fourteen rounds one by one: the last has no MixColumns, and every round key is used once, in order. */
  lemma FourteenRounds(s: Block, key: Schedule)
    ensures var r1 := FullRound(AddKey(s, key, 0), key, 1);
      var r4 := FullRound(FullRound(FullRound(r1, key, 2), key, 3), key, 4);
      var r7 := FullRound(FullRound(FullRound(r4, key, 5), key, 6), key, 7);
      var r10 := FullRound(FullRound(FullRound(r7, key, 8), key, 9), key, 10);
      var r13 := FullRound(FullRound(FullRound(r10, key, 11), key, 12), key, 13);
      Encrypt(s, key) == AddKey(Shifted(Substituted(r13)), key, 14)
  {
    hide AddKey, Mixed, Shifted, Substituted;
    NextRound(s, key, 1); NextRound(s, key, 2); NextRound(s, key, 3); NextRound(s, key, 4); NextRound(s, key, 5);
    NextRound(s, key, 6); NextRound(s, key, 7); NextRound(s, key, 8); NextRound(s, key, 9); NextRound(s, key, 10);
    NextRound(s, key, 11); NextRound(s, key, 12); NextRound(s, key, 13);
  }

  lemma NextRound(s: Block, key: Schedule, n: nat)
    requires 1 <= n <= 13
    ensures AfterRounds(s, key, n) == FullRound(AfterRounds(s, key, n - 1), key, n) && AfterRounds(s, key, 0) == AddKey(s, key, 0)
  {
    hide AddKey, Mixed, Shifted, Substituted;
  }

  /** The rows of the state, each turned by its number. */
  lemma ShiftedValues(s: Block)
    ensures Shifted(s) == [s[0], s[5], s[10], s[15], s[4], s[9], s[14], s[3], s[8], s[13], s[2], s[7], s[12], s[1], s[6], s[11]]
  {}

  lemma InvShiftedValues(s: Block)
    ensures InvShifted(s) == [s[0], s[13], s[10], s[7], s[4], s[1], s[14], s[11], s[8], s[5], s[2], s[15], s[12], s[9], s[6], s[3]]
  {}

  // ---- each transformation is undone by its inverse ----

  lemma AddKeyTwice(s: Block, key: Schedule, round: nat)
    requires round <= 14
    ensures AddKey(AddKey(s, key, round), key, round) == s
  {
    hide Xor;
    forall i | 0 <= i < 16 ensures AddKey(AddKey(s, key, round), key, round)[i] == s[i] {
      XorLaws(s[i], key[16 * round + i]);
    }
  }

  lemma SubstitutedInverse(s: Block)
    ensures InvSubstituted(Substituted(s)) == s
  {
    hide SBox, InvSBox;
    forall i | 0 <= i < 16 ensures InvSubstituted(Substituted(s))[i] == s[i] {
      InverseSubstitution(s[i].v);
    }
  }

  lemma ShiftBack(i: nat)
    requires i < 16
    ensures var j := (i + 12 * (i % 4)) % 16; (j + 4 * (j % 4)) % 16 == i
  {}

  lemma ShiftedInverse(s: Block)
    ensures InvShifted(Shifted(s)) == s
  {
    forall i | 0 <= i < 16 ensures InvShifted(Shifted(s))[i] == s[i] {
      ShiftBack(i);
    }
  }

  lemma BelowAgain(i: nat, j: nat, k: nat)
    requires i < 16
    ensures Below(Below(i, j), k) == Below(i, j + k)
  {
    var q, r := i / 4, (i + j) % 4;
    assert (4 * q + r) / 4 == q && (4 * q + r) % 4 == r;
    assert (4 * q + r + k) % 4 == (r + k) % 4;
  }

  lemma BelowFour(i: nat)
    requires i < 16
    ensures Below(i, 4) == i && Below(i, 5) == Below(i, 1) && Below(i, 6) == Below(i, 2)
  {}

  lemma MixedInverse(s: Block)
    ensures InvMixed(Mixed(s)) == s
  {
    hide Below, Mix, InvMix;
    forall i | 0 <= i < 16 ensures InvMixed(Mixed(s))[i] == s[i] {
      BelowFour(i);
      BelowAgain(i, 1, 1);
      BelowAgain(i, 1, 2);
      BelowAgain(i, 1, 3);
      BelowAgain(i, 2, 1);
      BelowAgain(i, 2, 2);
      BelowAgain(i, 2, 3);
      BelowAgain(i, 3, 1);
      BelowAgain(i, 3, 2);
      BelowAgain(i, 3, 3);
      MixInverse(s[i], s[Below(i, 1)], s[Below(i, 2)], s[Below(i, 3)]);
    }
  }

  /** From the state of round n before its key is added, the inverse rounds lead back to the plain block. */
  lemma {:induction false} RoundsUndone(s: Block, key: Schedule, n: nat)
    requires n <= 13
    ensures InvRounds(Shifted(Substituted(AfterRounds(s, key, n))), key, n) == s
  {
    hide Shifted, Substituted, InvShifted, InvSubstituted, Mixed, InvMixed, AddKey;
    var t := AfterRounds(s, key, n);
    ShiftedInverse(Substituted(t));
    SubstitutedInverse(t);
    if n == 0 {
      AddKeyTwice(s, key, 0);
    } else {
      var u := Shifted(Substituted(AfterRounds(s, key, n - 1)));
      AddKeyTwice(Mixed(u), key, n);
      MixedInverse(u);
      RoundsUndone(s, key, n - 1);
    }
  }

  /** InvCipher undoes Cipher. */
  lemma DecryptEncrypt(s: Block, key: Schedule)
    ensures Decrypt(Encrypt(s, key), key) == s
  {
    hide Shifted, Substituted, AfterRounds, InvRounds, AddKey;
    AddKeyTwice(Shifted(Substituted(AfterRounds(s, key, 13))), key, 14);
    RoundsUndone(s, key, 13);
  }

  // ---- the transformations in place, on the sixteen bytes of buf that start at p ----

  ghost predicate Region(buf: array<Octet>, p: nat) {
    p + 16 <= buf.Length
  }

  ghost function At(buf: array<Octet>, p: nat): Block
    requires Region(buf, p)
    reads buf
  {
    buf[p..p + 16]
  }

  /** Nothing outside the sixteen bytes at p differs between before and now. */
  ghost predicate Framed(before: seq<Octet>, now: seq<Octet>, p: nat) {
    |now| == |before| && forall k :: 0 <= k < |before| && !(p <= k < p + 16) ==> now[k] == before[k]
  }

  method AddRoundKey(round: nat, buf: array<Octet>, p: nat, key: array<Octet>)
    requires Region(buf, p) && key.Length == 240 && round <= 14 && buf != key
    modifies buf
    ensures At(buf, p) == AddKey(old(At(buf, p)), key[..], round)
    ensures Framed(old(buf[..]), buf[..], p)
  {
    hide Xor;
    for i := 0 to 4
      invariant forall k :: 0 <= k < buf.Length ==>
        buf[k] == if p <= k < p + 4 * i then Xor(old(buf[k]), key[16 * round + (k - p)]) else old(buf[k])
    {
      for j := 0 to 4
        invariant forall k :: 0 <= k < buf.Length ==>
          buf[k] == if p <= k < p + 4 * i + j then Xor(old(buf[k]), key[16 * round + (k - p)]) else old(buf[k])
      {
        buf[p + 4 * i + j] := Xor(buf[p + 4 * i + j], key[round * 16 + i * 4 + j]);
      }
    }
  }

  method SubBytes(buf: array<Octet>, p: nat)
    requires Region(buf, p)
    modifies buf
    ensures At(buf, p) == Substituted(old(At(buf, p)))
    ensures Framed(old(buf[..]), buf[..], p)
  {
    hide Sub;
    for i := 0 to 4
      invariant forall k :: 0 <= k < buf.Length ==>
        buf[k] == if p <= k < p + 16 && (k - p) % 4 < i then Sub(old(buf[k])) else old(buf[k])
    {
      for j := 0 to 4
        invariant forall k :: 0 <= k < buf.Length ==>
          buf[k] == if p <= k < p + 16 && ((k - p) % 4 < i || ((k - p) % 4 == i && k - p < 4 * j)) then Sub(old(buf[k])) else old(buf[k])
      {
        buf[p + 4 * j + i] := Sub(buf[p + 4 * j + i]);
      }
    }
  }

  method InvSubBytes(buf: array<Octet>, p: nat)
    requires Region(buf, p)
    modifies buf
    ensures At(buf, p) == InvSubstituted(old(At(buf, p)))
    ensures Framed(old(buf[..]), buf[..], p)
  {
    hide InvSub;
    for i := 0 to 4
      invariant forall k :: 0 <= k < buf.Length ==>
        buf[k] == if p <= k < p + 16 && (k - p) % 4 < i then InvSub(old(buf[k])) else old(buf[k])
    {
      for j := 0 to 4
        invariant forall k :: 0 <= k < buf.Length ==>
          buf[k] == if p <= k < p + 16 && ((k - p) % 4 < i || ((k - p) % 4 == i && k - p < 4 * j)) then InvSub(old(buf[k])) else old(buf[k])
      {
        buf[p + 4 * j + i] := InvSub(buf[p + 4 * j + i]);
      }
    }
  }

  /** Only the row of the state that starts at q differs between before and now. */
  ghost predicate RowFramed(before: seq<Octet>, now: seq<Octet>, q: nat) {
    && |now| == |before|
    && forall k :: 0 <= k < |before| && k != q && k != q + 4 && k != q + 8 && k != q + 12 ==> now[k] == before[k]
  }

  /** The row at q turned one column to the left. */
  method TurnLeft(buf: array<Octet>, q: nat)
    requires q + 12 < buf.Length
    modifies buf
    ensures buf[q] == old(buf[q + 4]) && buf[q + 4] == old(buf[q + 8])
    ensures buf[q + 8] == old(buf[q + 12]) && buf[q + 12] == old(buf[q])
    ensures RowFramed(old(buf[..]), buf[..], q)
  {
    var temp := buf[q];
    buf[q] := buf[q + 4];
    buf[q + 4] := buf[q + 8];
    buf[q + 8] := buf[q + 12];
    buf[q + 12] := temp;
  }

  /** The row at q turned two columns. */
  method TurnTwo(buf: array<Octet>, q: nat)
    requires q + 12 < buf.Length
    modifies buf
    ensures buf[q] == old(buf[q + 8]) && buf[q + 8] == old(buf[q])
    ensures buf[q + 4] == old(buf[q + 12]) && buf[q + 12] == old(buf[q + 4])
    ensures RowFramed(old(buf[..]), buf[..], q)
  {
    var temp := buf[q];
    buf[q] := buf[q + 8];
    buf[q + 8] := temp;
    temp := buf[q + 4];
    buf[q + 4] := buf[q + 12];
    buf[q + 12] := temp;
  }

  /** The row at q turned one column to the right, which is three to the left. */
  method TurnRight(buf: array<Octet>, q: nat)
    requires q + 12 < buf.Length
    modifies buf
    ensures buf[q + 4] == old(buf[q]) && buf[q + 8] == old(buf[q + 4])
    ensures buf[q + 12] == old(buf[q + 8]) && buf[q] == old(buf[q + 12])
    ensures RowFramed(old(buf[..]), buf[..], q)
  {
    var temp := buf[q];
    buf[q] := buf[q + 12];
    buf[q + 12] := buf[q + 8];
    buf[q + 8] := buf[q + 4];
    buf[q + 4] := temp;
  }

  method ShiftRows(buf: array<Octet>, p: nat)
    requires Region(buf, p)
    modifies buf
    ensures At(buf, p) == Shifted(old(At(buf, p)))
    ensures Framed(old(buf[..]), buf[..], p)
  {
    hide Shifted;
    ShiftedValues(At(buf, p));
    TurnLeft(buf, p + 1);
    TurnTwo(buf, p + 2);
    TurnRight(buf, p + 3);
  }

  method InvShiftRows(buf: array<Octet>, p: nat)
    requires Region(buf, p)
    modifies buf
    ensures At(buf, p) == InvShifted(old(At(buf, p)))
    ensures Framed(old(buf[..]), buf[..], p)
  {
    hide InvShifted;
    InvShiftedValues(At(buf, p));
    TurnRight(buf, p + 1);
    TurnTwo(buf, p + 2);
    TurnLeft(buf, p + 3);
  }

  lemma BelowValues(i: nat)
    requires i < 4
    ensures Below(4 * i, 1) == 4 * i + 1 && Below(4 * i, 2) == 4 * i + 2 && Below(4 * i, 3) == 4 * i + 3
    ensures Below(4 * i + 1, 1) == 4 * i + 2 && Below(4 * i + 1, 2) == 4 * i + 3 && Below(4 * i + 1, 3) == 4 * i
    ensures Below(4 * i + 2, 1) == 4 * i + 3 && Below(4 * i + 2, 2) == 4 * i && Below(4 * i + 2, 3) == 4 * i + 1
    ensures Below(4 * i + 3, 1) == 4 * i && Below(4 * i + 3, 2) == 4 * i + 1 && Below(4 * i + 3, 3) == 4 * i + 2
  {}

  /** Only the column of the state that starts at q differs between before and now. */
  ghost predicate ColumnFramed(before: seq<Octet>, now: seq<Octet>, q: nat) {
    |now| == |before| && forall k :: 0 <= k < |before| && !(q <= k < q + 4) ==> now[k] == before[k]
  }

  /** One round of the loop of MixColumns. */
  method MixOne(buf: array<Octet>, q: nat)
    requires q + 3 < buf.Length
    modifies buf
    ensures buf[q] == old(Mix(buf[q], buf[q + 1], buf[q + 2], buf[q + 3]))
    ensures buf[q + 1] == old(Mix(buf[q + 1], buf[q + 2], buf[q + 3], buf[q]))
    ensures buf[q + 2] == old(Mix(buf[q + 2], buf[q + 3], buf[q], buf[q + 1]))
    ensures buf[q + 3] == old(Mix(buf[q + 3], buf[q], buf[q + 1], buf[q + 2]))
    ensures ColumnFramed(old(buf[..]), buf[..], q)
  {
    hide XTime, Xor, Mix, Sum4;
    ghost var a, b, c, d := buf[q], buf[q + 1], buf[q + 2], buf[q + 3];
    Sum4Turn(a, b, c, d);
    Sum4Turn(b, c, d, a);
    Sum4Turn(c, d, a, b);
    Shortcut(a, b, c, d);
    Shortcut(b, c, d, a);
    Shortcut(c, d, a, b);
    Shortcut(d, a, b, c);
    var t := buf[q];
    var tmp := Sum4(buf[q], buf[q + 1], buf[q + 2], buf[q + 3]);
    var tm := XTime(Xor(buf[q], buf[q + 1]));
    buf[q] := Xor(buf[q], Xor(tm, tmp));
    tm := XTime(Xor(buf[q + 1], buf[q + 2]));
    buf[q + 1] := Xor(buf[q + 1], Xor(tm, tmp));
    tm := XTime(Xor(buf[q + 2], buf[q + 3]));
    buf[q + 2] := Xor(buf[q + 2], Xor(tm, tmp));
    tm := XTime(Xor(buf[q + 3], t));
    buf[q + 3] := Xor(buf[q + 3], Xor(tm, tmp));
  }

  lemma MixedColumn(s: Block, i: nat)
    requires i < 4
    ensures var a, b, c, d := s[4 * i], s[4 * i + 1], s[4 * i + 2], s[4 * i + 3];
      Mixed(s)[4 * i] == Mix(a, b, c, d) && Mixed(s)[4 * i + 1] == Mix(b, c, d, a)
      && Mixed(s)[4 * i + 2] == Mix(c, d, a, b) && Mixed(s)[4 * i + 3] == Mix(d, a, b, c)
  {
    hide Mix, Below;
    BelowValues(i);
  }

  method MixColumns(buf: array<Octet>, p: nat)
    requires Region(buf, p)
    modifies buf
    ensures At(buf, p) == Mixed(old(At(buf, p)))
    ensures Framed(old(buf[..]), buf[..], p)
  {
    hide Mix, Mixed;
    ghost var s := At(buf, p);
    for i := 0 to 4
      invariant forall k {:trigger buf[k]} :: 0 <= k < buf.Length ==>
        buf[k] == if p <= k < p + 4 * i then Mixed(s)[k - p] else old(buf[k])
    {
      MixedColumn(s, i);
      assert s[4 * i] == buf[p + 4 * i] && s[4 * i + 1] == buf[p + 4 * i + 1]
          && s[4 * i + 2] == buf[p + 4 * i + 2] && s[4 * i + 3] == buf[p + 4 * i + 3];
      MixOne(buf, p + 4 * i);
    }
  }

  /** One round of the loop of InvMixColumns. */
  method InvMixOne(buf: array<Octet>, q: nat)
    requires q + 3 < buf.Length
    modifies buf
    ensures buf[q] == old(InvMix(buf[q], buf[q + 1], buf[q + 2], buf[q + 3]))
    ensures buf[q + 1] == old(InvMix(buf[q + 1], buf[q + 2], buf[q + 3], buf[q]))
    ensures buf[q + 2] == old(InvMix(buf[q + 2], buf[q + 3], buf[q], buf[q + 1]))
    ensures buf[q + 3] == old(InvMix(buf[q + 3], buf[q], buf[q + 1], buf[q + 2]))
    ensures ColumnFramed(old(buf[..]), buf[..], q)
  {
    hide Multiply, Xor;
    var a, b, c, d := buf[q], buf[q + 1], buf[q + 2], buf[q + 3];
    Sum4Swap(Multiply(b, 0x0e), Multiply(c, 0x0b), Multiply(d, 0x0d), Multiply(a, 0x09));
    Sum4Swap(Multiply(c, 0x0e), Multiply(d, 0x0b), Multiply(a, 0x0d), Multiply(b, 0x09));
    Sum4Swap(Multiply(d, 0x0e), Multiply(a, 0x0b), Multiply(b, 0x0d), Multiply(c, 0x09));
    buf[q] := Sum4(Multiply(a, 0x0e), Multiply(b, 0x0b), Multiply(c, 0x0d), Multiply(d, 0x09));
    buf[q + 1] := Sum4(Multiply(a, 0x09), Multiply(b, 0x0e), Multiply(c, 0x0b), Multiply(d, 0x0d));
    buf[q + 2] := Sum4(Multiply(a, 0x0d), Multiply(b, 0x09), Multiply(c, 0x0e), Multiply(d, 0x0b));
    buf[q + 3] := Sum4(Multiply(a, 0x0b), Multiply(b, 0x0d), Multiply(c, 0x09), Multiply(d, 0x0e));
  }

  lemma Sum4Swap(a: Octet, b: Octet, c: Octet, d: Octet)
    ensures Sum4(d, a, b, c) == Sum4(a, b, c, d) && Sum4(c, d, a, b) == Sum4(a, b, c, d) && Sum4(b, c, d, a) == Sum4(a, b, c, d)
  {
    hide Xor, Sum4;
    Sum4Turn(a, b, c, d);
    Sum4Turn(b, c, d, a);
    Sum4Turn(c, d, a, b);
  }

  lemma InvMixedColumn(s: Block, i: nat)
    requires i < 4
    ensures var a, b, c, d := s[4 * i], s[4 * i + 1], s[4 * i + 2], s[4 * i + 3];
      InvMixed(s)[4 * i] == InvMix(a, b, c, d) && InvMixed(s)[4 * i + 1] == InvMix(b, c, d, a)
      && InvMixed(s)[4 * i + 2] == InvMix(c, d, a, b) && InvMixed(s)[4 * i + 3] == InvMix(d, a, b, c)
  {
    hide InvMix, Below;
    BelowValues(i);
  }

  method InvMixColumns(buf: array<Octet>, p: nat)
    requires Region(buf, p)
    modifies buf
    ensures At(buf, p) == InvMixed(old(At(buf, p)))
    ensures Framed(old(buf[..]), buf[..], p)
  {
    hide InvMix, InvMixed;
    ghost var s := At(buf, p);
    for i := 0 to 4
      invariant forall k {:trigger buf[k]} :: 0 <= k < buf.Length ==>
        buf[k] == if p <= k < p + 4 * i then InvMixed(s)[k - p] else old(buf[k])
    {
      InvMixedColumn(s, i);
      assert s[4 * i] == buf[p + 4 * i] && s[4 * i + 1] == buf[p + 4 * i + 1]
          && s[4 * i + 2] == buf[p + 4 * i + 2] && s[4 * i + 3] == buf[p + 4 * i + 3];
      InvMixOne(buf, p + 4 * i);
    }
  }

  /** Cipher: the block at p becomes its encryption, and nothing else changes. */
  method Cipher(buf: array<Octet>, p: nat, key: array<Octet>)
    requires Region(buf, p) && key.Length == 240 && buf != key
    modifies buf
    ensures At(buf, p) == Encrypt(old(At(buf, p)), key[..])
    ensures Framed(old(buf[..]), buf[..], p)
  {
    hide AddKey, Substituted, Shifted, Mixed;
    ghost var s := At(buf, p);
    AddRoundKey(0, buf, p, key);
    var round := 1;
    while true
      invariant 1 <= round <= 14
      invariant At(buf, p) == AfterRounds(s, key[..], round - 1)
      invariant Framed(old(buf[..]), buf[..], p)
      decreases 14 - round
    {
      SubBytes(buf, p);
      ShiftRows(buf, p);
      if round == 14 {
        break;
      }
      MixColumns(buf, p);
      AddRoundKey(round, buf, p, key);
      round := round + 1;
    }
    AddRoundKey(14, buf, p, key);
  }

  /** InvCipher: the block at p becomes its decryption, and nothing else changes. */
  method InvCipher(buf: array<Octet>, p: nat, key: array<Octet>)
    requires Region(buf, p) && key.Length == 240 && buf != key
    modifies buf
    ensures At(buf, p) == Decrypt(old(At(buf, p)), key[..])
    ensures Framed(old(buf[..]), buf[..], p)
  {
    hide AddKey, InvSubstituted, InvShifted, InvMixed;
    ghost var s := At(buf, p);
    AddRoundKey(14, buf, p, key);
    var round := 13;
    while true
      invariant 0 <= round <= 13
      invariant InvRounds(At(buf, p), key[..], round) == Decrypt(s, key[..])
      invariant Framed(old(buf[..]), buf[..], p)
      decreases round
    {
      InvShiftRows(buf, p);
      InvSubBytes(buf, p);
      AddRoundKey(round, buf, p, key);
      if round == 0 {
        break;
      }
      InvMixColumns(buf, p);
      round := round - 1;
    }
  }
}
