/** The tables of gf.h and reed_solomon.h, entry by entry: powers and logarithms of alpha. */
module FieldTables {
  import opened Gf256
  import opened LookupTables
  import opened RootFinder
  import Octets

  // ---- gf_exp and gf_log

  /** The first 256 entries of gf_exp. */
  function ExpByte(x: bv8): bv8 {
    Pick16(x >> 4,
      Pick16(x, 1, 2, 4, 8, 16, 32, 64, 128, 29, 58, 116, 232, 205, 135, 19, 38),
      Pick16(x, 76, 152, 45, 90, 180, 117, 234, 201, 143, 3, 6, 12, 24, 48, 96, 192),
      Pick16(x, 157, 39, 78, 156, 37, 74, 148, 53, 106, 212, 181, 119, 238, 193, 159, 35),
      Pick16(x, 70, 140, 5, 10, 20, 40, 80, 160, 93, 186, 105, 210, 185, 111, 222, 161),
      Pick16(x, 95, 190, 97, 194, 153, 47, 94, 188, 101, 202, 137, 15, 30, 60, 120, 240),
      Pick16(x, 253, 231, 211, 187, 107, 214, 177, 127, 254, 225, 223, 163, 91, 182, 113, 226),
      Pick16(x, 217, 175, 67, 134, 17, 34, 68, 136, 13, 26, 52, 104, 208, 189, 103, 206),
      Pick16(x, 129, 31, 62, 124, 248, 237, 199, 147, 59, 118, 236, 197, 151, 51, 102, 204),
      Pick16(x, 133, 23, 46, 92, 184, 109, 218, 169, 79, 158, 33, 66, 132, 21, 42, 84),
      Pick16(x, 168, 77, 154, 41, 82, 164, 85, 170, 73, 146, 57, 114, 228, 213, 183, 115),
      Pick16(x, 230, 209, 191, 99, 198, 145, 63, 126, 252, 229, 215, 179, 123, 246, 241, 255),
      Pick16(x, 227, 219, 171, 75, 150, 49, 98, 196, 149, 55, 110, 220, 165, 87, 174, 65),
      Pick16(x, 130, 25, 50, 100, 200, 141, 7, 14, 28, 56, 112, 224, 221, 167, 83, 166),
      Pick16(x, 81, 162, 89, 178, 121, 242, 249, 239, 195, 155, 43, 86, 172, 69, 138, 9),
      Pick16(x, 18, 36, 72, 144, 61, 122, 244, 245, 247, 243, 251, 235, 203, 139, 11, 22),
      Pick16(x, 44, 88, 176, 125, 250, 233, 207, 131, 27, 54, 108, 216, 173, 71, 142, 1))
  }

  /** The product with alpha. */
  function Twice(a: bv8): bv8 { if a & 0x80 == 0 then a << 1 else (a << 1) ^ 0x1D }

  lemma TwiceIsXtime(a: bv8)
    ensures Elt(Twice(a)) == Xtime(Elt(a))
  {}

  /** gf_log. */
  function LogByte(x: bv8): bv8 {
    Pick16(x >> 4,
      Pick16(x, 0, 0, 1, 25, 2, 50, 26, 198, 3, 223, 51, 238, 27, 104, 199, 75),
      Pick16(x, 4, 100, 224, 14, 52, 141, 239, 129, 28, 193, 105, 248, 200, 8, 76, 113),
      Pick16(x, 5, 138, 101, 47, 225, 36, 15, 33, 53, 147, 142, 218, 240, 18, 130, 69),
      Pick16(x, 29, 181, 194, 125, 106, 39, 249, 185, 201, 154, 9, 120, 77, 228, 114, 166),
      Pick16(x, 6, 191, 139, 98, 102, 221, 48, 253, 226, 152, 37, 179, 16, 145, 34, 136),
      Pick16(x, 54, 208, 148, 206, 143, 150, 219, 189, 241, 210, 19, 92, 131, 56, 70, 64),
      Pick16(x, 30, 66, 182, 163, 195, 72, 126, 110, 107, 58, 40, 84, 250, 133, 186, 61),
      Pick16(x, 202, 94, 155, 159, 10, 21, 121, 43, 78, 212, 229, 172, 115, 243, 167, 87),
      Pick16(x, 7, 112, 192, 247, 140, 128, 99, 13, 103, 74, 222, 237, 49, 197, 254, 24),
      Pick16(x, 227, 165, 153, 119, 38, 184, 180, 124, 17, 68, 146, 217, 35, 32, 137, 46),
      Pick16(x, 55, 63, 209, 91, 149, 188, 207, 205, 144, 135, 151, 178, 220, 252, 190, 97),
      Pick16(x, 242, 86, 211, 171, 20, 42, 93, 158, 132, 60, 57, 83, 71, 109, 65, 162),
      Pick16(x, 31, 45, 67, 216, 183, 123, 164, 118, 196, 23, 73, 236, 127, 12, 111, 246),
      Pick16(x, 108, 161, 59, 82, 41, 157, 85, 170, 251, 96, 134, 177, 187, 204, 62, 90),
      Pick16(x, 203, 89, 95, 176, 156, 169, 160, 81, 11, 245, 22, 235, 122, 117, 44, 215),
      Pick16(x, 79, 174, 213, 233, 230, 231, 173, 232, 116, 214, 244, 234, 168, 80, 88, 175))
  }

  lemma ExpQuarter0(x: bv8)
    requires x >> 6 == 0 && x != 255
    ensures ExpByte(x + 1) == Twice(ExpByte(x))
  {}

  lemma ExpQuarter1(x: bv8)
    requires x >> 6 == 1 && x != 255
    ensures ExpByte(x + 1) == Twice(ExpByte(x))
  {}

  lemma ExpQuarter2(x: bv8)
    requires x >> 6 == 2 && x != 255
    ensures ExpByte(x + 1) == Twice(ExpByte(x))
  {}

  lemma ExpQuarter3(x: bv8)
    requires x >> 6 == 3 && x != 255
    ensures ExpByte(x + 1) == Twice(ExpByte(x))
  {}

  lemma LogQuarter0(x: bv8)
    requires x >> 6 == 0 && x != 0
    ensures ExpByte(LogByte(x)) == x && LogByte(x) != 255
  {}

  lemma LogQuarter1(x: bv8)
    requires x >> 6 == 1 && x != 0
    ensures ExpByte(LogByte(x)) == x && LogByte(x) != 255
  {}

  lemma LogQuarter2(x: bv8)
    requires x >> 6 == 2 && x != 0
    ensures ExpByte(LogByte(x)) == x && LogByte(x) != 255
  {}

  lemma LogQuarter3(x: bv8)
    requires x >> 6 == 3 && x != 0
    ensures ExpByte(LogByte(x)) == x && LogByte(x) != 255
  {}

  lemma NextOctet(n: nat)
    requires n < 255
    ensures Octets.OctetOf(n + 1).v == Octets.OctetOf(n).v + 1 && Octets.OctetOf(n).v < 255
  {
    var a := Octets.OctetOf(n);
    Octets.NumberBack(n);
    hide Octets.Value, Octets.OctetOf;
    Octets.IncrementValue(a);
    Octets.OctetBack(Octets.Increment(a));
  }

  lemma ExpNext(x: bv8)
    requires x != 255
    ensures Elt(ExpByte(x + 1)) == Xtime(Elt(ExpByte(x)))
  {
    hide ExpByte, Xtime, Twice;
    if x >> 6 == 0 { ExpQuarter0(x); } else if x >> 6 == 1 { ExpQuarter1(x); } else if x >> 6 == 2 { ExpQuarter2(x); } else { ExpQuarter3(x); }
    TwiceIsXtime(ExpByte(x));
  }

  lemma LogBack(x: bv8)
    requires x != 0
    ensures ExpByte(LogByte(x)) == x && LogByte(x) != 255
  {
    hide ExpByte, LogByte;
    if x >> 6 == 0 { LogQuarter0(x); } else if x >> 6 == 1 { LogQuarter1(x); } else if x >> 6 == 2 { LogQuarter2(x); } else { LogQuarter3(x); }
  }

  lemma {:induction false} ExpIsAlpha(n: nat)
    requires n < 256
    ensures Elt(ExpByte(Octets.OctetOf(n).v)) == Alpha(n)
  {
    hide Xtime, Octets.OctetOf;
    if n == 0 {
      ZeroOctet();
      ExpStart();
    } else {
      hide ExpByte;
      ExpIsAlpha(n - 1);
      NextOctet(n - 1);
      ExpNext(Octets.OctetOf(n - 1).v);
    }
  }

  lemma ZeroOctet()
    ensures Octets.OctetOf(0).v == 0
  {}

  lemma ExpStart()
    ensures ExpByte(0) == 1 && ExpByte(255) == 1
  {}

  /** gf_exp, whose last two entries go round again. */
  function GfExp(): (exp: seq<Elt>)
    ensures |exp| == 258
  {
    seq(258, i requires 0 <= i < 258 => Elt(if i < 256 then ExpByte(Octets.OctetOf(i).v) else if i == 256 then 2 else 4))
  }

  function GfLog(): (log: seq<nat>)
    ensures |log| == 256
  {
    seq(256, i requires 0 <= i < 256 => Octets.Value(Octets.Octet(LogByte(Octets.OctetOf(i).v))))
  }

  /** Every entry of gf_exp is the power of alpha with its index as the exponent. */
  lemma ExpTable(i: nat)
    requires i < 258
    ensures GfExp()[i] == Alpha(i)
  {
    hide ExpByte, Octets.OctetOf, Xtime;
    if i < 256 {
      ExpIsAlpha(i);
    } else {
      AlphaOrder(255);
      LastPowers();
    }
  }

  lemma LastPowers()
    requires Alpha(255) == ONE
    ensures Alpha(256) == Elt(2) && Alpha(257) == Elt(4)
  {
    assert Alpha(256) == Xtime(Alpha(255));
    assert Alpha(257) == Xtime(Alpha(256));
  }

  /** gf_log inverts gf_exp, with 0 for the logarithm of 0. */
  lemma LogTableRight()
    ensures LogTable(GfLog()) && GfLog()[0] == 0
  {
    hide ExpByte, LogByte, Octets.OctetOf, Octets.Value, Index, Shifted;
    forall i | 0 <= i < 255
      ensures Index(Alpha(i)) < 256 && GfLog()[Index(Alpha(i))] == i
    {
      LogOf(i);
    }
    ZeroOctet();
    LogStart();
  }

  lemma LogStart()
    ensures Octets.Value(Octets.Octet(LogByte(0))) == 0
  {}

  lemma LogOf(i: nat)
    requires i < 255
    ensures Index(Alpha(i)) < 256 && GfLog()[Index(Alpha(i))] == i
  {
    hide ExpByte, LogByte, Octets.OctetOf, Octets.Value, Shifted;
    var a := Alpha(i);
    AlphaNonzero(i);
    IndexOctet(a);
    LogBack(a.v);
    var k := Octets.Value(Octets.Octet(LogByte(a.v)));
    Octets.OctetBack(Octets.Octet(LogByte(a.v)));
    Octets.IncrementValue(Octets.Octet(LogByte(a.v)));
    ExpIsAlpha(k);
    assert Alpha(k) == a;
    AlphaInjective(k, i);
  }

  lemma IndexOctet(a: Elt)
    ensures Index(a) < 256 && Octets.OctetOf(Index(a)).v == a.v
  {
    Octets.OctetBack(Octets.Octet(a.v));
  }

  // ---- alpha_ij_pow

  function Pick45(j: bv8, a0: bv8, a1: bv8, a2: bv8, a3: bv8, a4: bv8, a5: bv8, a6: bv8, a7: bv8, a8: bv8, a9: bv8, a10: bv8,
                  a11: bv8, a12: bv8, a13: bv8, a14: bv8, a15: bv8, a16: bv8, a17: bv8, a18: bv8, a19: bv8, a20: bv8, a21: bv8,
                  a22: bv8, a23: bv8, a24: bv8, a25: bv8, a26: bv8, a27: bv8, a28: bv8, a29: bv8, a30: bv8, a31: bv8, a32: bv8,
                  a33: bv8, a34: bv8, a35: bv8, a36: bv8, a37: bv8, a38: bv8, a39: bv8, a40: bv8, a41: bv8, a42: bv8, a43: bv8, a44: bv8): bv8
  {
    if j < 16 then Pick16(j, a0, a1, a2, a3, a4, a5, a6, a7, a8, a9, a10, a11, a12, a13, a14, a15)
    else if j < 32 then Pick16(j, a16, a17, a18, a19, a20, a21, a22, a23, a24, a25, a26, a27, a28, a29, a30, a31)
    else Pick16(j, a32, a33, a34, a35, a36, a37, a38, a39, a40, a41, a42, a43, a44, 0, 0, 0)
  }


  function Row0(j: bv8): bv8 {
    Pick45(j, 2, 4, 8, 16, 32, 64, 128, 29, 58, 116, 232, 205, 135, 19, 38, 76, 152, 45, 90, 180, 117, 234, 201,
      143, 3, 6, 12, 24, 48, 96, 192, 157, 39, 78, 156, 37, 74, 148, 53, 106, 212, 181, 119, 238, 193)
  }

  lemma Steps0(j: bv8)
    requires j < 44
    ensures Row0(j + 1) == FlatMul(Row0(j), Row0(0)) && Row0(0) == 2
  {}

  function Row1(j: bv8): bv8 {
    Pick45(j, 4, 16, 64, 29, 116, 205, 19, 76, 45, 180, 234, 143, 6, 24, 96, 157, 78, 37, 148, 106, 181, 238, 159,
      70, 5, 20, 80, 93, 105, 185, 222, 95, 97, 153, 94, 101, 137, 30, 120, 253, 211, 107, 177, 254, 223)
  }

  lemma Steps1(j: bv8)
    requires j < 44
    ensures Row1(j + 1) == FlatMul(Row1(j), Row1(0)) && Row1(0) == 4
  {}

  function Row2(j: bv8): bv8 {
    Pick45(j, 8, 64, 58, 205, 38, 45, 117, 143, 12, 96, 39, 37, 53, 181, 193, 70, 10, 80, 186, 185, 161, 97, 47,
      101, 15, 120, 231, 107, 127, 223, 182, 217, 134, 68, 26, 208, 206, 62, 237, 59, 197, 102, 23, 184, 169)
  }

  lemma Steps2(j: bv8)
    requires j < 44
    ensures Row2(j + 1) == FlatMul(Row2(j), Row2(0)) && Row2(0) == 8
  {}

  function Row3(j: bv8): bv8 {
    Pick45(j, 16, 29, 205, 76, 180, 143, 24, 157, 37, 106, 238, 70, 20, 93, 185, 95, 153, 101, 30, 253, 107, 254, 91,
      217, 17, 13, 208, 129, 248, 59, 151, 133, 184, 79, 132, 168, 82, 73, 228, 230, 198, 252, 123, 227, 150)
  }

  lemma Steps3(j: bv8)
    requires j < 44
    ensures Row3(j + 1) == FlatMul(Row3(j), Row3(0)) && Row3(0) == 16
  {}

  function Row4(j: bv8): bv8 {
    Pick45(j, 32, 116, 38, 180, 3, 96, 156, 106, 193, 5, 160, 185, 190, 94, 15, 253, 214, 223, 226, 17, 26, 103, 124,
      59, 51, 46, 169, 132, 77, 85, 114, 230, 145, 215, 255, 150, 55, 174, 100, 28, 167, 89, 239, 172, 36)
  }

  lemma Steps4(j: bv8)
    requires j < 44
    ensures Row4(j + 1) == FlatMul(Row4(j), Row4(0)) && Row4(0) == 32
  {}

  function Row5(j: bv8): bv8 {
    Pick45(j, 64, 205, 45, 143, 96, 37, 181, 70, 80, 185, 97, 101, 120, 107, 223, 217, 68, 208, 62, 59, 102, 184, 33,
      168, 85, 228, 191, 252, 241, 150, 110, 130, 7, 221, 89, 195, 138, 61, 251, 44, 207, 173, 8, 58, 38)
  }

  lemma Steps5(j: bv8)
    requires j < 44
    ensures Row5(j + 1) == FlatMul(Row5(j), Row5(0)) && Row5(0) == 64
  {}

  function Row6(j: bv8): bv8 {
    Pick45(j, 128, 19, 117, 24, 156, 181, 140, 93, 161, 94, 60, 107, 163, 67, 26, 129, 147, 102, 109, 132, 41, 57, 209,
      252, 255, 98, 87, 200, 224, 89, 155, 18, 245, 11, 233, 173, 16, 232, 45, 3, 157, 53, 159, 40, 185)
  }

  lemma Steps6(j: bv8)
    requires j < 44
    ensures Row6(j + 1) == FlatMul(Row6(j), Row6(0)) && Row6(0) == 128
  {}

  function Row7(j: bv8): bv8 {
    Pick45(j, 29, 76, 143, 157, 106, 70, 93, 95, 101, 253, 254, 217, 13, 129, 59, 133, 79, 168, 73, 230, 252, 227, 149,
      130, 28, 81, 195, 18, 247, 44, 27, 2, 58, 152, 3, 39, 212, 140, 186, 190, 202, 231, 225, 175, 26)
  }

  lemma Steps7(j: bv8)
    requires j < 44
    ensures Row7(j + 1) == FlatMul(Row7(j), Row7(0)) && Row7(0) == 29
  {}

  function Row8(j: bv8): bv8 {
    Pick45(j, 58, 45, 12, 37, 193, 80, 161, 101, 231, 223, 134, 208, 237, 102, 169, 168, 146, 191, 179, 150, 87, 7, 166,
      195, 36, 251, 125, 173, 64, 38, 143, 39, 181, 10, 185, 47, 120, 127, 217, 26, 62, 197, 184, 21, 85)
  }

  lemma Steps8(j: bv8)
    requires j < 44
    ensures Row8(j + 1) == FlatMul(Row8(j), Row8(0)) && Row8(0) == 58
  {}

  function Row9(j: bv8): bv8 {
    Pick45(j, 116, 180, 96, 106, 5, 185, 94, 253, 223, 17, 103, 59, 46, 132, 85, 230, 215, 150, 174, 28, 89, 172, 244,
      44, 108, 32, 38, 3, 156, 193, 160, 190, 15, 214, 226, 26, 124, 51, 169, 77, 114, 145, 255, 55, 100)
  }

  lemma Steps9(j: bv8)
    requires j < 44
    ensures Row9(j + 1) == FlatMul(Row9(j), Row9(0)) && Row9(0) == 116
  {}

  function Row10(j: bv8): bv8 {
    Pick45(j, 232, 234, 39, 238, 160, 97, 60, 254, 134, 103, 118, 184, 84, 57, 145, 227, 220, 7, 162, 172, 245, 176, 71,
      58, 180, 192, 181, 40, 95, 15, 177, 175, 208, 147, 46, 21, 73, 99, 241, 55, 200, 166, 43, 122, 44)
  }

  lemma Steps10(j: bv8)
    requires j < 44
    ensures Row10(j + 1) == FlatMul(Row10(j), Row10(0)) && Row10(0) == 232
  {}

  function Row11(j: bv8): bv8 {
    Pick45(j, 205, 143, 37, 70, 185, 101, 107, 217, 208, 59, 184, 168, 228, 252, 150, 130, 221, 195, 61, 44, 173, 58, 117,
      39, 193, 186, 47, 231, 182, 26, 237, 23, 21, 146, 145, 219, 87, 56, 242, 36, 139, 54, 64, 45, 96)
  }

  lemma Steps11(j: bv8)
    requires j < 44
    ensures Row11(j + 1) == FlatMul(Row11(j), Row11(0)) && Row11(0) == 205
  {}

  function Row12(j: bv8): bv8 {
    Pick45(j, 135, 6, 53, 20, 190, 120, 163, 13, 237, 46, 84, 228, 229, 98, 100, 81, 69, 251, 131, 32, 45, 192, 238,
      186, 94, 187, 217, 189, 236, 169, 82, 209, 241, 220, 28, 242, 72, 22, 173, 116, 201, 37, 140, 222, 15)
  }

  lemma Steps12(j: bv8)
    requires j < 44
    ensures Row12(j + 1) == FlatMul(Row12(j), Row12(0)) && Row12(0) == 135
  {}

  function Row13(j: bv8): bv8 {
    Pick45(j, 19, 24, 181, 93, 94, 107, 67, 129, 102, 132, 57, 252, 98, 200, 89, 18, 11, 173, 232, 3, 53, 40, 194,
      231, 226, 189, 197, 158, 170, 145, 75, 25, 166, 69, 235, 54, 29, 234, 37, 5, 95, 120, 91, 52, 59)
  }

  lemma Steps13(j: bv8)
    requires j < 44
    ensures Row13(j + 1) == FlatMul(Row13(j), Row13(0)) && Row13(0) == 19
  {}

  function Row14(j: bv8): bv8 {
    Pick45(j, 38, 96, 193, 185, 15, 223, 26, 59, 169, 85, 145, 150, 100, 89, 36, 44, 1, 38, 96, 193, 185, 15, 223,
      26, 59, 169, 85, 145, 150, 100, 89, 36, 44, 1, 38, 96, 193, 185, 15, 223, 26, 59, 169, 85, 145)
  }

  lemma Steps14(j: bv8)
    requires j < 44
    ensures Row14(j + 1) == FlatMul(Row14(j), Row14(0)) && Row14(0) == 38
  {}

  function Row15(j: bv8): bv8 {
    Pick45(j, 76, 157, 70, 95, 253, 217, 129, 133, 168, 230, 227, 130, 81, 18, 44, 2, 152, 39, 140, 190, 231, 175, 31,
      23, 77, 209, 219, 25, 162, 36, 88, 4, 45, 78, 5, 97, 211, 67, 62, 46, 154, 191, 171, 50, 89)
  }

  lemma Steps15(j: bv8)
    requires j < 44
    ensures Row15(j + 1) == FlatMul(Row15(j), Row15(0)) && Row15(0) == 76
  {}

  function Row16(j: bv8): bv8 {
    Pick45(j, 152, 78, 10, 153, 214, 68, 147, 79, 146, 215, 220, 221, 69, 11, 1, 152, 78, 10, 153, 214, 68, 147, 79,
      146, 215, 220, 221, 69, 11, 1, 152, 78, 10, 153, 214, 68, 147, 79, 146, 215, 220, 221, 69, 11, 1)
  }

  lemma Steps16(j: bv8)
    requires j < 44
    ensures Row16(j + 1) == FlatMul(Row16(j), Row16(0)) && Row16(0) == 152
  {}

  function Row17(j: bv8): bv8 {
    Pick45(j, 45, 37, 80, 101, 223, 208, 102, 168, 191, 150, 7, 195, 251, 173, 38, 39, 10, 47, 127, 26, 197, 21, 115,
      219, 100, 242, 245, 54, 205, 96, 70, 97, 107, 68, 59, 33, 228, 241, 130, 89, 61, 207, 58, 12, 193)
  }

  lemma Steps17(j: bv8)
    requires j < 44
    ensures Row17(j + 1) == FlatMul(Row17(j), Row17(0)) && Row17(0) == 45
  {}

  function Row18(j: bv8): bv8 {
    Pick45(j, 90, 148, 186, 30, 226, 62, 109, 73, 179, 174, 162, 61, 131, 232, 96, 140, 153, 127, 52, 51, 168, 99, 98,
      56, 172, 22, 8, 234, 212, 185, 240, 67, 237, 79, 114, 241, 25, 121, 245, 108, 19, 39, 20, 188, 223)
  }

  lemma Steps18(j: bv8)
    requires j < 44
    ensures Row18(j + 1) == FlatMul(Row18(j), Row18(0)) && Row18(0) == 90
  {}

  function Row19(j: bv8): bv8 {
    Pick45(j, 180, 106, 185, 253, 17, 59, 132, 230, 150, 28, 172, 44, 32, 3, 193, 190, 214, 26, 51, 77, 145, 55, 167,
      36, 233, 116, 96, 5, 94, 223, 103, 46, 85, 215, 174, 89, 244, 108, 38, 156, 160, 15, 226, 124, 169)
  }

  lemma Steps19(j: bv8)
    requires j < 44
    ensures Row19(j + 1) == FlatMul(Row19(j), Row19(0)) && Row19(0) == 180
  {}

  function Row20(j: bv8): bv8 {
    Pick45(j, 117, 181, 161, 107, 26, 102, 41, 252, 87, 89, 245, 173, 45, 53, 185, 231, 68, 197, 168, 145, 110, 166, 61,
      54, 38, 37, 186, 120, 134, 59, 21, 191, 196, 221, 36, 207, 205, 39, 80, 15, 217, 237, 33, 115, 150)
  }

  lemma Steps20(j: bv8)
    requires j < 44
    ensures Row20(j + 1) == FlatMul(Row20(j), Row20(0)) && Row20(0) == 117
  {}

  function Row21(j: bv8): bv8 {
    Pick45(j, 234, 238, 97, 254, 103, 184, 57, 227, 7, 172, 176, 58, 192, 40, 15, 175, 147, 21, 99, 55, 166, 122, 216,
      45, 106, 222, 107, 52, 133, 85, 123, 50, 195, 11, 32, 12, 140, 188, 182, 124, 158, 115, 49, 224, 36)
  }

  lemma Steps21(j: bv8)
    requires j < 44
    ensures Row21(j + 1) == FlatMul(Row21(j), Row21(0)) && Row21(0) == 234
  {}

  function Row22(j: bv8): bv8 {
    Pick45(j, 201, 159, 47, 91, 124, 33, 209, 149, 166, 244, 71, 117, 238, 194, 223, 31, 79, 115, 98, 167, 61, 216, 90,
      181, 190, 254, 206, 218, 213, 150, 224, 72, 54, 152, 106, 161, 177, 189, 184, 114, 171, 56, 18, 131, 38)
  }

  lemma Steps22(j: bv8)
    requires j < 44
    ensures Row22(j + 1) == FlatMul(Row22(j), Row22(0)) && Row22(0) == 201
  {}

  function Row23(j: bv8): bv8 {
    Pick45(j, 143, 70, 101, 217, 59, 168, 252, 130, 195, 44, 58, 39, 186, 231, 26, 23, 146, 219, 56, 36, 54, 45, 181,
      97, 223, 62, 33, 191, 110, 89, 251, 8, 12, 10, 15, 134, 197, 41, 179, 100, 86, 125, 205, 37, 185)
  }

  lemma Steps23(j: bv8)
    requires j < 44
    ensures Row23(j + 1) == FlatMul(Row23(j), Row23(0)) && Row23(0) == 143
  {}

  function Row24(j: bv8): bv8 {
    Pick45(j, 3, 5, 15, 17, 51, 85, 255, 28, 36, 108, 180, 193, 94, 226, 59, 77, 215, 100, 172, 233, 38, 106, 190,
      223, 124, 132, 145, 174, 239, 44, 116, 156, 185, 214, 103, 169, 230, 55, 89, 235, 32, 96, 160, 253, 26)
  }

  lemma Steps24(j: bv8)
    requires j < 44
    ensures Row24(j + 1) == FlatMul(Row24(j), Row24(0)) && Row24(0) == 3
  {}

  function Row25(j: bv8): bv8 {
    Pick45(j, 6, 20, 120, 13, 46, 228, 98, 81, 251, 32, 192, 186, 187, 189, 169, 209, 220, 242, 22, 116, 37, 222, 254,
      62, 132, 63, 130, 43, 250, 38, 212, 194, 182, 147, 77, 179, 141, 9, 54, 180, 159, 101, 67, 151, 85)
  }

  lemma Steps25(j: bv8)
    requires j < 44
    ensures Row25(j + 1) == FlatMul(Row25(j), Row25(0)) && Row25(0) == 6
  {}

  function Row26(j: bv8): bv8 {
    Pick45(j, 12, 80, 231, 208, 169, 191, 87, 195, 125, 38, 181, 47, 217, 197, 85, 219, 221, 245, 8, 96, 186, 107, 206,
      33, 145, 130, 86, 207, 45, 193, 101, 134, 102, 146, 150, 166, 251, 64, 39, 185, 127, 62, 21, 252, 100)
  }

  lemma Steps26(j: bv8)
    requires j < 44
    ensures Row26(j + 1) == FlatMul(Row26(j), Row26(0)) && Row26(0) == 12
  {}

  function Row27(j: bv8): bv8 {
    Pick45(j, 24, 93, 107, 129, 132, 252, 200, 18, 173, 3, 40, 231, 189, 158, 145, 25, 69, 54, 234, 5, 120, 52, 218,
      191, 174, 43, 207, 90, 35, 15, 136, 92, 115, 220, 239, 125, 76, 238, 101, 17, 133, 228, 149, 121, 44)
  }

  lemma Steps27(j: bv8)
    requires j < 44
    ensures Row27(j + 1) == FlatMul(Row27(j), Row27(0)) && Row27(0) == 24
  {}

  function Row28(j: bv8): bv8 {
    Pick45(j, 48, 105, 127, 248, 77, 241, 224, 247, 64, 156, 95, 182, 236, 170, 150, 162, 11, 205, 212, 94, 134, 133, 213,
      110, 239, 250, 45, 35, 30, 26, 218, 99, 130, 69, 108, 143, 40, 211, 206, 132, 229, 7, 144, 2, 96)
  }

  lemma Steps28(j: bv8)
    requires j < 44
    ensures Row28(j + 1) == FlatMul(Row28(j), Row28(0)) && Row28(0) == 48
  {}

  function Row29(j: bv8): bv8 {
    Pick45(j, 96, 185, 223, 59, 85, 150, 89, 44, 38, 193, 15, 26, 169, 145, 100, 36, 1, 96, 185, 223, 59, 85, 150,
      89, 44, 38, 193, 15, 26, 169, 145, 100, 36, 1, 96, 185, 223, 59, 85, 150, 89, 44, 38, 193, 15)
  }

  lemma Steps29(j: bv8)
    requires j < 44
    ensures Row29(j + 1) == FlatMul(Row29(j), Row29(0)) && Row29(0) == 96
  {}

  /** Row i of alpha_ij_pow. */
  function AlphaPow(i: nat, j: bv8): bv8
    requires i < 30
  {
    match i
    case 0 => Row0(j) case 1 => Row1(j) case 2 => Row2(j)
    case 3 => Row3(j) case 4 => Row4(j) case 5 => Row5(j)
    case 6 => Row6(j) case 7 => Row7(j) case 8 => Row8(j)
    case 9 => Row9(j) case 10 => Row10(j) case 11 => Row11(j)
    case 12 => Row12(j) case 13 => Row13(j) case 14 => Row14(j)
    case 15 => Row15(j) case 16 => Row16(j) case 17 => Row17(j)
    case 18 => Row18(j) case 19 => Row19(j) case 20 => Row20(j)
    case 21 => Row21(j) case 22 => Row22(j) case 23 => Row23(j)
    case 24 => Row24(j) case 25 => Row25(j) case 26 => Row26(j)
    case 27 => Row27(j) case 28 => Row28(j) case _ => Row29(j)
  }

  /** Along a row every entry is the one before times the first. */
  lemma RowSteps(i: nat, j: bv8)
    requires i < 30 && j < 44
    ensures AlphaPow(i, j + 1) == FlatMul(AlphaPow(i, j), AlphaPow(i, 0))
  {
    hide FlatMul, Row0, Row1, Row2, Row3, Row4, Row5, Row6, Row7, Row8, Row9, Row10, Row11, Row12, Row13, Row14,
      Row15, Row16, Row17, Row18, Row19, Row20, Row21, Row22, Row23, Row24, Row25, Row26, Row27, Row28, Row29;
    match i {
      case 0 => Steps0(j); case 1 => Steps1(j); case 2 => Steps2(j); case 3 => Steps3(j); case 4 => Steps4(j);
      case 5 => Steps5(j); case 6 => Steps6(j); case 7 => Steps7(j); case 8 => Steps8(j); case 9 => Steps9(j);
      case 10 => Steps10(j); case 11 => Steps11(j); case 12 => Steps12(j); case 13 => Steps13(j); case 14 => Steps14(j);
      case 15 => Steps15(j); case 16 => Steps16(j); case 17 => Steps17(j); case 18 => Steps18(j); case 19 => Steps19(j);
      case 20 => Steps20(j); case 21 => Steps21(j); case 22 => Steps22(j); case 23 => Steps23(j); case 24 => Steps24(j);
      case 25 => Steps25(j); case 26 => Steps26(j); case 27 => Steps27(j); case 28 => Steps28(j); case _ => Steps29(j);
    }
  }

  /** Down the first column every entry is twice the one before. */
  lemma ColumnSteps(i: nat)
    requires 1 <= i < 30
    ensures Elt(AlphaPow(i, 0)) == Xtime(Elt(AlphaPow(i - 1, 0)))
  {
    hide FlatMul, Row0, Row1, Row2, Row3, Row4, Row5, Row6, Row7, Row8, Row9, Row10, Row11, Row12, Row13, Row14,
      Row15, Row16, Row17, Row18, Row19, Row20, Row21, Row22, Row23, Row24, Row25, Row26, Row27, Row28, Row29;
    match i {
      case 1 => Steps0(0); Steps1(0); case 2 => Steps1(0); Steps2(0); case 3 => Steps2(0); Steps3(0);
      case 4 => Steps3(0); Steps4(0); case 5 => Steps4(0); Steps5(0); case 6 => Steps5(0); Steps6(0);
      case 7 => Steps6(0); Steps7(0); case 8 => Steps7(0); Steps8(0); case 9 => Steps8(0); Steps9(0);
      case 10 => Steps9(0); Steps10(0); case 11 => Steps10(0); Steps11(0); case 12 => Steps11(0); Steps12(0);
      case 13 => Steps12(0); Steps13(0); case 14 => Steps13(0); Steps14(0); case 15 => Steps14(0); Steps15(0);
      case 16 => Steps15(0); Steps16(0); case 17 => Steps16(0); Steps17(0); case 18 => Steps17(0); Steps18(0);
      case 19 => Steps18(0); Steps19(0); case 20 => Steps19(0); Steps20(0); case 21 => Steps20(0); Steps21(0);
      case 22 => Steps21(0); Steps22(0); case 23 => Steps22(0); Steps23(0); case 24 => Steps23(0); Steps24(0);
      case 25 => Steps24(0); Steps25(0); case 26 => Steps25(0); Steps26(0); case 27 => Steps26(0); Steps27(0);
      case 28 => Steps27(0); Steps28(0); case _ => Steps28(0); Steps29(0);
    }
  }

  lemma {:induction false} ColumnIsAlpha(i: nat)
    requires i < 30
    ensures Elt(AlphaPow(i, 0)) == Alpha(i + 1)
  {
    hide AlphaPow, Xtime;
    if i == 0 {
      Corner();
    } else {
      ColumnIsAlpha(i - 1);
      ColumnSteps(i);
    }
  }

  lemma Corner()
    ensures Elt(AlphaPow(0, 0)) == Alpha(1)
  {
    assert Alpha(1) == Xtime(Alpha(0));
  }

  /** alpha_ij_pow[i][j]. */
  function AlphaIJ(i: nat, j: nat): Elt
    requires i < 30 && j < 45
  {
    Elt(AlphaPow(i, Octets.OctetOf(j).v))
  }

  /** It is alpha to the power (i + 1) * (j + 1). */
  lemma {:induction false} AlphaTable(i: nat, j: nat)
    requires i < 30 && j < 45
    ensures AlphaIJ(i, j) == Alpha((i + 1) * (j + 1))
  {
    hide AlphaPow, FlatMul, Octets.OctetOf, Shifted, Mul;
    ColumnIsAlpha(i);
    if j == 0 {
      ZeroOctet();
    } else {
      AlphaTable(i, j - 1);
      NextOctet(j - 1);
      SmallOctet(j - 1);
      var x := Octets.OctetOf(j - 1).v;
      RowSteps(i, x);
      FlatMulCorrect(Elt(AlphaPow(i, x)), Elt(AlphaPow(i, 0)));
      AlphaAdd((i + 1) * j, i + 1);
      assert (i + 1) * j + (i + 1) == (i + 1) * (j + 1);
    }
  }

  lemma SmallOctet(n: nat)
    requires n < 44
    ensures Octets.OctetOf(n).v < 44
  {}
}
