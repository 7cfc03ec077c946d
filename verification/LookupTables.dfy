/** Tables of bytes as expressions of the bits of the index. */
module LookupTables {
  /** The entry of a row of sixteen selected by the low four bits of i. */
  function Pick16(i: bv8, a0: bv8, a1: bv8, a2: bv8, a3: bv8, a4: bv8, a5: bv8, a6: bv8, a7: bv8,
                  a8: bv8, a9: bv8, aA: bv8, aB: bv8, aC: bv8, aD: bv8, aE: bv8, aF: bv8): bv8
  {
    var low := if i & 4 == 0 then (if i & 2 == 0 then (if i & 1 == 0 then a0 else a1) else (if i & 1 == 0 then a2 else a3))
               else (if i & 2 == 0 then (if i & 1 == 0 then a4 else a5) else (if i & 1 == 0 then a6 else a7));
    var high := if i & 4 == 0 then (if i & 2 == 0 then (if i & 1 == 0 then a8 else a9) else (if i & 1 == 0 then aA else aB))
                else (if i & 2 == 0 then (if i & 1 == 0 then aC else aD) else (if i & 1 == 0 then aE else aF));
    if i & 8 == 0 then low else high
  }
}
