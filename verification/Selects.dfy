/** The masked scans of src/p256_wide_mul.c:69-160: every entry of a row is read, and the one at the index is kept. */
module Selects {
  import opened Arith
  import opened Bits
  import opened Words
  import opened Digits

  /** equal_mask: bit 64 of the wide sum tells whether a ^ b has any bit. */
  function EqualMask64(a: nat, b: nat): (mask: nat)
    requires a <= ONES64 && b <= ONES64
    ensures mask == if a == b then ONES64 else 0
  {
    Pow64();
    XorBound(a, b, 64);
    XorZeroIff(a, b);
    var differ := (Xor(a, b) + ONES64) / (ONES64 + 1);
    WideMask(1 - differ)
  }

  lemma Pow64()
    ensures Pow(2, 64) == ONES64 + 1 && Ones(64) == ONES64
  {
    Pow32();
    PowAdd(2, 32, 32);
  }

  /** o | (a & mask), of one word. */
  function KeepWord(o: nat, a: nat, mask: nat): (r: nat)
    requires a <= ONES64 && (mask == 0 || (mask == ONES64 && o == 0))
    ensures r == if mask == 0 then o else a
  {
    Pow64();
    AndKeep(a, 64);
    Or(o, And(a, mask))
  }

  /** An entry of so many 64-bit words. */
  ghost predicate IsEntry(e: seq<nat>, words: nat) {
    |e| == words && forall i {:trigger e[i]} :: 0 <= i < words ==> e[i] <= ONES64
  }

  /** fe_keep over an entry's words. */
  method Keep(o: array<nat>, e: seq<nat>, mask: nat)
    requires IsEntry(e, o.Length) && (mask == 0 || mask == ONES64)
    requires mask == ONES64 ==> forall i {:trigger o[i]} :: 0 <= i < o.Length ==> o[i] == 0
    modifies o
    ensures o[..] == if mask == 0 then old(o[..]) else e
  {
    for i := 0 to o.Length
      invariant forall j {:trigger o[j]} :: 0 <= j < i ==> o[j] == if mask == 0 then old(o[j]) else e[j]
      invariant forall j {:trigger o[j]} :: i <= j < o.Length ==> o[j] == old(o[j])
    {
      o[i] := KeepWord(o[i], e[i], mask);
    }
  }

  /** table_select and multiple_select: the entry at the index, from a scan that reads all of them in one order. */
  method RowSelect(row: seq<seq<nat>>, index: nat, words: nat) returns (o: array<nat>)
    requires index < |row| <= ONES64 && forall j {:trigger row[j]} :: 0 <= j < |row| ==> IsEntry(row[j], words)
    ensures fresh(o) && o[..] == row[index]
  {
    o := new nat[words](i => 0);
    for j := 0 to |row|
      invariant o.Length == words && fresh(o)
      invariant j <= index ==> forall i {:trigger o[i]} :: 0 <= i < words ==> o[i] == 0
      invariant j > index ==> o[..] == row[index]
    {
      Keep(o, row[j], EqualMask64(j, index));
    }
  }
}
