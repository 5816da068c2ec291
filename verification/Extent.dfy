/** Virtual memory extents: 64-bit address arithmetic, the range test, split and join
    (mm/vm_extent.c), with every wrap-around at 2^64 written out. */
module Extents {

  const TWO64: int := 0x1_0000_0000_0000_0000
  const HALF: int := 0x8000_0000_0000_0000

  type u64 = n: int | 0 <= n < 0x1_0000_0000_0000_0000
  type u32 = n: int | 0 <= n < 0x1_0000_0000

  const PAGE_SIZE: u64 := 0x1000
  const BASE_AUTO: u64 := 0xFFFF_FFFF_FFFF_FFFF

  // Flag words: bits 0-1 are the region, bits 2-3 the memory type (mapped, allocated), bit 4
  // permanent, bit 5 locked. The masks of the source are written as arithmetic on these bits.
  const LOW_MEM: u32 := 0x1
  const HIGH_MEM: u32 := 0x2
  const REGION_MASK: u32 := 0x3
  const ALLOCATED: u32 := 0x8

  /** A protection word, as the set of positions of its one bits. */
  type Bits = set<nat>

  const ATTR_WRITABLE: Bits := {0}

  /** Result codes of the extent routines. */
  datatype Status = OK | FAIL | NOMEM | NOENT

  datatype Attr = Attr(flags: u32, prot: Bits)

  datatype Extent = Extent(base: u64, length: u64, flags: u32, prot: Bits)

  function Add64(x: u64, y: u64): u64 {
    if x + y < TWO64 then x + y else x + y - TWO64
  }

  function Sub64(x: u64, y: u64): u64 {
    if y <= x then x - y else x - y + TWO64
  }

  /** flags & VM_REGION_MASK. */
  function Region(flags: u32): u32 {
    flags % 4
  }

  /** (flags & ~VM_REGION_MASK) | (from & VM_REGION_MASK). */
  function WithRegion(flags: u32, from: u32): u32 {
    flags / 4 * 4 + from % 4
  }

  /** Exactly one of the bits of VM_MEM_TYPE_MASK. */
  predicate TypeOk(flags: u32) {
    flags / 4 % 4 == 1 || flags / 4 % 4 == 2
  }

  /** Replacing the region bits leaves every other bit alone. */
  lemma WithRegionKeeps(flags: u32, from: u32)
    ensures Region(WithRegion(flags, from)) == Region(from)
    ensures WithRegion(flags, from) / 4 == flags / 4
    ensures TypeOk(WithRegion(flags, from)) == TypeOk(flags)
    ensures Region(flags) == Region(from) ==> WithRegion(flags, from) == flags
    ensures Region(Region(from)) == Region(from)
  {
  }

  predicate IsLocked(flags: u32) {
    flags / 32 % 2 == 1
  }

  /** The bits of a flag word, by their positions: two of region, two of type, permanent, locked. */
  lemma FlagsLayout(region: nat, kind: nat, permanent: nat, locked: nat, rest: nat, from: u32)
    requires region < 4 && kind < 4 && permanent < 2 && locked < 2 && rest < 0x400_0000
    ensures var flags: u32 := region + 0x4 * kind + 0x10 * permanent + 0x20 * locked + 0x40 * rest;
            && Region(flags) == region
            && (TypeOk(flags) <==> kind == 1 || kind == 2)
            && (IsLocked(flags) <==> locked == 1)
            && WithRegion(flags, from) ==
                 Region(from) + 0x4 * kind + 0x10 * permanent + 0x20 * locked + 0x40 * rest
    ensures (LOW_MEM, HIGH_MEM, REGION_MASK) == (1, 2, 3) && BASE_AUTO == TWO64 - 1
  {
    var above := kind + 4 * permanent + 8 * locked + 16 * rest;
    var flags := region + 4 * above;
    Digits(4, region, above);
    Digits(4, kind, permanent + 2 * locked + 4 * rest);
    Digits(32, region + 4 * kind + 16 * permanent, locked + 2 * rest);
    Digits(2, locked, rest);
    assert flags / 4 == above && flags % 4 == region && above % 4 == kind && flags / 32 % 2 == locked;
  }

  lemma Digits(d: nat, low: nat, high: nat)
    requires low < d && d in {2, 4, 32}
    ensures (low + d * high) / d == high && (low + d * high) % d == low
  {
  }

  /** The two tests at the head of vm_extent_insert: exactly one region bit. */
  predicate RegionOk(flags: u32) {
    Region(flags) == LOW_MEM || Region(flags) == HIGH_MEM
  }

  /** One past the last address, as an unbounded integer (2^64 for the top extent). */
  function End(e: Extent): int {
    e.base + e.length
  }

  /** What holds of every extent in use: low ones end at 2^63 or below, high ones start there or
      above, and none wraps. */
  predicate WellFormed(e: Extent) {
    && 0 < e.length
    && RegionOk(e.flags)
    && (Region(e.flags) == LOW_MEM ==> End(e) <= HALF)
    && (Region(e.flags) == HIGH_MEM ==> HALF <= e.base && End(e) <= TWO64)
  }

  // ---------------------------------------------------------------- address coverage

  /** Either any attributes or one exact pair. */
  datatype Query = Any | Exactly(attr: Attr)

  predicate Matches(q: Query, flags: u32, prot: Bits) {
    q.Any? || q.attr == Attr(flags, prot)
  }

  /** How often the half-open range [base, base + len) covers address a: 0 or 1. */
  function Range(base: int, len: int, flags: u32, prot: Bits, a: int, q: Query): nat {
    if base <= a < base + len && Matches(q, flags, prot) then 1 else 0
  }

  function Cov(e: Extent, a: int, q: Query): nat {
    Range(e.base, e.length, e.flags, e.prot, a, q)
  }

  // ---------------------------------------------------------------- vm_is_in_range

  predicate InRange(base: u64, len: u64, reqBase: u64, reqLen: u64) {
    var limit := if len >= 1 then len - 1 else 0;
    var reqLimit := if reqLen >= 1 then reqLen - 1 else 0;
    var reqEnd := Add64(reqBase, reqLimit);
    var end := Add64(base, limit);
    reqBase >= base && reqEnd <= end
  }

  /** Real containment of a request in an extent. */
  predicate Contains(e: Extent, base: int, len: int) {
    e.base <= base && base + len <= End(e)
  }

  /** The range test answers correctly exactly when the request does not run past 2^64
      back into addresses at or below the extent's end. */
  lemma InRangeExact(e: Extent, base: u64, len: u64)
    requires WellFormed(e) && 0 < len
    ensures InRange(e.base, e.length, base, len) == Contains(e, base, len)
       <==> !(TWO64 < base + len && e.base <= base && base + len - TWO64 <= End(e))
  {
    assert Add64(e.base, e.length - 1) == End(e) - 1;
  }

  /** A wrapping request that the range test accepts: 4 KiB into the top 8 KiB, with a
      length that runs round to the extent itself. */
  lemma InRangeAcceptsWrap()
    ensures exists e: Extent, base: u64, len: u64 ::
              WellFormed(e) && 0 < len && InRange(e.base, e.length, base, len) && !Contains(e, base, len)
  {
    var e := Extent(0xFFFF_FFFF_FFFF_E000, 0x2000, HIGH_MEM, {});
    var base: u64, len: u64 := 0xFFFF_FFFF_FFFF_F000, 0x2000;
    assert WellFormed(e);
    assert InRange(e.base, e.length, base, len) && !Contains(e, base, len);
  }

  // ---------------------------------------------------------------- vm_extent_split

  datatype SplitResult = SplitResult(status: int, left: Extent, right: Extent)

  /** Cuts [mid, mid + len) out of e; a missing left piece is replaced by the right one. */
  function Split(e: Extent, mid: u64, len: u64): SplitResult {
    if !InRange(e.base, e.length, mid, len) then
      SplitResult(-1, e, Extent(0, 0, 0, {}))
    else
      var rbase := Add64(mid, len);
      var rlen := Sub64(Add64(e.base, e.length), rbase);
      var left := e.(length := Sub64(mid, e.base));
      if rlen == 0 then
        SplitResult(0, left, Extent(0, 0, e.flags, e.prot))
      else if left.length == 0 then
        SplitResult(0, Extent(rbase, rlen, e.flags, e.prot), Extent(0, 0, e.flags, e.prot))
      else
        SplitResult(1, left, Extent(rbase, rlen, e.flags, e.prot))
  }

  /** Splitting conserves: the pieces and the cut-out middle cover exactly what e covered. */
  lemma SplitConserves(e: Extent, mid: u64, len: u64)
    requires WellFormed(e) && 0 < len && mid + len <= TWO64
    requires InRange(e.base, e.length, mid, len)
    ensures var s := Split(e, mid, len);
            && Contains(e, mid, len)
            && 0 <= s.status
            && s.left.flags == s.right.flags == e.flags && s.left.prot == s.right.prot == e.prot
            && (s.left.length == 0 || WellFormed(s.left))
            && (s.right.length == 0 || WellFormed(s.right))
            && (s.status > 0 <==> s.right.length != 0)
            && (s.left.length == 0 ==> s.right.length == 0)
            && forall a: int, q :: Cov(e, a, q) ==
                 Cov(s.left, a, q) + Range(mid, len, e.flags, e.prot, a, q) + Cov(s.right, a, q)
  {
  }

  /** Only a range that the extent holds is cut out of it; otherwise the extent stays whole. */
  lemma SplitRefusedIff(e: Extent, mid: u64, len: u64)
    requires WellFormed(e) && 0 < len && mid + len <= TWO64
    ensures var s := Split(e, mid, len);
            && (s.status < 0 <==> !Contains(e, mid, len))
            && (s.status < 0 ==> s.left == e && s.right.length == 0)
  {
    InRangeExact(e, mid, len);
    if InRange(e.base, e.length, mid, len) {
      SplitConserves(e, mid, len);
    }
  }

  /** A cut that the range test lets through conserves exactly when it ends inside the address
      space. */
  lemma SplitConservesIff(e: Extent, mid: u64, len: u64)
    requires WellFormed(e) && 0 < len && InRange(e.base, e.length, mid, len)
    ensures (var s := Split(e, mid, len);
             forall a: int, q :: Cov(e, a, q) ==
               Cov(s.left, a, q) + Range(mid, len, e.flags, e.prot, a, q) + Cov(s.right, a, q))
       <==> mid + len <= TWO64
  {
    if mid + len <= TWO64 {
      SplitConserves(e, mid, len);
    } else {
      assert Cov(e, TWO64, Any) == 0 && Range(mid, len, e.flags, e.prot, TWO64, Any) == 1;
    }
  }

  // ---------------------------------------------------------------- vm_extent_can_join

  function CanJoin(src: Extent, dest: Extent): int {
    if src.prot != dest.prot then 0
    else if src.flags != dest.flags then 0
    else if dest.base > src.base && dest.base == Add64(src.base, src.length) then 1
    else if dest.base < src.base && Add64(dest.base, dest.length) == src.base then 2
    else 0
  }

  predicate Joinable(src: Extent, dest: Extent) {
    CanJoin(src, dest) != 0
  }

  /** vm_extent_join: the grown dest. */
  function Join(src: Extent, dest: Extent): Extent {
    if CanJoin(src, dest) == 1 then
      Extent(src.base, Add64(dest.length, src.length), dest.flags, dest.prot)
    else
      dest.(length := Add64(dest.length, src.length))
  }

  /** Despite the 64-bit sums, two extents join exactly when they touch and agree in attributes. */
  lemma JoinableMeansAdjacent(x: Extent, y: Extent)
    requires WellFormed(x) && WellFormed(y)
    ensures Joinable(x, y) <==>
              x.flags == y.flags && x.prot == y.prot && (End(x) == y.base || End(y) == x.base)
    ensures Joinable(x, y) == Joinable(y, x)
  {
  }

  lemma JoinConserves(src: Extent, dest: Extent)
    requires WellFormed(src) && WellFormed(dest) && Joinable(src, dest)
    ensures var j := Join(src, dest);
            && WellFormed(j)
            && j.flags == dest.flags && j.prot == dest.prot
            && (forall a: int, q :: Cov(j, a, q) == Cov(src, a, q) + Cov(dest, a, q))
            && (if End(src) == dest.base then j.base == src.base && End(j) == End(dest)
                else j.base == dest.base && End(j) == End(src))
  {
    JoinableMeansAdjacent(src, dest);
  }

}
