/** Physical page numbers: the ppn/block/page conversions of the FTL, for any geometry. */
module Layout {
  import opened Common

  /** Pages per block, blocks, reserved blocks at the end, and logical pages. */
  datatype Geometry = Geometry(pages: nat, blocks: nat, reserved: nat, lpns: nat) {
    predicate Valid() {
      0 < pages && reserved <= blocks && Total() < INVALID && lpns < INVALID
    }

    function Total(): nat { blocks * pages }

    /** First block of the reserved region. */
    function User(): nat
      requires Valid()
    {
      blocks - reserved
    }

    function BlockOf(ppn: nat): (b: nat)
      requires Valid() && ppn < Total()
      ensures b < blocks
    {
      QuotientBound(ppn, blocks, pages);
      ppn / pages
    }

    function PageOf(ppn: nat): (p: nat)
      requires Valid() && ppn < Total()
      ensures p < pages
    {
      ppn % pages
    }

    function Ppn(b: nat, p: nat): (ppn: nat)
      requires Valid() && b < blocks && p < pages
      ensures ppn < Total() && BlockOf(ppn) == b && PageOf(ppn) == p
    {
      AddressRoundTrip(b, p, blocks, pages);
      b * pages + p
    }

    lemma PpnOfParts(ppn: nat)
      requires Valid() && ppn < Total()
      ensures Ppn(BlockOf(ppn), PageOf(ppn)) == ppn
    {
    }
  }

  lemma MulMono(a: int, b: int, k: nat)
    requires a <= b
    ensures a * k <= b * k
  {
  }

  lemma QuotientBound(x: nat, n: nat, k: nat)
    requires 0 < k && x < n * k
    ensures x / k < n
  {
    var q := x / k;
    assert q * k <= x;
    if n <= q { MulMono(n, q, k); }
  }

  lemma DivModUnique(x: nat, k: nat, q: nat, r: nat)
    requires x == q * k + r && r < k
    ensures x / k == q && x % k == r
  {
    var d := x / k;
    assert x == d * k + x % k;
    if d < q { MulMono(d + 1, q, k); } else if q < d { MulMono(q + 1, d, k); }
  }

  lemma Parts(x: nat, k: nat)
    requires 0 < k
    ensures x == (x / k) * k + x % k
  {
  }

  lemma AddressRoundTrip(b: nat, p: nat, n: nat, k: nat)
    requires b < n && p < k
    ensures b * k + p < n * k && (b * k + p) / k == b && (b * k + p) % k == p
  {
    MulMono(b + 1, n, k);
    DivModUnique(b * k + p, k, b, p);
  }
}
