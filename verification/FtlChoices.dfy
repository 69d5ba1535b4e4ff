/**
 Which blocks the scans of the FTL pick: the next free block, the source and destination of static
 wear leveling, the block that dynamic wear leveling forges, and the block read too often.
 */
module FtlChoices {
  import opened Common
  import opened Layout
  import opened NandModel
  import opened FtlModel

  // ---- the circular search

  lemma {:induction false} FirstFreeIsFirst(blocks: seq<Block>, lo: nat, hi: nat)
    requires hi <= |blocks| && FirstFree(blocks, lo, hi).Some?
    ensures forall i :: lo <= i < FirstFree(blocks, lo, hi).value ==> blocks[i].state != Free
    decreases hi - lo
  {
    if lo < hi && blocks[lo].state != Free { FirstFreeIsFirst(blocks, lo + 1, hi); }
  }

  lemma {:induction false} SameFirstFree(a: seq<Block>, b: seq<Block>, lo: nat, hi: nat)
    requires hi <= |a| == |b| && forall i :: 0 <= i < |a| ==> (a[i].state == Free <==> b[i].state == Free)
    ensures FirstFree(a, lo, hi) == FirstFree(b, lo, hi)
    decreases hi - lo
  {
    if lo < hi { SameFirstFree(a, b, lo + 1, hi); }
  }

  lemma {:induction false} FreeBelowSame(a: seq<Block>, b: seq<Block>, k: nat)
    requires k <= |a| == |b| && forall i :: 0 <= i < k ==> (a[i].state == Free <==> b[i].state == Free)
    ensures FreeBelow(a, k) == FreeBelow(b, k)
  {
    if k != 0 { FreeBelowSame(a, b, k - 1); }
  }

  /** The first FREE user block from `start` on, else the first FREE block below `start`. */
  ghost predicate NextFrom(n: Nand, start: nat, b: nat)
    requires n.Shape()
  {
    && b < n.geo.blocks && n.blocks[b].state == Free
    && if start <= b < n.geo.User() then forall i :: start <= i < b ==> n.blocks[i].state != Free
       else b < start && (forall i :: start <= i < n.geo.User() ==> n.blocks[i].state != Free)
            && forall i :: 0 <= i < b ==> n.blocks[i].state != Free
  }

  lemma NextFreeIsNext(n: Nand, start: nat, b: nat)
    requires n.Shape() && start <= n.geo.blocks
    ensures NextFree(n, start) == Some(b) <==> NextFrom(n, start, b)
  {
    if FirstFree(n.blocks, start, n.geo.User()).Some? {
      FirstFreeIsFirst(n.blocks, start, n.geo.User());
    } else if FirstFree(n.blocks, 0, start).Some? {
      FirstFreeIsFirst(n.blocks, 0, start);
    }
  }

  // ---- static wear leveling

  /** `b` is the first USED user block below `k` with the highest erase count, which is not zero. */
  ghost predicate MostWornUsed(blocks: seq<Block>, k: nat, b: nat)
    requires k <= |blocks|
  {
    && b < k && blocks[b].state == Used && 0 < blocks[b].erases
    && (forall i :: 0 <= i < k && blocks[i].state == Used ==> blocks[i].erases <= blocks[b].erases)
    && (forall i :: 0 <= i < b && blocks[i].state == Used ==> blocks[i].erases < blocks[b].erases)
  }

  /** `b` is the first FREE user block below `k` with the lowest erase count. */
  ghost predicate LeastWornFree(blocks: seq<Block>, k: nat, b: nat)
    requires k <= |blocks|
  {
    && b < k && blocks[b].state == Free && blocks[b].erases < INVALID
    && (forall i :: 0 <= i < k && blocks[i].state == Free ==> blocks[b].erases <= blocks[i].erases)
    && (forall i :: 0 <= i < b && blocks[i].state == Free ==> blocks[b].erases < blocks[i].erases)
  }

  lemma {:induction false} StaticScanIs(blocks: seq<Block>, k: nat)
    requires k <= |blocks|
    ensures var pk := StaticScan(blocks, k);
            && (if pk.src.Some? then MostWornUsed(blocks, k, pk.src.value) && pk.max == blocks[pk.src.value].erases
                else pk.max == 0 && forall i :: 0 <= i < k && blocks[i].state == Used ==> blocks[i].erases == 0)
            && (if pk.dst.Some? then LeastWornFree(blocks, k, pk.dst.value) && pk.min == blocks[pk.dst.value].erases
                else pk.min == INVALID
                     && forall i :: 0 <= i < k && blocks[i].state == Free ==> INVALID <= blocks[i].erases)
  {
    if k != 0 { StaticScanIs(blocks, k - 1); }
  }

  /**
   Static wear leveling moves the most worn USED block to the least worn FREE one, exactly if the difference of their
   erase counts, as a 32-bit word, exceeds the threshold.
   */
  lemma StaticPickIs(n: Nand, src: nat, dst: nat)
    requires n.Shape()
    ensures StaticPick(n) == Some((src, dst)) <==>
            && MostWornUsed(n.blocks, n.geo.User(), src) && LeastWornFree(n.blocks, n.geo.User(), dst)
            && STATIC_WEAR_DIFF < (n.blocks[src].erases - n.blocks[dst].erases) % TWO32
  {
    hide StaticScan;
    StaticScanIs(n.blocks, n.geo.User());
  }

  /** The word wraps below zero: data is also moved whenever every FREE block is more worn than every USED one. */
  lemma StaticPickBackwards(n: Nand, src: nat, dst: nat)
    requires n.Shape() && MostWornUsed(n.blocks, n.geo.User(), src) && LeastWornFree(n.blocks, n.geo.User(), dst)
    requires n.blocks[src].erases < n.blocks[dst].erases < n.blocks[src].erases + TWO32 - STATIC_WEAR_DIFF
    ensures StaticPick(n) == Some((src, dst))
  {
    StaticPickIs(n, src, dst);
    assert (n.blocks[src].erases - n.blocks[dst].erases) % TWO32 == n.blocks[src].erases - n.blocks[dst].erases + TWO32;
  }

  // ---- dynamic wear leveling

  /** `b` is USED and less worn than every block before it that is not bad. */
  ghost predicate ColdAt(blocks: seq<Block>, b: nat)
    requires b < |blocks|
  {
    && blocks[b].state == Used && blocks[b].erases < INVALID
    && forall i :: 0 <= i < b && blocks[i].state != Bad ==> blocks[b].erases < blocks[i].erases
  }

  /** `lo` and `hi` bound the erase counts of the blocks below `k` that are not bad, tightly if there are any. */
  ghost predicate Bounds(blocks: seq<Block>, k: nat, lo: nat, hi: nat)
    requires k <= |blocks|
  {
    && lo <= INVALID && (forall i :: 0 <= i < k && blocks[i].state != Bad ==> lo <= blocks[i].erases <= hi)
    && (lo == INVALID || exists i :: 0 <= i < k && blocks[i].state != Bad && blocks[i].erases == lo)
    && (hi == 0 || exists i :: 0 <= i < k && blocks[i].state != Bad && blocks[i].erases == hi)
  }

  lemma {:induction false} WearScanIs(blocks: seq<Block>, k: nat)
    requires k <= |blocks|
    ensures var sp := WearScan(blocks, k);
            && Bounds(blocks, k, sp.min, sp.max)
            && (sp.cold.Some? ==> sp.cold.value < k && ColdAt(blocks, sp.cold.value))
            && forall b :: 0 <= b < k && ColdAt(blocks, b) ==> sp.cold.Some? && b <= sp.cold.value
  {
    if k != 0 {
      WearScanIs(blocks, k - 1);
      var b := blocks[k - 1];
      if b.state != Bad {
        BoundsStep(blocks, k, WearScan(blocks, k - 1).min, WearScan(blocks, k - 1).max);
      }
    }
  }

  lemma BoundsStep(blocks: seq<Block>, k: nat, lo: nat, hi: nat)
    requires 0 < k <= |blocks| && Bounds(blocks, k - 1, lo, hi) && blocks[k - 1].state != Bad
    ensures var e := blocks[k - 1].erases;
            && Bounds(blocks, k, if e < lo then e else lo, if hi < e then e else hi)
            && (ColdAt(blocks, k - 1) <==> blocks[k - 1].state == Used && e < lo)
  {
    var e := blocks[k - 1].erases;
    if lo < INVALID && lo <= e {
      var i :| 0 <= i < k - 1 && blocks[i].state != Bad && blocks[i].erases == lo;
      assert 0 <= i < k && blocks[i].erases == lo;
    }
    if 0 < hi && e <= hi {
      var i :| 0 <= i < k - 1 && blocks[i].state != Bad && blocks[i].erases == hi;
      assert 0 <= i < k && blocks[i].erases == hi;
    }
  }

  /**
   Dynamic wear leveling forges the last USED user block that is less worn than every good block before it, exactly if
   the largest and the smallest erase count of the good blocks, subtracted as 32-bit words, are further apart than the
   threshold.
   */
  lemma ColdBlockIs(n: Nand, c: nat)
    requires n.Shape()
    ensures ColdBlock(n) == Some(c) <==>
            && c < n.geo.User() && ColdAt(n.blocks, c)
            && (forall b :: c < b < n.geo.User() ==> !ColdAt(n.blocks, b))
            && exists lo: nat, hi: nat :: Bounds(n.blocks, n.geo.User(), lo, hi) && WEAR_DIFF < (hi - lo) % TWO32
  {
    hide WearScan, Bounds, ColdAt;
    var k := n.geo.User();
    WearScanIs(n.blocks, k);
    var sp := WearScan(n.blocks, k);
    forall lo: nat, hi: nat | Bounds(n.blocks, k, lo, hi) ensures lo == sp.min && hi == sp.max {
      BoundsUnique(n.blocks, k, lo, hi, sp.min, sp.max);
    }
  }

  lemma BoundsUnique(blocks: seq<Block>, k: nat, lo: nat, hi: nat, lo': nat, hi': nat)
    requires k <= |blocks| && Bounds(blocks, k, lo, hi) && Bounds(blocks, k, lo', hi')
    ensures lo == lo' && hi == hi'
  {
  }

  // ---- read disturb

  /** `b` is the first USED user block with the highest read count. */
  ghost predicate MostRead(blocks: seq<Block>, k: nat, b: nat)
    requires k <= |blocks|
  {
    && b < k && blocks[b].state == Used
    && (forall i :: 0 <= i < k && blocks[i].state == Used ==> blocks[i].readCount <= blocks[b].readCount)
    && (forall i :: 0 <= i < b && blocks[i].state == Used ==> blocks[i].readCount < blocks[b].readCount)
  }

  lemma {:induction false} ReadScanIs(blocks: seq<Block>, k: nat)
    requires k <= |blocks|
    ensures var (m, at) := ReadScan(blocks, k);
            if at.Some? then MostRead(blocks, k, at.value) && 0 < m == blocks[at.value].readCount
            else m == 0 && forall i :: 0 <= i < k && blocks[i].state == Used ==> blocks[i].readCount == 0
  {
    if k != 0 { ReadScanIs(blocks, k - 1); }
  }

  /**
   Read-disturb handling empties the first USED user block with the highest read count, exactly if that count has
   reached the threshold.
   */
  lemma DisturbedIs(n: Nand, b: nat)
    requires n.Shape()
    ensures Disturbed(n) == Some(b) <==> MostRead(n.blocks, n.geo.User(), b) && 100000 <= n.blocks[b].readCount
  {
    hide ReadScan;
    ReadScanIs(n.blocks, n.geo.User());
  }
}
