/**
 The invariant that ties the two mapping tables, the valid maps, the valid counts, the block
 states and the write pointer together, and the effect of each primitive step on it and on
 the logical content.
 */
module FtlInvariant {
  import opened Common
  import opened Layout
  import opened NandModel
  import opened WalModel
  import opened FtlModel

  /** Physical page `ppn` can hold mapped data: valid page of a block that is not bad, intact ECC word. */
  ghost predicate Sound(n: Nand, ppn: nat)
    requires n.Shape() && ppn < n.geo.Total()
  {
    && n.blocks[n.geo.BlockOf(ppn)].state != Bad
    && n.blocks[n.geo.BlockOf(ppn)].valid[n.geo.PageOf(ppn)]
    && n.media[ppn] == Seal(n.media[ppn].data)
  }

  /** The stored count is the number of valid bits, and FREE means that there are none. */
  ghost predicate CountOk(b: Block) {
    b.state != Bad ==> b.count == CountTrue(b.valid) && (b.state == Free <==> b.count == 0)
  }

  /** The forward and the inverse table are mutual inverses. */
  ghost predicate Inverses(s: Ftl)
    requires s.Shape()
  {
    && (forall lpn :: 0 <= lpn < |s.l2p| && s.l2p[lpn] != INVALID ==> s.rmap[s.l2p[lpn]] == lpn)
    && (forall ppn :: 0 <= ppn < |s.rmap| && s.rmap[ppn] != INVALID ==> s.l2p[s.rmap[ppn]] == ppn)
  }

  ghost predicate Mapped(s: Ftl)
    requires s.Shape()
  {
    forall ppn :: 0 <= ppn < |s.rmap| && s.rmap[ppn] != INVALID ==> Sound(s.nand, ppn)
  }

  ghost predicate Counts(n: Nand) {
    forall b :: 0 <= b < |n.blocks| ==> CountOk(n.blocks[b])
  }

  /** The tables are mutual inverses and only name pages that can hold data. */
  ghost predicate Sane(s: Ftl)
    ensures Sane(s) ==> s.Shape()
  {
    s.Shape() && Inverses(s) && Mapped(s)
  }

  /** And the stored counts and block states are those of the valid maps. */
  ghost predicate Core(s: Ftl)
    ensures Core(s) <==> Sane(s) && Counts(s.nand)
  {
    Sane(s) && Counts(s.nand)
  }

  /** In the open block every valid page lies below the write pointer. */
  ghost predicate OpenOk(s: Ftl)
    requires s.Shape()
  {
    s.nand.blocks[s.wb].state != Bad ==>
      forall p :: s.wp <= p < s.Geo().pages ==> !s.nand.blocks[s.wb].valid[p]
  }

  /** What survives a forged count: everything but the counts. */
  ghost predicate Safe(s: Ftl)
    ensures Safe(s) <==> Sane(s) && OpenOk(s)
  {
    Sane(s) && OpenOk(s)
  }

  ghost predicate Inv(s: Ftl)
    ensures Inv(s) <==> Safe(s) && Counts(s.nand)
    ensures Inv(s) ==> s.Shape() && Core(s) && OpenOk(s)
  {
    Core(s) && OpenOk(s)
  }

  /** What the host can see: for each LPN nothing, or the page last written there. */
  type Content = seq<Option<Page>>

  function Logical(s: Ftl): (c: Content)
    requires s.Shape()
    ensures |c| == s.Geo().lpns
    ensures forall i :: 0 <= i < |c| ==>
              c[i] == (if s.l2p[i] == INVALID then None else Some(s.nand.media[s.l2p[i]].data))
  {
    seq(s.Geo().lpns, i requires 0 <= i < |s.l2p| =>
      if s.l2p[i] == INVALID then None else Some(s.nand.media[s.l2p[i]].data))
  }

  /** No page of block `b` below `p` is mapped. */
  ghost predicate NoneBelow(s: Ftl, b: nat, p: nat)
    requires s.Shape() && b < s.Geo().blocks && p <= s.Geo().pages
  {
    forall q :: 0 <= q < p ==> s.rmap[s.Geo().Ppn(b, q)] == INVALID
  }

  lemma CleanWhenFree(b: Block)
    requires CountOk(b)
    ensures b.state == Free ==> forall p :: 0 <= p < |b.valid| ==> !b.valid[p]
    ensures b.state == Used ==> exists p :: 0 <= p < |b.valid| && b.valid[p]
  {
    CountTrueZero(b.valid);
  }

  /** No page of `b` from `p` on is valid, and `b` can be programmed. */
  ghost predicate CleanFrom(n: Nand, b: nat, p: nat)
    requires n.Shape() && b < n.geo.blocks && p <= n.geo.pages
  {
    n.blocks[b].state != Bad && forall q :: p <= q < n.geo.pages ==> !n.blocks[b].valid[q]
  }

  /** If the next allocation opens a block, nothing is valid in it. */
  ghost predicate OpensClean(s: Ftl)
    requires s.Shape()
  {
    s.wp == s.Geo().pages && NextFree(s.nand, s.wb + 1).Some? ==>
      CleanFrom(s.nand, NextFree(s.nand, s.wb + 1).value, 0)
  }

  /** Under the count invariant that is always so. */
  lemma CountsOpenClean(s: Ftl)
    requires s.Shape() && Counts(s.nand)
    ensures OpensClean(s)
  {
    hide FirstFree;
    if NextFree(s.nand, s.wb + 1).Some? { CleanWhenFree(s.nand.blocks[NextFree(s.nand, s.wb + 1).value]); }
  }

  /** Pages that are not valid, or sit in a bad block, have no owner. */
  lemma UnmappedUnlessSound(s: Ftl, b: nat, p: nat)
    requires Sane(s) && b < s.Geo().blocks && p < s.Geo().pages
    requires s.nand.blocks[b].state == Bad || !s.nand.IsValid(b, p)
    ensures s.rmap[s.Geo().Ppn(b, p)] == INVALID
  {
    assert !Sound(s.nand, s.Geo().Ppn(b, p));
  }

  /** Counters and log play no part in any of this. */
  lemma CountersIrrelevant(s: Ftl, stats: Stats, wal: Option<Wal>)
    requires s.Shape()
    ensures var s' := s.(stats := stats, wal := wal);
            s'.Shape() && (Sane(s) <==> Sane(s')) && (OpenOk(s) <==> OpenOk(s'))
            && (Safe(s) <==> Safe(s')) && (Core(s) <==> Core(s')) && (Inv(s) <==> Inv(s'))
            && Logical(s') == Logical(s)
  {
    assert Logical(s.(stats := stats, wal := wal)) == Logical(s);
  }

  lemma LiveIsSound(s: Ftl, b: nat, p: nat)
    requires Sane(s) && b < s.Geo().blocks && p < s.Geo().pages && Live(s, b, p)
    ensures s.nand.blocks[b].state != Bad && Sound(s.nand, s.Geo().Ppn(b, p))
  {
    assert Sound(s.nand, s.Geo().Ppn(b, p));
  }

  lemma LiveIsUsed(s: Ftl, b: nat, p: nat)
    requires Core(s) && b < s.Geo().blocks && p < s.Geo().pages && Live(s, b, p)
    ensures s.nand.blocks[b].state == Used && Sound(s.nand, s.Geo().Ppn(b, p))
  {
    LiveIsSound(s, b, p);
    CleanWhenFree(s.nand.blocks[b]);
  }

  // ---- primitive steps

  /** Reading a valid page delivers its data and only bumps a read counter. */
  lemma ReadStep(s: Ftl, b: nat, p: nat, buf: Page)
    requires Sane(s) && b < s.Geo().blocks && p < s.Geo().pages && Live(s, b, p)
    ensures var (code, data, n) := PageRead(s.nand, b, p, buf);
            && code == Ok && data == s.nand.media[s.Geo().Ppn(b, p)].data
            && Sane(s.(nand := n)) && (OpenOk(s) ==> OpenOk(s.(nand := n)))
            && (Counts(s.nand) ==> Counts(n))
            && Logical(s.(nand := n)) == Logical(s)
            && n == s.nand.(blocks := n.blocks)
            && forall i :: 0 <= i < |n.blocks| ==>
                n.blocks[i] == s.nand.blocks[i].(readCount := n.blocks[i].readCount)
  {
    var ppn := s.Geo().Ppn(b, p);
    assert Sound(s.nand, ppn);
    ReadoutSealed(s.nand.media[ppn]);
    var n := PageRead(s.nand, b, p, buf).2;
    assert forall q :: 0 <= q < |s.rmap| && s.rmap[q] != INVALID && Sound(s.nand, q) ==> Sound(n, q);
  }

  /** Programming a page that is not valid, below the write pointer if in the open block. */
  lemma ProgramStep(s: Ftl, b: nat, p: nat, data: Page)
    requires Sane(s) && b < s.Geo().blocks && p < s.Geo().pages
    requires s.nand.blocks[b].state != Bad && !s.nand.IsValid(b, p)
    ensures var (code, n) := PageWrite(s.nand, b, p, data);
            var s' := s.(nand := n);
            var ppn := s.Geo().Ppn(b, p);
            && code == Ok
            && Sane(s') && (OpenOk(s) && (b == s.wb ==> p < s.wp) ==> OpenOk(s'))
            && (Counts(s.nand) ==> Counts(n))
            && Logical(s') == Logical(s)
            && s.rmap[ppn] == INVALID && Sound(n, ppn) && n.media[ppn] == Seal(data)
            && (forall q :: 0 <= q < |n.media| && q != ppn ==> n.media[q] == s.nand.media[q])
            && (forall i :: 0 <= i < |n.blocks| && i != b ==> n.blocks[i] == s.nand.blocks[i])
            && n.blocks[b].state == Used && n.blocks[b].valid == s.nand.blocks[b].valid[p := true]
  {
    hide Counts;
    UnmappedUnlessSound(s, b, p);
    ProgramCounts(s.nand, b, p, data);
    var n := PageWrite(s.nand, b, p, data).1;
    assert forall q :: 0 <= q < |s.rmap| && s.rmap[q] != INVALID && Sound(s.nand, q) ==> Sound(n, q);
    assert Logical(s.(nand := n)) == Logical(s);
  }

  lemma ProgramCounts(n: Nand, b: nat, p: nat, data: Page)
    requires n.Shape()
    ensures Counts(n) ==> Counts(PageWrite(n, b, p, data).1)
  {
    if b < n.geo.blocks && p < n.geo.pages { CountTrueUpdate(n.blocks[b].valid, p, true); }
  }

  /** Moving a mapping to an unowned sound page with the same data is invisible. */
  lemma RemapStep(s: Ftl, lpn: nat, from: nat, to: nat)
    requires Sane(s) && from < |s.rmap| && to < |s.rmap| && lpn < |s.l2p|
    requires s.rmap[from] == lpn && s.rmap[to] == INVALID
    requires Sound(s.nand, to) && s.nand.media[to].data == s.nand.media[from].data
    ensures var s' := Remap(s, lpn, from, to);
            && Sane(s') && (OpenOk(s) ==> OpenOk(s')) && s'.nand == s.nand && Logical(s') == Logical(s)
  {
    var s' := Remap(s, lpn, from, to);
    assert s.l2p[lpn] == from;
    assert Logical(s') == Logical(s);
  }

  /** Clearing the valid bit of an unowned page is invisible. */
  lemma InvalidateStep(s: Ftl, b: nat, p: nat)
    requires Sane(s) && b < s.Geo().blocks && p < s.Geo().pages
    requires s.rmap[s.Geo().Ppn(b, p)] == INVALID
    ensures var n := MarkInvalid(s.nand, b, p).1;
            var s' := s.(nand := n);
            && Sane(s') && (OpenOk(s) ==> OpenOk(s')) && Logical(s') == Logical(s)
            && (Counts(s.nand) ==> Counts(n))
            && (forall i :: 0 <= i < |n.blocks| && i != b ==> n.blocks[i] == s.nand.blocks[i])
            && (n.blocks[b].state == Bad <==> s.nand.blocks[b].state == Bad)
            && n.blocks[b].valid == (if n.blocks[b].state == Bad then s.nand.blocks[b].valid
                                     else s.nand.blocks[b].valid[p := false])
  {
    hide Counts;
    var n := MarkInvalid(s.nand, b, p).1;
    InvalidateCounts(s.nand, b, p);
    forall q | 0 <= q < |s.rmap| && s.rmap[q] != INVALID
      ensures Sound(n, q)
    {
      assert Sound(s.nand, q);
      if s.Geo().BlockOf(q) == b && s.Geo().PageOf(q) == p {
        s.Geo().PpnOfParts(q);
      }
    }
    assert Logical(s.(nand := n)) == Logical(s);
  }

  lemma InvalidateCounts(n: Nand, b: nat, p: nat)
    requires n.Shape()
    ensures Counts(n) ==> Counts(MarkInvalid(n, b, p).1)
  {
    if b < n.geo.blocks && p < n.geo.pages && n.blocks[b].valid[p] {
      CountTrueUpdate(n.blocks[b].valid, p, false);
      TotalBound(n.geo, n.blocks[b]);
    }
  }

  lemma TotalBound(g: Geometry, b: Block)
    requires g.Valid() && 0 < g.blocks && |b.valid| == g.pages
    ensures CountTrue(b.valid) < INVALID
  {
    MulMono(1, g.blocks, g.pages);
  }

  /** Erasing a block without mapped pages is invisible, whether or not it wears out. */
  lemma EraseStep(s: Ftl, b: nat, draw: bool)
    requires Sane(s) && b < s.Geo().blocks && NoneBelow(s, b, s.Geo().pages)
    ensures var n := Erase(s.nand, b, draw).1;
            var s' := s.(nand := n);
            && Sane(s') && (OpenOk(s) ==> OpenOk(s')) && Logical(s') == Logical(s)
            && (Counts(s.nand) ==> Counts(n))
  {
    var n := Erase(s.nand, b, draw).1;
    CountTrueZero(AllFalse(s.Geo().pages));
    forall q | 0 <= q < |s.rmap| && s.rmap[q] != INVALID
      ensures Sound(n, q)
    {
      assert Sound(s.nand, q);
      s.Geo().PpnOfParts(q);
    }
    assert Logical(s.(nand := n)) == Logical(s);
  }

  /**
   A freshly allocated page is never valid, as long as the counts are right or the block opened for it is clean; the
   write pointer invariant survives.
   */
  lemma AllocStep(s: Ftl)
    requires Safe(s) && (Counts(s.nand) || OpensClean(s))
    ensures var (slot, s') := Alloc(s);
            && Safe(s') && s'.nand == s.nand && Logical(s') == Logical(s)
            && (slot.Some? ==>
                  var b, p := s.Geo().BlockOf(slot.value), s.Geo().PageOf(slot.value);
                  && b == s'.wb && p + 1 == s'.wp
                  && (s.nand.blocks[b].state == Bad || !s.nand.IsValid(b, p))
                  && (b != s.wb || p == s.wp || (p == 0 && s.nand.blocks[b].state == Free)))
  {
    hide Counts, Sane;
    if Counts(s.nand) { CountsOpenClean(s); }
    var (slot, s') := Alloc(s);
    assert Logical(s') == Logical(s);
    PointerMoved(s, s');
  }

  /** The write position does not matter to the tables. */
  lemma PointerMoved(s: Ftl, s': Ftl)
    requires s.Shape() && s'.Shape() && s' == s.(wb := s'.wb, wp := s'.wp)
    ensures Sane(s) <==> Sane(s')
  {
  }
}
