/**
 Where relocated pages go, how many move, and what becomes of the block they leave; and which
 counters the host operations move.
 */
module FtlMoves {
  import opened Common
  import opened Layout
  import opened NandModel
  import opened WalModel
  import opened FtlModel
  import opened FtlInvariant
  import opened FtlRelocation
  import opened FtlGain

  // ---- relocation at equal offsets

  /** Every page of `src` from `p` on that is live in `s` has its owner at the same offset of `dst` in `s'`. */
  ghost predicate LandedAcross(s: Ftl, s': Ftl, src: nat, dst: nat, p: nat)
    requires s.Shape() && s'.Shape() && s'.Geo() == s.Geo() && src < s.Geo().blocks && dst < s.Geo().blocks
  {
    forall q :: p <= q < s.Geo().pages && Live(s, src, q) ==>
      s'.rmap[s.Geo().Ppn(dst, q)] == s.rmap[s.Geo().Ppn(src, q)]
  }

  lemma {:induction false} MoveLiveLands(s: Ftl, src: nat, dst: nat, p: nat, buf: Page)
    requires Sane(s) && src < s.Geo().blocks && dst < s.Geo().blocks && p <= s.Geo().pages && src != dst
    requires CleanFrom(s.nand, dst, p) && NoneBelow(s, src, p)
    ensures var (s', k) := MoveLive(s, src, dst, p, buf);
            && k == LiveFrom(s, src, p)
            && LandedAcross(s, s', src, dst, p)
            && (forall q :: 0 <= q < p ==> s'.rmap[s.Geo().Ppn(dst, q)] == s.rmap[s.Geo().Ppn(dst, q)])
    decreases s.Geo().pages - p
  {
    hide Core, Sane, Safe, Logical, MovePage, Geometry.Ppn, Live;
    if p < s.Geo().pages {
      if Live(s, src, p) {
        LiveIsSound(s, src, p);
        LiveIsOwned(s, src, p);
        NotValidYet(s, dst, p);
        MovePageKeeps(s, src, dst, p, buf);
        MovePageEffect(s, src, dst, p, buf);
        MovePageFrame(s, src, dst, p, buf);
        var (_, s1, data) := MovePage(s, src, dst, p, buf);
        LiveFromSame(s, s1, src, p + 1);
        MoveLiveLands(s1, src, dst, p + 1, data);
        OwnersApart(s, s1, src, dst, p);
        assert LandedAcross(s1, MoveLive(s1, src, dst, p + 1, data).0, src, dst, p + 1);
      } else {
        DeadIsUnmapped(s, src, p);
        MoveLiveLands(s, src, dst, p + 1, buf);
      }
    }
  }

  lemma LiveIsOwned(s: Ftl, b: nat, p: nat)
    requires s.Shape() && b < s.Geo().blocks && p < s.Geo().pages && Live(s, b, p)
    ensures s.rmap[s.Geo().Ppn(b, p)] != INVALID
  {
  }

  lemma NotValidYet(s: Ftl, dst: nat, p: nat)
    requires s.Shape() && dst < s.Geo().blocks && p < s.Geo().pages && CleanFrom(s.nand, dst, p)
    ensures s.nand.blocks[dst].state != Bad && !s.nand.IsValid(dst, p)
  {
  }

  lemma DeadIsUnmapped(s: Ftl, src: nat, p: nat)
    requires Sane(s) && src < s.Geo().blocks && p < s.Geo().pages && !Live(s, src, p) && NoneBelow(s, src, p)
    ensures NoneBelow(s, src, p + 1)
  {
    if !s.nand.IsValid(src, p) { UnmappedUnlessSound(s, src, p); }
  }

  /** Moving one page changes the owners of its two places only. */
  lemma OwnersApart(s: Ftl, s1: Ftl, src: nat, dst: nat, p: nat)
    requires s.Shape() && s1.Shape() && s1.Geo() == s.Geo() && src < s.Geo().blocks && dst < s.Geo().blocks
    requires p < s.Geo().pages
    requires src != dst
    requires s1.rmap == s.rmap[s.Geo().Ppn(dst, p) := s.rmap[s.Geo().Ppn(src, p)]][s.Geo().Ppn(src, p) := INVALID]
    ensures s1.rmap[s.Geo().Ppn(dst, p)] == s.rmap[s.Geo().Ppn(src, p)]
    ensures forall q :: 0 <= q < s.Geo().pages && q != p ==>
              && s1.rmap[s.Geo().Ppn(src, q)] == s.rmap[s.Geo().Ppn(src, q)]
              && s1.rmap[s.Geo().Ppn(dst, q)] == s.rmap[s.Geo().Ppn(dst, q)]
  {
    var g := s.Geo();
    forall q | 0 <= q < g.pages && q != p
      ensures g.Ppn(src, q) != g.Ppn(src, p) && g.Ppn(dst, q) != g.Ppn(dst, p)
      ensures g.Ppn(src, q) != g.Ppn(dst, p) && g.Ppn(dst, q) != g.Ppn(src, p)
    {
      assert g.PageOf(g.Ppn(src, q)) == q && g.PageOf(g.Ppn(dst, q)) == q;
      assert g.PageOf(g.Ppn(src, p)) == p && g.PageOf(g.Ppn(dst, p)) == p;
    }
    assert g.BlockOf(g.Ppn(src, p)) == src && g.BlockOf(g.Ppn(dst, p)) == dst;
  }

  /** A relocation moves exactly the live pages, each to the same offset, and then erases the source or wears it out. */
  lemma RelocateLands(s: Ftl, src: nat, dst: nat, draw: bool, buf: Page)
    requires Sane(s) && src < s.Geo().blocks && dst < s.Geo().blocks && src != dst && s.nand.blocks[src].state == Used
    requires s.nand.blocks[dst].state == Free && (Counts(s.nand) || CleanFrom(s.nand, dst, 0))
    ensures var (s', k) := Relocate(s, src, dst, draw, buf);
            && k == LiveFrom(s, src, 0) && LandedAcross(s, s', src, dst, 0)
            && s'.nand.blocks[src].state == (if WearsOut(s.nand, src, draw) then Bad else Free)
            && s'.nand.blocks[src].erases == s.nand.blocks[src].erases + (if WearsOut(s.nand, src, draw) then 0 else 1)
  {
    hide MoveLive, LandedAcross, Core, Sane, Safe, Logical;
    FreeIsCleanHere(s, dst);
    MoveLiveLands(s, src, dst, 0, buf);
    MoveLiveKeeps(s, src, dst, 0, buf);
    MoveLiveErases(s, src, dst, 0, buf);
    var s1 := MoveLive(s, src, dst, 0, buf).0;
    SameOwners(s, s1, Relocate(s, src, dst, draw, buf).0, src, dst);
  }

  lemma SameOwners(s: Ftl, a: Ftl, b: Ftl, src: nat, dst: nat)
    requires s.Shape() && a.Shape() && b.Shape() && a.Geo() == s.Geo() == b.Geo() && src < s.Geo().blocks
    requires dst < s.Geo().blocks
    requires LandedAcross(s, a, src, dst, 0) && b.rmap == a.rmap
    ensures LandedAcross(s, b, src, dst, 0)
  {
  }

  lemma {:induction false} MoveLiveErases(s: Ftl, src: nat, dst: nat, p: nat, buf: Page)
    requires s.Shape() && src < s.Geo().blocks && dst < s.Geo().blocks && p <= s.Geo().pages
    ensures var s' := MoveLive(s, src, dst, p, buf).0;
            s'.nand.wearLimit == s.nand.wearLimit
            && forall i :: 0 <= i < s.Geo().blocks ==> s'.nand.blocks[i].erases == s.nand.blocks[i].erases
    decreases s.Geo().pages - p
  {
    hide MovePage;
    if p < s.Geo().pages {
      if Live(s, src, p) {
        MovePageErases(s, src, dst, p, buf);
        var (_, s1, data) := MovePage(s, src, dst, p, buf);
        MoveLiveErases(s1, src, dst, p + 1, data);
      } else {
        MoveLiveErases(s, src, dst, p + 1, buf);
      }
    }
  }

  lemma MovePageErases(s: Ftl, src: nat, dst: nat, p: nat, buf: Page)
    requires s.Shape() && src < s.Geo().blocks && dst < s.Geo().blocks && p < s.Geo().pages && Live(s, src, p)
    ensures var s' := MovePage(s, src, dst, p, buf).1;
            s'.nand.wearLimit == s.nand.wearLimit
            && forall i :: 0 <= i < s.Geo().blocks ==> s'.nand.blocks[i].erases == s.nand.blocks[i].erases
  {
    hide Seal, Readout;
  }

  /** Static wear leveling, whole: nothing happens, or the picked block moves, page for page, and is counted. */
  lemma StaticWearMoves(s: Ftl, draw: bool, buf: Page)
    requires Safe(s)
    requires Counts(s.nand) || (StaticPick(s.nand).Some? ==> CleanFrom(s.nand, StaticPick(s.nand).value.1, 0))
    ensures var s' := StaticWear(s, draw, buf);
            if StaticPick(s.nand).None? then s' == s
            else
              var (src, dst) := StaticPick(s.nand).value;
              && LandedAcross(s, s', src, dst, 0) && NoneBelow(s', src, s.Geo().pages)
              && s'.nand.blocks[src].state == (if WearsOut(s.nand, src, draw) then Bad else Free)
              && s'.nand.blocks[src].erases == s.nand.blocks[src].erases
                                               + (if WearsOut(s.nand, src, draw) then 0 else 1)
              && s'.stats == s.stats.(nand := s'.stats.nand, staticCount := s.stats.staticCount + 1,
                                      staticMoved := s.stats.staticMoved + LiveFrom(s, src, 0))
              && forall i :: 0 <= i < s.Geo().blocks && i != src && i != dst ==> s'.nand.blocks[i] == s.nand.blocks[i]
  {
    hide Inv, Safe, Relocate, LandedAcross, LiveFrom, WearsOut, NoneBelow, Sane;
    if StaticPick(s.nand).Some? {
      var src, dst := StaticPick(s.nand).value.0, StaticPick(s.nand).value.1;
      RelocateKeeps(s, src, dst, draw, buf);
      RelocateLands(s, src, dst, draw, buf);
      RelocateStats(s, src, dst, draw, buf);
      RelocateElsewhere(s, src, dst, draw, buf);
      var s1 := Relocate(s, src, dst, draw, buf).0;
      SameOwners(s, s1, StaticWear(s, draw, buf), src, dst);
      SameUnmapped(s1, StaticWear(s, draw, buf), src);
    }
  }

  lemma RelocateElsewhere(s: Ftl, src: nat, dst: nat, draw: bool, buf: Page)
    requires Sane(s) && src < s.Geo().blocks && dst < s.Geo().blocks && src != dst
    requires s.nand.blocks[dst].state == Free && (Counts(s.nand) || CleanFrom(s.nand, dst, 0))
    ensures var s' := Relocate(s, src, dst, draw, buf).0;
            forall i :: 0 <= i < s.Geo().blocks && i != src && i != dst ==> s'.nand.blocks[i] == s.nand.blocks[i]
  {
    hide MoveLive, Sane, Erase;
    FreeIsCleanHere(s, dst);
    MoveLiveKeeps(s, src, dst, 0, buf);
    EraseElsewhere(MoveLive(s, src, dst, 0, buf).0.nand, src, draw);
  }

  lemma SameUnmapped(a: Ftl, b: Ftl, src: nat)
    requires a.Shape() && b.Shape() && a.Geo() == b.Geo() && src < a.Geo().blocks
    requires b.rmap == a.rmap && NoneBelow(a, src, a.Geo().pages)
    ensures NoneBelow(b, src, a.Geo().pages)
  {
  }

  lemma {:induction false} MoveLiveStats(s: Ftl, src: nat, dst: nat, p: nat, buf: Page)
    requires s.Shape() && src < s.Geo().blocks && dst < s.Geo().blocks && p <= s.Geo().pages
    ensures MoveLive(s, src, dst, p, buf).0.stats == s.stats.(nand := MoveLive(s, src, dst, p, buf).0.stats.nand)
    decreases s.Geo().pages - p
  {
    hide PageRead, PageWrite, MarkInvalid;
    if p < s.Geo().pages {
      if Live(s, src, p) {
        var (_, s1, data) := MovePage(s, src, dst, p, buf);
        MoveLiveStats(s1, src, dst, p + 1, data);
      } else {
        MoveLiveStats(s, src, dst, p + 1, buf);
      }
    }
  }

  lemma RelocateStats(s: Ftl, src: nat, dst: nat, draw: bool, buf: Page)
    requires s.Shape() && src < s.Geo().blocks && dst < s.Geo().blocks
    ensures var s' := Relocate(s, src, dst, draw, buf).0; s'.stats == s.stats.(nand := s'.stats.nand)
  {
    MoveLiveStats(s, src, dst, 0, buf);
  }

  // ---- garbage collection

  lemma {:induction false} GcScanErases(s: Ftl, v: nat, p: nat, buf: Page)
    requires s.Shape() && v < s.Geo().blocks && p <= s.Geo().pages
    ensures var s' := GcScan(s, v, p, buf).1;
            && s'.stats.gcCount == s.stats.gcCount && s'.nand.wearLimit == s.nand.wearLimit
            && s'.nand.blocks[v].erases == s.nand.blocks[v].erases
    decreases s.Geo().pages - p
  {
    hide GcMove;
    if p < s.Geo().pages {
      if Live(s, v, p) {
        GcMoveErases(s, v, p, buf);
        GcMoveCount(s, v, p, buf);
        var (code, s1, data) := GcMove(s, v, p, buf);
        if code == Ok { GcScanErases(s1, v, p + 1, data); }
      } else {
        GcScanErases(s, v, p + 1, buf);
      }
    }
  }

  lemma GcMoveCount(s: Ftl, v: nat, p: nat, buf: Page)
    requires s.Shape() && v < s.Geo().blocks && p < s.Geo().pages && Live(s, v, p)
    ensures GcMove(s, v, p, buf).1.stats.gcCount == s.stats.gcCount
  {
    hide PageRead, PageWrite, FirstFree;
  }

  /**
   A pass is counted however it ends; a successful one leaves its victim FREE, clean, unmapped, and erased once more.
   */
  lemma GcPassEmpties(s: Ftl, v: nat, draw: bool, buf: Page)
    requires Inv(s) && v < s.Geo().blocks
    ensures var (code, s') := GcPass(s, v, draw, buf);
            && s'.stats.gcCount == s.stats.gcCount + 1
            && (code == Ok ==>
                  && s'.nand.blocks[v] == Block(Free, s.nand.blocks[v].erases + 1, 0, 0, AllFalse(s.Geo().pages))
                  && NoneBelow(s', v, s.Geo().pages))
  {
    hide Inv, Safe, GcScan;
    var s0 := s.(stats := s.stats.(gcCount := s.stats.gcCount + 1));
    CountersIrrelevant(s, s0.stats, s.wal);
    assert s0 == s.(stats := s0.stats, wal := s.wal);
    GcScanKeeps(s0, v, 0, buf);
    GcScanErases(s0, v, 0, buf);
  }

  // ---- replacement

  lemma {:induction false} RemapLeaves(s: Ftl, src: nat, dst: nat, p: nat, lpn: nat)
    requires s.Shape() && src < s.Geo().blocks && dst < s.Geo().blocks && src != dst && p <= s.Geo().pages
    requires lpn < |s.l2p|
    requires forall q :: p <= q < s.Geo().pages ==> s.rmap[s.Geo().Ppn(src, q)] != lpn
    ensures RemapBlock(s, src, dst, p).0.l2p[lpn] == s.l2p[lpn]
    decreases s.Geo().pages - p
  {
    hide Geometry.Ppn;
    if p < s.Geo().pages {
      var from := s.Geo().Ppn(src, p);
      if s.rmap[from] == INVALID {
        RemapLeaves(s, src, dst, p + 1, lpn);
      } else {
        RemapLeaves(Remap(s, s.rmap[from], from, s.Geo().Ppn(dst, p)), src, dst, p + 1, lpn);
      }
    }
  }

  /** The remapping loop sends the owner of page `at` of the old block to page `at` of the new one. */
  lemma {:induction false} RemapLands(s: Ftl, src: nat, dst: nat, p: nat, at: nat)
    requires s.Shape() && src < s.Geo().blocks && dst < s.Geo().blocks && src != dst && p <= at < s.Geo().pages
    requires s.rmap[s.Geo().Ppn(src, at)] != INVALID
    requires forall q :: p <= q < s.Geo().pages && q != at ==>
               s.rmap[s.Geo().Ppn(src, q)] != s.rmap[s.Geo().Ppn(src, at)]
    ensures RemapBlock(s, src, dst, p).0.l2p[s.rmap[s.Geo().Ppn(src, at)]] == s.Geo().Ppn(dst, at)
    decreases s.Geo().pages - p
  {
    hide Geometry.Ppn;
    var from := s.Geo().Ppn(src, p);
    if s.rmap[from] == INVALID {
      RemapLands(s, src, dst, p + 1, at);
    } else {
      var s1 := Remap(s, s.rmap[from], from, s.Geo().Ppn(dst, p));
      if p == at { RemapLeaves(s1, src, dst, p + 1, s.rmap[from]); } else { RemapLands(s1, src, dst, p + 1, at); }
    }
  }

  /**
   A replacement retires the block: it is bad afterwards, the write position moves along if it was the open block, and
   every LPN stored in it is found at the same offset of the spare.
   */
  lemma ReplaceRetires(s: Ftl, b: nat, buf: Page, lpn: nat)
    requires Inv(s) && ReplaceBlock(s, b, buf).0 == Ok
    ensures var s' := ReplaceBlock(s, b, buf).1;
            && b < s.Geo().blocks && Spare(s.nand).Some?
            && s'.nand.blocks[b].state == Bad
            && s'.wb == (if s.wb == b then Spare(s.nand).value else s.wb) && s'.wp == s.wp
            && (lpn < s.Geo().lpns && s.l2p[lpn] != INVALID && s.Geo().BlockOf(s.l2p[lpn]) == b ==>
                  s'.l2p[lpn] == s.Geo().Ppn(Spare(s.nand).value, s.Geo().PageOf(s.l2p[lpn])))
  {
    hide Logical, Counts, CopyValid, RemapBlock, Geometry.Ppn, OpenOk;
    ReplaceBlockKeeps(s, b, buf);
    var dst := Spare(s.nand).value;
    if s.nand.blocks[b].state == Used {
      FreeIsClean(s, dst);
      ReplaceUsedUnfolds(s, b, buf);
      if lpn < s.Geo().lpns && s.l2p[lpn] != INVALID && s.Geo().BlockOf(s.l2p[lpn]) == b {
        var n2 := CopyValid(AllocReserved(s.nand).1, b, dst, 0, buf);
        RemapMapped(s, n2, lpn, dst);
      }
    } else {
      ReplaceBad(s, b, buf);
      HomesAreGood(s);
    }
  }

  lemma HomesAreGood(s: Ftl)
    requires Core(s)
    ensures forall lpn :: 0 <= lpn < |s.l2p| && s.l2p[lpn] != INVALID ==>
              s.nand.blocks[s.Geo().BlockOf(s.l2p[lpn])].state != Bad
  {
    forall lpn | 0 <= lpn < |s.l2p| && s.l2p[lpn] != INVALID
      ensures s.nand.blocks[s.Geo().BlockOf(s.l2p[lpn])].state != Bad
    {
      assert s.rmap[s.l2p[lpn]] == lpn && Sound(s.nand, s.l2p[lpn]);
    }
  }

  /** The remapping loop, for one mapped LPN of the block. */
  lemma RemapMapped(s: Ftl, n: Nand, lpn: nat, dst: nat)
    requires Core(s) && lpn < s.Geo().lpns && s.l2p[lpn] != INVALID && n.Shape() && n.geo == s.Geo()
    requires dst < s.Geo().blocks && dst != s.Geo().BlockOf(s.l2p[lpn])
    ensures RemapBlock(s.(nand := n), s.Geo().BlockOf(s.l2p[lpn]), dst, 0).0.l2p[lpn]
            == s.Geo().Ppn(dst, s.Geo().PageOf(s.l2p[lpn]))
  {
    hide Mapped, Counts;
    var ppn := s.l2p[lpn];
    var b, p := s.Geo().BlockOf(ppn), s.Geo().PageOf(ppn);
    s.Geo().PpnOfParts(ppn);
    forall q | 0 <= q < s.Geo().pages && q != p
      ensures s.rmap[s.Geo().Ppn(b, q)] != s.rmap[s.Geo().Ppn(b, p)]
    {
      assert s.Geo().PageOf(s.Geo().Ppn(b, q)) == q;
    }
    RemapLands(s.(nand := n), b, dst, 0, p);
  }
}
