/**
 What it costs where the code does not keep the invariant: in every state of each kind that the exact conditions of
 FtlRelocation and FtlSteps shut out.  FtlScenarios shows that runs from new media come to such states.
 */
module FtlLosses {
  import opened Common
  import opened Layout
  import opened NandModel
  import opened WalModel
  import opened FtlModel
  import opened FtlInvariant
  import opened FtlRelocation
  import opened FtlMoves
  import opened FtlChoices
  import opened FtlSteps
  import opened FtlRuns

  // ---- a forged count

  /**
   What forging costs, in every state where it happens: trimming any LPN stored in the forged block
   marks that block FREE although another page of it is still valid.
   */
  lemma ForgedTrimFrees(s: Ftl, lpn: nat, wrote: nat -> bool)
    requires Inv(s) && Forges(s.nand) && lpn < s.Geo().lpns && s.l2p[lpn] != INVALID
    requires Some(s.Geo().BlockOf(s.l2p[lpn])) == ColdBlock(s.nand)
    ensures var c := s.Geo().BlockOf(s.l2p[lpn]);
            var s' := TrimOne(WearCheck(s), lpn, wrote);
            && s'.nand.blocks[c].state == Free
            && exists p :: 0 <= p < s.Geo().pages && s'.nand.blocks[c].valid[p]
  {
    hide WearScan, Logical, Seal;
    var c := s.Geo().BlockOf(s.l2p[lpn]);
    var p := s.Geo().PageOf(s.l2p[lpn]);
    assert s.rmap[s.l2p[lpn]] == lpn && Sound(s.nand, s.l2p[lpn]);
    ColdIsUsed(s.nand.blocks, s.Geo().User());
    CountTrueUpdate(s.nand.blocks[c].valid, p, false);
    CountTrueZero(s.nand.blocks[c].valid[p := false]);
    var q :| 0 <= q < s.Geo().pages && s.nand.blocks[c].valid[p := false][q];
    assert TrimOne(WearCheck(s), lpn, wrote).nand.blocks[c].valid[q];
  }

  // ---- the cost: the next GC pass over the open block destroys the page

  lemma {:induction false} ScanSkips(s: Ftl, v: nat, p: nat, q: nat, buf: Page)
    requires s.Shape() && v < s.Geo().blocks && p <= q <= s.Geo().pages
    requires forall i :: p <= i < q ==> !Live(s, v, i)
    ensures GcScan(s, v, p, buf) == GcScan(s, v, q, buf)
    decreases q - p
  {
    if p < q { ScanSkips(s, v, p + 1, q, buf); }
  }

  /** Moving a live page of the open block from above the write pointer puts it behind the scan. */
  lemma GcMoveBehind(s: Ftl, p: nat, buf: Page)
    requires Core(s) && p < s.Geo().pages && Live(s, s.wb, p) && s.wp < p && !s.nand.IsValid(s.wb, s.wp)
    ensures var lpn := s.rmap[s.Geo().Ppn(s.wb, p)];
            var (code, s', _) := GcMove(s, s.wb, p, buf);
            && lpn < |s.l2p| && code == Ok && s'.wb == s.wb && s'.l2p[lpn] == s.Geo().Ppn(s.wb, s.wp)
            && s'.nand.blocks[s.wb].state == Used
            && s'.nand.blocks[s.wb].erases == s.nand.blocks[s.wb].erases && s'.nand.wearLimit == s.nand.wearLimit
            && forall q :: p < q < s.Geo().pages ==> Live(s', s.wb, q) == Live(s, s.wb, q)
  {
    hide Logical, Seal, Readout, Inverses, Counts;
    assert Sound(s.nand, s.Geo().Ppn(s.wb, p));
  }

  /** The scan then ends with that move. */
  lemma ScanBehind(s: Ftl, p: nat, buf: Page)
    requires Core(s) && p < s.Geo().pages && Live(s, s.wb, p) && s.wp < p && !s.nand.IsValid(s.wb, s.wp)
    requires forall q :: 0 <= q < s.Geo().pages && q != p ==> !Live(s, s.wb, q)
    ensures GcScan(s, s.wb, 0, buf) == (Ok, GcMove(s, s.wb, p, buf).1)
  {
    hide Core, Sane, Safe, GcMove, Live;
    ScanSkips(s, s.wb, 0, p, buf);
    GcMoveBehind(s, p, buf);
    LiveIsOwned(s, s.wb, p);
    var (_, s1, data) := GcMove(s, s.wb, p, buf);
    ScanSkips(s1, s.wb, p + 1, s.Geo().pages, data);
  }

  /**
   Whenever the open block holds exactly one live page and that page lies above the write pointer, a
   GC pass over it succeeds and the LPN stored there is gone: the next read finds nothing.
   */
  lemma GcLosesPage(s: Ftl, p: nat, draw: bool, buf: Page)
    requires Core(s) && p < s.Geo().pages && Live(s, s.wb, p) && s.wp < p && !s.nand.IsValid(s.wb, s.wp)
    requires forall q :: 0 <= q < s.Geo().pages && q != p ==> !Live(s, s.wb, q)
    requires !WearsOut(s.nand, s.wb, draw)
    ensures var lpn := s.rmap[s.Geo().Ppn(s.wb, p)];
            var (code, s') := GcPass(s, s.wb, draw, buf);
            lpn < |s.l2p| && code == Ok && Logical(s)[lpn].Some? && Read(s', lpn, buf).0 == NotMapped
  {
    hide Core, Sane, Safe, Logical, GcMove, GcScan;
    var s0 := s.(stats := s.stats.(gcCount := s.stats.gcCount + 1));
    CountersIrrelevant(s, s0.stats, s.wal);
    assert s0 == s.(stats := s0.stats, wal := s.wal);
    assert forall q :: 0 <= q < s.Geo().pages ==> Live(s0, s.wb, q) == Live(s, s.wb, q);
    ScanBehind(s0, p, buf);
    GcMoveBehind(s0, p, buf);
    StoredAt(s, s.wb, p);
  }

  lemma StoredAt(s: Ftl, b: nat, p: nat)
    requires Core(s) && b < s.Geo().blocks && p < s.Geo().pages && Live(s, b, p)
    ensures var lpn := s.rmap[s.Geo().Ppn(b, p)]; lpn < s.Geo().lpns && Logical(s)[lpn].Some?
  {
  }

  /**
   Read disturb with the open block as its destination: every live page of the source is found there, at its offset.
   */
  lemma DisturbIntoOpen(s: Ftl, src: nat, draw: bool)
    requires Inv(s) && Disturbed(s.nand) == Some(src) && NextFree(s.nand, 0) == Some(s.wb)
    ensures var s1 := ReadDisturb(s, draw, []).1;
            && Core(s1) && s1.Geo() == s.Geo() && s1.wb == s.wb && s1.wp == s.wp
            && WearsOut(s1.nand, s.wb, false) == false
            && (forall q :: 0 <= q < s.Geo().pages ==> s1.nand.IsValid(s.wb, q) == Live(s, src, q))
            && (forall q :: 0 <= q < s.Geo().pages && Live(s, src, q) ==>
                  s1.rmap[s.Geo().Ppn(s.wb, q)] == s.rmap[s.Geo().Ppn(src, q)])
  {
    hide Inv, Core, Sane, Safe, OpenOk, Logical, MoveLive, NextFree, Disturbed, LiveBelowPointer;
    FreeIsClean(s, s.wb);
    RelocateKeeps(s, src, s.wb, draw, []);
    RelocateLands(s, src, s.wb, draw, []);
    MoveLiveKeeps(s, src, s.wb, 0, []);
  }

  /**
   In every state in which read-disturb handling picks the open block as its destination, and the only live page of the
   block read too often lies above the write pointer: after the handling and one GC pass over the open block, the LPN
   that was stored there reads NOT_MAPPED.
   */
  lemma DisturbThenGcLosesData(s: Ftl, src: nat, p: nat, draw: bool)
    requires Inv(s) && Disturbed(s.nand) == Some(src) && NextFree(s.nand, 0) == Some(s.wb)
    requires s.wp < p < s.Geo().pages && Live(s, src, p)
    requires forall q :: 0 <= q < s.Geo().pages && q != p ==> !Live(s, src, q)
    ensures var lpn := s.rmap[s.Geo().Ppn(src, p)];
            var s1 := ReadDisturb(s, draw, []).1;
            var (code, s2) := GcPass(s1, s1.wb, false, []);
            lpn < s.Geo().lpns && Read(s, lpn, []).0 == Ok && code == Ok && Read(s2, lpn, []).0 == NotMapped
  {
    hide Inv, Core, Sane, Safe, OpenOk, Logical, GcPass, ReadDisturb, Read, NextFree, Disturbed;
    DisturbIntoOpen(s, src, draw);
    var s1 := ReadDisturb(s, draw, []).1;
    assert s1.nand.IsValid(s.wb, p) && !s1.nand.IsValid(s.wb, s.wp);
    GcLosesPage(s1, p, false, []);
    var lpn := s.rmap[s.Geo().Ppn(src, p)];
    StoredAt(s, src, p);
    ReadMeetsContent(s, lpn, []);
  }

  // ---- relocation into a FREE block that still holds a valid page

  /** A page whose place in the destination is valid is passed over. */
  lemma MovePassesOver(s: Ftl, src: nat, dst: nat, p: nat, buf: Page)
    requires Sane(s) && src < s.Geo().blocks && dst < s.Geo().blocks && p < s.Geo().pages && src != dst
    requires Live(s, src, p) && s.nand.blocks[dst].state != Bad && s.nand.blocks[dst].valid[p]
    ensures var s' := MovePage(s, src, dst, p, buf).1;
            && Sane(s') && s'.l2p == s.l2p && s'.rmap == s.rmap && s'.wb == s.wb
            && (forall i :: 0 <= i < s.Geo().blocks ==>
                  && s'.nand.blocks[i].state == s.nand.blocks[i].state
                  && s'.nand.blocks[i].valid == s.nand.blocks[i].valid)
  {
    hide Sane, OpenOk, Counts, Logical, Readout;
    LiveIsSound(s, src, p);
    ReadStep(s, src, p, buf);
  }

  /** The relocation loop leaves the owner of such a page where it was. */
  lemma {:induction false} MoveLeaves(s: Ftl, src: nat, dst: nat, p: nat, at: nat, buf: Page)
    requires Sane(s) && src < s.Geo().blocks && dst < s.Geo().blocks && p <= s.Geo().pages && src != dst
    requires at < s.Geo().pages && Live(s, src, at)
    requires s.nand.blocks[dst].state != Bad && s.nand.blocks[dst].valid[at]
    ensures var lpn := s.rmap[s.Geo().Ppn(src, at)];
            lpn < s.Geo().lpns && MoveLive(s, src, dst, p, buf).0.l2p[lpn] == s.Geo().Ppn(src, at)
    ensures MoveLive(s, src, dst, p, buf).0.nand.blocks[src].state != Bad
    decreases s.Geo().pages - p
  {
    hide Sane, Counts, OpenOk, Logical, MovePage, Geometry.Ppn;
    OwnerIs(s, src, at);
    if p < s.Geo().pages {
      if Live(s, src, p) {
        LiveIsSound(s, src, p);
        var (_, s1, data) := MovePage(s, src, dst, p, buf);
        if s.nand.blocks[dst].valid[p] {
          MovePassesOver(s, src, dst, p, buf);
        } else {
          MovePageKeeps(s, src, dst, p, buf);
          MovePageEffect(s, src, dst, p, buf);
          OtherOwner(s, s1, src, dst, p, at);
        }
        MoveLeaves(s1, src, dst, p + 1, at, data);
      } else {
        MoveLeaves(s, src, dst, p + 1, at, buf);
      }
    }
  }

  lemma OwnerIs(s: Ftl, b: nat, p: nat)
    requires Sane(s) && b < s.Geo().blocks && p < s.Geo().pages && Live(s, b, p)
    ensures var lpn := s.rmap[s.Geo().Ppn(b, p)]; lpn < s.Geo().lpns && s.l2p[lpn] == s.Geo().Ppn(b, p)
    ensures s.nand.blocks[b].state != Bad
  {
    LiveIsSound(s, b, p);
  }

  lemma OtherOwner(s: Ftl, s1: Ftl, src: nat, dst: nat, p: nat, at: nat)
    requires s.Shape() && s1.Shape() && s1.Geo() == s.Geo() && src < s.Geo().blocks && dst < s.Geo().blocks
    requires src != dst
    requires p < s.Geo().pages && at < s.Geo().pages && p != at && Live(s, src, at)
    requires s1.rmap == s.rmap[s.Geo().Ppn(dst, p) := s.rmap[s.Geo().Ppn(src, p)]][s.Geo().Ppn(src, p) := INVALID]
    requires s1.nand.blocks[src].valid == s.nand.blocks[src].valid[p := false]
    ensures Live(s1, src, at) && s1.rmap[s1.Geo().Ppn(src, at)] == s.rmap[s.Geo().Ppn(src, at)]
  {
    OwnersApart(s, s1, src, dst, p);
  }

  /**
   In every state in which read-disturb handling picks a destination in which page `p` is still valid, although the
   block is FREE: an LPN stored in page `p` of the source reads OK before and NOT_MAPPED after.
   */
  lemma DirtyDestinationLoses(s: Ftl, src: nat, dst: nat, p: nat)
    requires Safe(s) && Disturbed(s.nand) == Some(src) && NextFree(s.nand, 0) == Some(dst)
    requires p < s.Geo().pages && Live(s, src, p) && s.nand.blocks[dst].valid[p]
    ensures var lpn := s.rmap[s.Geo().Ppn(src, p)];
            && lpn < s.Geo().lpns && Read(s, lpn, []).0 == Ok
            && Read(ReadDisturb(s, false, []).1, lpn, []).0 == NotMapped
  {
    hide Sane, OpenOk, Counts, Logical, MoveLive, NextFree, Disturbed;
    OwnerIs(s, src, p);
    ReadMeetsContent(s, s.rmap[s.Geo().Ppn(src, p)], []);
    MoveLeaves(s, src, dst, 0, p, []);
  }

  // ---- a replacement into the open block

  /** Replacing a USED block when the spare is the open block: what was valid in it is valid there. */
  lemma ReplaceIntoOpen(s: Ftl, b: nat)
    requires Inv(s) && b < s.Geo().blocks && s.nand.blocks[b].state == Used && Spare(s.nand) == Some(s.wb)
    ensures var (code, s') := ReplaceBlock(s, b, []);
            && code == Ok && s'.wb == s.wb && s'.wp == s.wp && s'.wal == s.wal
            && s'.nand.blocks[s.wb].state != Bad
            && (forall q :: 0 <= q < s.Geo().pages && s.nand.blocks[b].valid[q] ==> s'.nand.blocks[s.wb].valid[q])
            && (NeedsGc(s'.nand) <==> NeedsGc(s.nand))
  {
    hide Inv, Core, Sane, Safe, OpenOk, CopyValid, MarkBad, RemapBlock, ReplaceBlock, FirstFree;
    SpareInReserve(s.nand);
    FreeIsClean(s, s.wb);
    ReplaceUsedUnfolds(s, b, []);
    var n1 := AllocReserved(s.nand).1;
    CopyValidEffect(n1, b, s.wb, 0, []);
    var n2 := CopyValid(n1, b, s.wb, 0, []);
    MarkBadEffect(n2, b);
    MarkedState(n2, b);
    FreeBelowSame(s.nand.blocks, ReplaceBlock(s, b, []).1.nand.blocks, s.Geo().User());
  }

  lemma MarkedState(n: Nand, b: nat)
    requires n.Shape() && b < n.geo.blocks
    ensures MarkBad(n, b).blocks[b].state == Bad
  {
  }

  lemma SpareInReserve(n: Nand)
    requires n.Shape() && Spare(n).Some?
    ensures n.geo.User() <= Spare(n).value < n.geo.blocks && n.blocks[Spare(n).value].state == Free
  {
  }

  /**
   In every state in which the spare is the open block and the replaced block holds a valid page at the write position:
   after the replacement, a write that needs no garbage collection answers OVERWRITE.
   */
  lemma SpareThenOverwrite(s: Ftl, b: nat, lpn: nat, data: Page, env: Env)
    requires Inv(s) && b < s.Geo().blocks && s.nand.blocks[b].state == Used && Spare(s.nand) == Some(s.wb)
    requires s.wp < s.Geo().pages && s.nand.blocks[b].valid[s.wp] && !NeedsGc(s.nand)
    requires lpn < s.Geo().lpns && (s.wal == None || env.wrote)
    requires forall i :: 0 <= i < |env.passes| ==> env.passes[i].victim < s.Geo().blocks
    ensures Write(ReplaceBlock(s, b, []).1, lpn, data, env).0 == Done(Overwrite)
  {
    hide Inv, Safe, ReplaceBlock, NeedsGc, AllocReserved;
    ReplaceIntoOpen(s, b);
    OverwriteAnswer(ReplaceBlock(s, b, []).1, lpn, data, env);
  }

  lemma OverwriteAnswer(s: Ftl, lpn: nat, data: Page, env: Env)
    requires s.Shape() && s.wp < s.Geo().pages && s.nand.blocks[s.wb].state != Bad && s.nand.blocks[s.wb].valid[s.wp]
    requires !NeedsGc(s.nand) && lpn < s.Geo().lpns && (s.wal == None || env.wrote)
    requires forall i :: 0 <= i < |env.passes| ==> env.passes[i].victim < s.Geo().blocks
    ensures Write(s, lpn, data, env).0 == Done(Overwrite)
  {
    hide NeedsGc, Seal;
  }

  // ---- a block marked bad from outside while it holds data

  /** Marking a block bad keeps the invariant exactly if nothing is mapped there. */
  lemma MarkBadKeeps(s: Ftl, b: nat)
    requires Inv(s) && b < s.Geo().blocks
    ensures Inv(s.(nand := MarkBad(s.nand, b))) <==> NoneBelow(s, b, s.Geo().pages)
  {
    hide Logical;
    var s' := s.(nand := MarkBad(s.nand, b));
    if NoneBelow(s, b, s.Geo().pages) {
      MarkBadStep(s, b);
      MarkBadEffect(s.nand, b);
    } else {
      var p :| 0 <= p < s.Geo().pages && s.rmap[s.Geo().Ppn(b, p)] != INVALID;
      assert !Sound(s'.nand, s.Geo().Ppn(b, p));
    }
  }

  /**
   What it costs otherwise: if a block is marked bad while it holds data and is then replaced, every LPN stored
   there is sent to a page of the spare that was never written, and reading it finds nothing.
   */
  lemma MarkedBadLosesData(s: Ftl, lpn: nat, buf: Page)
    requires Inv(s) && lpn < s.Geo().lpns && s.l2p[lpn] != INVALID && Spare(s.nand).Some?
    ensures var b := s.Geo().BlockOf(s.l2p[lpn]);
            var (code, s') := ReplaceBlock(s.(nand := MarkBad(s.nand, b)), b, []);
            code == Ok && Logical(s)[lpn].Some? && Read(s', lpn, buf).0 == NotMapped
  {
    hide Logical;
    var ppn := s.l2p[lpn];
    var b, p := s.Geo().BlockOf(ppn), s.Geo().PageOf(ppn);
    s.Geo().PpnOfParts(ppn);
    LiveIsUsed(s, b, p);
    var n := MarkBad(s.nand, b);
    MarkBadEffect(s.nand, b);
    var dst := Spare(s.nand).value;
    SameSpare(s.nand, n, b);
    FreeIsClean(s, dst);
    CopyFromBad(AllocReserved(n).1, b, dst, 0, []);
    RemapMapped(s, AllocReserved(n).1, lpn, dst);
  }

  /**
   ftl_read does that by itself: reading an LPN stored in such a block answers BAD_BLOCK, hands nothing out and replaces
   the block, and from then on the LPN reads NOT_MAPPED.
   */
  lemma BadReadLosesData(s: Ftl, lpn: nat, buf: Page)
    requires Inv(s) && lpn < s.Geo().lpns && s.l2p[lpn] != INVALID && Spare(s.nand).Some?
    ensures var b := s.Geo().BlockOf(s.l2p[lpn]);
            var (code, data, s') := Read(s.(nand := MarkBad(s.nand, b)), lpn, buf);
            && code == BadBlock && data == buf && s'.stats.replaceCount == s.stats.replaceCount + 1
            && Read(s', lpn, buf).0 == NotMapped
  {
    hide Inv, Logical, Replace, RemapBlock, Spare, Readout;
    MarkedBadLosesData(s, lpn, buf);
    MarkedState(s.nand, s.Geo().BlockOf(s.l2p[lpn]));
  }

  lemma SameSpare(n: Nand, n': Nand, b: nat)
    requires n.Shape() && n'.Shape() && n'.geo == n.geo && n'.reservedLeft == n.reservedLeft && b < n.geo.blocks
    requires n.blocks[b].state != Free && n'.blocks[b].state != Free
    requires forall i :: 0 <= i < n.geo.blocks && i != b ==> n'.blocks[i] == n.blocks[i]
    ensures Spare(n') == Spare(n)
  {
    SameFirstFree(n.blocks, n'.blocks, n.geo.User(), n.geo.blocks);
  }
}
