/**
 With forged counts a FREE block may still hold a valid page.  What it costs when a write or garbage collection opens
 such a block: exactly when the write pointer invariant survives, and which calls fail.
 */
module FtlDirty {
  import opened Common
  import opened Layout
  import opened NandModel
  import opened WalModel
  import opened FtlModel
  import opened FtlInvariant
  import opened FtlRelocation
  import opened FtlSteps
  import opened FtlChoices
  import opened FtlRotation
  import opened FtlScript
  import opened FtlLosses

  /** The next allocation opens FREE block `b`. */
  ghost predicate Opens(s: Ftl, b: nat)
    requires s.Shape()
    ensures Opens(s, b) ==> b < s.Geo().blocks && s.nand.blocks[b].state == Free
  {
    s.wp == s.Geo().pages && NextFree(s.nand, s.wb + 1) == Some(b)
  }

  /** Opening it leaves the state safe exactly if nothing is valid from its second page on. */
  lemma AllocSafeIff(s: Ftl, b: nat)
    requires Sane(s) && Opens(s, b)
    ensures Alloc(s) == (Some(s.Geo().Ppn(b, 0)), s.(wb := b, wp := 1))
    ensures Safe(Alloc(s).1) <==> CleanFrom(s.nand, b, 1)
  {
    hide Sane, NextFree;
    PointerMoved(s, s.(wb := b, wp := 1));
  }

  /** A write that needs no garbage collection and can be logged. */
  ghost predicate Unhindered(s: Ftl, lpn: nat, env: Env)
    requires s.Shape()
  {
    && !NeedsGc(s.nand) && lpn < s.Geo().lpns && (s.wal == None || env.wrote)
    && forall i :: 0 <= i < |env.passes| ==> env.passes[i].victim < s.Geo().blocks
  }

  /** If the first page of the block is valid, the write fails, and nothing stored is lost. */
  lemma DirtyOverwrite(s: Ftl, b: nat, lpn: nat, data: Page, env: Env)
    requires Sane(s) && Opens(s, b) && s.nand.blocks[b].valid[0] && Unhindered(s, lpn, env)
    ensures var (end, s') := Write(s, lpn, data, env);
            end == Done(Overwrite) && Logical(s') == Logical(s) && (Safe(s') <==> CleanFrom(s.nand, b, 1))
  {
    hide Sane, OpenOk, NextFree, NeedsGc, Logical, Seal;
    AllocSafeIff(s, b);
    var s2 := Alloc(s).1;
    var s' := Write(s, lpn, data, env).1;
    assert s' == s2.(wal := s'.wal);
    CountersIrrelevant(s2, s2.stats, s'.wal);
    assert s' == s2.(stats := s2.stats, wal := s'.wal);
    assert Logical(s2) == Logical(s);
  }

  lemma ProgramClean(s: Ftl, b: nat, p: nat, data: Page)
    requires s.Shape() && b < s.Geo().blocks && p < s.Geo().pages
    requires s.nand.blocks[b].state != Bad && !s.nand.blocks[b].valid[p]
    ensures Program(s, s.Geo().Ppn(b, p), data) ==
            (Ok, s.Geo().Ppn(b, p), s.(nand := PageWrite(s.nand, b, p, data).1))
  {
    hide Seal, ReplaceBlock, Alloc;
  }

  /** What the write has done before its table updates. */
  ghost function Landing(s: Ftl, b: nat, data: Page, wal: Option<Wal>): (r: Ftl)
    requires s.Shape() && b < s.Geo().blocks
    ensures r.Shape() && r.Geo() == s.Geo()
  {
    s.(wb := b, wp := 1, nand := PageWrite(s.nand, b, 0, data).1, wal := wal)
  }

  /** If it is not, the page is programmed there. */
  lemma DirtyBody(s: Ftl, b: nat, lpn: nat, data: Page, env: Env)
    requires s.Shape() && Sane(s) && Opens(s, b) && !s.nand.blocks[b].valid[0] && Unhindered(s, lpn, env)
    ensures var s' := WriteBody(s, lpn, data, env).1;
            WriteBody(s, lpn, data, env) ==
            (Done(Ok), Commit(Landing(s, b, data, s'.wal), lpn, s.Geo().Ppn(b, 0)))
  {
    hide Sane, OpenOk, NextFree, NeedsGc, Commit, Program, PageWrite, Alloc;
    AllocSafeIff(s, b);
    var (slot, s2) := Alloc(s);
    var s3 := Log(s2, OpWrite, lpn, s2.l2p[lpn], slot.value, env.wrote).1;
    ProgramClean(s3, b, 0, data);
    CommitLog(s3.(nand := PageWrite(s3.nand, b, 0, data).1), lpn, slot.value);
  }

  lemma CommitLog(s: Ftl, lpn: nat, to: nat)
    requires s.Shape() && lpn < s.Geo().lpns && to < s.Geo().Total()
    ensures Commit(s, lpn, to).wal == s.wal && Commit(s, lpn, to).wb == s.wb && Commit(s, lpn, to).wp == s.wp
  {
  }

  lemma LandingLands(s: Ftl, b: nat, data: Page, wal: Option<Wal>)
    requires Sane(s) && Opens(s, b) && !s.nand.blocks[b].valid[0]
    ensures var r := Landing(s, b, data, wal);
            && Sane(r) && Logical(r) == Logical(s) && Landed(r, s.Geo().Ppn(b, 0), data)
            && r.nand.blocks[b].valid == s.nand.blocks[b].valid[0 := true] && r.nand.blocks[b].state == Used
            && r.l2p == s.l2p && r.rmap == s.rmap
            && forall q :: 0 <= q < s.Geo().Total() && q != s.Geo().Ppn(b, 0) ==> r.nand.media[q] == s.nand.media[q]
  {
    hide Sane, OpenOk, NextFree, Logical;
    ProgramStep(s, b, 0, data);
    var s1 := s.(nand := PageWrite(s.nand, b, 0, data).1);
    CountersIrrelevant(s1, s1.stats, wal);
    var s2 := s1.(stats := s1.stats, wal := wal);
    PointerMoved(s2, s2.(wb := b, wp := 1));
    assert Landing(s, b, data, wal) == s2.(wb := b, wp := 1);
    assert Logical(s2.(wb := b, wp := 1)) == Logical(s2);
  }

  /** The table updates, whatever lies above the write pointer. */
  lemma CommitAnyway(s: Ftl, lpn: nat, slot: nat, data: Page)
    requires Sane(s) && lpn < s.Geo().lpns && slot < s.Geo().Total() && Landed(s, slot, data)
    ensures var s' := Commit(s, lpn, slot); Sane(s') && Logical(s') == Logical(s)[lpn := Some(data)]
  {
    hide Sane, Logical, Commit;
    var above := s.(wp := s.Geo().pages);
    PointerMoved(s, above);
    CommitKeeps(above, lpn, slot, data);
    CommitPointer(s, lpn, slot);
    var s' := Commit(s, lpn, slot);
    PointerMoved(s', s'.(wp := s.Geo().pages));
    assert Logical(above) == Logical(s);
    assert Logical(s'.(wp := s.Geo().pages)) == Logical(s');
  }

  lemma CommitPointer(s: Ftl, lpn: nat, slot: nat)
    requires s.Shape() && lpn < s.Geo().lpns && slot < s.Geo().Total()
    ensures Commit(s.(wp := s.Geo().pages), lpn, slot) == Commit(s, lpn, slot).(wp := s.Geo().pages)
  {
    hide MarkInvalid;
  }

  /** What they do to the block just opened. */
  lemma CommitValid(s: Ftl, lpn: nat, b: nat)
    requires Sane(s) && lpn < s.Geo().lpns && b < s.Geo().blocks && s.nand.blocks[b].state != Bad
    ensures var s' := Commit(s, lpn, s.Geo().Ppn(b, 0));
            && s'.wb == s.wb && s'.wp == s.wp && s'.nand.blocks[b].state != Bad
            && forall p :: 0 <= p < s.Geo().pages ==>
                 (s'.nand.blocks[b].valid[p] <==> s.nand.blocks[b].valid[p] && s.l2p[lpn] != s.Geo().Ppn(b, p))
  {
    hide Sane;
    var from := s.l2p[lpn];
    if from != INVALID {
      HomeSound(s, lpn);
      s.Geo().PpnOfParts(from);
      forall p | 0 <= p < s.Geo().pages
        ensures from == s.Geo().Ppn(b, p) <==> s.Geo().BlockOf(from) == b && s.Geo().PageOf(from) == p
      {
      }
    }
  }

  /**
   The write is stored, and the write pointer invariant survives it exactly if from the second page of the block on
   nothing is valid but the page it replaces.
   */
  lemma DirtyWrite(s: Ftl, b: nat, lpn: nat, data: Page, env: Env)
    requires Sane(s) && Opens(s, b) && !s.nand.blocks[b].valid[0] && Unhindered(s, lpn, env)
    ensures var (end, s') := WriteBody(s, lpn, data, env);
            && end == Done(Ok) && Logical(s') == Logical(s)[lpn := Some(data)]
            && (Safe(s') <==> forall p :: 1 <= p < s.Geo().pages && s.nand.blocks[b].valid[p] ==>
                                s.l2p[lpn] == s.Geo().Ppn(b, p))
  {
    hide Sane, NextFree, NeedsGc, Logical, Commit, Landed, WriteBody, Landing;
    DirtyBody(s, b, lpn, data, env);
    var s' := WriteBody(s, lpn, data, env).1;
    LandingLands(s, b, data, s'.wal);
    var s3 := Landing(s, b, data, s'.wal);
    CommitAnyway(s3, lpn, s.Geo().Ppn(b, 0), data);
    CommitValid(s3, lpn, b);
    LandingAt(s, b, data, s'.wal);
  }

  lemma LandingAt(s: Ftl, b: nat, data: Page, wal: Option<Wal>)
    requires s.Shape() && b < s.Geo().blocks
    ensures Landing(s, b, data, wal).wb == b && Landing(s, b, data, wal).wp == 1
  {
  }

  lemma OpenIff(s: Ftl, s': Ftl, b: nat)
    requires s.Shape() && Sane(s') && s'.Geo() == s.Geo() && b < s.Geo().blocks && s.nand.blocks[b].state == Free
    requires s'.wb == b && s'.wp == 1 && s'.nand.blocks[b].state == Used
    requires s'.nand.blocks[b].valid == s.nand.blocks[b].valid[0 := true]
    ensures Safe(s') <==> CleanFrom(s.nand, b, 1)
  {
    hide Sane;
    assert forall q :: 1 <= q < s.Geo().pages ==> s'.nand.blocks[b].valid[q] == s.nand.blocks[b].valid[q];
    if CleanFrom(s.nand, b, 1) {
      assert forall q :: 1 <= q < s.Geo().pages ==> !s'.nand.blocks[b].valid[q];
    }
  }

  /** The page a GC move has programmed takes over the owner. */
  lemma DirtyRemap(s: Ftl, v: nat, p: nat, b: nat, data: Page, stats: Stats)
    requires Sane(s) && Opens(s, b) && !s.nand.blocks[b].valid[0]
    requires v < s.Geo().blocks && p < s.Geo().pages && Live(s, v, p)
    requires data == s.nand.media[s.Geo().Ppn(v, p)].data
    ensures var from, to := s.Geo().Ppn(v, p), s.Geo().Ppn(b, 0);
            var s' := Remap(Landing(s, b, data, s.wal).(stats := stats), s.rmap[from], from, to);
            Logical(s') == Logical(s) && (Safe(s') <==> CleanFrom(s.nand, b, 1))
  {
    hide Sane, OpenOk, Safe, Logical, Landing, Opens, CleanFrom, Sound, Geometry.Ppn, Geometry.BlockOf, Geometry.PageOf;
    var from, to := s.Geo().Ppn(v, p), s.Geo().Ppn(b, 0);
    LandingLands(s, b, data, s.wal);
    LandingAt(s, b, data, s.wal);
    var s3 := Landing(s, b, data, s.wal);
    CountersIrrelevant(s3, stats, s3.wal);
    var s4 := s3.(stats := stats);
    assert s4 == s3.(stats := stats, wal := s3.wal);
    RemapStep(s4, s.rmap[from], from, to);
    OpenIff(s, Remap(s4, s.rmap[from], from, to), b);
  }

  /** A GC move whose next page is page 0 of block `b`. */
  lemma DirtyUnfolds(s: Ftl, v: nat, p: nat, b: nat, buf: Page)
    requires s.Shape() && v < s.Geo().blocks && p < s.Geo().pages && Live(s, v, p)
    requires Opens(s.(nand := PageRead(s.nand, v, p, buf).2), b)
    ensures var (_, data, n1) := PageRead(s.nand, v, p, buf);
            var s1 := s.(nand := n1);
            var (code, s', _) := GcMove(s, v, p, buf);
            if n1.blocks[b].valid[0] then code == Internal && s' == s1.(wb := b, wp := 1)
            else && code == Ok
                 && s' == Remap(Landing(s1, b, data, s.wal).(stats := s'.stats), s.rmap[s.Geo().Ppn(v, p)],
                                s.Geo().Ppn(v, p), s.Geo().Ppn(b, 0))
  {
    hide NextFree, Seal, PageRead;
    var n1 := PageRead(s.nand, v, p, buf).2;
    assert Alloc(s.(nand := n1)) == (Some(s.Geo().Ppn(b, 0)), s.(nand := n1, wb := b, wp := 1));
  }

  /**
   A GC move that opens such a block fails exactly if its first page is valid, changes nothing the host can see, and
   leaves the state safe exactly if nothing is valid from the second page on.
   */
  lemma DirtyMove(s: Ftl, v: nat, p: nat, b: nat, buf: Page)
    requires Sane(s) && Opens(s, b) && v < s.Geo().blocks && p < s.Geo().pages && Live(s, v, p)
    ensures var (code, s', _) := GcMove(s, v, p, buf);
            && code == (if s.nand.blocks[b].valid[0] then Internal else Ok)
            && Logical(s') == Logical(s) && (Safe(s') <==> CleanFrom(s.nand, b, 1))
  {
    hide Sane, OpenOk, NextFree, Logical, Seal, PageRead, GcMove, Landing;
    ReadStep(s, v, p, buf);
    var (_, data, n1) := PageRead(s.nand, v, p, buf);
    var s1 := s.(nand := n1);
    assert forall i :: 0 <= i < s.Geo().blocks ==> n1.blocks[i].state == s.nand.blocks[i].state;
    SameNextFree(s.nand, n1, s.wb + 1);
    DirtyUnfolds(s, v, p, b, buf);
    var s' := GcMove(s, v, p, buf).1;
    assert n1.blocks[b].valid == s.nand.blocks[b].valid;
    if n1.blocks[b].valid[0] {
      AllocSafeIff(s1, b);
      assert Logical(s1.(wb := b, wp := 1)) == Logical(s1);
    } else {
      DirtyRemap(s1, v, p, b, data, s'.stats);
    }
  }
}
