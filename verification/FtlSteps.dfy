/** The host operations: what each does to the logical content, and that it keeps the invariant. */
module FtlSteps {
  import opened Common
  import opened Layout
  import opened NandModel
  import opened WalModel
  import opened FtlModel
  import opened FtlInvariant
  import opened FtlRelocation

  // ---- read

  /**
   Reading never meets a bad block, a replacement or a failed ECC check: it returns the page the
   logical content holds, or NOT_MAPPED, or PARAM for an LPN beyond the table, and the buffer is
   touched only in the first case.
   */
  lemma ReadMeetsContent(s: Ftl, lpn: nat, buf: Page)
    requires Safe(s)
    ensures var (code, data, s') := Read(s, lpn, buf);
            && Safe(s') && (Counts(s.nand) ==> Counts(s'.nand)) && Logical(s') == Logical(s)
            && code == (if s.Geo().lpns <= lpn then Param
                        else if Logical(s)[lpn] == None then NotMapped else Ok)
            && data == (if code == Ok then Logical(s)[lpn].value else buf)
  {
    hide Counts, Readout;
    if lpn < s.Geo().lpns && s.l2p[lpn] != INVALID {
      var ppn := s.l2p[lpn];
      s.Geo().PpnOfParts(ppn);
      assert s.rmap[ppn] == lpn && Sound(s.nand, ppn);
      ReadStep(s, s.Geo().BlockOf(ppn), s.Geo().PageOf(ppn), buf);
    }
  }

  // ---- trim

  /** Unmapping one LPN and clearing its page's valid bit. */
  lemma UnmapStep(s: Ftl, lpn: nat)
    requires Safe(s) && lpn < s.Geo().lpns && s.l2p[lpn] != INVALID
    ensures var s' := s.(l2p := s.l2p[lpn := INVALID], rmap := s.rmap[s.l2p[lpn] := INVALID]);
            Safe(s') && Logical(s') == Logical(s)[lpn := None]
  {
    var s' := s.(l2p := s.l2p[lpn := INVALID], rmap := s.rmap[s.l2p[lpn] := INVALID]);
    assert Logical(s') == Logical(s)[lpn := None];
  }

  lemma TrimOneKeeps(s: Ftl, lpn: nat, wrote: nat -> bool)
    requires Safe(s) && lpn < s.Geo().lpns && s.l2p[lpn] != INVALID
    ensures var s' := TrimOne(s, lpn, wrote);
            && Safe(s') && (Counts(s.nand) ==> Counts(s'.nand))
            && Logical(s') == Logical(s)[lpn := None]
  {
    hide Sane, Safe, OpenOk, Counts, Logical, MarkInvalid;
    var ppn := s.l2p[lpn];
    UnmapStep(s, lpn);
    var s1 := s.(l2p := s.l2p[lpn := INVALID], rmap := s.rmap[ppn := INVALID]);
    s.Geo().PpnOfParts(ppn);
    InvalidateStep(s1, s.Geo().BlockOf(ppn), s.Geo().PageOf(ppn));
    CountersIrrelevant(s1.(nand := MarkInvalid(s1.nand, s.Geo().BlockOf(ppn), s.Geo().PageOf(ppn)).1),
                       s.stats, TrimOne(s, lpn, wrote).wal);
  }

  /** `c` with `lo..hi` unmapped. */
  function Cleared(c: Content, lo: nat, hi: nat): (r: Content)
    requires lo <= hi <= |c|
    ensures |r| == |c|
    ensures forall i :: 0 <= i < |c| ==> r[i] == if lo <= i < hi then None else c[i]
  {
    seq(|c|, i requires 0 <= i < |c| => if lo <= i < hi then None else c[i])
  }

  lemma {:induction false} TrimRangeKeeps(s: Ftl, lpn: nat, end: nat, wrote: nat -> bool)
    requires Safe(s) && lpn <= end <= s.Geo().lpns
    ensures var s' := TrimRange(s, lpn, end, wrote).0;
            && Safe(s') && (Counts(s.nand) ==> Counts(s'.nand))
            && Logical(s') == Cleared(Logical(s), lpn, end)
    decreases end - lpn
  {
    hide Safe, Sane, OpenOk, Counts, TrimOne;
    var s' := TrimRange(s, lpn, end, wrote).0;
    if lpn < end {
      if s.l2p[lpn] == INVALID {
        TrimRangeKeeps(s, lpn + 1, end, wrote);
      } else {
        TrimOneKeeps(s, lpn, wrote);
        TrimRangeKeeps(TrimOne(s, lpn, wrote), lpn + 1, end, wrote);
      }
    }
    assert Logical(s') == Cleared(Logical(s), lpn, end);
  }

  /** The range trim is promised to release: from `lpn`, at most `count` pages, clipped to the table. */
  function TrimEnd(g: Geometry, lpn: nat, count: nat): nat
    requires lpn < g.lpns
  {
    if lpn + count <= g.lpns then lpn + count else g.lpns
  }

  /**
   The loop of ftl_trim stays inside the table, and visits exactly the promised range, if and
   only if the 32-bit sum `lpn + count` does not wrap to something that looks in range.
   */
  lemma TrimStaysInRange(g: Geometry, lpn: nat, count: nat)
    requires g.Valid() && lpn < g.lpns && count < TWO32
    ensures lpn + TrimCount(g, lpn, count) == TrimEnd(g, lpn, count)
            <==> !(TWO32 <= lpn + count && lpn + count - TWO32 <= g.lpns)
    ensures lpn + TrimCount(g, lpn, count) <= g.lpns
            <==> !(TWO32 <= lpn + count && lpn + count - TWO32 <= g.lpns)
  {
    if lpn + count < TWO32 {
      assert (lpn + count) % TWO32 == lpn + count;
    } else {
      assert (lpn + count) % TWO32 == lpn + count - TWO32;
    }
  }

  /** With the geometry of the repository, trimming 2^32 - 1 pages from LPN 1 runs off the table. */
  lemma TrimWraps()
    ensures var g := Geometry(256, 128, 8, 22937);
            g.Valid() && g.lpns < 1 + TrimCount(g, 1, 0xFFFF_FFFF)
  {
  }

  lemma TrimMeetsContent(s: Ftl, lpn: nat, count: nat, wrote: nat -> bool)
    requires Safe(s) && count < TWO32
    requires lpn < s.Geo().lpns && 0 < count ==> lpn + TrimCount(s.Geo(), lpn, count) <= s.Geo().lpns
    ensures var (code, s') := Trim(s, lpn, count, wrote);
            && Safe(s') && (Counts(s.nand) ==> Counts(s'.nand))
            && (code == Ok <==> lpn < s.Geo().lpns && 0 < count) && (code != Ok ==> code == Param)
            && Logical(s') ==
               (if code == Ok then Cleared(Logical(s), lpn, TrimEnd(s.Geo(), lpn, count)) else Logical(s))
  {
    hide Safe, Sane, OpenOk, Counts, Logical, Cleared, TrimRange, TrimCount;
    if lpn < s.Geo().lpns && 0 < count {
      TrimStaysInRange(s.Geo(), lpn, count);
      var end := lpn + TrimCount(s.Geo(), lpn, count);
      TrimRangeKeeps(s, lpn, end, wrote);
      var (s1, k) := TrimRange(s, lpn, end, wrote);
      CountersIrrelevant(s1, Trim(s, lpn, count, wrote).1.stats, s1.wal);
    }
  }

  // ---- write

  /** `slot` is ready to become the home of an LPN: unowned, sound, in the open block, holding `data`. */
  ghost predicate Landed(s: Ftl, slot: nat, data: Page)
    requires s.Shape() && slot < s.Geo().Total()
  {
    && s.rmap[slot] == INVALID && Sound(s.nand, slot)
    && s.nand.media[slot].data == data && s.Geo().BlockOf(slot) == s.wb
  }

  /** Programming a freshly allocated slot: either it lands, or the block is bad. */
  lemma SlotStep(s: Ftl, ppn: nat, data: Page)
    requires Safe(s) && ppn < s.Geo().Total()
    requires s.Geo().BlockOf(ppn) == s.wb && s.Geo().PageOf(ppn) < s.wp
    requires s.nand.blocks[s.wb].state == Bad || !s.nand.IsValid(s.wb, s.Geo().PageOf(ppn))
    ensures var (code, n) := PageWrite(s.nand, s.Geo().BlockOf(ppn), s.Geo().PageOf(ppn), data);
            var s' := s.(nand := n);
            && Safe(s') && (Counts(s.nand) ==> Counts(s'.nand)) && Logical(s') == Logical(s)
            && code == (if s.nand.blocks[s.wb].state == Bad then BadBlock else Ok)
            && (code != Ok ==> s' == s) && (code == Ok ==> Landed(s', ppn, data))
  {
    s.Geo().PpnOfParts(ppn);
    if s.nand.blocks[s.wb].state != Bad {
      ProgramStep(s, s.wb, s.Geo().PageOf(ppn), data);
    }
  }

  /** If the block of the slot is bad: the spare is clean, and so is the block that the retry may have to open. */
  ghost predicate ProgramClean(s: Ftl)
    requires s.Shape()
  {
    s.nand.blocks[s.wb].state == Bad ==>
      && SpareClean(s)
      && var (rc, s2) := ReplaceBlock(s, s.wb, []);
         rc == Ok ==> OpensClean(s2)
  }

  /** The program step of ftl_write, with its replacement of a bad open block and its one retry. */
  lemma ProgramKeeps(s: Ftl, ppn: nat, data: Page)
    requires Safe(s) && ppn < s.Geo().Total() && (Counts(s.nand) || ProgramClean(s))
    requires s.Geo().BlockOf(ppn) == s.wb && s.Geo().PageOf(ppn) < s.wp
    requires s.nand.blocks[s.wb].state == Bad || !s.nand.IsValid(s.wb, s.Geo().PageOf(ppn))
    ensures var (code, slot, s') := Program(s, ppn, data);
            && Safe(s') && (Counts(s.nand) ==> Counts(s'.nand)) && Logical(s') == Logical(s)
            && (code == Ok ==> Landed(s', slot, data))
            && s'.l2p == s.l2p
  {
    hide Sane, Safe, OpenOk, Counts, Logical, Landed, Sound, ReplaceBlock, PageWrite, Alloc, SpareHarmless, SpareClean;
    hide OpensClean;
    SlotStep(s, ppn, data);
    if s.nand.blocks[s.wb].state == Bad {
      ReplaceBlockKeeps(s, s.wb, []);
      SpareHarmlessWhenBad(s, s.wb);
      var (rc, s2) := ReplaceBlock(s, s.wb, []);
      ReplaceBadTables(s, s.wb, []);
      if rc == Ok {
        AllocStep(s2);
        AllocPlain(s2);
        var (slot, s3) := Alloc(s2);
        if slot.Some? {
          SlotStep(s3, slot.value, data);
          PageWritePlain(s3.nand, s.Geo().BlockOf(slot.value), s.Geo().PageOf(slot.value), data);
        }
      } else {
        ReplaceErrors(s, s.wb, []);
      }
    }
  }

  lemma SpareHarmlessWhenBad(s: Ftl, b: nat)
    requires s.Shape() && b < s.Geo().blocks && s.nand.blocks[b].state == Bad
    ensures SpareHarmless(s, b)
  {
  }

  lemma AllocPlain(s: Ftl)
    requires s.Shape()
    ensures var s' := Alloc(s).1; s'.l2p == s.l2p && s'.nand == s.nand
  {
  }

  lemma PageWritePlain(n: Nand, b: nat, p: nat, data: Page)
    requires n.Shape()
    ensures PageWrite(n, b, p, data).0 != BadBlock || PageWrite(n, b, p, data).1 == n
  {
  }

  lemma ReplaceErrors(s: Ftl, b: nat, buf: Page)
    requires s.Shape() && ReplaceBlock(s, b, buf).0 != Ok
    ensures ReplaceBlock(s, b, buf).1 == s
  {
  }

  /** A bad block has nothing mapped, so replacing it leaves the tables alone. */
  lemma ReplaceBadTables(s: Ftl, b: nat, buf: Page)
    requires Sane(s) && b < s.Geo().blocks && s.nand.blocks[b].state == Bad
    ensures ReplaceBlock(s, b, buf).1.l2p == s.l2p
  {
    hide Sane;
    if Spare(s.nand).Some? {
      var n1 := AllocReserved(s.nand).1;
      CopyFromBad(n1, b, Spare(s.nand).value, 0, buf);
      BadOwnsNothing(s, b);
      RemapBlockNothing(s.(nand := n1), b, Spare(s.nand).value, 0);
    }
  }

  /** The open block is good and holds a valid page. */
  ghost predicate Holding(s: Ftl)
    requires s.Shape()
  {
    s.nand.blocks[s.wb].state != Bad && !CleanFrom(s.nand, s.wb, 0)
  }

  /** The table updates of a committed write change exactly one LPN. */
  lemma CommitKeeps(s: Ftl, lpn: nat, slot: nat, data: Page)
    requires Safe(s) && lpn < s.Geo().lpns && slot < s.Geo().Total() && Landed(s, slot, data)
    ensures var s' := Commit(s, lpn, slot);
            && Safe(s') && (Counts(s.nand) ==> Counts(s'.nand))
            && Logical(s') == Logical(s)[lpn := Some(data)] && Holding(s')
  {
    hide Counts, Mapped, MarkInvalid, Holding;
    var from := s.l2p[lpn];
    var s1 := if from == INVALID then s else s.(l2p := s.l2p[lpn := INVALID], rmap := s.rmap[from := INVALID]);
    if from != INVALID { UnmapStep(s, lpn); }
    var s2 := s1.(l2p := s1.l2p[lpn := slot], rmap := s1.rmap[slot := lpn]);
    MapStep(s1, lpn, slot, data);
    assert Logical(s2) == Logical(s)[lpn := Some(data)] by {
      assert Logical(s1)[lpn := Some(data)] == Logical(s)[lpn := Some(data)];
    }
    var s3 := s2;
    if from != INVALID {
      s.Geo().PpnOfParts(from);
      InvalidateStep(s2, s.Geo().BlockOf(from), s.Geo().PageOf(from));
      s3 := s2.(nand := MarkInvalid(s2.nand, s.Geo().BlockOf(from), s.Geo().PageOf(from)).1);
    }
    var s' := Commit(s, lpn, slot);
    assert s' == s3.(stats := s'.stats);
    CountersIrrelevant(s3, s'.stats, s'.wal);
    assert s'.rmap[slot] == lpn;
    LiveOpen(s', slot);
  }

  lemma LiveOpen(s: Ftl, ppn: nat)
    requires Sane(s) && ppn < s.Geo().Total() && s.rmap[ppn] != INVALID && s.Geo().BlockOf(ppn) == s.wb
    ensures Holding(s)
  {
    assert Sound(s.nand, ppn);
  }

  lemma MapStep(s: Ftl, lpn: nat, slot: nat, data: Page)
    requires Safe(s) && lpn < s.Geo().lpns && slot < s.Geo().Total() && Landed(s, slot, data)
    requires s.l2p[lpn] == INVALID
    ensures var s' := s.(l2p := s.l2p[lpn := slot], rmap := s.rmap[slot := lpn]);
            Safe(s') && Logical(s') == Logical(s)[lpn := Some(data)]
  {
    var s' := s.(l2p := s.l2p[lpn := slot], rmap := s.rmap[slot := lpn]);
    assert Logical(s') == Logical(s)[lpn := Some(data)];
  }

  /** Every block that ftl_write opens up to the table updates is clean when it is opened. */
  ghost predicate BodyClean(s: Ftl, lpn: nat, env: Env)
    requires s.Shape() && lpn < s.Geo().lpns
    requires forall i :: 0 <= i < |env.passes| ==> env.passes[i].victim < s.Geo().blocks
  {
    && LoopClean(s, env.passes, [])
    && var s1 := GcLoop(s, env.passes, env.noVictim, []).1;
       && OpensClean(s1)
       && (Alloc(s1).0.Some? ==>
             var s2 := Alloc(s1).1;
             ProgramClean(Log(s2, OpWrite, lpn, s2.l2p[lpn], Alloc(s1).0.value, env.wrote).1))
  }

  /** ftl_write up to the table updates: all or nothing. */
  lemma WriteBodyKeeps(s: Ftl, lpn: nat, data: Page, env: Env)
    requires Safe(s) && lpn < s.Geo().lpns
    requires forall i :: 0 <= i < |env.passes| ==> env.passes[i].victim < s.Geo().blocks
    requires Counts(s.nand) || BodyClean(s, lpn, env)
    ensures var (end, s') := WriteBody(s, lpn, data, env);
            && Safe(s') && (Counts(s.nand) ==> Counts(s'.nand))
            && Logical(s') == (if end == Done(Ok) then Logical(s)[lpn := Some(data)] else Logical(s))
            && (end == Done(Ok) ==> Holding(s'))
  {
    hide Sane, Safe, OpenOk, Counts, Logical, Landed, GcLoop, Alloc, Program, Commit, Holding;
    hide LoopClean, OpensClean, ProgramClean;
    GcLoopInvisible(s, env.passes, env.noVictim, []);
    var (end, s1) := GcLoop(s, env.passes, env.noVictim, []);
    if end == Enough {
      AllocStep(s1);
      AllocPlain(s1);
      var (slot, s2) := Alloc(s1);
      if slot.Some? {
        var (logged, s3) := Log(s2, OpWrite, lpn, s2.l2p[lpn], slot.value, env.wrote);
        CountersIrrelevant(s2, s2.stats, s3.wal);
        assert s3 == s2.(stats := s2.stats, wal := s3.wal);
        if logged == Ok {
          ProgramKeeps(s3, slot.value, data);
          var (code, home, s4) := Program(s3, slot.value, data);
          if code == Ok { CommitKeeps(s4, lpn, home, data); }
        }
      }
    }
  }

  // ---- wear leveling

  /** wear_leveling_check is about to forge a valid count. */
  predicate Forges(n: Nand)
    requires n.Shape()
  {
    ColdIsUsed(n.blocks, n.geo.User());
    ColdBlock(n).Some? && 1 < n.blocks[ColdBlock(n).value].count
  }

  /** wear_leveling_check changes nothing the host can see, and keeps the counts right iff it does not forge. */
  lemma WearCheckKeeps(s: Ftl)
    requires Safe(s)
    ensures Safe(WearCheck(s)) && Logical(WearCheck(s)) == Logical(s)
    ensures Counts(s.nand) ==> (Counts(WearCheck(s).nand) <==> !Forges(s.nand))
  {
    var s' := WearCheck(s);
    ColdIsUsed(s.nand.blocks, s.Geo().User());
    WearCheckValid(s);
    assert Logical(s') == Logical(s);
    if ColdBlock(s.nand).Some? && Forges(s.nand) && Counts(s.nand) {
      assert !CountOk(s'.nand.blocks[ColdBlock(s.nand).value]);
    }
  }

  lemma WearCheckValid(s: Ftl)
    requires s.Shape()
    ensures var s' := WearCheck(s);
            && s'.l2p == s.l2p && s'.rmap == s.rmap && s'.nand.media == s.nand.media && s'.wb == s.wb && s'.wp == s.wp
            && (forall i :: 0 <= i < s.Geo().blocks ==> s'.nand.blocks[i].state == s.nand.blocks[i].state
                                                        && s'.nand.blocks[i].valid == s.nand.blocks[i].valid)
            && (!Forges(s.nand) ==> s'.nand.blocks == s.nand.blocks)
  {
    ColdIsUsed(s.nand.blocks, s.Geo().User());
  }

  /** The destination of static wear leveling is clean. */
  ghost predicate StaticClean(s: Ftl)
    requires s.Shape()
  {
    StaticPick(s.nand).Some? ==> CleanFrom(s.nand, StaticPick(s.nand).value.1, 0)
  }

  lemma StaticWearKeeps(s: Ftl, draw: bool, buf: Page)
    requires Safe(s) && Holding(s) && (Counts(s.nand) || StaticClean(s))
    ensures var s' := StaticWear(s, draw, buf);
            Safe(s') && (Counts(s.nand) ==> Counts(s'.nand)) && Logical(s') == Logical(s)
  {
    hide Sane, OpenOk, Counts, Logical, Relocate, LiveBelowPointer, StaticPick;
    match StaticPick(s.nand)
    case None =>
    case Some((src, dst)) =>
      FreeIsCleanHere(s, dst);
      RelocateKeeps(s, src, dst, draw, buf);
      var s1 := Relocate(s, src, dst, draw, buf).0;
      CountersIrrelevant(s1, StaticWear(s, draw, buf).stats, s1.wal);
  }

  lemma PeriodicKeeps(s: Ftl, draw: bool, buf: Page)
    requires Safe(s) && Holding(s) && (Counts(s.nand) || StaticClean(s))
    ensures var s' := Periodic(s, draw, buf);
            Safe(s') && (Counts(s.nand) ==> Counts(s'.nand)) && Logical(s') == Logical(s)
  {
    hide Sane, OpenOk, Counts, Logical, StaticWear;
    var k := s.stats.sinceCheck + 1;
    var s1 := s.(stats := s.stats.(sinceCheck := if k < STATIC_WEAR_INTERVAL then k else 0));
    CountersIrrelevant(s, s1.stats, s.wal);
    if STATIC_WEAR_INTERVAL <= k { StaticWearKeeps(s1, draw, buf); }
  }

  /** The write commits and the wear check right after it forges a valid count. */
  ghost predicate WriteForges(s: Ftl, lpn: nat, data: Page, env: Env)
    requires s.Shape()
    requires forall i :: 0 <= i < |env.passes| ==> env.passes[i].victim < s.Geo().blocks
  {
    lpn < s.Geo().lpns && WriteBody(s, lpn, data, env).0 == Done(Ok) && Forges(WriteBody(s, lpn, data, env).1.nand)
  }

  /** Every block that ftl_write opens or takes as a destination is clean at that moment. */
  ghost predicate WriteClean(s: Ftl, lpn: nat, data: Page, env: Env)
    requires s.Shape()
    requires forall i :: 0 <= i < |env.passes| ==> env.passes[i].victim < s.Geo().blocks
  {
    lpn < s.Geo().lpns ==>
      && BodyClean(s, lpn, env)
      && (WriteBody(s, lpn, data, env).0 == Done(Ok) ==> StaticClean(WearCheck(WriteBody(s, lpn, data, env).1)))
  }

  /** A forged count leaves every FREE block as clean as it was. */
  lemma StaticStaysClean(s: Ftl)
    requires s.Shape() && Counts(s.nand)
    ensures StaticClean(WearCheck(s))
  {
    hide StaticScan, WearScan;
    var s' := WearCheck(s);
    WearCheckValid(s);
    if StaticPick(s'.nand).Some? { CleanWhenFree(s.nand.blocks[StaticPick(s'.nand).value.1]); }
  }

  /**
   ftl_write: an OK write changes exactly its LPN, to exactly its data; every other end, including
   a GC loop that has not finished, changes nothing the host can see.  With right counts that is always so, and they
   stay right unless the wear check forges one; with forged counts it is so as long as the blocks opened are clean.
   */
  lemma WriteMeetsContent(s: Ftl, lpn: nat, data: Page, env: Env)
    requires Safe(s) && forall i :: 0 <= i < |env.passes| ==> env.passes[i].victim < s.Geo().blocks
    requires Counts(s.nand) || WriteClean(s, lpn, data, env)
    ensures var (end, s') := Write(s, lpn, data, env);
            && Safe(s') && (Counts(s.nand) && !WriteForges(s, lpn, data, env) ==> Counts(s'.nand))
            && (s.Geo().lpns <= lpn ==> end == Done(Param))
            && Logical(s') == (if end == Done(Ok) then Logical(s)[lpn := Some(data)] else Logical(s))
  {
    hide Sane, Safe, OpenOk, Counts, Logical, WriteBody, WearCheck, Periodic, Forges, BodyClean, StaticClean, Holding;
    if lpn < s.Geo().lpns {
      WriteBodyKeeps(s, lpn, data, env);
      var (end, s1) := WriteBody(s, lpn, data, env);
      if end == Done(Ok) {
        WearCheckKeeps(s1);
        StillHolding(s1);
        if Counts(s1.nand) { StaticStaysClean(s1); }
        PeriodicKeeps(WearCheck(s1), env.draw, []);
      }
    }
  }

  lemma StillHolding(s: Ftl)
    requires s.Shape() && Holding(s)
    ensures Holding(WearCheck(s))
  {
    hide WearCheck;
    WearCheckValid(s);
  }

  // ---- what ftl_write answers

  lemma {:induction false} SomeFree(blocks: seq<Block>, k: nat)
    requires k <= |blocks| && 0 < FreeBelow(blocks, k)
    ensures exists i :: 0 <= i < k && blocks[i].state == Free
  {
    if blocks[k - 1].state != Free { SomeFree(blocks, k - 1); }
  }

  /** With a free user block there is always a slot, and the block opened for it is not bad. */
  lemma AllocSucceeds(s: Ftl)
    requires s.Shape() && 0 < FreeBelow(s.nand.blocks, s.Geo().User())
    ensures var (slot, s') := Alloc(s);
            && slot.Some?
            && (s.nand.blocks[s'.wb].state == Bad <==> s.wp < s.Geo().pages && s.nand.blocks[s.wb].state == Bad)
  {
    hide FirstFree;
    SomeFree(s.nand.blocks, s.Geo().User());
  }

  /** Programming fails only in a bad block for which no spare is left. */
  lemma ProgramAnswers(s: Ftl, ppn: nat, data: Page)
    requires Inv(s) && ppn < s.Geo().Total() && 0 < FreeBelow(s.nand.blocks, s.Geo().User())
    requires s.Geo().BlockOf(ppn) == s.wb && s.Geo().PageOf(ppn) < s.wp
    requires s.nand.blocks[s.wb].state == Bad || !s.nand.IsValid(s.wb, s.Geo().PageOf(ppn))
    ensures Program(s, ppn, data).0 ==
            if s.nand.blocks[s.wb].state == Bad && Spare(s.nand).None? then NoSpace else Ok
  {
    hide Inv, Core, Sane, Safe, OpenOk, Logical, Landed, Sound, ReplaceBlock, PageWrite, Alloc, FreeBelow;
    hide AllocReserved;
    SlotStep(s, ppn, data);
    if s.nand.blocks[s.wb].state == Bad {
      if Spare(s.nand).Some? {
        ReplaceBad(s, s.wb, []);
        var s2 := ReplaceBlock(s, s.wb, []).1;
        SpareIsFree(s.nand);
        AllocSucceeds(s2);
        AllocStep(s2);
        AllocPlain(s2);
        var (slot, s3) := Alloc(s2);
        SlotStep(s3, slot.value, data);
      } else {
        NoSpareNoReplacement(s, s.wb);
      }
    }
  }

  lemma SpareIsFree(n: Nand)
    requires n.Shape() && Spare(n).Some?
    ensures Spare(n).value < n.geo.blocks && n.blocks[Spare(n).value].state == Free
  {
  }

  lemma NoSpareNoReplacement(s: Ftl, b: nat)
    requires s.Shape() && b < s.Geo().blocks && s.nand.blocks[b].state != Free && Spare(s.nand).None?
    ensures ReplaceBlock(s, b, []).0 == NoSpace
  {
  }

  lemma LogAnswers(s: Ftl, op: WalOp, lpn: nat, oldPpn: nat, newPpn: nat, wrote: bool)
    requires s.Shape()
    ensures var (code, s') := Log(s, op, lpn, oldPpn, newPpn, wrote);
            && code == (if s.wal.Some? && !wrote then Internal else Ok)
            && s'.nand == s.nand && s'.wb == s.wb && s'.wp == s.wp
            && (Inv(s) ==> Inv(s'))
  {
    hide Inv, Safe, EntrySum;
    var s' := Log(s, op, lpn, oldPpn, newPpn, wrote).1;
    CountersIrrelevant(s, s.stats, s'.wal);
    assert s' == s.(stats := s.stats, wal := s'.wal);
  }

  /** After the GC loop has made room. */
  lemma RoomAnswers(s: Ftl, lpn: nat, data: Page, env: Env)
    requires Inv(s) && lpn < s.Geo().lpns && !NeedsGc(s.nand)
    requires forall i :: 0 <= i < |env.passes| ==> env.passes[i].victim < s.Geo().blocks
    ensures var (slot, s2) := Alloc(s);
            slot.Some? &&
            var (logged, s3) := Log(s2, OpWrite, lpn, s2.l2p[lpn], slot.value, env.wrote);
            && logged == (if s.wal.Some? && !env.wrote then Internal else Ok)
            && Program(s3, slot.value, data).0 ==
               if s.wp < s.Geo().pages && s.nand.blocks[s.wb].state == Bad && Spare(s.nand).None? then NoSpace else Ok
  {
    hide Inv, Core, Sane, Safe, OpenOk, Logical, Alloc, Program, FreeBelow, AllocReserved, Log;
    AllocSucceeds(s);
    AllocStep(s);
    AllocPlain(s);
    var (slot, s2) := Alloc(s);
    LogAnswers(s2, OpWrite, lpn, s2.l2p[lpn], slot.value, env.wrote);
    ProgramAnswers(Log(s2, OpWrite, lpn, s2.l2p[lpn], slot.value, env.wrote).1, slot.value, data);
  }

  /** What the part up to the table updates answers. */
  lemma BodyAnswers(s: Ftl, lpn: nat, data: Page, env: Env)
    requires Inv(s) && lpn < s.Geo().lpns
    requires forall i :: 0 <= i < |env.passes| ==> env.passes[i].victim < s.Geo().blocks
    ensures var (loop, s1) := GcLoop(s, env.passes, env.noVictim, []);
            WriteBody(s, lpn, data, env).0 ==
            if loop == Running then Looping
            else if loop == Failed then Done(NoSpace)
            else if s1.wal.Some? && !env.wrote then Done(Internal)
            else if s1.wp < s.Geo().pages && s1.nand.blocks[s1.wb].state == Bad && Spare(s1.nand).None?
                 then Done(NoSpace)
            else Done(Ok)
  {
    hide Inv, Safe, Sane, Core, OpenOk, Counts, Logical, GcLoop, Alloc, Program, Commit, NeedsGc, AllocReserved, Log;
    GcLoopInvisible(s, env.passes, env.noVictim, []);
    var (loop, s1) := GcLoop(s, env.passes, env.noVictim, []);
    if loop == Enough { RoomAnswers(s1, lpn, data, env); }
  }

  /**
   Exactly what ftl_write answers.  Once its GC loop has made room, a write fails only if the log cannot be
   written, or if the open block has gone bad, is not yet full, and no spare is left to replace it.
   */
  lemma WriteAnswers(s: Ftl, lpn: nat, data: Page, env: Env)
    requires Inv(s) && forall i :: 0 <= i < |env.passes| ==> env.passes[i].victim < s.Geo().blocks
    ensures var (loop, s1) := GcLoop(s, env.passes, env.noVictim, []);
            Write(s, lpn, data, env).0 ==
            if s.Geo().lpns <= lpn then Done(Param)
            else if loop == Running then Looping
            else if loop == Failed then Done(NoSpace)
            else if s1.wal.Some? && !env.wrote then Done(Internal)
            else if s1.wp < s.Geo().pages && s1.nand.blocks[s1.wb].state == Bad && Spare(s1.nand).None?
                 then Done(NoSpace)
            else Done(Ok)
  {
    hide Inv, Safe, Sane, Core, OpenOk, Counts, WriteBody, GcLoop, WearCheck, Periodic, AllocReserved;
    if lpn < s.Geo().lpns { BodyAnswers(s, lpn, data, env); }
  }

  // ---- read disturb

  /** Where read-disturb handling would move the block it picked. */
  ghost predicate DisturbHarmless(s: Ftl)
    requires s.Shape()
  {
    Disturbed(s.nand).Some? && NextFree(s.nand, 0) == Some(s.wb) ==> LiveBelowPointer(s, Disturbed(s.nand).value)
  }

  /** The destination of read-disturb handling is clean. */
  ghost predicate DisturbClean(s: Ftl)
    requires s.Shape()
  {
    Disturbed(s.nand).Some? && NextFree(s.nand, 0).Some? ==> CleanFrom(s.nand, NextFree(s.nand, 0).value, 0)
  }

  /** Read-disturb handling is invisible to the host; it keeps the invariant iff it is harmless to the write pointer. */
  lemma ReadDisturbKeeps(s: Ftl, draw: bool, buf: Page)
    requires Safe(s) && (Counts(s.nand) || DisturbClean(s))
    ensures var s' := ReadDisturb(s, draw, buf).1;
            && Sane(s') && (Counts(s.nand) ==> Counts(s'.nand)) && Logical(s') == Logical(s)
            && (Safe(s') <==> DisturbHarmless(s))
  {
    hide Sane, Safe, OpenOk, Counts, Logical, Relocate, LiveBelowPointer, FirstFree, NextFree;
    if Disturbed(s.nand).Some? && NextFree(s.nand, 0).Some? {
      RelocateKeeps(s, Disturbed(s.nand).value, NextFree(s.nand, 0).value, draw, buf);
    }
  }
}
