/**
 Wear leveling inside ftl_write: when a write levels, what that moves, and how often it comes round; and what the check
 of every write does.
 */
module FtlLeveling {
  import opened Common
  import opened Layout
  import opened NandModel
  import opened WalModel
  import opened FtlModel
  import opened FtlInvariant
  import opened FtlRelocation
  import opened FtlSteps
  import opened FtlRuns
  import opened FtlChoices
  import opened FtlMoves
  import opened FtlGain
  import opened FtlCounts

  // ---- the counters that nothing up to the table updates touches

  /** The counters of leveling and trimming are the same. */
  predicate SameRest(a: Stats, b: Stats) {
    && a.wearCount == b.wearCount && a.staticCount == b.staticCount && a.staticMoved == b.staticMoved
    && a.trimCount == b.trimCount && a.trimPages == b.trimPages && a.sinceCheck == b.sinceCheck
  }

  lemma GcMoveRest(s: Ftl, v: nat, p: nat, buf: Page)
    requires s.Shape() && v < s.Geo().blocks && p < s.Geo().pages && Live(s, v, p)
    ensures SameRest(GcMove(s, v, p, buf).1.stats, s.stats)
  {
    hide PageRead, PageWrite, FirstFree;
  }

  lemma {:induction false} GcScanRest(s: Ftl, v: nat, p: nat, buf: Page)
    requires s.Shape() && v < s.Geo().blocks && p <= s.Geo().pages
    ensures SameRest(GcScan(s, v, p, buf).1.stats, s.stats)
    decreases s.Geo().pages - p
  {
    hide GcMove;
    if p < s.Geo().pages {
      if Live(s, v, p) {
        GcMoveRest(s, v, p, buf);
        var (code, s1, data) := GcMove(s, v, p, buf);
        if code == Ok { GcScanRest(s1, v, p + 1, data); }
      } else {
        GcScanRest(s, v, p + 1, buf);
      }
    }
  }

  lemma GcPassRest(s: Ftl, v: nat, draw: bool, buf: Page)
    requires s.Shape() && v < s.Geo().blocks
    ensures SameRest(GcPass(s, v, draw, buf).1.stats, s.stats)
  {
    hide GcScan;
    GcScanRest(s.(stats := s.stats.(gcCount := s.stats.gcCount + 1)), v, 0, buf);
  }

  lemma {:induction false} GcLoopRest(s: Ftl, passes: seq<Pass>, noVictim: bool, buf: Page)
    requires s.Shape() && forall i :: 0 <= i < |passes| ==> passes[i].victim < s.Geo().blocks
    ensures SameRest(GcLoop(s, passes, noVictim, buf).1.stats, s.stats)
    decreases passes
  {
    hide GcPass;
    if NeedsGc(s.nand) && passes != [] {
      GcPassRest(s, passes[0].victim, passes[0].draw, buf);
      var (code, s1) := GcPass(s, passes[0].victim, passes[0].draw, buf);
      if code == Ok { GcLoopRest(s1, passes[1..], noVictim, buf); }
    }
  }

  lemma ReplaceRest(s: Ftl, b: nat, buf: Page)
    requires s.Shape()
    ensures SameRest(ReplaceBlock(s, b, buf).1.stats, s.stats)
  {
    hide Replace, RemapBlock;
  }

  lemma ProgramRest(s: Ftl, ppn: nat, data: Page)
    requires s.Shape() && ppn < s.Geo().Total()
    ensures SameRest(Program(s, ppn, data).2.stats, s.stats)
  {
    hide PageWrite, ReplaceBlock, FirstFree;
    var s1 := s.(nand := PageWrite(s.nand, s.Geo().BlockOf(ppn), s.Geo().PageOf(ppn), data).1);
    ReplaceRest(s1, s.Geo().BlockOf(ppn), []);
  }

  lemma WriteBodyRest(s: Ftl, lpn: nat, data: Page, env: Env)
    requires s.Shape() && lpn < s.Geo().lpns
    requires forall i :: 0 <= i < |env.passes| ==> env.passes[i].victim < s.Geo().blocks
    ensures SameRest(WriteBody(s, lpn, data, env).1.stats, s.stats)
  {
    hide GcLoop, Program, Commit, FirstFree;
    GcLoopRest(s, env.passes, env.noVictim, []);
    var (end, s1) := GcLoop(s, env.passes, env.noVictim, []);
    if end == Enough {
      var (slot, s2) := Alloc(s1);
      if slot.Some? {
        var (logged, s3) := Log(s2, OpWrite, lpn, s2.l2p[lpn], slot.value, env.wrote);
        ProgramRest(s3, slot.value, data);
        var (code, home, s4) := Program(s3, slot.value, data);
        if code == Ok { CommitCounted(s4, lpn, home); }
      }
    }
  }

  // ---- the check of every write

  /** `c` is the last user block that is USED and less worn than every good one before it, and wear is uneven. */
  ghost predicate Cold(n: Nand, c: nat)
    requires n.Shape()
  {
    && c < n.geo.User() && ColdAt(n.blocks, c)
    && (forall b :: c < b < n.geo.User() ==> !ColdAt(n.blocks, b))
    && exists lo: nat, hi: nat :: Bounds(n.blocks, n.geo.User(), lo, hi) && 50 < (hi - lo) % 0x1_0000_0000
  }

  /**
   wear_leveling_check, whole: if there is such a block, its stored count becomes 1 unless it was smaller, which is
   counted; otherwise nothing changes.
   */
  lemma WearCheckDoes(s: Ftl, c: nat)
    requires s.Shape()
    ensures Cold(s.nand, c) ==>
              && c < |s.nand.blocks|
              && var b := s.nand.blocks[c];
                 var forged := b.(count := if 1 < b.count then 1 else b.count);
                 WearCheck(s) == s.(nand := s.nand.(blocks := s.nand.blocks[c := forged]),
                                    stats := s.stats.(wearCount := s.stats.wearCount + 1))
    ensures (forall b: nat :: !Cold(s.nand, b)) ==> WearCheck(s) == s
  {
    hide ColdAt, Bounds;
    forall b: nat ensures Cold(s.nand, b) <==> ColdBlock(s.nand) == Some(b) { ColdBlockIs(s.nand, b); }
  }

  // ---- static wear leveling comes round every thousandth write

  /** Behind the table updates and the check of a write. */
  ghost function Behind(s: Ftl, lpn: nat, data: Page, env: Env): (t: Ftl)
    requires s.Shape() && lpn < s.Geo().lpns
    requires forall i :: 0 <= i < |env.passes| ==> env.passes[i].victim < s.Geo().blocks
    ensures t.Shape() && t.Geo() == s.Geo()
  {
    WearCheck(WriteBody(s, lpn, data, env).1)
  }

  /** The most worn USED user block and the least worn FREE one, more than 100 erases apart as 32-bit words. */
  ghost predicate Due(n: Nand, src: nat, dst: nat)
    requires n.Shape()
  {
    && MostWornUsed(n.blocks, n.geo.User(), src) && LeastWornFree(n.blocks, n.geo.User(), dst)
    && 100 < (n.blocks[src].erases - n.blocks[dst].erases) % 0x1_0000_0000
  }

  /**
   Every page of `src` with an owner has it at the same offset of `dst` now, `src` is erased, or bad if it wore out, all
   of which is counted, and the other blocks are as they were.
   */
  ghost predicate Leveled(t: Ftl, s': Ftl, src: nat, dst: nat, draw: bool)
    requires t.Shape() && s'.Shape() && s'.Geo() == t.Geo()
  {
    && src < t.Geo().blocks && dst < t.Geo().blocks
    && (forall q :: 0 <= q < t.Geo().pages && Live(t, src, q) ==>
          s'.rmap[t.Geo().Ppn(dst, q)] == t.rmap[t.Geo().Ppn(src, q)])
    && (forall q :: 0 <= q < t.Geo().pages ==> s'.rmap[t.Geo().Ppn(src, q)] == INVALID)
    && (if t.nand.wearLimit < t.nand.blocks[src].erases && draw then s'.nand.blocks[src].state == Bad
        else s'.nand.blocks[src].state == Free && s'.nand.blocks[src].erases == t.nand.blocks[src].erases + 1)
    && (forall i :: 0 <= i < t.Geo().blocks && i != src && i != dst ==> s'.nand.blocks[i] == t.nand.blocks[i])
    && s'.stats == t.stats.(sinceCheck := 0, nand := s'.stats.nand, staticCount := t.stats.staticCount + 1,
                            staticMoved := t.stats.staticMoved + LiveFrom(t, src, 0))
  }

  /**
   Static wear leveling as part of an OK write.  Below 999 the counter goes up by one and nothing else happens behind
   the check; otherwise it starts again at 0, and if leveling is due, the most worn USED block is moved to the least
   worn FREE one, else nothing is.
   */
  lemma WriteLevels(s: Ftl, lpn: nat, data: Page, env: Env)
    requires Safe(s) && lpn < s.Geo().lpns
    requires forall i :: 0 <= i < |env.passes| ==> env.passes[i].victim < s.Geo().blocks
    requires Counts(s.nand) || WriteClean(s, lpn, data, env)
    requires Write(s, lpn, data, env).0 == Done(Ok)
    ensures var t, s' := Behind(s, lpn, data, env), Write(s, lpn, data, env).1;
            && t.stats.sinceCheck == s.stats.sinceCheck && t.stats.staticCount == s.stats.staticCount
            && (s.stats.sinceCheck < 999 ==>
                  s' == t.(stats := t.stats.(sinceCheck := s.stats.sinceCheck + 1)))
            && (999 <= s.stats.sinceCheck ==>
                  && s'.stats.sinceCheck == 0
                  && (forall src: nat, dst: nat :: Due(t.nand, src, dst) ==> Leveled(t, s', src, dst, env.draw))
                  && ((forall src: nat, dst: nat :: !Due(t.nand, src, dst)) ==>
                        s' == t.(stats := t.stats.(sinceCheck := 0))))
  {
    hide Safe, Sane, OpenOk, Counts, WriteBody, WearCheck, Due, Leveled, StaticWear, Logical, BodyClean, StaticPick;
    WriteBodyRest(s, lpn, data, env);
    WearCheckRest(WriteBody(s, lpn, data, env).1);
    BehindSafe(s, lpn, data, env);
    var t := Behind(s, lpn, data, env);
    if 999 <= s.stats.sinceCheck { LevelsWhenDue(t, env.draw); }
  }

  lemma WearCheckRest(s: Ftl)
    requires s.Shape()
    ensures var s' := WearCheck(s); SameRest(s'.stats, s.stats.(wearCount := s'.stats.wearCount))
  {
    hide ColdBlock;
  }

  /** The state behind the check is one that can be leveled. */
  lemma BehindSafe(s: Ftl, lpn: nat, data: Page, env: Env)
    requires Safe(s) && lpn < s.Geo().lpns
    requires forall i :: 0 <= i < |env.passes| ==> env.passes[i].victim < s.Geo().blocks
    requires Counts(s.nand) || WriteClean(s, lpn, data, env)
    requires WriteBody(s, lpn, data, env).0 == Done(Ok)
    ensures Safe(Behind(s, lpn, data, env)) && StaticClean(Behind(s, lpn, data, env))
  {
    hide Safe, Sane, OpenOk, Counts, WriteBody, WearCheck, Logical, BodyClean, StaticClean, Holding;
    WriteBodyKeeps(s, lpn, data, env);
    var s1 := WriteBody(s, lpn, data, env).1;
    WearCheckKeeps(s1);
    if Counts(s1.nand) { StaticStaysClean(s1); }
  }

  lemma LevelsWhenDue(t: Ftl, draw: bool)
    requires Safe(t) && StaticClean(t)
    ensures var s' := StaticWear(t.(stats := t.stats.(sinceCheck := 0)), draw, []);
            && s'.stats.sinceCheck == 0
            && (forall src: nat, dst: nat :: Due(t.nand, src, dst) ==> Leveled(t, s', src, dst, draw))
            && ((forall src: nat, dst: nat :: !Due(t.nand, src, dst)) ==>
                  s' == t.(stats := t.stats.(sinceCheck := 0)))
  {
    hide Safe, Sane, OpenOk, Counts, StaticWear, Logical, StaticPick, Due, Leveled;
    var t0 := t.(stats := t.stats.(sinceCheck := 0));
    CountersIrrelevant(t, t0.stats, t.wal);
    assert t0 == t.(stats := t0.stats, wal := t.wal);
    forall src: nat, dst: nat ensures Due(t.nand, src, dst) <==> StaticPick(t.nand) == Some((src, dst)) {
      DueIs(t.nand, src, dst);
    }
    StaticWearMoves(t0, draw, []);
    if StaticPick(t.nand).Some? {
      LeveledFrom(t, t0, StaticWear(t0, draw, []), StaticPick(t.nand).value.0, StaticPick(t.nand).value.1, draw);
    }
  }

  lemma DueIs(n: Nand, src: nat, dst: nat)
    requires n.Shape()
    ensures Due(n, src, dst) <==> StaticPick(n) == Some((src, dst))
  {
    hide MostWornUsed, LeastWornFree, StaticPick;
    StaticPickIs(n, src, dst);
  }

  lemma LeveledFrom(t: Ftl, t0: Ftl, s': Ftl, src: nat, dst: nat, draw: bool)
    requires t.Shape() && t0 == t.(stats := t.stats.(sinceCheck := 0)) && s'.Shape() && s'.Geo() == t.Geo()
    requires src < t.Geo().blocks && dst < t.Geo().blocks
    requires LandedAcross(t0, s', src, dst, 0) && NoneBelow(s', src, t.Geo().pages)
    requires s'.nand.blocks[src].state == (if WearsOut(t.nand, src, draw) then Bad else Free)
    requires s'.nand.blocks[src].erases == t.nand.blocks[src].erases + (if WearsOut(t.nand, src, draw) then 0 else 1)
    requires s'.stats == t0.stats.(nand := s'.stats.nand, staticCount := t.stats.staticCount + 1,
                                   staticMoved := t.stats.staticMoved + LiveFrom(t0, src, 0))
    requires forall i :: 0 <= i < t.Geo().blocks && i != src && i != dst ==> s'.nand.blocks[i] == t.nand.blocks[i]
    ensures Leveled(t, s', src, dst, draw)
  {
    LiveFromSame(t, t0, src, 0);
  }

  /** It is due whenever some USED block has been erased more than 100 times more often than some FREE one. */
  lemma SomeDue(n: Nand, u: nat, f: nat)
    requires n.Shape() && u < n.geo.User() && f < n.geo.User()
    requires n.blocks[u].state == Used && n.blocks[f].state == Free && n.blocks[f].erases + 100 < n.blocks[u].erases
    requires forall b :: 0 <= b < n.geo.User() ==> n.blocks[b].erases < 0xFFFF_FFFF
    ensures exists src: nat, dst: nat :: Due(n, src, dst)
  {
    hide StaticScan;
    StaticScanIs(n.blocks, n.geo.User());
    var pk := StaticScan(n.blocks, n.geo.User());
    assert pk.src.Some? && pk.dst.Some?;
    assert Due(n, pk.src.value, pk.dst.value);
  }

  // ---- over whole runs

  lemma PassRest(s: Ftl, op: Op)
    requires s.Shape() && Callable(s, op) && !op.DoWrite?
    ensures Step(s, op).1.stats.sinceCheck == s.stats.sinceCheck
  {
    hide GcPass, ReplaceBlock, TrimRange, Relocate, Disturbed, NextFree, Readout;
    match op
    case DoRead(lpn, buf) =>
      if lpn < s.Geo().lpns && s.l2p[lpn] != INVALID {
        var b := s.Geo().BlockOf(s.l2p[lpn]);
        ReplaceRest(s.(nand := PageRead(s.nand, b, s.Geo().PageOf(s.l2p[lpn]), buf).2), b, []);
      }
    case DoTrim(lpn, count, wrote) =>
      if 0 < count && lpn < s.Geo().lpns { TrimHost(s, lpn, lpn + TrimCount(s.Geo(), lpn, count), wrote); }
    case DoGc(victim, draw) => GcPassRest(s, victim, draw, []);
    case DoReplace(b) => ReplaceRest(s, b, []);
    case DoDisturb(draw) =>
      if Disturbed(s.nand).Some? && NextFree(s.nand, 0).Some? {
        RelocateStats(s, Disturbed(s.nand).value, NextFree(s.nand, 0).value, draw, []);
      }
    case _ =>
  }

  lemma FailedRest(s: Ftl, lpn: nat, data: Page, env: Env)
    requires s.Shape() && forall i :: 0 <= i < |env.passes| ==> env.passes[i].victim < s.Geo().blocks
    requires Write(s, lpn, data, env).0 != Done(Ok)
    ensures Write(s, lpn, data, env).1.stats.sinceCheck == s.stats.sinceCheck
  {
    hide WriteBody, WearCheck, Periodic;
    if lpn < s.Geo().lpns { WriteBodyRest(s, lpn, data, env); }
  }

  lemma StepSince(s: Ftl, op: Op)
    requires Safe(s) && Admissible(s, op) && s.stats.sinceCheck < 1000
    ensures var (reply, s') := Step(s, op);
            s'.stats.sinceCheck ==
            (s.stats.sinceCheck + if op.DoWrite? && reply == Answer(Ok, []) then 1 else 0) % 1000
  {
    hide Safe, Sane, Write, Counts, PassClean, SpareClean, DisturbClean, WriteClean, PointerHarmless;
    hide Due, Leveled, Behind;
    if op.DoWrite? {
      if Write(s, op.lpn, op.data, op.env).0 == Done(Ok) {
        InTable(s, op.lpn, op.data, op.env);
        WriteLevels(s, op.lpn, op.data, op.env);
      } else {
        FailedRest(s, op.lpn, op.data, op.env);
      }
    } else {
      PassRest(s, op);
    }
  }

  lemma InTable(s: Ftl, lpn: nat, data: Page, env: Env)
    requires s.Shape() && forall i :: 0 <= i < |env.passes| ==> env.passes[i].victim < s.Geo().blocks
    requires Write(s, lpn, data, env).0 == Done(Ok)
    ensures lpn < s.Geo().lpns
  {
    hide WriteBody, WearCheck, Periodic;
  }

  /** Over any run the counter is the number of OK writes, modulo 1000: leveling comes round with every thousandth. */
  lemma {:induction false} SinceCheckCounts(s: Ftl, ops: seq<Op>)
    requires Safe(s) && AdmissibleRun(s, ops) && s.stats.sinceCheck < 1000
    ensures var (replies, s') := Run(s, ops);
            s'.stats.sinceCheck == (s.stats.sinceCheck + OkWrites(ops, replies)) % 1000
    decreases ops
  {
    hide Safe, Sane, OpenOk, Admissible, Step, Logical, PlainReply, PlainStep, ForgesCount, Counts;
    if ops != [] {
      StepRefines(s, ops[0]);
      StepSince(s, ops[0]);
      var (reply, s1) := Step(s, ops[0]);
      SinceCheckCounts(s1, ops[1..]);
      var (replies, s2) := Run(s1, ops[1..]);
      assert ([reply] + replies)[1..] == replies;
      Turns(s.stats.sinceCheck, if ops[0].DoWrite? && reply == Answer(Ok, []) then 1 else 0,
            OkWrites(ops[1..], replies));
    }
  }

  lemma Turns(a: nat, b: nat, c: nat)
    ensures ((a + b) % 1000 + c) % 1000 == (a + (b + c)) % 1000
  {
  }
}
