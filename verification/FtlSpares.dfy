/**
 The reserve of spare blocks over whole runs: each replacement takes one block of it and is counted once, and nothing
 else touches it.
 */
module FtlSpares {
  import opened Common
  import opened Layout
  import opened NandModel
  import opened WalModel
  import opened FtlModel
  import opened FtlInvariant
  import opened FtlRuns

  /** Spares left and replacements made. */
  function Reserve(s: Ftl): nat { s.nand.reservedLeft + s.stats.replaceCount }

  /** Neither of the two has changed. */
  predicate Untouched(s: Ftl, s': Ftl) {
    s'.nand.reservedLeft == s.nand.reservedLeft && s'.stats.replaceCount == s.stats.replaceCount
  }

  // ---- relocations

  lemma GcMoveSpares(s: Ftl, v: nat, p: nat, buf: Page)
    requires s.Shape() && v < s.Geo().blocks && p < s.Geo().pages && Live(s, v, p)
    ensures Untouched(s, GcMove(s, v, p, buf).1)
  {
    hide Seal, Readout, FirstFree;
  }

  lemma {:induction false} GcScanSpares(s: Ftl, v: nat, p: nat, buf: Page)
    requires s.Shape() && v < s.Geo().blocks && p <= s.Geo().pages
    ensures Untouched(s, GcScan(s, v, p, buf).1)
    decreases s.Geo().pages - p
  {
    hide GcMove;
    if p < s.Geo().pages {
      if Live(s, v, p) {
        GcMoveSpares(s, v, p, buf);
        var (code, s1, data) := GcMove(s, v, p, buf);
        if code == Ok { GcScanSpares(s1, v, p + 1, data); }
      } else {
        GcScanSpares(s, v, p + 1, buf);
      }
    }
  }

  lemma GcPassSpares(s: Ftl, v: nat, draw: bool, buf: Page)
    requires s.Shape() && v < s.Geo().blocks
    ensures Untouched(s, GcPass(s, v, draw, buf).1)
  {
    hide GcScan;
    GcScanSpares(s.(stats := s.stats.(gcCount := s.stats.gcCount + 1)), v, 0, buf);
  }

  lemma {:induction false} GcLoopSpares(s: Ftl, passes: seq<Pass>, noVictim: bool, buf: Page)
    requires s.Shape() && forall i :: 0 <= i < |passes| ==> passes[i].victim < s.Geo().blocks
    ensures Untouched(s, GcLoop(s, passes, noVictim, buf).1)
    decreases passes
  {
    hide GcPass;
    if NeedsGc(s.nand) && passes != [] {
      GcPassSpares(s, passes[0].victim, passes[0].draw, buf);
      var (code, s1) := GcPass(s, passes[0].victim, passes[0].draw, buf);
      if code == Ok { GcLoopSpares(s1, passes[1..], noVictim, buf); }
    }
  }

  lemma MovePageSpares(s: Ftl, src: nat, dst: nat, p: nat, buf: Page)
    requires s.Shape() && src < s.Geo().blocks && dst < s.Geo().blocks && p < s.Geo().pages && Live(s, src, p)
    ensures Untouched(s, MovePage(s, src, dst, p, buf).1)
  {
    hide Seal, Readout;
  }

  lemma {:induction false} MoveLiveSpares(s: Ftl, src: nat, dst: nat, p: nat, buf: Page)
    requires s.Shape() && src < s.Geo().blocks && dst < s.Geo().blocks && p <= s.Geo().pages
    ensures Untouched(s, MoveLive(s, src, dst, p, buf).0)
    decreases s.Geo().pages - p
  {
    hide MovePage;
    if p < s.Geo().pages {
      if Live(s, src, p) {
        MovePageSpares(s, src, dst, p, buf);
        var (_, s1, data) := MovePage(s, src, dst, p, buf);
        MoveLiveSpares(s1, src, dst, p + 1, data);
      } else {
        MoveLiveSpares(s, src, dst, p + 1, buf);
      }
    }
  }

  lemma RelocateSpares(s: Ftl, src: nat, dst: nat, draw: bool, buf: Page)
    requires s.Shape() && src < s.Geo().blocks && dst < s.Geo().blocks
    ensures Untouched(s, Relocate(s, src, dst, draw, buf).0)
  {
    hide MoveLive;
    MoveLiveSpares(s, src, dst, 0, buf);
  }

  // ---- replacements

  lemma {:induction false} CopySpares(n: Nand, src: nat, dst: nat, p: nat, buf: Page)
    requires n.Shape() && src < n.geo.blocks && dst < n.geo.blocks && p <= n.geo.pages
    ensures CopyValid(n, src, dst, p, buf).reservedLeft == n.reservedLeft
    decreases n.geo.pages - p
  {
    hide Readout, Seal;
    if p < n.geo.pages {
      if n.IsValid(src, p) {
        var (got, data, n1) := PageRead(n, src, p, buf);
        if got != Ok {
          CopySpares(n1, src, dst, p + 1, data);
        } else {
          CopySpares(PageWrite(n1, dst, p, data).1, src, dst, p + 1, data);
        }
      } else {
        CopySpares(n, src, dst, p + 1, buf);
      }
    }
  }

  /** A replacement that succeeds has taken one spare and is counted; one that fails has taken none and is not. */
  lemma ReplaceTakesOne(s: Ftl, b: nat, buf: Page)
    requires s.Shape()
    ensures var (code, s') := ReplaceBlock(s, b, buf);
            && s'.nand.reservedLeft + (if code == Ok then 1 else 0) == s.nand.reservedLeft
            && s'.stats.replaceCount == s.stats.replaceCount + (if code == Ok then 1 else 0)
  {
    hide CopyValid, RemapBlock, FirstFree;
    if b < s.Geo().blocks && s.nand.blocks[b].state != Free {
      var (got, n1) := AllocReserved(s.nand);
      if got.Some? { CopySpares(n1, b, got.value, 0, buf); }
    }
  }

  lemma ProgramReserve(s: Ftl, ppn: nat, data: Page)
    requires s.Shape() && ppn < s.Geo().Total()
    ensures Reserve(Program(s, ppn, data).2) == Reserve(s)
  {
    hide ReplaceBlock, FirstFree, Seal;
    var s1 := s.(nand := PageWrite(s.nand, s.Geo().BlockOf(ppn), s.Geo().PageOf(ppn), data).1);
    ReplaceTakesOne(s1, s.Geo().BlockOf(ppn), []);
  }

  // ---- host operations

  lemma WriteBodyReserve(s: Ftl, lpn: nat, data: Page, env: Env)
    requires s.Shape() && lpn < s.Geo().lpns
    requires forall i :: 0 <= i < |env.passes| ==> env.passes[i].victim < s.Geo().blocks
    ensures Reserve(WriteBody(s, lpn, data, env).1) == Reserve(s)
  {
    hide GcLoop, Program, FirstFree;
    GcLoopSpares(s, env.passes, env.noVictim, []);
    var (end, s1) := GcLoop(s, env.passes, env.noVictim, []);
    if end == Enough {
      var (slot, s2) := Alloc(s1);
      if slot.Some? {
        var (logged, s3) := Log(s2, OpWrite, lpn, s2.l2p[lpn], slot.value, env.wrote);
        ProgramReserve(s3, slot.value, data);
      }
    }
  }

  lemma WriteReserve(s: Ftl, lpn: nat, data: Page, env: Env)
    requires s.Shape() && forall i :: 0 <= i < |env.passes| ==> env.passes[i].victim < s.Geo().blocks
    ensures Reserve(Write(s, lpn, data, env).1) == Reserve(s)
  {
    hide WriteBody, ColdBlock, StaticPick, Relocate;
    if lpn < s.Geo().lpns {
      WriteBodyReserve(s, lpn, data, env);
      var t := WearCheck(WriteBody(s, lpn, data, env).1);
      if StaticPick(t.nand).Some? {
        var (src, dst) := StaticPick(t.nand).value;
        RelocateSpares(t.(stats := t.stats.(sinceCheck := 0)), src, dst, env.draw, []);
      }
    }
  }

  lemma {:induction false} TrimSpares(s: Ftl, lpn: nat, end: nat, wrote: nat -> bool)
    requires s.Shape() && lpn <= end <= s.Geo().lpns
    ensures Untouched(s, TrimRange(s, lpn, end, wrote).0)
    decreases end - lpn
  {
    if lpn < end {
      if s.l2p[lpn] == INVALID { TrimSpares(s, lpn + 1, end, wrote); }
      else { TrimSpares(TrimOne(s, lpn, wrote), lpn + 1, end, wrote); }
    }
  }

  lemma StepReserve(s: Ftl, op: Op)
    requires s.Shape() && Callable(s, op)
    ensures Reserve(Step(s, op).1) == Reserve(s)
  {
    hide Write, GcPass, ReplaceBlock, TrimRange, Relocate, Disturbed, NextFree, Readout;
    match op
    case DoRead(lpn, buf) =>
      if lpn < s.Geo().lpns && s.l2p[lpn] != INVALID {
        var b := s.Geo().BlockOf(s.l2p[lpn]);
        ReplaceTakesOne(s.(nand := PageRead(s.nand, b, s.Geo().PageOf(s.l2p[lpn]), buf).2), b, []);
      }
    case DoWrite(lpn, data, env) => WriteReserve(s, lpn, data, env);
    case DoTrim(lpn, count, wrote) =>
      if 0 < count && lpn < s.Geo().lpns { TrimSpares(s, lpn, lpn + TrimCount(s.Geo(), lpn, count), wrote); }
    case DoGc(victim, draw) => GcPassSpares(s, victim, draw, []);
    case DoReplace(b) => ReplaceTakesOne(s, b, []);
    case DoDisturb(draw) =>
      if Disturbed(s.nand).Some? && NextFree(s.nand, 0).Some? {
        RelocateSpares(s, Disturbed(s.nand).value, NextFree(s.nand, 0).value, draw, []);
      }
  }

  /** Over any run, spares left and replacements made add up to the same; so there are no more of these than spares. */
  lemma {:induction false} ReserveConserved(s: Ftl, ops: seq<Op>)
    requires s.Shape() && AdmissibleRun(s, ops)
    ensures Reserve(Run(s, ops).1) == Reserve(s)
    decreases ops
  {
    hide Admissible, Step, Reserve;
    if ops != [] {
      StepReserve(s, ops[0]);
      ReserveConserved(Step(s, ops[0]).1, ops[1..]);
    }
  }
}
