/** Conservation of write counts over whole runs (counters as unbounded numbers). */
module FtlCounts {
  import opened Common
  import opened Layout
  import opened NandModel
  import opened WalModel
  import opened FtlModel
  import opened FtlInvariant
  import opened FtlRelocation
  import opened FtlSteps
  import opened FtlRuns

  /** NAND writes of the FTL that host writes, GC moves and static-wear moves do not account for. */
  function Balance(s: Ftl): int {
    s.stats.nand - s.stats.host - s.stats.gcMoved - s.stats.staticMoved
  }

  /** Writes counted by the NAND that the FTL has not counted. */
  function Excess(s: Ftl): int {
    s.nand.writes - s.stats.nand
  }

  lemma GcMoveBalanced(s: Ftl, v: nat, p: nat, buf: Page)
    requires s.Shape() && v < s.Geo().blocks && p < s.Geo().pages && Live(s, v, p)
    ensures var s' := GcMove(s, v, p, buf).1;
            Balance(s') == Balance(s) && Excess(s') == Excess(s)
  {
    hide Seal, Readout, FirstFree;
  }

  lemma {:induction false} GcScanBalanced(s: Ftl, v: nat, p: nat, buf: Page)
    requires s.Shape() && v < s.Geo().blocks && p <= s.Geo().pages
    ensures var s' := GcScan(s, v, p, buf).1;
            Balance(s') == Balance(s) && Excess(s') == Excess(s)
    decreases s.Geo().pages - p
  {
    hide GcMove, Balance, Excess;
    if p < s.Geo().pages {
      if Live(s, v, p) {
        GcMoveBalanced(s, v, p, buf);
        var (code, s1, data) := GcMove(s, v, p, buf);
        if code == Ok { GcScanBalanced(s1, v, p + 1, data); }
      } else {
        GcScanBalanced(s, v, p + 1, buf);
      }
    }
  }

  lemma GcPassBalanced(s: Ftl, v: nat, draw: bool, buf: Page)
    requires s.Shape() && v < s.Geo().blocks
    ensures var s' := GcPass(s, v, draw, buf).1;
            Balance(s') == Balance(s) && Excess(s') == Excess(s)
  {
    hide GcScan;
    GcScanBalanced(s.(stats := s.stats.(gcCount := s.stats.gcCount + 1)), v, 0, buf);
  }

  lemma {:induction false} GcLoopBalanced(s: Ftl, passes: seq<Pass>, noVictim: bool, buf: Page)
    requires s.Shape() && forall i :: 0 <= i < |passes| ==> passes[i].victim < s.Geo().blocks
    ensures var s' := GcLoop(s, passes, noVictim, buf).1;
            Balance(s') == Balance(s) && Excess(s') == Excess(s)
    decreases passes
  {
    hide GcPass, Balance, Excess;
    if NeedsGc(s.nand) && passes != [] {
      GcPassBalanced(s, passes[0].victim, passes[0].draw, buf);
      var (code, s1) := GcPass(s, passes[0].victim, passes[0].draw, buf);
      if code == Ok { GcLoopBalanced(s1, passes[1..], noVictim, buf); }
    }
  }

  /** Each page moved is one write, for the FTL and for the NAND. */
  lemma MovePageCounted(s: Ftl, src: nat, dst: nat, p: nat, buf: Page)
    requires s.Shape() && src < s.Geo().blocks && dst < s.Geo().blocks && p < s.Geo().pages && Live(s, src, p)
    ensures var (moved, s', _) := MovePage(s, src, dst, p, buf);
            var k := if moved then 1 else 0;
            && s'.stats == s.stats.(nand := s.stats.nand + k) && s'.nand.writes == s.nand.writes + k
  {
    hide Seal, Readout;
  }

  lemma {:induction false} MoveLiveCounted(s: Ftl, src: nat, dst: nat, p: nat, buf: Page)
    requires s.Shape() && src < s.Geo().blocks && dst < s.Geo().blocks && p <= s.Geo().pages
    ensures var (s', k) := MoveLive(s, src, dst, p, buf);
            && s'.stats == s.stats.(nand := s.stats.nand + k) && s'.nand.writes == s.nand.writes + k
    decreases s.Geo().pages - p
  {
    hide MovePage;
    if p < s.Geo().pages {
      if Live(s, src, p) {
        MovePageCounted(s, src, dst, p, buf);
        var (_, s1, data) := MovePage(s, src, dst, p, buf);
        MoveLiveCounted(s1, src, dst, p + 1, data);
      } else {
        MoveLiveCounted(s, src, dst, p + 1, buf);
      }
    }
  }

  lemma PeriodicBalanced(s: Ftl, draw: bool, buf: Page)
    requires s.Shape()
    ensures var s' := Periodic(s, draw, buf);
            Balance(s') == Balance(s) && Excess(s') == Excess(s)
  {
    hide MoveLive;
    var s1 := s.(stats := s.stats.(sinceCheck := 0));
    match StaticPick(s1.nand)
    case None =>
    case Some((src, dst)) => MoveLiveCounted(s1, src, dst, 0, buf);
  }

  lemma {:induction false} TrimBalanced(s: Ftl, lpn: nat, end: nat, wrote: nat -> bool)
    requires s.Shape() && lpn <= end <= s.Geo().lpns
    ensures var s' := TrimRange(s, lpn, end, wrote).0;
            Balance(s') == Balance(s) && Excess(s') == Excess(s)
    decreases end - lpn
  {
    if lpn < end {
      if s.l2p[lpn] == INVALID { TrimBalanced(s, lpn + 1, end, wrote); }
      else { TrimBalanced(TrimOne(s, lpn, wrote), lpn + 1, end, wrote); }
    }
  }

  // ---- pages copied by the NAND layer

  /** Valid pages of block `b` from page `p` on. */
  function ValidFrom(n: Nand, b: nat, p: nat): nat
    requires n.Shape() && b < n.geo.blocks && p <= n.geo.pages
  {
    CountTrue(n.blocks[b].valid[p..])
  }

  lemma {:induction false} CopyCounted(n: Nand, src: nat, dst: nat, p: nat, buf: Page)
    requires n.Shape() && src < n.geo.blocks && dst < n.geo.blocks && p <= n.geo.pages && src != dst
    requires n.blocks[src].state != Bad && CleanFrom(n, dst, p)
    ensures CopyValid(n, src, dst, p, buf).writes == n.writes + ValidFrom(n, src, p)
    decreases n.geo.pages - p
  {
    hide PageRead, PageWrite, Seal, Readout;
    if p < n.geo.pages {
      var v := n.blocks[src].valid;
      assert v[p..][1..] == v[p + 1..];
      if n.IsValid(src, p) {
        CopyTurn(n, src, dst, p, buf);
        WriteCounted(n, src, dst, p, buf);
        var (_, data, n1) := PageRead(n, src, p, buf);
        CopyCounted(PageWrite(n1, dst, p, data).1, src, dst, p + 1, data);
      } else {
        CopyCounted(n, src, dst, p + 1, buf);
      }
    }
  }

  lemma WriteCounted(n: Nand, src: nat, dst: nat, p: nat, buf: Page)
    requires n.Shape() && src < n.geo.blocks && dst < n.geo.blocks && p < n.geo.pages
    ensures var (_, data, n1) := PageRead(n, src, p, buf);
            var (put, n') := PageWrite(n1, dst, p, data);
            n'.writes == n.writes + (if put == Ok then 1 else 0)
  {
  }

  /** How many pages replacing block `b` copies: all valid pages of a used block, none of a bad one. */
  function Copies(s: Ftl, b: nat): nat
    requires s.Shape()
  {
    if b < s.Geo().blocks && s.nand.blocks[b].state == Used && Spare(s.nand).Some?
    then CountTrue(s.nand.blocks[b].valid) else 0
  }

  lemma ReplaceCounted(s: Ftl, b: nat, buf: Page)
    requires s.Shape() && (Counts(s.nand) || SpareClean(s))
    ensures var s' := ReplaceBlock(s, b, buf).1;
            Balance(s') == Balance(s) && Excess(s') == Excess(s) + Copies(s, b)
  {
    hide CopyValid, RemapBlock, FirstFree, Counts, SpareClean;
    if b < s.Geo().blocks && s.nand.blocks[b].state != Free && Spare(s.nand).Some? {
      var n1 := AllocReserved(s.nand).1;
      var dst := Spare(s.nand).value;
      if s.nand.blocks[b].state == Used {
        SpareIsClean(s);
        CopyCounted(n1, b, dst, 0, buf);
        assert s.nand.blocks[b].valid[0..] == s.nand.blocks[b].valid;
      } else {
        CopyFromBad(n1, b, dst, 0, buf);
      }
    }
  }

  // ---- runs

  /** Pages a read-disturb call moves. */
  function DisturbMoves(s: Ftl): nat
    requires s.Shape()
  {
    if Disturbed(s.nand).Some? && NextFree(s.nand, 0).Some?
    then MoveLive(s, Disturbed(s.nand).value, NextFree(s.nand, 0).value, 0, []).1 else 0
  }

  lemma ReadBalanced(s: Ftl, lpn: nat, buf: Page)
    requires Sane(s)
    ensures var s' := Read(s, lpn, buf).2; Balance(s') == Balance(s) && Excess(s') == Excess(s)
  {
    hide Readout;
    if lpn < s.Geo().lpns && s.l2p[lpn] != INVALID {
      s.Geo().PpnOfParts(s.l2p[lpn]);
      assert s.rmap[s.l2p[lpn]] == lpn && Sound(s.nand, s.l2p[lpn]);
    }
  }

  lemma ProgramBalanced(s: Ftl, ppn: nat, data: Page)
    requires s.Shape() && ppn < s.Geo().Total() && s.Geo().BlockOf(ppn) == s.wb
    requires Counts(s.nand) || ProgramClean(s)
    ensures var (code, _, s') := Program(s, ppn, data);
            && s'.stats.host == s.stats.host && s'.stats.nand == s.stats.nand
            && s'.stats.gcMoved == s.stats.gcMoved && s'.stats.staticMoved == s.stats.staticMoved
            && s'.nand.writes == s.nand.writes + (if code == Ok then 1 else 0)
  {
    hide Seal, ReplaceBlock, Alloc, Counts, SpareClean, OpensClean;
    if s.nand.blocks[s.wb].state == Bad {
      ReplaceCounted(s, s.wb, []);
      ReplaceStats(s, s.wb, []);
      AllocSilent(ReplaceBlock(s, s.wb, []).1);
    }
  }

  lemma ReplaceStats(s: Ftl, b: nat, buf: Page)
    requires s.Shape()
    ensures var s' := ReplaceBlock(s, b, buf).1;
            && s'.stats.host == s.stats.host && s'.stats.nand == s.stats.nand
            && s'.stats.gcMoved == s.stats.gcMoved && s'.stats.staticMoved == s.stats.staticMoved
  {
    hide Replace, RemapBlock;
  }

  lemma AllocSilent(s: Ftl)
    requires s.Shape()
    ensures Alloc(s).1.stats == s.stats && Alloc(s).1.nand == s.nand
  {
  }

  lemma CommitCounted(s: Ftl, lpn: nat, home: nat)
    requires s.Shape() && lpn < s.Geo().lpns && home < s.Geo().Total()
    ensures var s' := Commit(s, lpn, home);
            s'.nand.writes == s.nand.writes
            && s'.stats == s.stats.(host := s.stats.host + 1, nand := s.stats.nand + 1)
  {
  }

  lemma WriteBodyBalanced(s: Ftl, lpn: nat, data: Page, env: Env)
    requires Safe(s) && lpn < s.Geo().lpns
    requires forall i :: 0 <= i < |env.passes| ==> env.passes[i].victim < s.Geo().blocks
    requires Counts(s.nand) || BodyClean(s, lpn, env)
    ensures var s' := WriteBody(s, lpn, data, env).1; Balance(s') == Balance(s) && Excess(s') == Excess(s)
  {
    hide Safe, Sane, OpenOk, Counts, Logical, GcLoop, Alloc, Program, Commit, Log, LoopClean, OpensClean, ProgramClean;
    GcLoopBalanced(s, env.passes, env.noVictim, []);
    GcLoopInvisible(s, env.passes, env.noVictim, []);
    var (end, s1) := GcLoop(s, env.passes, env.noVictim, []);
    if end == Enough {
      AllocStep(s1);
      AllocSilent(s1);
      var (slot, s2) := Alloc(s1);
      if slot.Some? {
        var (logged, s3) := Log(s2, OpWrite, lpn, s2.l2p[lpn], slot.value, env.wrote);
        CountersIrrelevant(s2, s2.stats, s3.wal);
        assert s3 == s2.(stats := s2.stats, wal := s3.wal);
        if logged == Ok {
          ProgramBalanced(s3, slot.value, data);
          var (code, home, s4) := Program(s3, slot.value, data);
          if code == Ok { CommitCounted(s4, lpn, home); }
        }
      }
    }
  }

  lemma WriteBalanced(s: Ftl, lpn: nat, data: Page, env: Env)
    requires Safe(s) && forall i :: 0 <= i < |env.passes| ==> env.passes[i].victim < s.Geo().blocks
    requires Counts(s.nand) || WriteClean(s, lpn, data, env)
    ensures var s' := Write(s, lpn, data, env).1; Balance(s') == Balance(s) && Excess(s') == Excess(s)
  {
    hide Safe, Sane, OpenOk, Counts, Logical, WriteBody, Periodic, WearCheck, BodyClean, StaticClean;
    if lpn < s.Geo().lpns {
      WriteBodyBalanced(s, lpn, data, env);
      var (end, s1) := WriteBody(s, lpn, data, env);
      if end == Done(Ok) {
        WearCheckBalanced(s1);
        PeriodicBalanced(WearCheck(s1), env.draw, []);
      }
    }
  }

  lemma WearCheckBalanced(s: Ftl)
    requires s.Shape()
    ensures Balance(WearCheck(s)) == Balance(s) && Excess(WearCheck(s)) == Excess(s)
  {
  }

  /** Every step: NAND writes of the FTL are host writes plus moves; the NAND itself adds the copied pages. */
  lemma StepCounted(s: Ftl, op: Op)
    requires Safe(s) && Admissible(s, op)
    ensures var s' := Step(s, op).1;
            && Balance(s') == Balance(s) + (if op.DoDisturb? then DisturbMoves(s) else 0)
            && Excess(s') == Excess(s) + (if op.DoReplace? then Copies(s, op.block) else 0)
  {
    hide Safe, Read, Write, GcPass, ReplaceBlock, TrimRange, MoveLive, WriteForges, Counts, WriteClean, PassClean;
    hide SpareClean, DisturbClean;
    match op
    case DoRead(lpn, buf) => ReadBalanced(s, lpn, buf);
    case DoWrite(lpn, data, env) => WriteBalanced(s, lpn, data, env);
    case DoTrim(lpn, count, wrote) =>
      if 0 < count && lpn < s.Geo().lpns { TrimBalanced(s, lpn, lpn + TrimCount(s.Geo(), lpn, count), wrote); }
    case DoGc(victim, draw) => GcPassBalanced(s, victim, draw, []);
    case DoReplace(b) => ReplaceCounted(s, b, []);
    case DoDisturb(draw) =>
      if Disturbed(s.nand).Some? && NextFree(s.nand, 0).Some? {
        MoveLiveCounted(s, Disturbed(s.nand).value, NextFree(s.nand, 0).value, 0, []);
      }
  }

  /** Pages moved by the read-disturb calls of a run, and pages copied by its block replacements. */
  ghost function Extras(s: Ftl, ops: seq<Op>): (nat, nat)
    requires s.Shape() && AdmissibleRun(s, ops)
    decreases ops
  {
    if ops == [] then (0, 0)
    else
      var (d, c) := Extras(Step(s, ops[0]).1, ops[1..]);
      (d + (if ops[0].DoDisturb? then DisturbMoves(s) else 0),
       c + (if ops[0].DoReplace? then Copies(s, ops[0].block) else 0))
  }

  lemma {:induction false} RunCounted(s: Ftl, ops: seq<Op>)
    requires Safe(s) && AdmissibleRun(s, ops)
    ensures var s' := Run(s, ops).1;
            && Balance(s') == Balance(s) + Extras(s, ops).0
            && Excess(s') == Excess(s) + Extras(s, ops).1
    decreases ops
  {
    hide Safe, Admissible, Step, Balance, Excess, DisturbMoves, Copies, ForgesCount, Counts;
    if ops != [] {
      StepCounted(s, ops[0]);
      StepRefines(s, ops[0]);
      RunCounted(Step(s, ops[0]).1, ops[1..]);
    }
  }

  lemma {:induction false} NoDisturbNoExtras(s: Ftl, ops: seq<Op>)
    requires s.Shape() && AdmissibleRun(s, ops)
    requires forall i :: 0 <= i < |ops| ==> !ops[i].DoDisturb?
    ensures Extras(s, ops).0 == 0
    decreases ops
  {
    if ops != [] { NoDisturbNoExtras(Step(s, ops[0]).1, ops[1..]); }
  }

  /**
   Conservation: in every run from a fresh start without read-disturb moves, the FTL's NAND writes
   are exactly host writes plus GC moves plus static-wear moves, and what the NAND has counted on
   top of that is exactly the pages copied by bad-block replacement.
   */
  lemma WritesConserved(n: Nand, ops: seq<Op>)
    requires n.Shape() && NewMedia(n) && Init(n).Some?
    requires AdmissibleRun(Init(n).value, ops)
    requires forall i :: 0 <= i < |ops| ==> !ops[i].DoDisturb?
    ensures var s' := Run(Init(n).value, ops).1;
            && s'.stats.nand == s'.stats.host + s'.stats.gcMoved + s'.stats.staticMoved
            && s'.nand.writes == n.writes + s'.stats.nand + Extras(Init(n).value, ops).1
  {
    hide Admissible, Step, Run, Extras;
    InitEstablishes(n);
    RunCounted(Init(n).value, ops);
    NoDisturbNoExtras(Init(n).value, ops);
  }

  /** What a counter holds in the source: a 32-bit word. */
  function Word(count: nat): nat { count % TWO32 }

  lemma WordSum(a: nat, b: nat)
    ensures Word(a + b) == Word(Word(a) + b) == Word(Word(a) + Word(b))
  {
    var p, q := a / TWO32, b / TWO32;
    Parts(a, TWO32);
    Parts(b, TWO32);
    WordTurns(Word(a) + b, p);
    WordTurns(Word(a) + Word(b), q);
  }

  lemma {:induction false} WordTurns(a: nat, k: nat)
    ensures Word(a + k * TWO32) == Word(a)
  {
    Parts(a, TWO32);
    DivModUnique(a + k * TWO32, TWO32, a / TWO32 + k, a % TWO32);
  }

  /** Conservation as the 32-bit counters of the source show it, however often they have wrapped. */
  lemma {:induction false} WordsConserved(n: Nand, ops: seq<Op>)
    requires n.Shape() && NewMedia(n) && Init(n).Some?
    requires AdmissibleRun(Init(n).value, ops)
    requires forall i :: 0 <= i < |ops| ==> !ops[i].DoDisturb?
    ensures var s' := Run(Init(n).value, ops).1;
            && Word(s'.stats.nand) == Word(Word(s'.stats.host) + Word(s'.stats.gcMoved) + Word(s'.stats.staticMoved))
            && Word(s'.nand.writes) == Word(Word(n.writes) + Word(s'.stats.nand) + Word(Extras(Init(n).value, ops).1))
  {
    hide NewMedia, AdmissibleRun, Run, Extras, Init, Word, Core, Sane, Safe, OpenOk;
    InitEstablishes(n);
    WritesConserved(n, ops);
    var s' := Run(Init(n).value, ops).1;
    WordBalance(s'.stats, s'.nand.writes, n.writes, Extras(Init(n).value, ops).1);
  }

  lemma WordBalance(t: Stats, writes: nat, before: nat, copies: nat)
    requires t.nand == t.host + t.gcMoved + t.staticMoved && writes == before + t.nand + copies
    ensures Word(t.nand) == Word(Word(t.host) + Word(t.gcMoved) + Word(t.staticMoved))
    ensures Word(writes) == Word(Word(before) + Word(t.nand) + Word(copies))
  {
    hide Word;
    WordSumThree(t.host, t.gcMoved, t.staticMoved);
    WordSumThree(before, t.nand, copies);
  }

  lemma WordSumThree(a: nat, b: nat, c: nat)
    ensures Word(a + b + c) == Word(Word(a) + Word(b) + Word(c))
  {
    hide Word;
    WordSum(a + b, c);
    WordSum(a, b);
    WordSum(Word(a) + Word(b), Word(c));
    WordSum(Word(a) + Word(b), c);
  }

  // ---- host writes

  lemma GcMoveHost(s: Ftl, v: nat, p: nat, buf: Page)
    requires s.Shape() && v < s.Geo().blocks && p < s.Geo().pages && Live(s, v, p)
    ensures GcMove(s, v, p, buf).1.stats.host == s.stats.host
  {
    hide PageRead, PageWrite, FirstFree;
  }

  lemma {:induction false} GcScanHost(s: Ftl, v: nat, p: nat, buf: Page)
    requires s.Shape() && v < s.Geo().blocks && p <= s.Geo().pages
    ensures GcScan(s, v, p, buf).1.stats.host == s.stats.host
    decreases s.Geo().pages - p
  {
    hide GcMove;
    if p < s.Geo().pages {
      if Live(s, v, p) {
        GcMoveHost(s, v, p, buf);
        var (code, s1, data) := GcMove(s, v, p, buf);
        if code == Ok { GcScanHost(s1, v, p + 1, data); }
      } else {
        GcScanHost(s, v, p + 1, buf);
      }
    }
  }

  lemma GcPassHost(s: Ftl, v: nat, draw: bool, buf: Page)
    requires s.Shape() && v < s.Geo().blocks
    ensures GcPass(s, v, draw, buf).1.stats.host == s.stats.host
  {
    hide GcScan;
    GcScanHost(s.(stats := s.stats.(gcCount := s.stats.gcCount + 1)), v, 0, buf);
  }

  lemma {:induction false} GcLoopHost(s: Ftl, passes: seq<Pass>, noVictim: bool, buf: Page)
    requires s.Shape() && forall i :: 0 <= i < |passes| ==> passes[i].victim < s.Geo().blocks
    ensures GcLoop(s, passes, noVictim, buf).1.stats.host == s.stats.host
    decreases passes
  {
    hide GcPass;
    if NeedsGc(s.nand) && passes != [] {
      GcPassHost(s, passes[0].victim, passes[0].draw, buf);
      var (code, s1) := GcPass(s, passes[0].victim, passes[0].draw, buf);
      if code == Ok { GcLoopHost(s1, passes[1..], noVictim, buf); }
    }
  }

  lemma WriteBodyHost(s: Ftl, lpn: nat, data: Page, env: Env)
    requires Safe(s) && lpn < s.Geo().lpns
    requires forall i :: 0 <= i < |env.passes| ==> env.passes[i].victim < s.Geo().blocks
    requires Counts(s.nand) || BodyClean(s, lpn, env)
    ensures var (end, s') := WriteBody(s, lpn, data, env);
            s'.stats.host == s.stats.host + if end == Done(Ok) then 1 else 0
  {
    hide Safe, Sane, OpenOk, Counts, Logical, GcLoop, Alloc, Program, Commit, Log, LoopClean, OpensClean, ProgramClean;
    GcLoopHost(s, env.passes, env.noVictim, []);
    GcLoopInvisible(s, env.passes, env.noVictim, []);
    var (end, s1) := GcLoop(s, env.passes, env.noVictim, []);
    if end == Enough {
      AllocStep(s1);
      AllocSilent(s1);
      var (slot, s2) := Alloc(s1);
      if slot.Some? {
        var (logged, s3) := Log(s2, OpWrite, lpn, s2.l2p[lpn], slot.value, env.wrote);
        CountersIrrelevant(s2, s2.stats, s3.wal);
        assert s3 == s2.(stats := s2.stats, wal := s3.wal);
        if logged == Ok {
          ProgramBalanced(s3, slot.value, data);
          var (code, home, s4) := Program(s3, slot.value, data);
          if code == Ok { CommitCounted(s4, lpn, home); }
        }
      }
    }
  }

  lemma PeriodicHost(s: Ftl, draw: bool, buf: Page)
    requires s.Shape()
    ensures Periodic(s, draw, buf).stats.host == s.stats.host && WearCheck(s).stats.host == s.stats.host
  {
    hide MoveLive, WearScan;
    var s1 := s.(stats := s.stats.(sinceCheck := 0));
    match StaticPick(s1.nand)
    case None =>
    case Some((src, dst)) => MoveLiveCounted(s1, src, dst, 0, buf);
  }

  lemma {:induction false} TrimHost(s: Ftl, lpn: nat, end: nat, wrote: nat -> bool)
    requires s.Shape() && lpn <= end <= s.Geo().lpns
    ensures TrimRange(s, lpn, end, wrote).0.stats == s.stats
    decreases end - lpn
  {
    if lpn < end {
      if s.l2p[lpn] == INVALID { TrimHost(s, lpn + 1, end, wrote); }
      else { TrimHost(TrimOne(s, lpn, wrote), lpn + 1, end, wrote); }
    }
  }

  /** Only an OK write counts as a host write, and it counts once. */
  lemma StepHost(s: Ftl, op: Op)
    requires Safe(s) && Admissible(s, op)
    ensures var (reply, s') := Step(s, op);
            s'.stats.host == s.stats.host + if op.DoWrite? && reply == Answer(Ok, []) then 1 else 0
  {
    hide Sane, Safe, OpenOk, Logical, WriteBody, WearCheck, Periodic, GcPass, ReplaceBlock, TrimRange, MoveLive;
    hide Readout, Counts, PassClean, SpareClean, DisturbClean;
    match op
    case DoRead(lpn, buf) =>
      if lpn < s.Geo().lpns && s.l2p[lpn] != INVALID {
        var b := s.Geo().BlockOf(s.l2p[lpn]);
        ReplaceStats(s.(nand := PageRead(s.nand, b, s.Geo().PageOf(s.l2p[lpn]), buf).2), b, []);
      }
    case DoWrite(lpn, data, env) =>
      if lpn < s.Geo().lpns {
        WriteBodyHost(s, lpn, data, env);
        var (end, s1) := WriteBody(s, lpn, data, env);
        PeriodicHost(s1, env.draw, []);
        PeriodicHost(WearCheck(s1), env.draw, []);
      }
    case DoTrim(lpn, count, wrote) =>
      if 0 < count && lpn < s.Geo().lpns { TrimHost(s, lpn, lpn + TrimCount(s.Geo(), lpn, count), wrote); }
    case DoGc(victim, draw) => GcPassHost(s, victim, draw, []);
    case DoReplace(b) => ReplaceStats(s, b, []);
    case DoDisturb(draw) =>
      if Disturbed(s.nand).Some? && NextFree(s.nand, 0).Some? {
        MoveLiveCounted(s, Disturbed(s.nand).value, NextFree(s.nand, 0).value, 0, []);
      }
  }

  /** The writes of a run that were answered with OK. */
  function OkWrites(ops: seq<Op>, replies: seq<Reply>): nat
    requires |ops| == |replies|
  {
    if ops == [] then 0
    else (if ops[0].DoWrite? && replies[0] == Answer(Ok, []) then 1 else 0) + OkWrites(ops[1..], replies[1..])
  }

  /** Over any run the host-write counter grows by exactly the writes answered with OK. */
  lemma {:induction false} HostWritesCounted(s: Ftl, ops: seq<Op>)
    requires Safe(s) && AdmissibleRun(s, ops)
    ensures var (replies, s') := Run(s, ops); s'.stats.host == s.stats.host + OkWrites(ops, replies)
    decreases ops
  {
    hide Safe, Sane, OpenOk, Admissible, Step, Logical, PlainReply, PlainStep, ForgesCount, Counts;
    if ops != [] {
      StepRefines(s, ops[0]);
      StepHost(s, ops[0]);
      var (reply, s1) := Step(s, ops[0]);
      HostWritesCounted(s1, ops[1..]);
      var (replies, s2) := Run(s1, ops[1..]);
      assert ([reply] + replies)[1..] == replies;
    }
  }

  /** The same of the 32-bit counter. */
  lemma {:induction false} HostWordCounted(s: Ftl, ops: seq<Op>)
    requires Safe(s) && AdmissibleRun(s, ops)
    ensures var (replies, s') := Run(s, ops); Word(s'.stats.host) == Word(Word(s.stats.host) + OkWrites(ops, replies))
  {
    hide Safe, AdmissibleRun, Run, OkWrites, Word;
    HostWritesCounted(s, ops);
    WordSum(s.stats.host, OkWrites(ops, Run(s, ops).0));
  }

  // ---- pages trimmed

  /** Stored pages of `lo..hi`. */
  function StoredIn(c: Content, lo: nat, hi: nat): nat
    requires lo <= hi <= |c|
    decreases hi - lo
  {
    if lo == hi then 0 else (if c[lo].Some? then 1 else 0) + StoredIn(c, lo + 1, hi)
  }

  lemma {:induction false} StoredInSame(c: Content, d: Content, lo: nat, hi: nat)
    requires lo <= hi <= |c| == |d| && forall i :: lo <= i < hi ==> c[i] == d[i]
    ensures StoredIn(c, lo, hi) == StoredIn(d, lo, hi)
    decreases hi - lo
  {
    if lo < hi { StoredInSame(c, d, lo + 1, hi); }
  }

  /** The trim loop releases, and counts, exactly the pages that were stored in its range. */
  lemma {:induction false} TrimReleases(s: Ftl, lpn: nat, end: nat, wrote: nat -> bool)
    requires Safe(s) && lpn <= end <= s.Geo().lpns
    ensures TrimRange(s, lpn, end, wrote).1 == StoredIn(Logical(s), lpn, end)
    decreases end - lpn
  {
    hide Safe, Sane, OpenOk, TrimOne;
    if lpn < end {
      if s.l2p[lpn] == INVALID {
        TrimReleases(s, lpn + 1, end, wrote);
      } else {
        TrimOneKeeps(s, lpn, wrote);
        var s1 := TrimOne(s, lpn, wrote);
        TrimReleases(s1, lpn + 1, end, wrote);
        StoredInSame(Logical(s), Logical(s1), lpn + 1, end);
      }
    }
  }

  /** A trim that answers OK is counted, with the pages it released; any other changes nothing. */
  lemma TrimCounted(s: Ftl, lpn: nat, count: nat, wrote: nat -> bool)
    requires Safe(s) && count < TWO32
    requires lpn < s.Geo().lpns && 0 < count ==> lpn + TrimCount(s.Geo(), lpn, count) <= s.Geo().lpns
    ensures var (code, s') := Trim(s, lpn, count, wrote);
            if lpn < s.Geo().lpns && 0 < count then
              && code == Ok && lpn <= TrimEnd(s.Geo(), lpn, count) <= s.Geo().lpns
              && s'.stats == s.stats.(
                   trimCount := s.stats.trimCount + 1,
                   trimPages := s.stats.trimPages + StoredIn(Logical(s), lpn, TrimEnd(s.Geo(), lpn, count)))
            else code == Param && s' == s
  {
    hide Safe, TrimRange, Logical, TrimCount, StoredIn;
    if lpn < s.Geo().lpns && 0 < count {
      TrimStaysInRange(s.Geo(), lpn, count);
      var end := lpn + TrimCount(s.Geo(), lpn, count);
      TrimReleases(s, lpn, end, wrote);
      TrimHost(s, lpn, end, wrote);
    }
  }

  // ---- pages remapped by a replacement

  /** Pages of block `b` from `p` on that have an owner. */
  function OwnedPages(s: Ftl, b: nat, p: nat): nat
    requires s.Shape() && b < s.Geo().blocks && p <= s.Geo().pages
    decreases s.Geo().pages - p
  {
    if p == s.Geo().pages then 0
    else (if s.rmap[s.Geo().Ppn(b, p)] != INVALID then 1 else 0) + OwnedPages(s, b, p + 1)
  }

  lemma {:induction false} OwnedSame(s: Ftl, s': Ftl, b: nat, p: nat)
    requires s.Shape() && s'.Shape() && s'.Geo() == s.Geo() && b < s.Geo().blocks && p <= s.Geo().pages
    requires forall q :: p <= q < s.Geo().pages ==> s'.rmap[s.Geo().Ppn(b, q)] == s.rmap[s.Geo().Ppn(b, q)]
    ensures OwnedPages(s', b, p) == OwnedPages(s, b, p)
    decreases s.Geo().pages - p
  {
    if p < s.Geo().pages { OwnedSame(s, s', b, p + 1); }
  }

  lemma {:induction false} RemapCounted(s: Ftl, src: nat, dst: nat, p: nat)
    requires s.Shape() && src < s.Geo().blocks && dst < s.Geo().blocks && src != dst && p <= s.Geo().pages
    ensures RemapBlock(s, src, dst, p).1 == OwnedPages(s, src, p)
    decreases s.Geo().pages - p
  {
    if p < s.Geo().pages {
      var from, to := s.Geo().Ppn(src, p), s.Geo().Ppn(dst, p);
      if s.rmap[from] == INVALID {
        RemapCounted(s, src, dst, p + 1);
      } else {
        var s1 := Remap(s, s.rmap[from], from, to);
        RemapCounted(s1, src, dst, p + 1);
        LaterApart(s.Geo(), src, dst, p);
        OwnedSame(s, s1, src, p + 1);
      }
    }
  }

  lemma LaterApart(g: Geometry, src: nat, dst: nat, p: nat)
    requires g.Valid() && src < g.blocks && dst < g.blocks && src != dst && p < g.pages
    ensures forall q :: p < q < g.pages ==> g.Ppn(src, q) != g.Ppn(src, p) && g.Ppn(src, q) != g.Ppn(dst, p)
  {
    forall q | p < q < g.pages ensures g.Ppn(src, q) != g.Ppn(src, p) && g.Ppn(src, q) != g.Ppn(dst, p) {
      assert g.PageOf(g.Ppn(src, q)) == q && g.PageOf(g.Ppn(src, p)) == p && g.PageOf(g.Ppn(dst, p)) == p;
    }
  }

  /** A replacement that succeeds counts the pages whose owners it has sent to the spare. */
  lemma ReplaceMovesCounted(s: Ftl, b: nat, buf: Page)
    requires s.Shape()
    ensures var (code, s') := ReplaceBlock(s, b, buf);
            if code == Ok then
              && b < s.Geo().blocks
              && s'.stats == s.stats.(replaceCount := s.stats.replaceCount + 1,
                                      replaceMoved := s.stats.replaceMoved + OwnedPages(s, b, 0))
            else s'.stats == s.stats
  {
    hide RemapBlock, Replace, OwnedPages;
    var (code, dst, n) := Replace(s.nand, b, buf);
    if b < s.Geo().blocks && code == Ok {
      SpareDiffers(s.nand, b, buf);
      RemapCounted(s.(nand := n), b, dst, 0);
      OwnedSame(s, s.(nand := n), b, 0);
    }
  }

  lemma SpareDiffers(n: Nand, b: nat, buf: Page)
    requires n.Shape() && Replace(n, b, buf).0 == Ok
    ensures Replace(n, b, buf).1 != b
  {
    hide CopyValid, MarkBad;
  }
}
