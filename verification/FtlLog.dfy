/**
 The log the FTL writes.  A run is quiet if all its writes and trims succeed and are logged and
 nothing is relocated: no GC pass, no bad-block retry, no static wear move.  Over quiet runs the
 log determines both mapping tables.
 */
module FtlLog {
  import opened Common
  import opened Layout
  import opened NandModel
  import opened WalModel
  import opened WalReplay
  import opened FtlModel
  import opened FtlInvariant
  import opened FtlRelocation
  import opened FtlSteps
  import opened FtlRuns

  /** A write that succeeds at once, without relocating anything. */
  ghost predicate QuietWrite(s: Ftl, lpn: nat, data: Page, env: Env)
    requires s.Shape() && forall i :: 0 <= i < |env.passes| ==> env.passes[i].victim < s.Geo().blocks
  {
    && lpn < s.Geo().lpns && env.wrote && !NeedsGc(s.nand)
    && Alloc(s).0.Some? && s.nand.blocks[Alloc(s).1.wb].state != Bad
    && (s.stats.sinceCheck + 1 < STATIC_WEAR_INTERVAL
        || StaticPick(WearCheck(WriteBody(s, lpn, data, env).1).nand) == None)
  }

  ghost predicate Quiet(s: Ftl, op: Op)
    requires s.Shape() && Admissible(s, op)
  {
    match op
    case DoRead(_, _) => true
    case DoWrite(lpn, data, env) => QuietWrite(s, lpn, data, env)
    case DoTrim(_, _, wrote) => forall i :: wrote(i)
    case _ => false
  }

  ghost predicate QuietRun(s: Ftl, ops: seq<Op>)
    requires s.Shape() && AdmissibleRun(s, ops)
    decreases ops
  {
    ops == [] || (Quiet(s, ops[0]) && QuietRun(Step(s, ops[0]).1, ops[1..]))
  }

  /** What `s'` has logged since `s`. */
  function Since(s: Ftl, s': Ftl): seq<Entry>
    requires s.wal.Some? && s'.wal.Some? && |s.wal.value.entries| <= |s'.wal.value.entries|
  {
    s'.wal.value.entries[|s.wal.value.entries|..]
  }

  /** `s'` has extended the log of `s` by honest entries that replay to its own tables. */
  ghost predicate Explains(s: Ftl, s': Ftl)
    requires s.Shape() && s'.Shape()
  {
    && s.wal.Some? && s'.wal.Some?
    && s.wal.value.entries <= s'.wal.value.entries
    && HonestLog(s.Maps(), Since(s, s'))
    && (HonestFits(s.Maps(), Since(s, s')); Replay(s.Maps(), Since(s, s')) == s'.Maps())
  }

  lemma ExplainsRefl(s: Ftl)
    requires s.Shape() && s.wal.Some?
    ensures Explains(s, s)
  {
  }

  lemma ExplainsTrans(s: Ftl, s1: Ftl, s2: Ftl)
    requires s.Shape() && s1.Shape() && s2.Shape() && Explains(s, s1) && Explains(s1, s2)
    ensures Explains(s, s2)
    ensures Since(s, s2) == Since(s, s1) + Since(s1, s2)
  {
    var a, b := Since(s, s1), Since(s1, s2);
    assert Since(s, s2) == a + b;
    HonestAppend(s.Maps(), a, b);
    HonestFits(s.Maps(), a);
    HonestFits(s.Maps(), a + b);
    HonestFits(s1.Maps(), b);
    ReplayAppend(s.Maps(), a, b);
  }

  lemma ExplainsOne(s: Ftl, s': Ftl, e: Entry)
    requires s.Shape() && s'.Shape() && s.wal.Some? && s'.wal.Some?
    requires s'.wal.value.entries == s.wal.value.entries + [e]
    requires Honest(s.Maps(), e) && s'.Maps() == ReplayOne(s.Maps(), e)
    ensures Explains(s, s')
  {
    assert Since(s, s') == [e];
    assert [e][1..] == [];
  }

  lemma InvConsistent(s: Ftl)
    requires Sane(s)
    ensures Consistent(s.Maps())
  {
  }

  // ---- trims

  lemma TrimOneExplains(s: Ftl, lpn: nat, wrote: nat -> bool)
    requires Safe(s) && s.wal.Some? && lpn < s.Geo().lpns && s.l2p[lpn] != INVALID && wrote(lpn)
    ensures Explains(s, TrimOne(s, lpn, wrote))
  {
    hide Counts, Sane, Safe, OpenOk, EntrySum;
    var w := s.wal.value;
    AppendIntact(w, OpTrim, lpn, s.l2p[lpn], INVALID);
    var e := Append(w, OpTrim, lpn, s.l2p[lpn], INVALID, true).1.entries[|w.entries|];
    ExplainsOne(s, TrimOne(s, lpn, wrote), e);
  }

  lemma {:induction false} TrimRangeExplains(s: Ftl, lpn: nat, end: nat, wrote: nat -> bool)
    requires Safe(s) && s.wal.Some? && lpn <= end <= s.Geo().lpns && forall i :: wrote(i)
    ensures Explains(s, TrimRange(s, lpn, end, wrote).0)
    decreases end - lpn
  {
    hide Counts, OpenOk, Sane, Safe, Explains, TrimOne;
    if lpn == end {
      ExplainsRefl(s);
    } else if s.l2p[lpn] == INVALID {
      TrimRangeExplains(s, lpn + 1, end, wrote);
    } else {
      TrimOneKeeps(s, lpn, wrote);
      TrimOneExplains(s, lpn, wrote);
      var s1 := TrimOne(s, lpn, wrote);
      ExplainsWal(s, s1);
      TrimRangeExplains(s1, lpn + 1, end, wrote);
      ExplainsTrans(s, s1, TrimRange(s1, lpn + 1, end, wrote).0);
    }
  }

  lemma ExplainsWal(s: Ftl, s': Ftl)
    requires s.Shape() && s'.Shape() && Explains(s, s')
    ensures s'.wal.Some?
  {
  }

  /** Only tables and log matter. */
  lemma ExplainsSame(s: Ftl, a: Ftl, b: Ftl)
    requires s.Shape() && a.Shape() && b.Shape() && Explains(s, a) && b.wal == a.wal && b.Maps() == a.Maps()
    ensures Explains(s, b)
  {
  }

  // ---- writes

  /** A quiet write programs the slot allocated first, and the tables move to it. */
  lemma QuietBody(s: Ftl, lpn: nat, data: Page, env: Env)
    requires Safe(s) && s.wal.Some? && forall i :: 0 <= i < |env.passes| ==> env.passes[i].victim < s.Geo().blocks
    requires lpn < s.Geo().lpns && env.wrote && !NeedsGc(s.nand)
    requires Alloc(s).0.Some? && s.nand.blocks[Alloc(s).1.wb].state != Bad
    requires Counts(s.nand) || OpensClean(s)
    ensures var slot := Alloc(s).0.value;
            var w := Append(s.wal.value, OpWrite, lpn, s.l2p[lpn], slot, true).1;
            var (end, s') := WriteBody(s, lpn, data, env);
            && end == Done(Ok) && s.rmap[slot] == INVALID
            && s'.wal == Some(w)
            && s'.l2p == s.l2p[lpn := slot]
            && s'.rmap == (if s.l2p[lpn] == INVALID then s.rmap else s.rmap[s.l2p[lpn] := INVALID])[slot := lpn]
            && s'.stats.sinceCheck == s.stats.sinceCheck
  {
    hide Counts, Sane, Safe, OpenOk, Logical, Alloc, EntrySum, Seal, Sound;
    AllocStep(s);
    AllocPlain(s);
    var (slot, s2) := Alloc(s);
    var s3 := Log(s2, OpWrite, lpn, s2.l2p[lpn], slot.value, true).1;
    CountersIrrelevant(s2, s2.stats, s3.wal);
    assert s3 == s2.(stats := s2.stats, wal := s3.wal);
    SlotStep(s3, slot.value, data);
  }

  lemma QuietWriteExplains(s: Ftl, lpn: nat, data: Page, env: Env)
    requires Safe(s) && s.wal.Some? && forall i :: 0 <= i < |env.passes| ==> env.passes[i].victim < s.Geo().blocks
    requires QuietWrite(s, lpn, data, env)
    requires Counts(s.nand) || WriteClean(s, lpn, data, env)
    ensures Write(s, lpn, data, env).0 == Done(Ok) && Explains(s, Write(s, lpn, data, env).1)
  {
    hide Counts, Sane, Safe, OpenOk, EntrySum, WriteBody, WearScan, Relocate, Explains, Alloc;
    QuietBody(s, lpn, data, env);
    var slot := Alloc(s).0.value;
    var w := s.wal.value;
    AppendIntact(w, OpWrite, lpn, s.l2p[lpn], slot);
    var e := Append(w, OpWrite, lpn, s.l2p[lpn], slot, true).1.entries[|w.entries|];
    var s1 := WriteBody(s, lpn, data, env).1;
    assert s1.wal.value.entries == w.entries + [e];
    ExplainsOne(s, s1, e);
    ExplainsSame(s, s1, Write(s, lpn, data, env).1);
  }

  // ---- runs

  lemma QuietStepExplains(s: Ftl, op: Op)
    requires Safe(s) && s.wal.Some? && Admissible(s, op) && Quiet(s, op)
    ensures Explains(s, Step(s, op).1)
  {
    hide Counts, OpenOk, Sane, Safe, Explains, Write, WriteForges, TrimRange, QuietWrite, Read;
    match op
    case DoRead(lpn, buf) =>
      ReadTables(s, lpn, buf);
      ExplainsRefl(s);
      ExplainsSame(s, s, Step(s, op).1);
    case DoWrite(lpn, data, env) => QuietWriteExplains(s, lpn, data, env);
    case DoTrim(lpn, count, wrote) =>
      ExplainsRefl(s);
      if 0 < count && lpn < s.Geo().lpns {
        var end := lpn + TrimCount(s.Geo(), lpn, count);
        TrimRangeExplains(s, lpn, end, wrote);
        ExplainsSame(s, TrimRange(s, lpn, end, wrote).0, Step(s, op).1);
      }
  }

  lemma ReadTables(s: Ftl, lpn: nat, buf: Page)
    requires Safe(s)
    ensures var s' := Read(s, lpn, buf).2; s'.wal == s.wal && s'.Maps() == s.Maps()
  {
    hide Readout;
    if lpn < s.Geo().lpns && s.l2p[lpn] != INVALID {
      s.Geo().PpnOfParts(s.l2p[lpn]);
      assert s.rmap[s.l2p[lpn]] == lpn && Sound(s.nand, s.l2p[lpn]);
    }
  }

  /** Replaying what a quiet run has logged, from the tables it started from, rebuilds both its tables. */
  lemma {:induction false} QuietRunExplains(s: Ftl, ops: seq<Op>)
    requires Safe(s) && s.wal.Some? && AdmissibleRun(s, ops) && QuietRun(s, ops)
    ensures Explains(s, Run(s, ops).1)
    decreases ops
  {
    hide Counts, OpenOk, Sane, Safe, Explains, Admissible, Step, Quiet;
    if ops == [] {
      ExplainsRefl(s);
    } else {
      QuietStepExplains(s, ops[0]);
      StepRefines(s, ops[0]);
      var s1 := Step(s, ops[0]).1;
      ExplainsWal(s, s1);
      QuietRunExplains(s1, ops[1..]);
      ExplainsTrans(s, s1, Run(s1, ops[1..]).1);
    }
  }

  /**
   Power-fail recovery: take a checkpoint of both tables anywhere in a quiet run, let the run go on,
   and replay the whole log over the checkpoint; the result is exactly the tables at the end.
   */
  lemma {:induction false} RecoverFromCheckpoint(s: Ftl, before: seq<Op>, after: seq<Op>)
    requires Safe(s) && s.wal.Some? && AdmissibleRun(s, before) && QuietRun(s, before)
    requires var mid := Run(s, before).1; AdmissibleRun(mid, after) && QuietRun(mid, after)
    ensures var mid := Run(s, before).1;
            var end := Run(mid, after).1;
            && Explains(s, mid) && Explains(s, end)
            && ForwardInRange(mid.Maps())
            && AllFit(Since(s, end), |mid.l2p|, |mid.rmap|)
            && Replay(mid.Maps(), Since(s, end)) == end.Maps()
  {
    hide Counts, OpenOk, Sane, Safe, Run, QuietRun, AdmissibleRun;
    RunRefines(s, before);
    QuietRunExplains(s, before);
    var mid := Run(s, before).1;
    QuietRunExplains(mid, after);
    var end := Run(mid, after).1;
    ExplainsTrans(s, mid, end);
    InvConsistent(s);
    HonestFits(s.Maps(), Since(s, end));
    HonestFits(s.Maps(), Since(s, mid));
    ReplayOverCheckpoint(s.Maps(), Since(s, mid), Since(mid, end));
  }
}
