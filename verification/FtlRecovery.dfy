/**
 Recovery after a power failure: load the snapshot taken in the middle of a run into a device with the NAND as it was
 at the end, then replay the log.  The tables and the content come back; the write position is that of the snapshot.
 */
module FtlRecovery {
  import opened Common
  import opened Layout
  import opened NandModel
  import opened WalModel
  import opened WalReplay
  import opened FtlModel
  import opened FtlInvariant
  import opened FtlSteps
  import opened FtlRuns
  import opened FtlLog
  import opened FtlLosses
  import opened Snapshot

  /** ftl_wal_replay on a device. */
  function Replayed(d: Ftl, log: seq<Entry>): (r: Ftl)
    requires d.Shape() && AllFit(log, |d.l2p|, |d.rmap|)
    ensures r.Shape() && r.Geo() == d.Geo()
  {
    var t := Replay(d.Maps(), log);
    ReplayOwners(d.Maps(), log);
    d.(l2p := t.l2p, rmap := t.rmap)
  }

  /** Owners in the inverse table stay within the forward one. */
  ghost predicate OwnersInRange(t: Tables) {
    forall i :: 0 <= i < |t.rmap| ==> t.rmap[i] == INVALID || t.rmap[i] < |t.l2p|
  }

  lemma {:induction false} ReplayOwners(t: Tables, log: seq<Entry>)
    requires ForwardInRange(t) && AllFit(log, |t.l2p|, |t.rmap|) && OwnersInRange(t)
    ensures OwnersInRange(Replay(t, log))
    decreases log
  {
    hide Intact;
    if log != [] { ReplayOwners(ReplayOne(t, log[0]), log[1..]); }
  }

  /** No page at or above `wp` of block `wb` is valid, or the block is bad. */
  ghost predicate NothingAbove(n: Nand, wb: nat, wp: nat)
    requires n.Shape() && wb < n.geo.blocks
  {
    n.blocks[wb].state == Bad || forall p :: wp <= p < n.geo.pages ==> !n.blocks[wb].valid[p]
  }

  /** Only tables, media and block metadata matter to the content and to everything but the write pointer. */
  lemma SameCore(s: Ftl, s': Ftl)
    requires Sane(s) && s'.Shape() && s'.nand == s.nand && s'.Maps() == s.Maps()
    ensures Sane(s') && Logical(s') == Logical(s)
  {
    assert Logical(s') == Logical(s);
  }

  /** The snapshot of `mid` in a device with the NAND of `end`, and a log that replays over `mid` to `end`. */
  lemma {:induction false} RecoveredState(mid: Ftl, end: Ftl, log: seq<Entry>, d: Ftl)
    requires Safe(mid) && Safe(end) && mid.Geo() == end.Geo() && d.Shape() && d.nand == end.nand
    requires AllFit(log, |mid.l2p|, |mid.rmap|) && Replay(mid.Maps(), log) == end.Maps()
    ensures var (code, d1) := Load(Save(mid), d);
            && code == Ok && d1.Shape() && d1.l2p == mid.l2p && d1.rmap == mid.rmap
            && var d2 := Replayed(d1, log);
               && d2.Maps() == end.Maps() && Sane(d2) && Logical(d2) == Logical(end)
               && d2.wb == mid.wb && d2.wp == mid.wp && d2.nand == end.nand && d2.wal == d.wal
               && (Safe(d2) <==> NothingAbove(end.nand, mid.wb, mid.wp))
  {
    hide Save, Load, Replay, AllFit, Logical, Inverses, Mapped, Counts;
    SnapshotRoundTrip(mid, d);
    LoadKeeps(Save(mid), d);
    var d1 := Load(Save(mid), d).1;
    assert d1.Maps() == mid.Maps();
    SameCore(end, Replayed(d1, log));
  }

  /**
   The recovered device has the tables and the content of the end of the run, and answers every read as it did.  Its
   write position is that of the snapshot, so the whole invariant holds exactly if nothing valid lies above it by then.
   */
  lemma {:induction false} RecoveredDevice(s: Ftl, before: seq<Op>, after: seq<Op>, d: Ftl)
    requires Safe(s) && s.wal.Some? && AdmissibleRun(s, before) && QuietRun(s, before)
    requires var mid := Run(s, before).1; AdmissibleRun(mid, after) && QuietRun(mid, after)
    requires d.Shape() && d.nand == Run(Run(s, before).1, after).1.nand
    ensures var mid := Run(s, before).1;
            var end := Run(mid, after).1;
            var (code, d1) := Load(Save(mid), d);
            && code == Ok && d1.Shape() && Explains(s, end) && AllFit(Since(s, end), |d1.l2p|, |d1.rmap|)
            && var d2 := Replayed(d1, Since(s, end));
               && d2.Maps() == end.Maps() && Sane(d2) && Logical(d2) == Logical(end)
               && d2.wb == mid.wb && d2.wp == mid.wp && d2.nand == end.nand && d2.wal == d.wal
               && (Safe(d2) <==> NothingAbove(end.nand, mid.wb, mid.wp))
  {
    hide Counts, Sane, Safe, Run, QuietRun, AdmissibleRun, Explains, Save, Load, Replay, AllFit, Logical;
    hide NothingAbove, Replayed;
    RecoverFromCheckpoint(s, before, after);
    RunRefines(s, before);
    var mid := Run(s, before).1;
    RunRefines(mid, after);
    var end := Run(mid, after).1;
    ExplainsLonger(s, end);
    RecoveredState(mid, end, Since(s, end), d);
  }

  lemma LoadKeeps(f: File, d: Ftl)
    requires d.Shape()
    ensures var d' := Load(f, d).1; d'.nand == d.nand && d'.wal == d.wal
  {
    hide HeaderSum, Rebuilt;
  }

  lemma ExplainsLonger(s: Ftl, s': Ftl)
    requires s.Shape() && s'.Shape() && Explains(s, s')
    ensures s.wal.Some? && s'.wal.Some? && |s.wal.value.entries| <= |s'.wal.value.entries|
  {
  }

  // ---- what the stale write position costs

  /** After a quiet write into the open block, the slot at the old write position is valid. */
  lemma WriteFillsSlot(s: Ftl, lpn: nat, data: Page, env: Env)
    requires Safe(s) && s.wal.Some? && Admissible(s, DoWrite(lpn, data, env)) && QuietWrite(s, lpn, data, env)
    requires s.wp < s.Geo().pages
    ensures var s' := Step(s, DoWrite(lpn, data, env)).1;
            Safe(s') && s'.nand.blocks[s.wb].state != Bad && s'.nand.blocks[s.wb].valid[s.wp]
  {
    hide Counts, Sane, Safe, OpenOk, Logical, WriteBody, WearScan, Relocate, EntrySum;
    QuietBody(s, lpn, data, env);
    StepRefines(s, DoWrite(lpn, data, env));
    var s' := Step(s, DoWrite(lpn, data, env)).1;
    assert s'.l2p[lpn] == s.Geo().Ppn(s.wb, s.wp);
    StoredSound(s', lpn);
  }

  lemma StoredSound(s: Ftl, lpn: nat)
    requires Safe(s) && lpn < s.Geo().lpns && s.l2p[lpn] != INVALID
    ensures Sound(s.nand, s.l2p[lpn])
  {
    assert s.rmap[s.l2p[lpn]] == lpn;
  }

  /**
   One quiet write between the snapshot and the power failure is enough, unless it had to open another block: in the
   recovered device the invariant does not hold, and the next write, to whatever LPN, answers OVERWRITE.
   */
  lemma {:induction false} RecoveryMeetsOverwrite(s: Ftl, lpn: nat, data: Page, env: Env, d: Ftl, next: nat,
                                                  bytes: Page, env': Env)
    requires Safe(s) && s.wal.Some? && Admissible(s, DoWrite(lpn, data, env)) && QuietWrite(s, lpn, data, env)
    requires s.wp < s.Geo().pages
    requires d.Shape() && d.nand == Step(s, DoWrite(lpn, data, env)).1.nand && !NeedsGc(d.nand)
    requires next < s.Geo().lpns && (d.wal == None || env'.wrote)
    requires forall i :: 0 <= i < |env'.passes| ==> env'.passes[i].victim < s.Geo().blocks
    ensures var end := Step(s, DoWrite(lpn, data, env)).1;
            var (code, d1) := Load(Save(s), d);
            && code == Ok && d1.Shape() && Explains(s, end) && AllFit(Since(s, end), |d1.l2p|, |d1.rmap|)
            && var d2 := Replayed(d1, Since(s, end));
               && Logical(d2) == Logical(end) && !Safe(d2)
               && Write(d2, next, bytes, env').0 == Done(Overwrite)
  {
    hide Counts, Sane, Safe, Explains, Save, Load, Replay, AllFit, Logical, NeedsGc, Step, Admissible, QuietWrite;
    hide Write, Replayed;
    OneOpRun(s, DoWrite(lpn, data, env));
    QuietWriteIsQuiet(s, lpn, data, env);
    RecoveredDevice(s, [], [DoWrite(lpn, data, env)], d);
    WriteFillsSlot(s, lpn, data, env);
    var end := Step(s, DoWrite(lpn, data, env)).1;
    ExplainsLonger(s, end);
    var d2 := Replayed(Load(Save(s), d).1, Since(s, end));
    OverwriteAnswer(d2, next, bytes, env');
  }

  lemma OneOpRun(s: Ftl, op: Op)
    requires s.Shape() && Admissible(s, op)
    ensures AdmissibleRun(s, []) && Run(s, []).1 == s && QuietRun(s, [])
    ensures AdmissibleRun(s, [op]) && Run(s, [op]).1 == Step(s, op).1
    ensures Quiet(s, op) ==> QuietRun(s, [op])
  {
    hide Step, Admissible, Quiet;
    assert [op][1..] == [];
  }

  lemma QuietWriteIsQuiet(s: Ftl, lpn: nat, data: Page, env: Env)
    requires s.Shape() && Admissible(s, DoWrite(lpn, data, env)) && QuietWrite(s, lpn, data, env)
    ensures Quiet(s, DoWrite(lpn, data, env))
  {
    hide QuietWrite;
  }
}
