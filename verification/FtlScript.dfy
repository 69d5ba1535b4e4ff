/**
 Runs from new media, step by step: which states are reached, and what a single call does to every block and
 table entry when it needs no garbage collection and no wear leveling.
 */
module FtlScript {
  import opened Common
  import opened Layout
  import opened NandModel
  import opened WalModel
  import opened FtlModel
  import opened FtlInvariant
  import opened FtlRelocation
  import opened FtlSteps
  import opened FtlRuns
  import opened FtlChoices

  // ---- runs that grow at the end

  lemma {:induction false} RunSnoc(s: Ftl, ops: seq<Op>, op: Op)
    requires s.Shape() && AdmissibleRun(s, ops) && Admissible(Run(s, ops).1, op)
    ensures AdmissibleRun(s, ops + [op])
    ensures Run(s, ops + [op]).1 == Step(Run(s, ops).1, op).1
    decreases ops
  {
    hide Admissible, Step;
    if ops == [] {
      assert [op][1..] == [];
    } else {
      var s1 := Step(s, ops[0]).1;
      RunSnoc(s1, ops[1..], op);
      assert (ops + [op])[1..] == ops[1..] + [op];
    }
  }

  /** `s` is the state after some run from the start on NAND `n`. */
  ghost predicate Reached(n: Nand, s: Ftl)
    requires n.Shape() && Init(n).Some?
  {
    exists ops :: AdmissibleRun(Init(n).value, ops) && Run(Init(n).value, ops).1 == s
  }

  lemma ReachedStart(n: Nand)
    requires n.Shape() && Init(n).Some?
    ensures Reached(n, Init(n).value)
  {
    assert Run(Init(n).value, []).1 == Init(n).value;
  }

  lemma {:induction false} ReachedStep(n: Nand, s: Ftl, op: Op)
    requires n.Shape() && Init(n).Some? && s.Shape() && Reached(n, s) && Admissible(s, op)
    ensures Reached(n, Step(s, op).1)
  {
    hide Step, Admissible, Run, AdmissibleRun;
    var ops :| AdmissibleRun(Init(n).value, ops) && Run(Init(n).value, ops).1 == s;
    RunSnoc(Init(n).value, ops, op);
  }

  // ---- the start without bad blocks

  /** New media of geometry `g` on which no block is bad from the factory. */
  function Fresh(g: Geometry, wearLimit: nat): (n: Nand)
    requires g.Valid()
    ensures n.Shape() && NewMedia(n) && n.geo == g
    ensures forall b :: 0 <= b < g.blocks ==> n.blocks[b] == Block(Free, 0, 0, 0, AllFalse(g.pages))
  {
    Nand(g, wearLimit, seq(g.blocks, _ => Block(Free, 0, 0, 0, AllFalse(g.pages))),
         seq(g.Total(), _ => Cell([], false, 0)), g.reserved, 0)
  }

  /** What a state at the start looks like. */
  lemma FreshStart(g: Geometry, wearLimit: nat)
    requires g.Valid() && 0 < g.User()
    ensures var i := Init(Fresh(g, wearLimit));
            && i.Some? && i.value.wb == 0 && i.value.wp == 0 && i.value.wal == None && i.value.stats == NO_STATS
            && i.value.nand == Fresh(g, wearLimit) && Inv(i.value)
            && forall x :: 0 <= x < g.lpns ==> i.value.l2p[x] == INVALID
  {
    InitEstablishes(Fresh(g, wearLimit));
  }

  // ---- a write that only writes

  /** No garbage collection, a log that can be written, no wear draw. */
  const QUIET: Env := Env([], false, true, false)

  /** No two good user blocks are far enough apart in wear for dynamic wear leveling. */
  ghost predicate EvenWear(n: Nand)
    requires n.Shape()
  {
    forall b :: 0 <= b < n.geo.User() && n.blocks[b].state != Bad ==> n.blocks[b].erases <= WEAR_DIFF
  }

  /** Static wear leveling is not due, or would find nothing worn. */
  ghost predicate StaticIdle(s: Ftl)
    requires s.Shape()
  {
    || s.stats.sinceCheck + 1 < STATIC_WEAR_INTERVAL
    || forall b :: 0 <= b < s.Geo().User() ==> s.nand.blocks[b].erases == 0
  }

  lemma NoCold(n: Nand)
    requires n.Shape() && EvenWear(n)
    ensures ColdBlock(n) == None
  {
    hide WearScan;
    WearScanIs(n.blocks, n.geo.User());
  }

  lemma NoStatic(n: Nand)
    requires n.Shape() && forall b :: 0 <= b < n.geo.User() ==> n.blocks[b].erases == 0
    ensures StaticPick(n) == None
  {
    hide StaticScan;
    StaticScanIs(n.blocks, n.geo.User());
  }

  /** The slot the next allocation hands out. */
  predicate NextSlot(s: Ftl, w: nat, at: nat)
    requires s.Shape()
  {
    && w < s.Geo().blocks && at < s.Geo().pages
    && if s.wp < s.Geo().pages then w == s.wb && at == s.wp else NextFree(s.nand, s.wb + 1) == Some(w) && at == 0
  }

  function Programmed(b: Block, p: nat): (r: Block)
    requires p < |b.valid|
  {
    b.(state := Used, count := b.count + 1, valid := b.valid[p := true])
  }

  function Dropped(b: Block, p: nat): (r: Block)
    requires p < |b.valid|
  {
    b.(state := if b.count == 1 then Free else b.state, count := if 0 < b.count then b.count - 1 else 0,
       valid := b.valid[p := false])
  }

  /** The inverse table without the page that holds the LPN. */
  ghost function Disowned(s: Ftl, lpn: nat): (r: seq<nat>)
    requires s.Shape() && lpn < s.Geo().lpns
    ensures |r| == |s.rmap|
  {
    if s.l2p[lpn] == INVALID then s.rmap else s.rmap[s.l2p[lpn] := INVALID]
  }

  /** The blocks after the write: the slot is programmed, and the page that held the LPN before is dropped. */
  ghost function WrittenBlocks(s: Ftl, lpn: nat, w: nat, at: nat): (r: seq<Block>)
    requires s.Shape() && lpn < s.Geo().lpns && w < s.Geo().blocks && at < s.Geo().pages
    ensures |r| == s.Geo().blocks
    ensures forall b :: 0 <= b < |r| ==> |r[b].valid| == s.Geo().pages
  {
    var blocks := s.nand.blocks[w := Programmed(s.nand.blocks[w], at)];
    var from := s.l2p[lpn];
    if from == INVALID then blocks
    else
      var b := s.Geo().BlockOf(from);
      blocks[b := Dropped(blocks[b], s.Geo().PageOf(from))]
  }

  /** Allocation and programming. */
  lemma PlainProgram(s: Ftl, data: Page, w: nat, at: nat)
    requires Inv(s) && NextSlot(s, w, at) && s.nand.blocks[w].state != Bad
    ensures var s2 := s.(wb := w, wp := at + 1);
            var n := PageWrite(s.nand, w, at, data).1;
            && Alloc(s) == (Some(s.Geo().Ppn(w, at)), s2)
            && Program(s2, s.Geo().Ppn(w, at), data) == (Ok, s.Geo().Ppn(w, at), s2.(nand := n))
            && n.blocks == s.nand.blocks[w := Programmed(s.nand.blocks[w], at)]
            && n.wearLimit == s.nand.wearLimit && n.reservedLeft == s.nand.reservedLeft && n.geo == s.Geo()
  {
    hide Inv, Safe, NextFree, Seal;
    PlainSlot(s, w, at);
  }

  /** The table and metadata updates. */
  lemma PlainCommit(s: Ftl, lpn: nat, w: nat, at: nat)
    requires s.Shape() && lpn < s.Geo().lpns && w < s.Geo().blocks && at < s.Geo().pages
    requires s.l2p[lpn] != INVALID ==>
               var b := s.nand.blocks[s.Geo().BlockOf(s.l2p[lpn])];
               b.state != Bad && b.valid[s.Geo().PageOf(s.l2p[lpn])] && 0 < b.count < TWO32
    ensures var s' := Commit(s, lpn, s.Geo().Ppn(w, at));
            var from := s.l2p[lpn];
            && s'.wb == s.wb && s'.wp == s.wp && s'.wal == s.wal && s'.l2p == s.l2p[lpn := s.Geo().Ppn(w, at)]
            && s'.rmap == Disowned(s, lpn)[s.Geo().Ppn(w, at) := lpn]
            && s'.nand.wearLimit == s.nand.wearLimit && s'.nand.reservedLeft == s.nand.reservedLeft
            && s'.stats.sinceCheck == s.stats.sinceCheck
            && s'.nand.blocks == if from == INVALID then s.nand.blocks
                                 else s.nand.blocks[s.Geo().BlockOf(from) :=
                                        Dropped(s.nand.blocks[s.Geo().BlockOf(from)], s.Geo().PageOf(from))]
  {
  }

  /** Up to the table updates. */
  lemma PlainBody(s: Ftl, lpn: nat, data: Page, w: nat, at: nat)
    requires Inv(s) && s.wal == None && lpn < s.Geo().lpns && !NeedsGc(s.nand)
    requires NextSlot(s, w, at) && s.nand.blocks[w].state != Bad
    ensures var (end, s') := WriteBody(s, lpn, data, QUIET);
            && end == Done(Ok) && s'.wb == w && s'.wp == at + 1 && s'.wal == None
            && s'.l2p == s.l2p[lpn := s.Geo().Ppn(w, at)]
            && s'.rmap == Disowned(s, lpn)[s.Geo().Ppn(w, at) := lpn]
            && s'.nand.blocks == WrittenBlocks(s, lpn, w, at)
            && s'.nand.wearLimit == s.nand.wearLimit && s'.nand.reservedLeft == s.nand.reservedLeft
            && s'.stats.sinceCheck == s.stats.sinceCheck
  {
    hide Inv, Safe, NextFree, NeedsGc, Alloc, Program, Commit, PageWrite, NextSlot, Programmed, Dropped;
    PlainProgram(s, data, w, at);
    if s.l2p[lpn] != INVALID {
      HomeCounted(s, lpn);
      ProgrammedHome(s, lpn, w, at);
    }
    var s3 := s.(wb := w, wp := at + 1, nand := PageWrite(s.nand, w, at, data).1);
    PlainCommit(s3, lpn, w, at);
  }

  lemma ProgrammedHome(s: Ftl, lpn: nat, w: nat, at: nat)
    requires Inv(s) && lpn < s.Geo().lpns && s.l2p[lpn] != INVALID && w < s.Geo().blocks && at < s.Geo().pages
    ensures var i, p := s.Geo().BlockOf(s.l2p[lpn]), s.Geo().PageOf(s.l2p[lpn]);
            var b := s.nand.blocks[w := Programmed(s.nand.blocks[w], at)][i];
            b.state != Bad && |b.valid| == s.Geo().pages && b.valid[p] && 0 < b.count < TWO32
  {
    hide Inv, Safe;
    HomeCounted(s, lpn);
  }

  /** The slot is clean and can be programmed. */
  lemma PlainSlot(s: Ftl, w: nat, at: nat)
    requires Inv(s) && NextSlot(s, w, at) && s.nand.blocks[w].state != Bad
    ensures !s.nand.blocks[w].valid[at]
  {
    if s.wp == s.Geo().pages { FreeIsClean(s, w); }
  }

  /** The page that holds an LPN can be read. */
  lemma HomeSound(s: Ftl, lpn: nat)
    requires Sane(s) && lpn < s.Geo().lpns && s.l2p[lpn] != INVALID
    ensures var b, p := s.Geo().BlockOf(s.l2p[lpn]), s.Geo().PageOf(s.l2p[lpn]);
            s.nand.blocks[b].state != Bad && s.nand.blocks[b].valid[p]
  {
    assert s.rmap[s.l2p[lpn]] == lpn && Sound(s.nand, s.l2p[lpn]);
  }

  /** The page that holds an LPN is counted. */
  lemma HomeCounted(s: Ftl, lpn: nat)
    requires Inv(s) && lpn < s.Geo().lpns && s.l2p[lpn] != INVALID
    ensures var b, p := s.Geo().BlockOf(s.l2p[lpn]), s.Geo().PageOf(s.l2p[lpn]);
            s.nand.blocks[b].state == Used && s.nand.blocks[b].valid[p] && 0 < s.nand.blocks[b].count < INVALID
  {
    var ppn := s.l2p[lpn];
    assert s.rmap[ppn] == lpn && Sound(s.nand, ppn);
    s.Geo().PpnOfParts(ppn);
    LiveIsUsed(s, s.Geo().BlockOf(ppn), s.Geo().PageOf(ppn));
    assert CountOk(s.nand.blocks[s.Geo().BlockOf(ppn)]);
    TotalBound(s.Geo(), s.nand.blocks[s.Geo().BlockOf(ppn)]);
  }

  /** Erase counts and badness are not changed by the write. */
  lemma WrittenErases(s: Ftl, lpn: nat, w: nat, at: nat)
    requires Inv(s) && lpn < s.Geo().lpns && w < s.Geo().blocks && at < s.Geo().pages
    requires s.nand.blocks[w].state != Bad
    ensures forall b :: 0 <= b < s.Geo().blocks ==>
              && WrittenBlocks(s, lpn, w, at)[b].erases == s.nand.blocks[b].erases
              && (WrittenBlocks(s, lpn, w, at)[b].state == Bad <==> s.nand.blocks[b].state == Bad)
  {
    hide Inv, Safe;
    if s.l2p[lpn] != INVALID { HomeCounted(s, lpn); }
  }

  ghost predicate Plain(s: Ftl, lpn: nat, w: nat, at: nat)
    requires s.Shape()
  {
    && s.wal == None && lpn < s.Geo().lpns && !NeedsGc(s.nand) && NextSlot(s, w, at)
    && s.nand.blocks[w].state != Bad && EvenWear(s.nand) && StaticIdle(s)
  }

  /** A write that meets no garbage collection and no wear leveling, exactly. */
  lemma PlainWrite(s: Ftl, lpn: nat, data: Page, w: nat, at: nat)
    requires Inv(s) && Plain(s, lpn, w, at)
    ensures Admissible(s, DoWrite(lpn, data, QUIET))
    ensures var (reply, s') := Step(s, DoWrite(lpn, data, QUIET));
            && reply == Answer(Ok, []) && Inv(s') && Logical(s') == Logical(s)[lpn := Some(data)]
            && s'.wb == w && s'.wp == at + 1 && s'.wal == None
            && s'.l2p == s.l2p[lpn := s.Geo().Ppn(w, at)]
            && s'.rmap == Disowned(s, lpn)[s.Geo().Ppn(w, at) := lpn]
            && s'.nand.blocks == WrittenBlocks(s, lpn, w, at)
            && s'.nand.wearLimit == s.nand.wearLimit && s'.nand.reservedLeft == s.nand.reservedLeft
            && s'.stats.sinceCheck <= s.stats.sinceCheck + 1
  {
    hide Inv, Core, Sane, Safe, Logical, WriteBody, NextFree, WrittenBlocks, NeedsGc, ColdBlock, StaticPick, NextSlot;
    PlainBody(s, lpn, data, w, at);
    WrittenErases(s, lpn, w, at);
    var s1 := WriteBody(s, lpn, data, QUIET).1;
    NoCold(s1.nand);
    if STATIC_WEAR_INTERVAL <= s1.stats.sinceCheck + 1 { NoStatic(s1.nand); }
    WriteMeetsContent(s, lpn, data, QUIET);
  }

  // ---- how many blocks are FREE

  lemma {:induction false} FreeAtLeast(blocks: seq<Block>, lo: nat, hi: nat)
    requires lo <= hi <= |blocks| && forall b :: lo <= b < hi ==> blocks[b].state == Free
    ensures hi - lo <= FreeBelow(blocks, hi)
  {
    if lo < hi { FreeAtLeast(blocks, lo, hi - 1); }
  }

  // ---- reads, trims and read disturb, exactly

  /** `k` more reads of block `b`. */
  function WithReads(s: Ftl, b: nat, k: nat): (r: Ftl)
    requires s.Shape() && b < s.Geo().blocks
    ensures r.Shape() && r.Geo() == s.Geo()
  {
    s.(nand := s.nand.(blocks := s.nand.blocks[b := s.nand.blocks[b].(readCount := s.nand.blocks[b].readCount + k)]))
  }

  lemma PlainRead(s: Ftl, lpn: nat)
    requires Safe(s) && lpn < s.Geo().lpns && s.l2p[lpn] != INVALID
    ensures Step(s, DoRead(lpn, [])).1 == WithReads(s, s.Geo().BlockOf(s.l2p[lpn]), 1)
    ensures Safe(WithReads(s, s.Geo().BlockOf(s.l2p[lpn]), 1))
    ensures Counts(s.nand) ==> Counts(WithReads(s, s.Geo().BlockOf(s.l2p[lpn]), 1).nand)
    ensures Logical(WithReads(s, s.Geo().BlockOf(s.l2p[lpn]), 1)) == Logical(s)
  {
    hide Safe, Sane, OpenOk, Counts, Logical, Readout;
    HomeSound(s, lpn);
    ReadMeetsContent(s, lpn, []);
  }

  /** Reading a stored LPN again and again does nothing but count, and stays within the runs. */
  lemma {:induction false} ReadMany(n: Nand, s: Ftl, lpn: nat, k: nat)
    requires n.Shape() && Init(n).Some? && Safe(s) && Reached(n, s) && lpn < s.Geo().lpns && s.l2p[lpn] != INVALID
    ensures var s' := WithReads(s, s.Geo().BlockOf(s.l2p[lpn]), k);
            Safe(s') && (Counts(s.nand) ==> Counts(s'.nand)) && Reached(n, s') && Logical(s') == Logical(s)
    decreases k
  {
    hide Safe, Counts, Reached, Logical, Step;
    var b := s.Geo().BlockOf(s.l2p[lpn]);
    if k == 0 {
      assert WithReads(s, b, 0) == s;
    } else {
      ReadMany(n, s, lpn, k - 1);
      var s1 := WithReads(s, b, k - 1);
      PlainRead(s1, lpn);
      ReachedStep(n, s1, DoRead(lpn, []));
      assert WithReads(s1, b, 1) == WithReads(s, b, k);
    }
  }

  const ALWAYS: nat -> bool := _ => true

  lemma TrimOneExact(s: Ftl, lpn: nat)
    requires Inv(s) && s.wal == None && lpn < s.Geo().lpns && s.l2p[lpn] != INVALID
    ensures var s' := TrimOne(s, lpn, ALWAYS);
            var b, p := s.Geo().BlockOf(s.l2p[lpn]), s.Geo().PageOf(s.l2p[lpn]);
            && s'.wb == s.wb && s'.wp == s.wp && s'.wal == None && s'.l2p == s.l2p[lpn := INVALID]
            && s'.nand.blocks == s.nand.blocks[b := Dropped(s.nand.blocks[b], p)]
            && s'.nand.wearLimit == s.nand.wearLimit && s'.nand.reservedLeft == s.nand.reservedLeft
            && s'.stats.sinceCheck == s.stats.sinceCheck
  {
    hide Inv, Safe;
    HomeCounted(s, lpn);
  }

  lemma TrimUnfolds(s: Ftl, lpn: nat)
    requires s.Shape() && lpn < s.Geo().lpns && s.l2p[lpn] != INVALID
    ensures TrimCount(s.Geo(), lpn, 1) == 1 && TrimEnd(s.Geo(), lpn, 1) == lpn + 1
    ensures var s' := Trim(s, lpn, 1, ALWAYS).1; s' == TrimOne(s, lpn, ALWAYS).(stats := s'.stats)
    ensures var s' := Trim(s, lpn, 1, ALWAYS).1; s'.stats.sinceCheck == TrimOne(s, lpn, ALWAYS).stats.sinceCheck
  {
    hide TrimOne;
    assert (lpn + 1) % TWO32 == lpn + 1;
    var s1 := TrimOne(s, lpn, ALWAYS);
    assert TrimRange(s1, lpn + 1, lpn + 1, ALWAYS) == (s1, 0);
  }

  /** Trimming one stored LPN without a log. */
  lemma PlainTrim(s: Ftl, lpn: nat)
    requires Inv(s) && s.wal == None && lpn < s.Geo().lpns && s.l2p[lpn] != INVALID
    ensures Admissible(s, DoTrim(lpn, 1, ALWAYS))
    ensures var s' := Step(s, DoTrim(lpn, 1, ALWAYS)).1;
            var b, p := s.Geo().BlockOf(s.l2p[lpn]), s.Geo().PageOf(s.l2p[lpn]);
            && Inv(s') && s'.wb == s.wb && s'.wp == s.wp && s'.wal == None && s'.l2p == s.l2p[lpn := INVALID]
            && s'.nand.blocks == s.nand.blocks[b := Dropped(s.nand.blocks[b], p)]
            && s'.nand.wearLimit == s.nand.wearLimit && s'.nand.reservedLeft == s.nand.reservedLeft
            && s'.stats.sinceCheck == s.stats.sinceCheck
  {
    hide Inv, Safe, Logical, Trim, TrimOne, Dropped, TrimCount;
    TrimUnfolds(s, lpn);
    TrimOneExact(s, lpn);
    TrimMeetsContent(s, lpn, 1, ALWAYS);
  }

  lemma {:induction false} MoveSkips(s: Ftl, src: nat, dst: nat, p: nat, buf: Page)
    requires s.Shape() && src < s.Geo().blocks && dst < s.Geo().blocks && p <= s.Geo().pages
    requires forall q :: p <= q < s.Geo().pages ==> !Live(s, src, q)
    ensures MoveLive(s, src, dst, p, buf) == (s, 0)
    decreases s.Geo().pages - p
  {
    if p < s.Geo().pages { MoveSkips(s, src, dst, p + 1, buf); }
  }

  /** Relocating a block that holds nothing but LPN `x`, in its first page. */
  lemma RelocateFirst(s: Ftl, src: nat, dst: nat, x: nat, draw: bool)
    requires Inv(s) && src < s.Geo().blocks && dst < s.Geo().blocks && src != dst && s.nand.blocks[dst].state == Free
    requires x < s.Geo().lpns && s.l2p[x] == s.Geo().Ppn(src, 0)
    requires forall q :: 1 <= q < s.Geo().pages ==> !s.nand.blocks[src].valid[q]
    ensures var s' := Relocate(s, src, dst, draw, []).0;
            && s'.wb == s.wb && s'.wp == s.wp && s'.wal == s.wal && s'.l2p == s.l2p[x := s.Geo().Ppn(dst, 0)]
            && s'.nand.wearLimit == s.nand.wearLimit && s'.nand.reservedLeft == s.nand.reservedLeft
            && s'.stats.sinceCheck == s.stats.sinceCheck
            && s'.nand.blocks[dst] == Programmed(s.nand.blocks[dst], 0)
            && (forall i :: 0 <= i < s.Geo().blocks && i != src && i != dst ==> s'.nand.blocks[i] == s.nand.blocks[i])
            && s'.nand.blocks[src].erases == s.nand.blocks[src].erases + (if WearsOut(s.nand, src, draw) then 0 else 1)
            && (!WearsOut(s.nand, src, draw) ==>
                  s'.nand.blocks[src] == Block(Free, s.nand.blocks[src].erases + 1, 0, 0, AllFalse(s.Geo().pages)))
            && (WearsOut(s.nand, src, draw) ==> s'.nand.blocks[src].state == Bad)
  {
    hide Inv, Safe, Logical, MoveLive, Seal, Readout;
    HomeCounted(s, x);
    FirstIsLive(s, src, x);
    FreeIsClean(s, dst);
    var (moved, s1, data) := MovePage(s, src, dst, 0, []);
    MoveFirst(s, src, dst, x);
    MoveSkips(s1, src, dst, 1, data);
    MoveUnfolds(s, src, dst);
  }

  lemma FirstIsLive(s: Ftl, b: nat, x: nat)
    requires Inv(s) && b < s.Geo().blocks && x < s.Geo().lpns && s.l2p[x] == s.Geo().Ppn(b, 0)
    ensures Live(s, b, 0) && s.rmap[s.Geo().Ppn(b, 0)] == x && s.nand.blocks[b].state != Bad
  {
    assert Sound(s.nand, s.l2p[x]);
  }

  lemma MoveUnfolds(s: Ftl, src: nat, dst: nat)
    requires s.Shape() && src < s.Geo().blocks && dst < s.Geo().blocks && Live(s, src, 0)
    ensures var (moved, s1, data) := MovePage(s, src, dst, 0, []);
            MoveLive(s, src, dst, 0, []).0 == MoveLive(s1, src, dst, 1, data).0
  {
    hide MovePage;
  }

  lemma MoveFirst(s: Ftl, src: nat, dst: nat, x: nat)
    requires s.Shape() && src < s.Geo().blocks && dst < s.Geo().blocks && src != dst
    requires Live(s, src, 0) && s.rmap[s.Geo().Ppn(src, 0)] == x && s.nand.blocks[src].state != Bad
    requires s.nand.blocks[dst].state != Bad && !s.nand.blocks[dst].valid[0]
    requires forall q :: 1 <= q < s.Geo().pages ==> !s.nand.blocks[src].valid[q]
    ensures var s' := MovePage(s, src, dst, 0, []).1;
            && s'.wb == s.wb && s'.wp == s.wp && s'.wal == s.wal && s'.l2p == s.l2p[x := s.Geo().Ppn(dst, 0)]
            && s'.nand.wearLimit == s.nand.wearLimit && s'.nand.reservedLeft == s.nand.reservedLeft
            && s'.stats.sinceCheck == s.stats.sinceCheck
            && s'.nand.blocks[dst] == Programmed(s.nand.blocks[dst], 0)
            && (forall i :: 0 <= i < s.Geo().blocks && i != src && i != dst ==> s'.nand.blocks[i] == s.nand.blocks[i])
            && s'.nand.blocks[src].erases == s.nand.blocks[src].erases && s'.nand.blocks[src].state != Bad
            && (forall q :: 1 <= q < s.Geo().pages ==> !Live(s', src, q))
  {
    hide Seal, Readout;
  }
}
