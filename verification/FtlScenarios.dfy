/**
 Runs from new media that end where the exact conditions of FtlRelocation and FtlSteps no longer hold, and the call that
 then breaks the invariant.  All of them use eleven blocks of three pages, two of them reserved, and four LPNs.
 */
module FtlScenarios {
  import opened Common
  import opened Layout
  import opened NandModel
  import opened WalModel
  import opened FtlModel
  import opened FtlInvariant
  import opened FtlRelocation
  import opened FtlSteps
  import opened FtlRuns
  import opened FtlScript
  import opened FtlChoices
  import opened FtlLosses

  const SMALL: Geometry := Geometry(3, 11, 2, 4)
  const NONE4: seq<nat> := [INVALID, INVALID, INVALID, INVALID]

  /** A FREE block that has been erased `e` times. */
  function Clean(e: nat): (b: Block)
    ensures |b.valid| == 3
  {
    Block(Free, e, 0, 0, [false, false, false])
  }

  function Holds(e: nat, count: nat, readCount: nat, p0: bool, p1: bool, p2: bool): (b: Block)
    ensures |b.valid| == 3
  {
    Block(Used, e, count, readCount, [p0, p1, p2])
  }

  /** The first three blocks as given, all others as new; the forward table and the write position as given. */
  ghost predicate Shows(n: Nand, s: Ftl, b: seq<Block>, l2p: seq<nat>, wb: nat, wp: nat, writes: nat) {
    && n.Shape() && n.geo == SMALL && Init(n).Some? && n == Fresh(SMALL, n.wearLimit)
    && Inv(s) && Reached(n, s) && s.Geo() == SMALL && s.wal == None && s.nand.reservedLeft == 2
    && s.nand.wearLimit == n.wearLimit && s.stats.sinceCheck <= writes
    && |b| == 3 && s.nand.blocks[0] == b[0] && s.nand.blocks[1] == b[1] && s.nand.blocks[2] == b[2]
    && (forall i :: 3 <= i < 11 ==> s.nand.blocks[i] == Clean(0))
    && s.l2p == l2p && s.wb == wb && s.wp == wp
  }

  lemma SmallPages()
    ensures SMALL.Valid() && SMALL.User() == 9 && SMALL.Total() == 33 && AllFalse(3) == [false, false, false]
    ensures forall b, p {:trigger SMALL.Ppn(b, p)} :: 0 <= b < 11 && 0 <= p < 3 ==> SMALL.Ppn(b, p) == 3 * b + p
    ensures forall ppn {:trigger SMALL.BlockOf(ppn)} :: 0 <= ppn < 33 ==> SMALL.BlockOf(ppn) == ppn / 3
    ensures forall ppn {:trigger SMALL.PageOf(ppn)} :: 0 <= ppn < 33 ==> SMALL.PageOf(ppn) == ppn % 3
  {
  }

  lemma SmallPpn(b: nat, p: nat)
    requires b < 11 && p < 3
    ensures SMALL.Valid() && SMALL.Ppn(b, p) == 3 * b + p
  {
  }

  lemma Begins(limit: nat) returns (n: Nand, s: Ftl)
    ensures n.wearLimit == limit && Shows(n, s, [Clean(0), Clean(0), Clean(0)], NONE4, 0, 0, 0)
  {
    SmallPages();
    FreshStart(SMALL, limit);
    n := Fresh(SMALL, limit);
    s := Init(n).value;
    ReachedStart(n);
  }

  /** What a write to slot `(w, at)` makes of the three blocks. */
  function Put(b: seq<Block>, from: nat, w: nat, at: nat): (r: seq<Block>)
    requires |b| == 3 && w < 3 && at < 3 && (from == INVALID || from < 9)
    requires forall i :: 0 <= i < 3 ==> |b[i].valid| == 3
    ensures |r| == 3
  {
    var c := b[w := Programmed(b[w], at)];
    if from == INVALID then c else c[from / 3 := Dropped(c[from / 3], from % 3)]
  }

  lemma FreeSeven(blocks: seq<Block>, i: nat)
    requires |blocks| == 11 && i < 3 && blocks[i].state == Free && forall j :: 3 <= j < 9 ==> blocks[j].state == Free
    ensures 7 <= FreeBelow(blocks, 9)
  {
    FreeAtLeast(blocks, 3, 9);
    FreeSplit(blocks, 3, 9);
    FreeSome(blocks, i, 3);
  }

  lemma {:induction false} FreeSome(blocks: seq<Block>, i: nat, k: nat)
    requires i < k <= |blocks| && blocks[i].state == Free
    ensures 1 <= FreeBelow(blocks, k)
  {
    if i < k - 1 { FreeSome(blocks, i, k - 1); }
  }

  lemma {:induction false} FreeSplit(blocks: seq<Block>, lo: nat, hi: nat)
    requires lo <= hi <= |blocks| && forall b :: lo <= b < hi ==> blocks[b].state == Free
    ensures FreeBelow(blocks, hi) == FreeBelow(blocks, lo) + (hi - lo)
  {
    if lo < hi { FreeSplit(blocks, lo, hi - 1); }
  }

  lemma ShowsWrite(n: Nand, s: Ftl, b: seq<Block>, l2p: seq<nat>, wb: nat, wp: nat, writes: nat,
                   x: nat, data: Page, w: nat, at: nat, free: nat) returns (s': Ftl)
    requires |b| == 3 && |l2p| == 4 && Shows(n, s, b, l2p, wb, wp, writes) && writes < 10 && x < 4 && w < 3 && at < 3
    requires if wp < 3 then w == wb && at == wp else w == wb + 1 && at == 0 && b[w].state == Free
    requires b[w].state != Bad && free < 3 && b[free].state == Free && (l2p[x] == INVALID || l2p[x] < 9)
    requires forall i :: 0 <= i < 3 ==> b[i].erases <= WEAR_DIFF && |b[i].valid| == 3
    ensures Shows(n, s', Put(b, l2p[x], w, at), l2p[x := 3 * w + at], w, at + 1, writes + 1)
  {
    hide Shows, Inv, Safe, Reached, Step, Admissible, Logical, Plain, WrittenBlocks, Put, Disowned;
    ShowsPlain(n, s, b, l2p, wb, wp, writes, x, w, at, free);
    PlainWrite(s, x, data, w, at);
    s' := Step(s, DoWrite(x, data, QUIET)).1;
    ReachedStep(n, s, DoWrite(x, data, QUIET));
    ShowsPut(n, s, s', b, l2p, wb, wp, writes, x, w, at);
  }

  lemma ShowsPlain(n: Nand, s: Ftl, b: seq<Block>, l2p: seq<nat>, wb: nat, wp: nat, writes: nat,
                   x: nat, w: nat, at: nat, free: nat)
    requires |b| == 3 && |l2p| == 4 && Shows(n, s, b, l2p, wb, wp, writes) && writes < 10 && x < 4 && w < 3 && at < 3
    requires if wp < 3 then w == wb && at == wp else w == wb + 1 && at == 0 && b[w].state == Free
    requires b[w].state != Bad && free < 3 && b[free].state == Free
    requires forall i :: 0 <= i < 3 ==> b[i].erases <= WEAR_DIFF && |b[i].valid| == 3
    ensures Inv(s) && Plain(s, x, w, at) && n.Shape() && Init(n).Some? && Reached(n, s) && s.Geo() == SMALL
  {
    hide Inv, Safe, Reached, Plain, Fresh, Init;
    IsPlain(s, x, w, at, free);
  }

  lemma ShowsPut(n: Nand, s: Ftl, s': Ftl, b: seq<Block>, l2p: seq<nat>, wb: nat, wp: nat, writes: nat,
                 x: nat, w: nat, at: nat)
    requires |b| == 3 && |l2p| == 4 && Shows(n, s, b, l2p, wb, wp, writes) && x < 4 && w < 3 && at < 3
    requires (l2p[x] == INVALID || l2p[x] < 9) && forall i :: 0 <= i < 3 ==> |b[i].valid| == 3
    requires Inv(s') && Reached(n, s') && s'.Geo() == SMALL && s'.wal == None
    requires s'.wb == w && s'.wp == at + 1 && s'.l2p == s.l2p[x := s.Geo().Ppn(w, at)]
    requires s'.nand.blocks == WrittenBlocks(s, x, w, at)
    requires s'.nand.wearLimit == s.nand.wearLimit && s'.nand.reservedLeft == s.nand.reservedLeft
    requires s'.stats.sinceCheck <= s.stats.sinceCheck + 1
    ensures Shows(n, s', Put(b, l2p[x], w, at), l2p[x := 3 * w + at], w, at + 1, writes + 1)
  {
    hide Inv, Safe, Reached, Fresh, Init, Put, WrittenBlocks, Clean, Geometry.Ppn, Geometry.Total, Ftl.Shape;
    hide Nand.Shape;
    SmallPpn(w, at);
    PutIs(s, b, x, w, at);
  }

  lemma IsPlain(s: Ftl, x: nat, w: nat, at: nat, free: nat)
    requires s.Shape() && s.Geo() == SMALL && s.wal == None && x < 4 && w < 3 && at < 3 && free < 3
    requires if s.wp < 3 then w == s.wb && at == s.wp else w == s.wb + 1 && at == 0 && s.nand.blocks[w].state == Free
    requires s.nand.blocks[w].state != Bad && s.nand.blocks[free].state == Free && s.stats.sinceCheck < 100
    requires forall i :: 0 <= i < 3 ==> s.nand.blocks[i].erases <= WEAR_DIFF
    requires forall i :: 3 <= i < 11 ==> s.nand.blocks[i] == Clean(0)
    ensures Plain(s, x, w, at)
  {
    hide FreeBelow;
    FreeSeven(s.nand.blocks, free);
  }

  lemma PutIs(s: Ftl, b: seq<Block>, x: nat, w: nat, at: nat)
    requires s.Shape() && s.Geo() == SMALL && x < 4 && w < 3 && at < 3 && |b| == 3
    requires forall i :: 0 <= i < 3 ==> s.nand.blocks[i] == b[i]
    requires s.l2p[x] == INVALID || s.l2p[x] < 9
    ensures forall i :: 0 <= i < 3 ==> |b[i].valid| == 3
    ensures var r := WrittenBlocks(s, x, w, at);
            var c := Put(b, s.l2p[x], w, at);
            && r[0] == c[0] && r[1] == c[1] && r[2] == c[2]
            && forall i :: 3 <= i < 11 ==> r[i] == s.nand.blocks[i]
  {
    SmallPages();
  }

  /** `b` after `k` more reads. */
  function Reread(b: Block, k: nat): Block {
    b.(readCount := b.readCount + k)
  }

  /** One of the three blocks changes, and the forward table. */
  lemma ShowsBlock(n: Nand, s: Ftl, s': Ftl, b: seq<Block>, l2p: seq<nat>, wb: nat, wp: nat, writes: nat, i: nat,
                   blk: Block)
    requires |b| == 3 && Shows(n, s, b, l2p, wb, wp, writes) && i < 3
    requires Inv(s') && Reached(n, s') && s'.Geo() == SMALL && s'.wal == None && s'.wb == wb && s'.wp == wp
    requires s'.nand.blocks == s.nand.blocks[i := blk]
    requires s'.nand.wearLimit == s.nand.wearLimit && s'.nand.reservedLeft == s.nand.reservedLeft
    requires s'.stats.sinceCheck == s.stats.sinceCheck
    ensures Shows(n, s', b[i := blk], s'.l2p, wb, wp, writes)
  {
    hide Inv, Safe, Reached, Fresh, Init, Clean;
  }

  lemma ShowsParts(n: Nand, s: Ftl, b: seq<Block>, l2p: seq<nat>, wb: nat, wp: nat, writes: nat)
    requires Shows(n, s, b, l2p, wb, wp, writes)
    ensures Inv(s) && n.Shape() && Init(n).Some? && Reached(n, s) && s.Geo() == SMALL && s.wal == None && s.l2p == l2p
    ensures |s.nand.blocks| == 11 && |b| == 3
    ensures b[0] == s.nand.blocks[0] && b[1] == s.nand.blocks[1] && b[2] == s.nand.blocks[2]
    ensures s.wb == wb && s.wp == wp
  {
    hide Inv, Safe, Reached, Fresh, Init, Clean;
  }

  lemma ShowsReads(n: Nand, s: Ftl, b: seq<Block>, l2p: seq<nat>, wb: nat, wp: nat, writes: nat, x: nat, k: nat)
    returns (s': Ftl)
    requires |b| == 3 && |l2p| == 4 && Shows(n, s, b, l2p, wb, wp, writes) && x < 4 && l2p[x] < 9
    ensures Shows(n, s', b[l2p[x] / 3 := Reread(b[l2p[x] / 3], k)], l2p, wb, wp, writes)
    ensures s'.Shape() && s.Shape() && Logical(s') == Logical(s)
  {
    hide Shows, Inv, Safe, Reached, Logical;
    ShowsParts(n, s, b, l2p, wb, wp, writes);
    SmallParts(l2p[x]);
    ReadMany(n, s, x, k);
    s' := WithReads(s, l2p[x] / 3, k);
    ShowsBlock(n, s, s', b, l2p, wb, wp, writes, l2p[x] / 3, Reread(b[l2p[x] / 3], k));
  }

  lemma SmallParts(ppn: nat)
    requires ppn < 33
    ensures SMALL.Valid() && ppn < SMALL.Total() && SMALL.BlockOf(ppn) == ppn / 3 && SMALL.PageOf(ppn) == ppn % 3
  {
  }

  lemma ShowsTrim(n: Nand, s: Ftl, b: seq<Block>, l2p: seq<nat>, wb: nat, wp: nat, writes: nat,
                  x: nat) returns (s': Ftl)
    requires |b| == 3 && |l2p| == 4 && Shows(n, s, b, l2p, wb, wp, writes) && x < 4 && l2p[x] < 9
    requires forall i :: 0 <= i < 3 ==> |b[i].valid| == 3
    ensures Shows(n, s', b[l2p[x] / 3 := Dropped(b[l2p[x] / 3], l2p[x] % 3)], l2p[x := INVALID], wb, wp, writes)
  {
    hide Shows, Inv, Safe, Reached, Dropped, Step, Admissible;
    ShowsParts(n, s, b, l2p, wb, wp, writes);
    SmallParts(l2p[x]);
    PlainTrim(s, x);
    s' := Step(s, DoTrim(x, 1, ALWAYS)).1;
    ReachedStep(n, s, DoTrim(x, 1, ALWAYS));
    ShowsBlock(n, s, s', b, l2p, wb, wp, writes, l2p[x] / 3, Dropped(b[l2p[x] / 3], l2p[x] % 3));
  }

  lemma Literals()
    ensures Programmed(Clean(0), 0) == Holds(0, 1, 0, true, false, false)
    ensures Programmed(Holds(0, 1, 0, true, false, false), 1) == Holds(0, 2, 0, true, true, false)
    ensures Dropped(Holds(0, 2, 0, true, true, false), 0) == Holds(0, 1, 0, false, true, false)
    ensures Programmed(Holds(0, 1, 0, false, true, false), 2) == Holds(0, 2, 0, false, true, true)
    ensures Dropped(Holds(0, 2, 0, false, true, true), 1) == Holds(0, 1, 0, false, false, true)
    ensures Dropped(Holds(0, 1, 0, true, false, false), 0) == Clean(0)
  {
    assert [false, false, false][0 := true] == [true, false, false];
    assert [true, false, false][1 := true] == [true, true, false];
    assert [true, true, false][0 := false] == [false, true, false];
    assert [false, true, false][2 := true] == [false, true, true];
    assert [false, true, true][1 := false] == [false, false, true];
    assert [true, false, false][0 := false] == [false, false, false];
  }

  /**
   Write LPN 0 twice and LPN 1 once, move LPN 0 to the next block by a third write and trim it, and read LPN 1 until it
   is due for read-disturb handling: the open block is FREE again, one page of it is allocated, and LPN 1 sits above
   that page in block 0.
   */
  lemma DisturbRun(limit: nat, data: Page) returns (n: Nand, s: Ftl)
    ensures n.wearLimit == limit
    ensures Shows(n, s, [Holds(0, 1, READ_DISTURB, false, false, true), Clean(0), Clean(0)],
                  [INVALID, 2, INVALID, INVALID], 1, 1, 4)
  {
    hide Shows, Programmed, Dropped;
    Literals();
    var clean := Clean(0);
    n, s := Begins(limit);
    s := ShowsWrite(n, s, [clean, clean, clean], NONE4, 0, 0, 0, 0, data, 0, 0, 1);
    var b1 := Holds(0, 1, 0, true, false, false);
    assert [clean, clean, clean][0 := b1] == [b1, clean, clean];
    var l1 := [0, INVALID, INVALID, INVALID];
    assert NONE4[0 := 0] == l1;
    s := ShowsWrite(n, s, [b1, clean, clean], l1, 0, 1, 1, 0, data, 0, 1, 1);
    var b2, b2' := Holds(0, 2, 0, true, true, false), Holds(0, 1, 0, false, true, false);
    assert [b1, clean, clean][0 := b2][0 := b2'] == [b2', clean, clean];
    var l2 := [1, INVALID, INVALID, INVALID];
    assert l1[0 := 1] == l2;
    s := ShowsWrite(n, s, [b2', clean, clean], l2, 0, 2, 2, 1, data, 0, 2, 1);
    var b3 := Holds(0, 2, 0, false, true, true);
    assert [b2', clean, clean][0 := b3] == [b3, clean, clean];
    var l3 := [1, 2, INVALID, INVALID];
    assert l2[1 := 2] == l3;
    s := MoveOn(n, s, data);
  }

  lemma MoveOn(n: Nand, s: Ftl, data: Page) returns (s': Ftl)
    requires Shows(n, s, [Holds(0, 2, 0, false, true, true), Clean(0), Clean(0)], [1, 2, INVALID, INVALID], 0, 3, 3)
    ensures Shows(n, s', [Holds(0, 1, READ_DISTURB, false, false, true), Clean(0), Clean(0)],
                  [INVALID, 2, INVALID, INVALID], 1, 1, 4)
  {
    hide Shows, Programmed, Dropped;
    Literals();
    var clean, b3, l3 := Clean(0), Holds(0, 2, 0, false, true, true), [1, 2, INVALID, INVALID];
    s' := ShowsWrite(n, s, [b3, clean, clean], l3, 0, 3, 3, 0, data, 1, 0, 2);
    var b4, c4 := Holds(0, 1, 0, false, false, true), Holds(0, 1, 0, true, false, false);
    assert [b3, clean, clean][1 := c4][0 := b4] == [b4, c4, clean];
    var l4 := [3, 2, INVALID, INVALID];
    assert l3[0 := 3] == l4;
    s' := ShowsTrim(n, s', [b4, c4, clean], l4, 1, 1, 4, 0);
    assert [b4, c4, clean][1 := clean] == [b4, clean, clean];
    var l5 := [INVALID, 2, INVALID, INVALID];
    assert l4[0 := INVALID] == l5;
    s' := ShowsReads(n, s', [b4, clean, clean], l5, 1, 1, 4, 1, READ_DISTURB);
    var b5 := Holds(0, 1, READ_DISTURB, false, false, true);
    assert [b4, clean, clean][0 := b5] == [b5, clean, clean];
  }

  lemma DisturbPicks(n: Nand, s: Ftl, b: seq<Block>, l2p: seq<nat>, wb: nat, wp: nat, writes: nat, src: nat, dst: nat)
    requires Shows(n, s, b, l2p, wb, wp, writes) && src < 3 && dst < 3
    requires b[src].state == Used && READ_DISTURB <= b[src].readCount && b[dst].state == Free
    requires forall i :: 0 <= i < 3 && i != src && b[i].state == Used ==> b[i].readCount < b[src].readCount
    requires forall i :: 0 <= i < dst ==> b[i].state != Free
    ensures Disturbed(s.nand) == Some(src) && NextFree(s.nand, 0) == Some(dst)
  {
    hide Inv, Safe, Reached, Fresh, Init, FirstFree, ReadScan;
    DisturbedIs(s.nand, src);
    NextFreeIsNext(s.nand, 0, dst);
  }

  /** What the state of DisturbRun has in store. */
  ghost predicate Ready(s: Ftl)
    requires s.Shape() && s.Geo() == SMALL
  {
    && Disturbed(s.nand) == Some(0) && NextFree(s.nand, 0) == Some(s.wb) && s.wp == 1
    && Live(s, 0, 2) && !Live(s, 0, 0) && !Live(s, 0, 1) && s.rmap[s.Geo().Ppn(0, 2)] == 1
  }

  lemma RunIsReady(n: Nand, s: Ftl)
    requires Shows(n, s, [Holds(0, 1, READ_DISTURB, false, false, true), Clean(0), Clean(0)],
                   [INVALID, 2, INVALID, INVALID], 1, 1, 4)
    ensures Inv(s) && s.Geo() == SMALL && Ready(s)
  {
    hide Shows, Inv, Safe, Disturbed, NextFree, Live, Ready, Nand.IsValid;
    var b := [Holds(0, 1, READ_DISTURB, false, false, true), Clean(0), Clean(0)];
    var l2p := [INVALID, 2, INVALID, INVALID];
    ShowsParts(n, s, b, l2p, 1, 1, 4);
    DisturbPicks(n, s, b, l2p, 1, 1, 4, 0, 1);
    ThirdIsLive(s);
  }

  lemma ThirdIsLive(s: Ftl)
    requires Inv(s) && s.Geo() == SMALL && s.nand.blocks[0].valid == [false, false, true] && s.l2p[1] == 2
    requires Disturbed(s.nand) == Some(0) && NextFree(s.nand, 0) == Some(s.wb) && s.wp == 1
    ensures Ready(s)
  {
    hide Inv, Safe, Disturbed, NextFree, Geometry.Ppn;
    SmallPpn(0, 2);
    StoredIs(s, 1);
  }

  lemma StoredIs(s: Ftl, x: nat)
    requires Inv(s) && x < s.Geo().lpns && s.l2p[x] != INVALID
    ensures s.rmap[s.l2p[x]] == x
  {
  }

  /** A run after which read-disturb handling moves LPN 1 above the write pointer of the open block. */
  lemma DisturbBreaksPointer(limit: nat, data: Page, draw: bool) returns (n: Nand, s: Ftl)
    ensures n == Fresh(SMALL, limit) && Init(n).Some? && Reached(n, s) && Inv(s) && s.Geo() == SMALL && Ready(s)
    ensures Core(ReadDisturb(s, draw, []).1) && !Inv(ReadDisturb(s, draw, []).1)
  {
    hide Shows, Ready, Inv, Core, Sane, Safe, ReadDisturb, DisturbHarmless, Fresh, Init, Reached;
    n, s := DisturbRun(limit, data);
    ShowsStart(n, s, [Holds(0, 1, READ_DISTURB, false, false, true), Clean(0), Clean(0)],
               [INVALID, 2, INVALID, INVALID], 1, 1, 4);
    RunIsReady(n, s);
    ReadyHarms(s);
    ReadDisturbKeeps(s, draw, []);
  }

  lemma ShowsStart(n: Nand, s: Ftl, b: seq<Block>, l2p: seq<nat>, wb: nat, wp: nat, writes: nat)
    requires Shows(n, s, b, l2p, wb, wp, writes)
    ensures n == Fresh(SMALL, n.wearLimit) && Init(n).Some? && Reached(n, s)
  {
    hide Inv, Safe, Reached, Fresh, Init, Clean;
  }

  lemma ReadyHarms(s: Ftl)
    requires s.Shape() && s.Geo() == SMALL && Ready(s)
    ensures !DisturbHarmless(s)
  {
    hide Disturbed, NextFree, Live;
    assert !LiveBelowPointer(s, 0) by { assert Live(s, 0, 2); }
  }

  /** The same run: LPN 1 reads OK, read disturb is handled, the open block is collected, and LPN 1 reads NOT_MAPPED. */
  lemma DisturbLosesLpn(limit: nat, data: Page, draw: bool) returns (n: Nand, s: Ftl)
    ensures n == Fresh(SMALL, limit) && Init(n).Some? && Reached(n, s) && Inv(s)
    ensures var s1 := ReadDisturb(s, draw, []).1;
            var (code, s2) := GcPass(s1, s1.wb, false, []);
            Read(s, 1, []).0 == Ok && code == Ok && Read(s2, 1, []).0 == NotMapped
  {
    hide Fresh, Init, Inv, Core, Sane, Safe, Reached, ReadDisturb, GcPass, Read, Ready;
    n, s := DisturbBreaksPointer(limit, data, draw);
    ReadyLoses(s, draw);
  }

  lemma ReadyLoses(s: Ftl, draw: bool)
    requires Inv(s) && s.Geo() == SMALL && Ready(s)
    ensures var s1 := ReadDisturb(s, draw, []).1;
            var (code, s2) := GcPass(s1, s1.wb, false, []);
            Read(s, 1, []).0 == Ok && code == Ok && Read(s2, 1, []).0 == NotMapped
  {
    hide Inv, Safe, ReadDisturb, GcPass, Read, Live, Disturbed, NextFree;
    DisturbThenGcLosesData(s, 0, 2, draw);
  }

  // ---- wearing two blocks out while a third stays cold

  lemma ShowsDisturb(n: Nand, s: Ftl, b: seq<Block>, l2p: seq<nat>, wb: nat, wp: nat, writes: nat,
                     x: nat, src: nat, dst: nat, draw: bool) returns (s': Ftl)
    requires |b| == 3 && |l2p| == 4 && Shows(n, s, b, l2p, wb, wp, writes) && x < 4 && src < 3 && dst < 3
    requires l2p[x] == 3 * src && forall i :: 0 <= i < 3 ==> |b[i].valid| == 3
    requires !b[src].valid[1] && !b[src].valid[2] && !(n.wearLimit < b[src].erases && draw)
    requires b[src].state == Used && READ_DISTURB <= b[src].readCount && b[dst].state == Free
    requires forall i :: 0 <= i < 3 && i != src && b[i].state == Used ==> b[i].readCount < b[src].readCount
    requires forall i :: 0 <= i < dst ==> b[i].state != Free
    requires dst == wb ==> 1 <= wp
    ensures Shows(n, s', b[dst := Programmed(b[dst], 0)][src := Clean(b[src].erases + 1)], l2p[x := 3 * dst],
                  wb, wp, writes)
  {
    hide Shows, Inv, Safe, Reached, Step, Admissible, Programmed, Disturbed, NextFree, DisturbHarmless;
    DisturbPicks(n, s, b, l2p, wb, wp, writes, src, dst);
    ShowsParts(n, s, b, l2p, wb, wp, writes);
    OnlyFirst(s, src, dst);
    SmallPpn(src, 0);
    SmallPpn(dst, 0);
    ShowsLimit(n, s, b, l2p, wb, wp, writes);
    SmallDisturb(s, x, src, dst, draw);
    s' := Step(s, DoDisturb(draw)).1;
    ReachedStep(n, s, DoDisturb(draw));
    ShowsTwo(n, s, s', b, l2p, wb, wp, writes, dst, Programmed(b[dst], 0), src, Clean(b[src].erases + 1));
  }

  lemma ShowsLimit(n: Nand, s: Ftl, b: seq<Block>, l2p: seq<nat>, wb: nat, wp: nat, writes: nat)
    requires Shows(n, s, b, l2p, wb, wp, writes)
    ensures s.nand.wearLimit == n.wearLimit
  {
    hide Inv, Safe, Reached, Fresh, Init, Clean;
  }

  /** Two of the three blocks change, and the forward table. */
  lemma ShowsTwo(n: Nand, s: Ftl, s': Ftl, b: seq<Block>, l2p: seq<nat>, wb: nat, wp: nat, writes: nat,
                 i: nat, at: Block, j: nat, other: Block)
    requires |b| == 3 && Shows(n, s, b, l2p, wb, wp, writes) && i < 3 && j < 3 && i != j
    requires Inv(s') && Reached(n, s') && s'.Geo() == SMALL && s'.wal == None && s'.wb == wb && s'.wp == wp
    requires s'.nand.blocks[i] == at && s'.nand.blocks[j] == other
    requires forall k :: 0 <= k < 11 && k != i && k != j ==> s'.nand.blocks[k] == s.nand.blocks[k]
    requires s'.nand.wearLimit == s.nand.wearLimit && s'.nand.reservedLeft == s.nand.reservedLeft
    requires s'.stats.sinceCheck == s.stats.sinceCheck
    ensures Shows(n, s', b[i := at][j := other], s'.l2p, wb, wp, writes)
  {
    hide Inv, Safe, Reached, Fresh, Init, Clean;
  }

  lemma SmallDisturb(s: Ftl, x: nat, src: nat, dst: nat, draw: bool)
    requires Inv(s) && s.Geo() == SMALL && x < 4 && src < 3 && dst < 3 && s.l2p[x] == s.Geo().Ppn(src, 0)
    requires Disturbed(s.nand) == Some(src) && NextFree(s.nand, 0) == Some(dst) && DisturbHarmless(s)
    requires !s.nand.blocks[src].valid[1] && !s.nand.blocks[src].valid[2] && !WearsOut(s.nand, src, draw)
    ensures Admissible(s, DoDisturb(draw))
    ensures var s' := Step(s, DoDisturb(draw)).1;
            && Inv(s') && s'.wb == s.wb && s'.wp == s.wp && s'.wal == s.wal && s'.l2p == s.l2p[x := s.Geo().Ppn(dst, 0)]
            && s'.nand.wearLimit == s.nand.wearLimit && s'.nand.reservedLeft == s.nand.reservedLeft
            && s'.stats.sinceCheck == s.stats.sinceCheck && src != dst
            && s'.nand.blocks[dst] == Programmed(s.nand.blocks[dst], 0)
            && s'.nand.blocks[src] == Clean(s.nand.blocks[src].erases + 1)
            && (forall i :: 0 <= i < 11 && i != src && i != dst ==> s'.nand.blocks[i] == s.nand.blocks[i])
  {
    hide Inv, Safe, Programmed, Disturbed, NextFree, Relocate, Logical, DisturbHarmless;
    assert AllFalse(3) == [false, false, false];
    RelocateFirst(s, src, dst, x, draw);
    ReadDisturbKeeps(s, draw, []);
  }

  lemma OnlyFirst(s: Ftl, src: nat, dst: nat)
    requires s.Shape() && s.Geo() == SMALL && src < 3 && Disturbed(s.nand) == Some(src)
    requires NextFree(s.nand, 0) == Some(dst)
    requires !s.nand.blocks[src].valid[1] && !s.nand.blocks[src].valid[2] && (dst == s.wb ==> 1 <= s.wp)
    ensures DisturbHarmless(s)
  {
    hide Disturbed, NextFree;
  }

  function Full(): (b: Block)
    ensures |b.valid| == 3
  {
    Holds(0, 3, 0, true, true, true)
  }

  function First(e: nat): (b: Block)
    ensures |b.valid| == 3
  {
    Holds(e, 1, 0, true, false, false)
  }

  lemma MoreLiterals()
    ensures Programmed(Clean(0), 0) == First(0)
    ensures Programmed(First(0), 1) == Holds(0, 2, 0, true, true, false)
    ensures Programmed(Holds(0, 2, 0, true, true, false), 2) == Full()
  {
    assert [false, false, false][0 := true] == [true, false, false];
    assert [true, false, false][1 := true] == [true, true, false];
    assert [true, true, false][2 := true] == [true, true, true];
  }

  /** Fill block 0 with LPNs 0 to 2, and put LPN 3 in the first page of block 1. */
  lemma ColdRun(limit: nat, data: Page) returns (n: Nand, s: Ftl)
    ensures n.wearLimit == limit
    ensures Shows(n, s, [Full(), First(0), Clean(0)], [0, 1, 2, 3], 1, 1, 4)
  {
    hide Shows, Programmed;
    MoreLiterals();
    var clean, b1, b2 := Clean(0), First(0), Holds(0, 2, 0, true, true, false);
    n, s := Begins(limit);
    s := ShowsWrite(n, s, [clean, clean, clean], NONE4, 0, 0, 0, 0, data, 0, 0, 1);
    assert [clean, clean, clean][0 := b1] == [b1, clean, clean];
    var l1, l2, l3 := [0, INVALID, INVALID, INVALID], [0, 1, INVALID, INVALID], [0, 1, 2, INVALID];
    assert NONE4[0 := 0] == l1;
    s := ShowsWrite(n, s, [b1, clean, clean], l1, 0, 1, 1, 1, data, 0, 1, 1);
    assert [b1, clean, clean][0 := b2] == [b2, clean, clean];
    assert l1[1 := 1] == l2;
    s := ShowsWrite(n, s, [b2, clean, clean], l2, 0, 2, 2, 2, data, 0, 2, 1);
    assert [b2, clean, clean][0 := Full()] == [Full(), clean, clean];
    assert l2[2 := 2] == l3;
    s := ShowsWrite(n, s, [Full(), clean, clean], l3, 0, 3, 3, 3, data, 1, 0, 2);
    assert [Full(), clean, clean][1 := First(0)] == [Full(), First(0), clean];
    assert l3[3 := 3] == [0, 1, 2, 3];
  }

  lemma FirstAgain(e: nat)
    ensures Programmed(Clean(e), 0) == First(e)
  {
    assert [false, false, false][0 := true] == [true, false, false];
  }

  /** Read LPN 3 until its block is due, and have it moved from block 1 to block 2. */
  lemma MoveOver(n: Nand, s: Ftl, e: nat, f: nat) returns (s': Ftl)
    requires Shows(n, s, [Full(), First(e), Clean(f)], [0, 1, 2, 3], 1, 1, 4)
    ensures Shows(n, s', [Full(), Clean(e + 1), First(f)], [0, 1, 2, 6], 1, 1, 4)
  {
    hide Shows, Programmed;
    var b, l := [Full(), First(e), Clean(f)], [0, 1, 2, 3];
    s' := ShowsReads(n, s, b, l, 1, 1, 4, 3, READ_DISTURB);
    var r := Holds(e, 1, READ_DISTURB, true, false, false);
    assert b[1 := r] == [Full(), r, Clean(f)];
    s' := ShowsDisturb(n, s', [Full(), r, Clean(f)], l, 1, 1, 4, 3, 1, 2, false);
    FirstAgain(f);
    assert [Full(), r, Clean(f)][2 := First(f)][1 := Clean(e + 1)] == [Full(), Clean(e + 1), First(f)];
    assert l[3 := 6] == [0, 1, 2, 6];
  }

  /** And back again. */
  lemma MoveBack(n: Nand, s: Ftl, e: nat, f: nat) returns (s': Ftl)
    requires Shows(n, s, [Full(), Clean(e), First(f)], [0, 1, 2, 6], 1, 1, 4)
    ensures Shows(n, s', [Full(), First(e), Clean(f + 1)], [0, 1, 2, 3], 1, 1, 4)
  {
    hide Shows, Programmed;
    var b, l := [Full(), Clean(e), First(f)], [0, 1, 2, 6];
    s' := ShowsReads(n, s, b, l, 1, 1, 4, 3, READ_DISTURB);
    var r := Holds(f, 1, READ_DISTURB, true, false, false);
    assert b[2 := r] == [Full(), Clean(e), r];
    s' := ShowsDisturb(n, s', [Full(), Clean(e), r], l, 1, 1, 4, 3, 2, 1, false);
    FirstAgain(e);
    assert [Full(), Clean(e), r][1 := First(e)][2 := Clean(f + 1)] == [Full(), First(e), Clean(f + 1)];
    assert l[3 := 3] == [0, 1, 2, 3];
  }

  /** So blocks 1 and 2 can be worn out as far as one likes, while block 0 has never been erased. */
  lemma {:induction false} WornRun(limit: nat, data: Page, e: nat) returns (n: Nand, s: Ftl)
    ensures n.wearLimit == limit
    ensures Shows(n, s, [Full(), First(e), Clean(e)], [0, 1, 2, 3], 1, 1, 4)
    decreases e
  {
    hide Shows;
    if e == 0 {
      n, s := ColdRun(limit, data);
    } else {
      n, s := WornRun(limit, data, e - 1);
      s := MoveOver(n, s, e - 1, e - 1);
      s := MoveBack(n, s, e, e - 1);
    }
  }

  // ---- the wear check forges a count

  lemma ForgingWear(n: Nand)
    requires n.Shape() && n.geo == SMALL && n.blocks[0] == Full()
    requires n.blocks[1].state == Used && n.blocks[1].erases == 51 && n.blocks[2].state == Free
    requires n.blocks[2].erases == 50
    requires forall i :: 3 <= i < 11 ==> n.blocks[i] == Clean(0)
    ensures ColdBlock(n) == Some(0) && Forges(n)
  {
    hide WearScan, ColdBlock;
    assert Bounds(n.blocks, 9, 0, 51);
    ColdBlockIs(n, 0);
  }

  /** What the first three blocks hold once LPN 3 has left block 2 for the second page of block 1. */
  ghost predicate ForgedBlocks(s: Ftl, first: Block, readCount: nat)
    requires s.Shape() && s.Geo() == SMALL
  {
    && s.nand.blocks[0] == first && s.nand.blocks[1] == Holds(51, 1, readCount, false, true, false)
    && s.nand.blocks[2] == Clean(50) && (forall i :: 3 <= i < 11 ==> s.nand.blocks[i] == Clean(0))
    && s.wb == 1 && s.wp == 2 && s.wal == None && s.stats.sinceCheck <= 5
  }

  /** The write that forges: LPN 3 leaves block 2 for the second page of block 1, and block 0 is found to be cold. */
  lemma ForgingBody(n: Nand, s: Ftl, next: Page)
    requires Shows(n, s, [Full(), Clean(51), First(50)], [0, 1, 2, 6], 1, 1, 4)
    ensures Inv(s) && s.Geo() == SMALL
    ensures var (end, s1) := WriteBody(s, 3, next, QUIET);
            && end == Done(Ok) && Inv(s1) && s1.Geo() == SMALL && ColdBlock(s1.nand) == Some(0) && Forges(s1.nand)
            && ForgedBlocks(s1, Full(), 0) && s1.l2p == [0, 1, 2, 4] && s1.stats.sinceCheck <= 4
  {
    hide Shows, Inv, Safe, NeedsGc, WriteBody, Logical, WrittenBlocks, ColdBlock, Forges, ForgedBlocks;
    var b := [Full(), Clean(51), First(50)];
    ShowsParts(n, s, b, [0, 1, 2, 6], 1, 1, 4);
    ShowsRoom(n, s, b, [0, 1, 2, 6], 1, 1, 4, 1);
    PlainBody(s, 3, next, 1, 1);
    WriteBodyKeeps(s, 3, next, QUIET);
    var s1 := WriteBody(s, 3, next, QUIET).1;
    assert s1.l2p == [0, 1, 2, 4] by { SmallPpn(1, 1); }
    ForgedState(n, s, s1);
    ForgedWear(s1);
  }

  /** The blocks after it. */
  lemma ForgedState(n: Nand, s: Ftl, s1: Ftl)
    requires Shows(n, s, [Full(), Clean(51), First(50)], [0, 1, 2, 6], 1, 1, 4)
    requires s.Shape() && s1.Shape() && s.Geo() == SMALL && s1.Geo() == SMALL && |s.l2p| == 4
    requires s1.nand.blocks == WrittenBlocks(s, 3, 1, 1) && s1.wb == 1 && s1.wp == 2 && s1.wal == None
    requires s1.stats.sinceCheck <= 5
    ensures ForgedBlocks(s1, Full(), 0)
  {
    hide Shows, WrittenBlocks, Programmed, Dropped;
    var b := [Full(), Clean(51), First(50)];
    ShowsParts(n, s, b, [0, 1, 2, 6], 1, 1, 4);
    ShowsRoom(n, s, b, [0, 1, 2, 6], 1, 1, 4, 1);
    PutIs(s, b, 3, 1, 1);
    ForgedPut();
  }

  lemma ForgedWear(s: Ftl)
    requires s.Shape() && s.Geo() == SMALL && ForgedBlocks(s, Full(), 0)
    ensures ColdBlock(s.nand) == Some(0) && Forges(s.nand)
  {
    hide Forges, ColdBlock;
    ForgingWear(s.nand);
  }

  lemma ForgedPut()
    ensures var c := Put([Full(), Clean(51), First(50)], 6, 1, 1);
            c[0] == Full() && c[1] == Holds(51, 1, 0, false, true, false) && c[2] == Clean(50)
  {
    assert [false, false, false][1 := true] == [false, true, false];
    assert [true, false, false][0 := false] == [false, false, false];
  }

  lemma ShowsRoom(n: Nand, s: Ftl, b: seq<Block>, l2p: seq<nat>, wb: nat, wp: nat, writes: nat, free: nat)
    requires Shows(n, s, b, l2p, wb, wp, writes) && free < 3 && b[free].state == Free
    ensures !NeedsGc(s.nand) && s.stats.sinceCheck <= writes
    ensures forall i :: 3 <= i < 11 ==> s.nand.blocks[i] == Clean(0)
  {
    hide Inv, Safe, Reached, Fresh, Init, FreeBelow;
    FreeSeven(s.nand.blocks, free);
  }

  /** A run after which the wear check of an OK write forges a count and breaks the invariant. */
  lemma ForgingHappens(limit: nat, data: Page, next: Page) returns (n: Nand, s: Ftl)
    ensures n == Fresh(SMALL, limit) && Init(n).Some? && Reached(n, s) && Inv(s) && s.Geo() == SMALL
    ensures var (end, s') := Write(s, 3, next, QUIET);
            && end == Done(Ok) && !Inv(s') && Safe(s') && s'.l2p == [0, 1, 2, 4]
            && ForgedBlocks(s', Full().(count := 1), 0)
  {
    hide Shows, Inv, Safe, WriteBody, ColdBlock, Forges, Fresh, Init, Reached, ForgedBlocks;
    n, s := WornRun(limit, data, 50);
    s := MoveOver(n, s, 50, 50);
    ShowsStart(n, s, [Full(), Clean(51), First(50)], [0, 1, 2, 6], 1, 1, 4);
    ForgingBody(n, s, next);
    ForgedWrite(s, next);
  }

  lemma ForgedWrite(s: Ftl, next: Page)
    requires Inv(s) && s.Geo() == SMALL
    requires var (end, s1) := WriteBody(s, 3, next, QUIET);
             && end == Done(Ok) && Inv(s1) && s1.Geo() == SMALL && ColdBlock(s1.nand) == Some(0) && Forges(s1.nand)
             && ForgedBlocks(s1, Full(), 0) && s1.l2p == [0, 1, 2, 4] && s1.stats.sinceCheck <= 4
    ensures var (end, s') := Write(s, 3, next, QUIET);
            && end == Done(Ok) && !Inv(s') && Safe(s') && s'.l2p == [0, 1, 2, 4]
            && ForgedBlocks(s', Full().(count := 1), 0)
  {
    hide Inv, Safe, WriteBody, ColdBlock, Forges, Logical, WearCheck;
    var s1 := WriteBody(s, 3, next, QUIET).1;
    WearCheckKeeps(s1);
    ForgedCheck(s1);
    var s2 := WearCheck(s1);
    var s' := Write(s, 3, next, QUIET).1;
    assert s' == s2.(stats := s2.stats.(sinceCheck := s2.stats.sinceCheck + 1));
    CountersIrrelevant(s2, s'.stats, s2.wal);
  }

  lemma ForgedCheck(s: Ftl)
    requires s.Shape() && s.Geo() == SMALL && ColdBlock(s.nand) == Some(0) && ForgedBlocks(s, Full(), 0)
    ensures var s' := WearCheck(s);
            && s'.Geo() == SMALL && ForgedBlocks(s', Full().(count := 1), 0) && s'.l2p == s.l2p
            && s'.stats.sinceCheck == s.stats.sinceCheck
  {
    hide ColdBlock, Clean;
  }

  /** Block 0 after the trim of LPN 0: FREE by its forged count, and still holding LPNs 1 and 2. */
  function Dirty(): (b: Block)
    ensures |b.valid| == 3
  {
    Block(Free, 0, 0, 0, [false, true, true])
  }

  lemma ForgedTrim(s: Ftl)
    requires s.Shape() && s.Geo() == SMALL && ForgedBlocks(s, Full().(count := 1), 0) && s.l2p == [0, 1, 2, 4]
    ensures var s' := Step(s, DoTrim(0, 1, ALWAYS)).1;
            ForgedBlocks(s', Dirty(), 0) && s'.l2p == [INVALID, 1, 2, 4] && s'.Geo() == SMALL
  {
    hide TrimOne, Trim, Clean;
    TrimUnfolds(s, 0);
    TrimOneAlone(s);
    assert [true, true, true][0 := false] == [false, true, true];
    assert [0, 1, 2, 4][0 := INVALID] == [INVALID, 1, 2, 4];
  }

  lemma TrimOneAlone(s: Ftl)
    requires s.Shape() && s.Geo() == SMALL && s.l2p[0] == 0 && s.wal == None
    ensures var t := TrimOne(s, 0, ALWAYS);
            && t.l2p == s.l2p[0 := INVALID] && t.nand.blocks == MarkInvalid(s.nand, 0, 0).1.blocks && t.Geo() == SMALL
            && t.wb == s.wb && t.wp == s.wp && t.wal == None && t.stats == s.stats
  {
    hide MarkInvalid, Geometry.BlockOf, Geometry.PageOf;
    SmallParts(0);
  }

  /** The forged run goes on: LPN 0 is trimmed, and LPN 3 is read until its block is due for read-disturb handling. */
  lemma ForgedRun(limit: nat, data: Page, next: Page) returns (n: Nand, s: Ftl)
    ensures n == Fresh(SMALL, limit) && Init(n).Some? && Reached(n, s) && Safe(s) && s.Geo() == SMALL
    ensures ForgedBlocks(s, Dirty(), READ_DISTURB) && s.l2p == [INVALID, 1, 2, 4]
  {
    hide Inv, Safe, Write, WriteForges, Fresh, Init, Reached, ForgedBlocks, Step, Sane, Counts;
    n, s := ForgingHappens(limit, data, next);
    WriteCallable(s, 3, next);
    ReachedStep(n, s, DoWrite(3, next, QUIET));
    s := Step(s, DoWrite(3, next, QUIET)).1;
    TrimCallable(s);
    ForgedTrim(s);
    StepRefines(s, DoTrim(0, 1, ALWAYS));
    ReachedStep(n, s, DoTrim(0, 1, ALWAYS));
    s := Step(s, DoTrim(0, 1, ALWAYS)).1;
    SmallParts(4);
    ReadMany(n, s, 3, READ_DISTURB);
    ReadForged(s);
    s := WithReads(s, 1, READ_DISTURB);
  }

  lemma WriteCallable(s: Ftl, x: nat, next: Page)
    requires Inv(s)
    ensures Admissible(s, DoWrite(x, next, QUIET))
    ensures Step(s, DoWrite(x, next, QUIET)).1 == Write(s, x, next, QUIET).1
  {
    hide Inv, Write;
  }

  lemma TrimCallable(s: Ftl)
    requires s.Shape() && s.Geo() == SMALL
    ensures Admissible(s, DoTrim(0, 1, ALWAYS))
  {
  }

  lemma ReadForged(s: Ftl)
    requires s.Shape() && s.Geo() == SMALL && ForgedBlocks(s, Dirty(), 0)
    ensures ForgedBlocks(WithReads(s, 1, READ_DISTURB), Dirty(), READ_DISTURB)
  {
  }

  /** The same run: LPN 3 reads OK, read disturb is handled, and LPN 3 reads NOT_MAPPED. */
  lemma ForgingLosesLpn(limit: nat, data: Page, next: Page) returns (n: Nand, s: Ftl)
    ensures n == Fresh(SMALL, limit) && Init(n).Some? && Reached(n, s) && Safe(s)
    ensures Read(s, 3, []).0 == Ok && Read(ReadDisturb(s, false, []).1, 3, []).0 == NotMapped
  {
    hide Safe, Fresh, Init, Reached, ForgedBlocks, Read, ReadDisturb;
    n, s := ForgedRun(limit, data, next);
    ForgedLoses(s);
  }

  lemma ForgedLoses(s: Ftl)
    requires Safe(s) && s.Geo() == SMALL && ForgedBlocks(s, Dirty(), READ_DISTURB) && s.l2p == [INVALID, 1, 2, 4]
    ensures Read(s, 3, []).0 == Ok && Read(ReadDisturb(s, false, []).1, 3, []).0 == NotMapped
  {
    hide Safe, Sane, FirstFree, ReadScan, Read, ReadDisturb;
    DisturbedIs(s.nand, 1);
    NextFreeIsNext(s.nand, 0, 0);
    SmallPpn(1, 1);
    StoredLive(s, 3, 1, 1);
    DirtyDestinationLoses(s, 1, 0, 1);
  }

  lemma StoredLive(s: Ftl, x: nat, b: nat, p: nat)
    requires Sane(s) && x < s.Geo().lpns && b < s.Geo().blocks && p < s.Geo().pages && s.l2p[x] == s.Geo().Ppn(b, p)
    ensures Live(s, b, p) && s.rmap[s.Geo().Ppn(b, p)] == x
  {
    assert s.rmap[s.l2p[x]] == x && Sound(s.nand, s.l2p[x]);
  }

  // ---- replacements into the open block

  /** Block 1 is worn enough to be refused by the next erase, and is moved away while it is still the open block. */
  lemma WearOutOpen(n: Nand, s: Ftl, e: nat) returns (s': Ftl)
    requires Shows(n, s, [Full(), First(e), Clean(e)], [0, 1, 2, 3], 1, 1, 4) && n.wearLimit < e
    ensures n == Fresh(SMALL, n.wearLimit) && Init(n).Some? && Reached(n, s') && Inv(s') && s'.Geo() == SMALL
    ensures s'.wb == 1 && s'.wp == 1 && s'.nand.blocks[0] == Full() && s'.nand.blocks[1].state == Bad
    ensures s'.nand.reservedLeft == 2 && s'.nand.blocks[9] == Clean(0) && s'.l2p == [0, 1, 2, 6] && s'.wal == None
    ensures s'.nand.blocks[2].state == Used && forall i :: 3 <= i < 9 ==> s'.nand.blocks[i] == Clean(0)
    ensures s'.stats.sinceCheck <= 4
  {
    hide Shows, Inv, Safe, Fresh, Init, Reached, Step, Admissible, Programmed, Disturbed, NextFree, Relocate;
    hide DisturbHarmless;
    var b, l := [Full(), First(e), Clean(e)], [0, 1, 2, 3];
    s' := ShowsReads(n, s, b, l, 1, 1, 4, 3, READ_DISTURB);
    var r := Holds(e, 1, READ_DISTURB, true, false, false);
    assert b[1 := r] == [Full(), r, Clean(e)];
    var c := [Full(), r, Clean(e)];
    ShowsParts(n, s', c, l, 1, 1, 4);
    ShowsStart(n, s', c, l, 1, 1, 4);
    ShowsSpare(n, s', c, l, 1, 1, 4);
    DisturbPicks(n, s', c, l, 1, 1, 4, 1, 2);
    OnlyFirst(s', 1, 2);
    SmallPpn(1, 0);
    SmallPpn(2, 0);
    WornDisturb(s');
    ReachedStep(n, s', DoDisturb(true));
    s' := Step(s', DoDisturb(true)).1;
  }

  lemma ShowsSpare(n: Nand, s: Ftl, b: seq<Block>, l2p: seq<nat>, wb: nat, wp: nat, writes: nat)
    requires Shows(n, s, b, l2p, wb, wp, writes)
    ensures s.nand.reservedLeft == 2 && (forall i :: 3 <= i < 11 ==> s.nand.blocks[i] == Clean(0))
    ensures s.nand.wearLimit == n.wearLimit && s.stats.sinceCheck <= writes
  {
    hide Inv, Safe, Reached, Fresh, Init, Clean;
  }

  lemma WornDisturb(s: Ftl)
    requires Inv(s) && s.Geo() == SMALL && s.l2p == [0, 1, 2, 3] && s.Geo().Ppn(1, 0) == 3 && s.Geo().Ppn(2, 0) == 6
    requires Disturbed(s.nand) == Some(1) && NextFree(s.nand, 0) == Some(2) && DisturbHarmless(s)
    requires !s.nand.blocks[1].valid[1] && !s.nand.blocks[1].valid[2] && s.nand.wearLimit < s.nand.blocks[1].erases
    ensures Admissible(s, DoDisturb(true))
    ensures var s' := Step(s, DoDisturb(true)).1;
            && Inv(s') && s'.wb == s.wb && s'.wp == s.wp && s'.wal == s.wal && s'.l2p == [0, 1, 2, 6]
            && s'.nand.reservedLeft == s.nand.reservedLeft && s'.stats.sinceCheck == s.stats.sinceCheck
            && s'.nand.blocks[1].state == Bad && s'.nand.blocks[2].state == Used
            && (forall i :: 0 <= i < 11 && i != 1 && i != 2 ==> s'.nand.blocks[i] == s.nand.blocks[i])
  {
    hide Inv, Safe, Disturbed, NextFree, Relocate, Logical, DisturbHarmless;
    RelocateFirst(s, 1, 2, 3, true);
    ReadDisturbKeeps(s, true, []);
    assert [0, 1, 2, 3][3 := 6] == [0, 1, 2, 6];
  }

  lemma SpareIs(n: Nand)
    requires n.Shape() && n.geo == SMALL && n.reservedLeft != 0 && n.blocks[9] == Clean(0)
    ensures Spare(n) == Some(9) && AllocReserved(n).1.reservedLeft == n.reservedLeft - 1
  {
  }

  /** Its bad block is replaced: the open block is now the first reserved one, still FREE, with one page allocated. */
  lemma OpenSpare(n: Nand, s: Ftl) returns (s': Ftl)
    requires n.Shape() && Init(n).Some? && Reached(n, s) && Inv(s) && s.Geo() == SMALL && s.wb == 1 && s.wp == 1
    requires s.nand.blocks[0] == Full() && s.nand.blocks[1].state == Bad && s.nand.reservedLeft == 2
    requires s.nand.blocks[9] == Clean(0) && s.wal == None
    requires forall i :: 3 <= i < 9 ==> s.nand.blocks[i] == Clean(0)
    ensures Reached(n, s') && Inv(s') && s'.Geo() == SMALL && s'.wb == 9 && s'.wp == 1 && s'.wal == None
    ensures s'.nand.blocks == s.nand.blocks && s'.nand.reservedLeft == 1
  {
    hide Inv, Safe, Reached, Step, Admissible, ReplaceBlock, AllocReserved, Init, Clean;
    SpareIs(s.nand);
    SpareHarmlessWhenBad(s, 1);
    ReplaceBad(s, 1, []);
    ReplaceStep(s, 1);
    ReachedStep(n, s, DoReplace(1));
    s' := Step(s, DoReplace(1)).1;
  }

  lemma ReplaceStep(s: Ftl, b: nat)
    requires Inv(s) && b < s.Geo().blocks && s.nand.blocks[b].state == Bad && Spare(s.nand).Some?
    ensures Admissible(s, DoReplace(b)) && Step(s, DoReplace(b)).1 == ReplaceBlock(s, b, []).1
    ensures var s' := ReplaceBlock(s, b, []).1;
            s'.wal == s.wal && s'.nand.reservedLeft == AllocReserved(s.nand).1.reservedLeft
  {
    hide Inv, Safe, CopyValid, RemapBlock, FirstFree;
    SpareHarmlessWhenBad(s, b);
    CopyFromBad(AllocReserved(s.nand).1, b, Spare(s.nand).value, 0, []);
  }

  lemma SixFree(n: Nand)
    requires n.Shape() && n.geo == SMALL && forall i :: 3 <= i < 9 ==> n.blocks[i] == Clean(0)
    ensures !NeedsGc(n)
  {
    hide FreeBelow;
    FreeAtLeast(n.blocks, 3, 9);
  }

  /**
   A run after which the spare of the next replacement is the open block: replacing block 0 breaks the invariant, and
   the next write, to whatever LPN, answers OVERWRITE.
   */
  lemma SpareBreaksPointer(limit: nat, data: Page, lpn: nat, next: Page) returns (n: Nand, s: Ftl)
    requires lpn < 4
    ensures n == Fresh(SMALL, limit) && Init(n).Some? && Reached(n, s) && Inv(s) && s.Geo() == SMALL
    ensures var (code, s') := ReplaceBlock(s, 0, []);
            code == Ok && Core(s') && !Inv(s') && Write(s', lpn, next, QUIET).0 == Done(Overwrite)
  {
    hide Shows, Inv, Core, Sane, Safe, Reached, ReplaceBlock, AllocReserved, Init, Fresh, NeedsGc, Write, FirstFree;
    n, s := WornRun(limit, data, limit + 1);
    s := WearOutOpen(n, s, limit + 1);
    s := OpenSpare(n, s);
    SpareIs(s.nand);
    SixFree(s.nand);
    assert s.nand.blocks[0].valid[1];
    assert !ValidBelowPointer(s, 0);
    ReplaceBlockKeeps(s, 0, []);
    SpareThenOverwrite(s, 0, lpn, next, QUIET);
  }
}
