/**
 When the garbage-collection loop of ftl_write ends.  A pass never loses room, so a loop that gains at least one page a
 pass ends; with the greedy selector it runs forever exactly if it comes to a state in which every pass only moves the
 live pages of its victim to another block, and no victim ever wears out.
 */
module FtlStuck {
  import opened Common
  import opened Layout
  import opened NandModel
  import opened WalModel
  import opened FtlModel
  import opened FtlInvariant
  import opened FtlRelocation
  import opened FtlGain
  import opened FtlRotation
  import opened FtlMoves
  import opened FtlChoices
  import opened Victims

  // ---- a loop that gains something in every pass ends

  lemma {:induction false} FreeOtherBelow(blocks: seq<Block>, wb: nat, k: nat)
    requires k <= |blocks|
    ensures FreeBelow(blocks, k) == FreeOther(blocks, wb, k) + (if wb < k && blocks[wb].state == Free then 1 else 0)
  {
    if k != 0 { FreeOtherBelow(blocks, wb, k - 1); }
  }

  /** While the loop goes on, there is not much room. */
  lemma ProgrammableBound(s: Ftl)
    requires s.Shape() && Ordinary(s) && NeedsGc(s.nand)
    ensures Programmable(s) <= (GC_TRIGGER + 1) * s.Geo().pages
  {
    var user, pages := s.Geo().User(), s.Geo().pages;
    FreeOtherBelow(s.nand.blocks, s.wb, user);
    MulMono(FreeOther(s.nand.blocks, s.wb, user),
            if s.nand.blocks[s.wb].state == Free then GC_TRIGGER - 1 else GC_TRIGGER, pages);
  }

  /** Every pass of the loop is over a USED user block and gains at least one page. */
  ghost predicate Gaining(s: Ftl, passes: seq<Pass>)
    requires s.Shape()
    decreases passes
  {
    passes == [] || !NeedsGc(s.nand) ||
    (&& passes[0].victim < s.Geo().User() && s.nand.blocks[passes[0].victim].state == Used
     && 1 <= Gain(s, passes[0].victim)
     && Gaining(GcPass(s, passes[0].victim, passes[0].draw, []).1, passes[1..]))
  }

  /** So many gaining passes are not made: before that the loop has ended, well or badly. */
  lemma {:induction false} GainingLoopEnds(s: Ftl, passes: seq<Pass>, noVictim: bool)
    requires Inv(s) && Ordinary(s) && Gaining(s, passes)
    requires forall i :: 0 <= i < |passes| ==> passes[i].victim < s.Geo().blocks
    requires (GC_TRIGGER + 1) * s.Geo().pages < Programmable(s) + |passes|
    ensures GcLoop(s, passes, noVictim, []).0 != Running
    decreases passes
  {
    hide Inv, Safe, GcPass, Programmable, Gain;
    if NeedsGc(s.nand) {
      ProgrammableBound(s);
      var v, draw := passes[0].victim, passes[0].draw;
      GcPassGain(s, v, draw, []);
      GcPassInvisible(s, v, draw, []);
      var (code, s1) := GcPass(s, v, draw, []);
      if code == Ok { GainingLoopEnds(s1, passes[1..], noVictim); }
    }
  }

  // ---- states in which the greedy selector gains nothing, again and again

  /** `i` lies behind the open block and every FREE block. */
  ghost predicate Behind(s: Ftl, i: nat)
    requires s.Shape()
  {
    forall j :: 0 <= j < s.Geo().User() && (j == s.wb || s.nand.blocks[j].state == Free) ==> j < i
  }

  /**
   The allocated pages of the open block are all live, and no USED block is cheaper: each holds more valid pages, or
   as many and lies behind all blocks that the open one can move to.
   */
  ghost predicate StuckOpen(s: Ftl)
    requires s.Shape()
  {
    && Ordinary(s) && NeedsGc(s.nand) && NextFree(s.nand, s.wb + 1).Some?
    && s.nand.blocks[s.wb].state == Used && 1 <= s.wp && LiveRange(s, s.wb, 0, s.wp)
    && forall i :: 0 <= i < s.Geo().User() && i != s.wb && s.nand.blocks[i].state == Used ==>
         s.wp < s.nand.blocks[i].count || (s.wp == s.nand.blocks[i].count && Behind(s, i))
  }

  /** All USED blocks are full, the open one included if it is one of them. */
  ghost predicate StuckFull(s: Ftl)
    requires s.Shape()
  {
    && Ordinary(s) && NeedsGc(s.nand) && NextFree(s.nand, s.wb + 1).Some?
    && s.wp == s.Geo().pages && UsedIn(s.nand, 0, s.Geo().User())
    && forall i :: 0 <= i < s.Geo().User() && s.nand.blocks[i].state == Used ==> s.nand.blocks[i].count == s.Geo().pages
  }

  ghost predicate Stuck(s: Ftl)
    requires s.Shape()
  {
    StuckOpen(s) || StuckFull(s)
  }

  lemma FreeBelowSwap(a: seq<Block>, b: seq<Block>, v: nat, w: nat, k: nat)
    requires |a| == |b| && v < k <= |a| && w < k && v != w
    requires a[v].state == Used && a[w].state == Free && b[v].state == Free && b[w].state == Used
    requires forall i :: 0 <= i < |a| && i != v && i != w ==> b[i].state == a[i].state
    ensures FreeBelow(b, k) == FreeBelow(a, k)
  {
    var c := a[v := a[v].(state := Free)];
    FreeOtherOneMore(a, c, k, k, k, v);
    FreeOtherOneMore(b, c, k, k, k, w);
    FreeOtherBelow(a, k, k);
    FreeOtherBelow(b, k, k);
  }

  lemma SomeNextFree(n: Nand, start: nat, b: nat)
    requires n.Shape() && start <= n.geo.blocks && b < n.geo.User() && n.blocks[b].state == Free
    ensures NextFree(n, start).Some?
  {
  }

  /** The open block is the greedy choice, and a pass over it leads to such a state again. */
  lemma StuckOpenPass(s: Ftl)
    requires Inv(s) && StuckOpen(s)
    ensures IsLeast(s.nand, 0, s.Geo().User(), s.wb)
    ensures var (code, s') := GcPass(s, s.wb, false, []);
            && code == Ok && Inv(s') && StuckOpen(s') && s'.wp == s.wp
            && FreeBelow(s'.nand.blocks, s.Geo().User()) == FreeBelow(s.nand.blocks, s.Geo().User())
  {
    hide Inv, Safe, GcPass, Live, NextFree, FreeBelow;
    OpenCount(s);
    OpenIsMovable(s);
    PassRotates(s, s.wb, s.wp, false);
    var s' := GcPass(s, s.wb, false, []).1;
    FreeBelowSwap(s.nand.blocks, s'.nand.blocks, s.wb, s'.wb, s.Geo().User());
    SomeNextFree(s'.nand, s'.wb + 1, s.wb);
  }

  lemma OpenIsMovable(s: Ftl)
    requires Inv(s) && Ordinary(s) && s.nand.blocks[s.wb].state == Used && 1 <= s.wp && LiveRange(s, s.wb, 0, s.wp)
    requires NextFree(s.nand, s.wb + 1).Some?
    ensures Movable(s, s.wb, s.wp)
  {
    forall q | s.wp <= q < s.Geo().pages ensures !Live(s, s.wb, q) {
      if Live(s, s.wb, q) { PointerBeyond(s, q); }
    }
  }

  lemma StuckFullPass(s: Ftl, v: nat)
    requires Inv(s) && StuckFull(s) && OwnedBut(s, -1) && IsLeast(s.nand, 0, s.Geo().User(), v)
    ensures var (code, s') := GcPass(s, v, false, []);
            && code == Ok && Inv(s') && StuckFull(s') && OwnedBut(s', -1)
            && FreeBelow(s'.nand.blocks, s.Geo().User()) == FreeBelow(s.nand.blocks, s.Geo().User())
  {
    hide Inv, Safe, GcPass, Live, NextFree, FreeBelow;
    FullIsLive(s, v);
    PassRotates(s, v, s.Geo().pages, false);
    PassOwned(s, v, false);
    var s' := GcPass(s, v, false, []).1;
    FreeBelowSwap(s.nand.blocks, s'.nand.blocks, v, s'.wb, s.Geo().User());
    SomeNextFree(s'.nand, s'.wb + 1, v);
  }

  // ---- the loop with the greedy selector

  /** The loop is not done and the greedy selector finds a victim. */
  ghost predicate GoesOn(s: Ftl)
    requires s.Shape()
  {
    NeedsGc(s.nand) && exists v: nat :: IsLeast(s.nand, 0, s.Geo().User(), v)
  }

  ghost function GreedyVictim(s: Ftl): (v: nat)
    requires s.Shape() && GoesOn(s)
    ensures IsLeast(s.nand, 0, s.Geo().User(), v)
  {
    var v: nat :| IsLeast(s.nand, 0, s.Geo().User(), v); v
  }

  /**
   The state after `k` passes over greedy victims, none of them worn out by its erase; None if the loop ends before.
   */
  ghost function Greedy(s: Ftl, k: nat): (r: Option<Ftl>)
    requires s.Shape()
    ensures r.Some? ==> r.value.Shape() && r.value.Geo() == s.Geo()
    decreases k
  {
    if k == 0 then Some(s)
    else if !GoesOn(s) then None
    else
      var (code, s1) := GcPass(s, GreedyVictim(s), false, []);
      if code == Ok then Greedy(s1, k - 1) else None
  }

  /** However many passes have been made, the loop is not done. */
  ghost predicate Endless(s: Ftl)
    requires s.Shape()
  {
    forall k: nat :: Greedy(s, k).Some? && NeedsGc(Greedy(s, k).value.nand)
  }

  lemma {:induction false} GreedySplit(s: Ftl, j: nat, k: nat)
    requires s.Shape() && j <= k && Greedy(s, j).Some?
    ensures Greedy(s, k) == Greedy(Greedy(s, j).value, k - j)
    decreases j
  {
    hide GcPass;
    if j != 0 { GreedySplit(GcPass(s, GreedyVictim(s), false, []).1, j - 1, k - 1); }
  }

  /** What every pass over a greedy victim keeps. */
  lemma GreedyPassKeeps(s: Ftl, draw: bool)
    requires Inv(s) && Ordinary(s) && OwnedBut(s, -1) && GoesOn(s)
    ensures var (code, s') := GcPass(s, GreedyVictim(s), draw, []);
            Inv(s') && (code == Ok ==> Ordinary(s') && OwnedBut(s', -1)
                                       && Programmable(s') == Programmable(s) + Gain(s, GreedyVictim(s)))
  {
    hide Inv, Safe, GcPass, OwnedBut, Programmable, Gain, Ordinary;
    var v := GreedyVictim(s);
    GcPassInvisible(s, v, draw, []);
    GcPassGain(s, v, draw, []);
    PassOwned(s, v, draw);
  }

  // ---- once stuck, stuck forever

  lemma StuckPass(s: Ftl)
    requires Inv(s) && Stuck(s) && OwnedBut(s, -1)
    ensures GoesOn(s)
    ensures var (code, s') := GcPass(s, GreedyVictim(s), false, []);
            && code == Ok && Inv(s') && Stuck(s') && OwnedBut(s', -1)
            && FreeBelow(s'.nand.blocks, s.Geo().User()) == FreeBelow(s.nand.blocks, s.Geo().User())
  {
    hide Inv, Safe, GcPass, OwnedBut, StuckFull, FreeBelow;
    if StuckOpen(s) {
      StuckOpenPass(s);
      assert GoesOn(s);
      LeastUnique(s.nand, 0, s.Geo().User(), s.wb, GreedyVictim(s));
      PassOwned(s, s.wb, false);
    } else {
      SomeLeast(s);
      StuckFullPass(s, GreedyVictim(s));
    }
  }

  lemma {:induction false} LeastExists(n: Nand, hi: nat) returns (v: nat)
    requires hi <= |n.blocks| && UsedIn(n, 0, hi)
    ensures IsLeast(n, 0, hi, v)
  {
    if UsedIn(n, 0, hi - 1) {
      v := LeastExists(n, hi - 1);
      if n.blocks[hi - 1].state == Used && n.blocks[hi - 1].count < n.blocks[v].count { v := hi - 1; }
    } else {
      v := hi - 1;
    }
  }

  lemma SomeLeast(s: Ftl)
    requires s.Shape() && StuckFull(s)
    ensures GoesOn(s)
  {
    var v := LeastExists(s.nand, s.Geo().User());
  }

  /** Passes over greedy victims, with any wear draws. */
  ghost predicate GreedyPasses(s: Ftl, passes: seq<Pass>)
    requires s.Shape()
    decreases passes
  {
    passes == [] ||
    (&& GoesOn(s) && passes[0].victim == GreedyVictim(s)
     && (GcPass(s, passes[0].victim, passes[0].draw, []).0 == Ok ==>
           GreedyPasses(GcPass(s, passes[0].victim, passes[0].draw, []).1, passes[1..])))
  }

  /** A pass depends on its draw only where the victim wears out, and then it fails. */
  lemma PassDraw(s: Ftl, v: nat, draw: bool)
    requires s.Shape() && v < s.Geo().blocks
    ensures if WearsOut(s.nand, v, draw) then GcPass(s, v, draw, []).0 != Ok
            else GcPass(s, v, draw, []) == GcPass(s, v, false, [])
  {
    hide GcScan;
    GcScanErases(s.(stats := s.stats.(gcCount := s.stats.gcCount + 1)), v, 0, []);
  }

  lemma StuckOrdinary(s: Ftl)
    requires s.Shape() && Stuck(s)
    ensures Ordinary(s) && NeedsGc(s.nand)
  {
  }

  /**
   From a stuck state the loop never comes to have enough free blocks, however many passes it makes and however the
   wear draws fall: it goes on, or it fails because a victim wears out.
   */
  lemma {:induction false} StuckNeverEnough(s: Ftl, passes: seq<Pass>)
    requires Inv(s) && Stuck(s) && OwnedBut(s, -1) && GreedyPasses(s, passes)
    requires forall i :: 0 <= i < |passes| ==> passes[i].victim < s.Geo().blocks
    ensures var (end, s') := GcLoop(s, passes, false, []);
            && end != Enough && (end == Running ==> Inv(s') && Stuck(s'))
            && (end == Failed ==> exists i :: 0 <= i < |passes| && passes[i].draw)
    decreases passes
  {
    hide Inv, Safe, Stuck, OwnedBut, GcPass;
    StuckOrdinary(s);
    if passes != [] {
      StuckPass(s);
      PassDraw(s, passes[0].victim, passes[0].draw);
      var (code, s1) := GcPass(s, passes[0].victim, passes[0].draw, []);
      if code == Ok {
        StuckNeverEnough(s1, passes[1..]);
        if GcLoop(s1, passes[1..], false, []).0 == Failed {
          var i :| 0 <= i < |passes[1..]| && passes[1..][i].draw;
          assert passes[i + 1].draw;
        }
      } else {
        assert passes[0].draw;
      }
    }
  }

  // ---- a loop that does not stick comes closer to its end in every pass

  /** An upper bound on the passes until the loop is stuck or done. */
  ghost function Distance(s: Ftl): (d: nat)
    requires s.Shape()
  {
    if NeedsGc(s.nand) && Ordinary(s) then
      ProgrammableBound(s);
      var n := s.Geo().User() + 1;
      Scaled((GC_TRIGGER + 1) * s.Geo().pages - Programmable(s), 2 * n)
      + (if s.nand.blocks[s.wb].state == Free then n else 0) + (s.Geo().User() - s.wb)
    else 0
  }

  function Scaled(a: nat, n: nat): nat { a * n }

  lemma ScaledLess(a: nat, b: nat, n: nat)
    requires a < b
    ensures Scaled(a, n) + n <= Scaled(b, n)
  {
    MulMono(a + 1, b, n);
  }

  lemma {:induction false} CountBelow(v: seq<bool>, i: nat)
    requires i < |v| && !v[i]
    ensures CountTrue(v) < |v|
  {
    if 0 < i { CountBelow(v[1..], i - 1); }
  }

  /** The greedy victim is full: then all USED blocks are. */
  lemma FullVictim(s: Ftl, v: nat)
    requires Inv(s) && IsLeast(s.nand, 0, s.Geo().User(), v) && s.nand.blocks[v].count == s.Geo().pages
    ensures forall i :: 0 <= i < s.Geo().User() && s.nand.blocks[i].state == Used ==>
              s.nand.blocks[i].count == s.Geo().pages
    ensures s.nand.blocks[s.wb].state == Used && s.wb < s.Geo().User() ==> s.wp == s.Geo().pages
  {
    hide Inverses, Mapped;
    CountsFitFromInv(s);
    if s.wp < s.Geo().pages && s.nand.blocks[s.wb].state == Used {
      assert CountOk(s.nand.blocks[s.wb]);
      CountBelow(s.nand.blocks[s.wb].valid, s.wp);
    }
  }

  lemma FullIsStuck(s: Ftl, v: nat)
    requires Inv(s) && Ordinary(s) && NeedsGc(s.nand) && NextFree(s.nand, s.wb + 1).Some? && s.wp == s.Geo().pages
    requires IsLeast(s.nand, 0, s.Geo().User(), v) && s.nand.blocks[v].count == s.Geo().pages
    ensures Stuck(s)
  {
    hide NextFree;
    FullVictim(s, v);
    assert UsedIn(s.nand, 0, s.Geo().User());
  }

  lemma LiveRangeCounts(s: Ftl, b: nat)
    requires Inv(s) && b < s.Geo().blocks && s.nand.blocks[b].state != Bad && LiveRange(s, b, 0, s.Geo().pages)
    ensures s.nand.blocks[b].count == s.Geo().pages
    ensures 0 < LiveFrom(s, b, 0)
  {
    forall q | 0 <= q < s.Geo().pages ensures s.nand.blocks[b].valid[q] { assert Live(s, b, q); }
    CountPrefix(s.nand.blocks[b].valid, s.Geo().pages);
    assert CountOk(s.nand.blocks[b]);
    assert Live(s, b, 0);
  }

  /** A pass that moves something leaves a USED block open. */
  lemma OpensUsed(s: Ftl, v: nat)
    requires Inv(s) && Ordinary(s) && v < s.Geo().User() && 0 < LiveFrom(s, v, 0)
    requires GcPass(s, v, false, []).0 == Ok
    ensures var s' := GcPass(s, v, false, []).1; s'.nand.blocks[s'.wb].state == Used
  {
    hide Inv, Safe, GcScan, LiveFrom, Programmable, Moves;
    var s0 := s.(stats := s.stats.(gcCount := s.stats.gcCount + 1));
    CountersIrrelevant(s, s0.stats, s.wal);
    CounterLive(s, s0.stats, v);
    assert s0 == s.(stats := s0.stats, wal := s.wal);
    GcScanGain(s0, v, 0, []);
  }

  /** With the open block used up, a pass that moves something has found another FREE block. */
  lemma RoomBeyond(s: Ftl, v: nat)
    requires Inv(s) && Ordinary(s) && v < s.Geo().User() && s.nand.blocks[v].state == Used
    requires s.nand.blocks[s.wb].state == Used && GcPass(s, v, false, []).0 == Ok
    requires Rest(s) < Moves(s, v, 0)
    ensures NextFree(s.nand, s.wb + 1).Some?
  {
    hide Inv, Safe, GcPass, Moves, NextFree;
    GcPassGain(s, v, false, []);
    var i :| 0 <= i < s.Geo().User() && i != s.wb && s.nand.blocks[i].state == Free;
    SomeNextFree(s.nand, s.wb + 1, i);
  }

  /**
   A gainless pass over a block other than the open one, in a state that is not stuck, opens a USED block instead of a
   FREE one.
   */
  lemma GainlessElsewhere(s: Ftl, v: nat)
    requires Inv(s) && Ordinary(s) && NeedsGc(s.nand) && !Stuck(s)
    requires IsLeast(s.nand, 0, s.Geo().User(), v) && v != s.wb && Gain(s, v) == 0
    requires GcPass(s, v, false, []).0 == Ok
    ensures s.nand.blocks[s.wb].state == Free
    ensures var s' := GcPass(s, v, false, []).1; s'.nand.blocks[s'.wb].state == Used
  {
    hide Inv, Safe, GcPass, NextFree, Live;
    GainNeverNegative(s, v);
    LiveRangeCounts(s, v);
    OpensUsed(s, v);
    if s.nand.blocks[s.wb].state == Used {
      FullVictim(s, v);
      RoomBeyond(s, v);
      FullIsStuck(s, v);
    }
  }

  /** The open block holds something live, and so what is allocated of it is not nothing. */
  lemma OpenHolds(s: Ftl)
    requires Inv(s) && Ordinary(s) && OwnedBut(s, -1) && s.nand.blocks[s.wb].state == Used
    ensures 1 <= s.wp && 0 < LiveFrom(s, s.wb, 0)
  {
    CleanWhenFree(s.nand.blocks[s.wb]);
    var q :| 0 <= q < s.Geo().pages && s.nand.blocks[s.wb].valid[q];
    assert Live(s, s.wb, q);
    if LiveFrom(s, s.wb, 0) == 0 { NoneLive(s, s.wb, 0, q); }
  }

  lemma {:induction false} NoneLive(s: Ftl, b: nat, p: nat, q: nat)
    requires s.Shape() && b < s.Geo().blocks && p <= q < s.Geo().pages && LiveFrom(s, b, p) == 0
    ensures !Live(s, b, q)
    decreases q - p
  {
    if p < q { NoneLive(s, b, p + 1, q); }
  }

  /** A gainless pass over the open block, in a state that is not stuck, opens a later block. */
  lemma GainlessOpen(s: Ftl)
    requires Inv(s) && Ordinary(s) && NeedsGc(s.nand) && !Stuck(s) && OwnedBut(s, -1)
    requires IsLeast(s.nand, 0, s.Geo().User(), s.wb) && Gain(s, s.wb) == 0
    requires GcPass(s, s.wb, false, []).0 == Ok
    ensures var s' := GcPass(s, s.wb, false, []).1; s.wb < s'.wb && s'.nand.blocks[s'.wb].state == Used
  {
    hide Inv, Safe, GcPass, NextFree, Live, OwnedBut, LiveFrom, FirstFree;
    OpenHolds(s);
    GainNeverNegative(s, s.wb);
    assert LiveRange(s, s.wb, 0, s.wp);
    OpenCount(s);
    RoomBeyond(s, s.wb);
    OpenIsMovable(s);
    PassRotates(s, s.wb, s.wp, false);
    NotStuckAbove(s);
  }

  /** The open block is the greedy choice and the state is not stuck: then a FREE block lies above it. */
  lemma NotStuckAbove(s: Ftl)
    requires Inv(s) && Ordinary(s) && NeedsGc(s.nand) && !Stuck(s) && NextFree(s.nand, s.wb + 1).Some?
    requires IsLeast(s.nand, 0, s.Geo().User(), s.wb) && 1 <= s.wp && LiveRange(s, s.wb, 0, s.wp)
    ensures s.wb < NextFree(s.nand, s.wb + 1).value
  {
    hide Inv, Safe, NextFree, Live;
    OpenCount(s);
    if s.wp == s.Geo().pages { FullIsStuck(s, s.wb); }
    var i :| 0 <= i < s.Geo().User() && i != s.wb && s.nand.blocks[i].state == Used
             && !(s.wp < s.nand.blocks[i].count || (s.wp == s.nand.blocks[i].count && Behind(s, i)));
    var j :| 0 <= j < s.Geo().User() && (j == s.wb || s.nand.blocks[j].state == Free) && i <= j;
    NextFreeIsNext(s.nand, s.wb + 1, NextFree(s.nand, s.wb + 1).value);
  }

  /** Unless the state is stuck, a pass brings the loop closer to its end. */
  lemma PassComesCloser(s: Ftl)
    requires Inv(s) && Ordinary(s) && OwnedBut(s, -1) && GoesOn(s) && !Stuck(s)
    requires var (code, s') := GcPass(s, GreedyVictim(s), false, []); code == Ok && NeedsGc(s'.nand)
    ensures Distance(GcPass(s, GreedyVictim(s), false, []).1) < Distance(s)
  {
    hide Inv, Safe, GcPass, OwnedBut, Programmable, Gain, NeedsGc, Stuck;
    var v := GreedyVictim(s);
    GreedyPassKeeps(s, false);
    var s' := GcPass(s, v, false, []).1;
    GainNeverNegative(s, v);
    ProgrammableBound(s);
    ProgrammableBound(s');
    var n := s.Geo().User() + 1;
    if 0 < Gain(s, v) {
      var room := (GC_TRIGGER + 1) * s.Geo().pages;
      ScaledLess(room - Programmable(s'), room - Programmable(s), 2 * n);
    } else if v == s.wb {
      GainlessOpen(s);
    } else {
      GainlessElsewhere(s, v);
    }
  }

  lemma {:induction false} EndlessSticks(s: Ftl) returns (k: nat)
    requires Inv(s) && Ordinary(s) && OwnedBut(s, -1) && Endless(s)
    ensures k <= Distance(s) && Greedy(s, k).Some? && Stuck(Greedy(s, k).value)
    decreases Distance(s)
  {
    hide Inv, Safe, GcPass, OwnedBut, Stuck, NeedsGc, Distance, Ordinary;
    if Stuck(s) {
      k := 0;
    } else {
      assert Greedy(s, 0) == Some(s);
      assert Greedy(s, 1).Some? && NeedsGc(Greedy(s, 1).value.nand);
      var s1 := GcPass(s, GreedyVictim(s), false, []).1;
      assert Greedy(s1, 0) == Some(s1);
      GreedyPassKeeps(s, false);
      PassComesCloser(s);
      forall k: nat ensures Greedy(s1, k).Some? && NeedsGc(Greedy(s1, k).value.nand) {
        assert Greedy(s, k + 1) == Greedy(s1, k);
      }
      k := EndlessSticks(s1);
      k := k + 1;
    }
  }

  lemma {:induction false} StaysStuck(s: Ftl, k: nat)
    requires Inv(s) && Stuck(s) && OwnedBut(s, -1)
    ensures Greedy(s, k).Some? && Stuck(Greedy(s, k).value) && NeedsGc(Greedy(s, k).value.nand)
    decreases k
  {
    hide Inv, Safe, GcPass, OwnedBut, Stuck;
    if k == 0 {
      StuckOrdinary(s);
    } else {
      StuckPass(s);
      StaysStuck(GcPass(s, GreedyVictim(s), false, []).1, k - 1);
    }
  }

  lemma {:induction false} GreedyKeeps(s: Ftl, k: nat)
    requires Inv(s) && Ordinary(s) && OwnedBut(s, -1) && Greedy(s, k).Some?
    ensures var s' := Greedy(s, k).value; Inv(s') && Ordinary(s') && OwnedBut(s', -1)
    decreases k
  {
    hide Inv, Safe, GcPass, OwnedBut, Ordinary;
    if k != 0 {
      GreedyPassKeeps(s, false);
      GreedyKeeps(GcPass(s, GreedyVictim(s), false, []).1, k - 1);
    }
  }

  lemma {:induction false} GreedyBefore(s: Ftl, j: nat, k: nat)
    requires s.Shape() && j < k && Greedy(s, k).Some?
    ensures Greedy(s, j).Some? && NeedsGc(Greedy(s, j).value.nand)
    decreases k
  {
    hide GcPass;
    if j != 0 { GreedyBefore(GcPass(s, GreedyVictim(s), false, []).1, j - 1, k - 1); }
  }

  /**
   Wear-out aside, the loop with the greedy selector does not end exactly if it comes to a stuck state, which takes no
   more than Distance(s) passes.
   */
  lemma {:induction false} SticksIff(s: Ftl)
    requires Inv(s) && Ordinary(s) && OwnedBut(s, -1)
    ensures Endless(s) <==> exists k: nat :: k <= Distance(s) && Greedy(s, k).Some? && Stuck(Greedy(s, k).value)
  {
    hide Inv, Safe, GcPass, OwnedBut, Stuck, Ordinary, Distance, Greedy;
    if Endless(s) {
      var k := EndlessSticks(s);
    }
    if j: nat :| j <= Distance(s) && Greedy(s, j).Some? && Stuck(Greedy(s, j).value) {
      GreedyKeeps(s, j);
      forall k: nat ensures Greedy(s, k).Some? && NeedsGc(Greedy(s, k).value.nand) {
        if k < j {
          GreedyBefore(s, k, j);
        } else {
          GreedySplit(s, j, k);
          StaysStuck(Greedy(s, j).value, k - j);
        }
      }
    }
  }

  // ---- any wear draws

  /** The passes over greedy victims that the loop makes with these draws, as far as it gets. */
  ghost function Drawn(s: Ftl, draws: seq<bool>): (passes: seq<Pass>)
    requires s.Shape()
    ensures |passes| <= |draws| && GreedyPasses(s, passes)
    ensures forall i :: 0 <= i < |passes| ==> passes[i].victim < s.Geo().blocks
    decreases draws
  {
    if draws == [] || !GoesOn(s) then []
    else
      var v := GreedyVictim(s);
      var (code, s1) := GcPass(s, v, draws[0], []);
      [Pass(v, draws[0])] + if code == Ok then Drawn(s1, draws[1..]) else []
  }

  /** With this draw, the victim of pass `j` wears out. */
  ghost predicate WearsAt(s: Ftl, j: nat, draw: bool)
    requires s.Shape()
  {
    && Greedy(s, j).Some? && GoesOn(Greedy(s, j).value)
    && WearsOut(Greedy(s, j).value.nand, GreedyVictim(Greedy(s, j).value), draw)
  }

  /** With these draws the loop of ftl_write has made its passes and still goes on. */
  ghost predicate Going(s: Ftl, draws: seq<bool>)
    requires s.Shape()
  {
    |Drawn(s, draws)| == |draws| && GcLoop(s, Drawn(s, draws), false, []).0 == Running
  }

  /** One pass. */
  lemma DrawnStep(s: Ftl, draws: seq<bool>)
    requires s.Shape() && draws != []
    ensures Going(s, draws) ==> GoesOn(s)
    ensures GoesOn(s) ==>
              var (code, s1) := GcPass(s, GreedyVictim(s), draws[0], []);
              && (Going(s, draws) <==> code == Ok && Going(s1, draws[1..]))
              && (code == Ok ==> GcLoop(s, Drawn(s, draws), false, []) == GcLoop(s1, Drawn(s1, draws[1..]), false, []))
  {
    hide GcPass, NeedsGc;
    if GoesOn(s) {
      var (code, s1) := GcPass(s, GreedyVictim(s), draws[0], []);
      if code == Ok { assert Drawn(s, draws)[1..] == Drawn(s1, draws[1..]); }
    }
  }

  /** Without wear it would go on, and no victim wears out on the way. */
  ghost predicate Lasts(s: Ftl, draws: seq<bool>)
    requires s.Shape()
  {
    && Greedy(s, |draws|).Some? && NeedsGc(Greedy(s, |draws|).value.nand)
    && forall j :: 0 <= j < |draws| ==> !WearsAt(s, j, draws[j])
  }

  lemma GreedyNext(s: Ftl, k: nat)
    requires s.Shape()
    ensures Greedy(s, 0) == Some(s)
    ensures 0 < k ==> Greedy(s, k) ==
                      if GoesOn(s) && GcPass(s, GreedyVictim(s), false, []).0 == Ok
                      then Greedy(GcPass(s, GreedyVictim(s), false, []).1, k - 1) else None
  {
    hide GcPass, NeedsGc;
  }

  lemma WearsNow(s: Ftl, draw: bool)
    requires s.Shape()
    ensures WearsAt(s, 0, draw) <==> GoesOn(s) && WearsOut(s.nand, GreedyVictim(s), draw)
  {
    hide Greedy, GoesOn, WearsOut;
    GreedyNext(s, 0);
  }

  lemma WearsLater(s: Ftl, j: nat, draw: bool)
    requires s.Shape() && GoesOn(s) && GcPass(s, GreedyVictim(s), false, []).0 == Ok
    ensures WearsAt(s, j + 1, draw) == WearsAt(GcPass(s, GreedyVictim(s), false, []).1, j, draw)
  {
    hide Greedy, GoesOn, WearsOut, GcPass;
    GreedyNext(s, j + 1);
  }

  /** One pass of it. */
  lemma LastsStep(s: Ftl, draws: seq<bool>)
    requires s.Shape() && draws != []
    ensures Lasts(s, draws) ==> GoesOn(s)
    ensures GoesOn(s) ==>
              var (code, s1) := GcPass(s, GreedyVictim(s), false, []);
              && (Lasts(s, draws) <==>
                    code == Ok && !WearsOut(s.nand, GreedyVictim(s), draws[0]) && Lasts(s1, draws[1..]))
              && (code == Ok ==> Greedy(s, |draws|) == Greedy(s1, |draws[1..]|))
  {
    hide Greedy, GoesOn, WearsOut, GcPass, WearsAt, NeedsGc;
    GreedyNext(s, |draws|);
    WearsNow(s, draws[0]);
    if GoesOn(s) && GcPass(s, GreedyVictim(s), false, []).0 == Ok {
      var s1 := GcPass(s, GreedyVictim(s), false, []).1;
      forall j | 0 <= j < |draws| - 1 ensures WearsAt(s, j + 1, draws[j + 1]) == WearsAt(s1, j, draws[1..][j]) {
        WearsLater(s, j, draws[j + 1]);
      }
      ShiftAll(s, s1, draws);
    }
  }

  lemma ShiftAll(s: Ftl, s1: Ftl, draws: seq<bool>)
    requires s.Shape() && s1.Shape() && draws != []
    requires forall j :: 0 <= j < |draws| - 1 ==> WearsAt(s, j + 1, draws[j + 1]) == WearsAt(s1, j, draws[1..][j])
    ensures (forall j :: 0 <= j < |draws| ==> !WearsAt(s, j, draws[j])) <==>
            !WearsAt(s, 0, draws[0]) && forall j :: 0 <= j < |draws[1..]| ==> !WearsAt(s1, j, draws[1..][j])
  {
    hide WearsAt;
    if !WearsAt(s, 0, draws[0]) && forall j :: 0 <= j < |draws[1..]| ==> !WearsAt(s1, j, draws[1..][j]) {
      forall j | 0 <= j < |draws| ensures !WearsAt(s, j, draws[j]) {
        if 0 < j { assert !WearsAt(s1, j - 1, draws[1..][j - 1]); }
      }
    }
    if forall j :: 0 <= j < |draws| ==> !WearsAt(s, j, draws[j]) {
      forall j | 0 <= j < |draws[1..]| ensures !WearsAt(s1, j, draws[1..][j]) {
        assert !WearsAt(s, j + 1, draws[j + 1]);
      }
    }
  }

  lemma NoDraws(s: Ftl)
    requires s.Shape()
    ensures Going(s, []) <==> Lasts(s, [])
    ensures Going(s, []) ==> GcLoop(s, Drawn(s, []), false, []).1 == s && Greedy(s, 0) == Some(s)
  {
    hide NeedsGc;
  }

  /** The loop still goes on after these draws exactly if it would without wear, and no victim wears out on the way. */
  lemma {:induction false} DrawnLoop(s: Ftl, draws: seq<bool>)
    requires s.Shape()
    ensures Going(s, draws) <==> Lasts(s, draws)
    ensures Going(s, draws) ==>
              Greedy(s, |draws|).Some? && GcLoop(s, Drawn(s, draws), false, []).1 == Greedy(s, |draws|).value
    decreases draws
  {
    hide Going, GcLoop, Drawn, Greedy, GoesOn, WearsOut, GcPass, WearsAt, NeedsGc, Lasts;
    if draws == [] {
      NoDraws(s);
    } else {
      DrawnStep(s, draws);
      LastsStep(s, draws);
      if GoesOn(s) {
        PassDraw(s, GreedyVictim(s), draws[0]);
        var (code, s1) := GcPass(s, GreedyVictim(s), draws[0], []);
        if code == Ok { DrawnLoop(s1, draws[1..]); }
      }
    }
  }

  /** The first `k` draws. */
  ghost function First(draws: nat -> bool, k: nat): (r: seq<bool>)
    ensures |r| == k && forall j :: 0 <= j < k ==> r[j] == draws(j)
  {
    seq(k, j requires 0 <= j < k => draws(j))
  }

  /**
   For every stream of draws: the garbage-collection loop with the greedy selector never ends if and only if it comes
   to a stuck state, which takes no more than Distance(s) passes, and no victim ever wears out.
   */
  lemma {:induction false} EndlessIff(s: Ftl, draws: nat -> bool)
    requires Inv(s) && Ordinary(s) && OwnedBut(s, -1)
    ensures (forall k: nat :: Going(s, First(draws, k))) <==>
              && (exists k: nat :: k <= Distance(s) && Greedy(s, k).Some? && Stuck(Greedy(s, k).value))
              && forall j: nat :: !WearsAt(s, j, draws(j))
  {
    hide Inv, Safe, OwnedBut, Stuck, Ordinary, Distance, Greedy, Going, WearsAt, First, NeedsGc;
    SticksIff(s);
    forall k: nat ensures Going(s, First(draws, k)) <==>
                            && Greedy(s, k).Some? && NeedsGc(Greedy(s, k).value.nand)
                            && forall j :: 0 <= j < k ==> !WearsAt(s, j, draws(j))
    {
      DrawnLoop(s, First(draws, k));
    }
    if forall k: nat :: Going(s, First(draws, k)) {
      forall j: nat ensures !WearsAt(s, j, draws(j)) { assert Going(s, First(draws, j + 1)); }
    }
  }
}
