/**
 What becomes of the writes once the garbage-collection loop is stuck, however the wear draws fall.  A pass whose victim
 wears out fails the write and costs a block; the state it leaves is stuck as well, or has no FREE block left, and no
 later write succeeds either.
 */
module FtlJam {
  import opened Common
  import opened Layout
  import opened NandModel
  import opened WalModel
  import opened FtlModel
  import opened FtlInvariant
  import opened FtlRelocation
  import opened FtlSteps
  import opened FtlGain
  import opened FtlRotation
  import opened FtlMoves
  import opened FtlChoices
  import opened FtlStuck
  import opened FtlRuns
  import opened Victims

  // ---- the victim wears out

  lemma {:induction false} FreeBelowLess(a: seq<Block>, b: seq<Block>, w: nat, k: nat)
    requires w < k <= |a| == |b| && a[w].state == Free && b[w].state != Free
    requires forall i :: 0 <= i < k && i != w ==> (a[i].state == Free <==> b[i].state == Free)
    ensures FreeBelow(b, k) + 1 == FreeBelow(a, k)
    decreases k
  {
    if w == k - 1 { FreeBelowSame(a, b, k - 1); } else { FreeBelowLess(a, b, w, k - 1); }
  }

  /** No user block is FREE. */
  ghost predicate NoneFree(s: Ftl)
    requires s.Shape()
  {
    forall i :: 0 <= i < s.Geo().User() ==> s.nand.blocks[i].state != Free
  }

  /** Every USED user block holds a live page. */
  ghost predicate AllHold(s: Ftl)
    requires s.Shape()
  {
    forall i :: 0 <= i < s.Geo().User() && s.nand.blocks[i].state == Used ==> 0 < LiveFrom(s, i, 0)
  }

  /**
   There is no FREE block, every USED one holds live pages, and the open one is used up or will be by the next pass:
   nothing can be moved anywhere.
   */
  ghost predicate Dry(s: Ftl)
    requires s.Shape()
  {
    && Ordinary(s) && s.nand.blocks[s.wb].state == Used && NoneFree(s) && AllHold(s)
    && (s.wp == s.Geo().pages || IsLeast(s.nand, 0, s.Geo().User(), s.wb))
  }

  lemma OwnedHolds(s: Ftl, b: nat)
    requires Inv(s) && OwnedBut(s, -1) && b < s.Geo().User() && s.nand.blocks[b].state == Used
    ensures 0 < LiveFrom(s, b, 0)
  {
    CleanWhenFree(s.nand.blocks[b]);
    var q :| 0 <= q < s.Geo().pages && s.nand.blocks[b].valid[q];
    assert Live(s, b, q);
    if LiveFrom(s, b, 0) == 0 { NoneLive(s, b, 0, q); }
  }

  /** What wear-out of the open block leaves. */
  lemma StuckOpenWears(s: Ftl, draw: bool)
    requires Inv(s) && StuckOpen(s) && OwnedBut(s, -1) && WearsOut(s.nand, s.wb, draw)
    ensures var (code, s') := GcPass(s, s.wb, draw, []);
            && code == BadBlock && Inv(s') && OwnedBut(s', -1)
            && FreeBelow(s'.nand.blocks, s.Geo().User()) + 1 == FreeBelow(s.nand.blocks, s.Geo().User())
            && (if NoneFree(s') then Dry(s') else StuckOpen(s'))
  {
    hide Inv, Safe, GcPass, Live, LiveFrom, NextFree, FreeBelow, OwnedBut;
    OpenCount(s);
    OpenIsMovable(s);
    PassWears(s, s.wb, s.wp, draw);
    PassOwned(s, s.wb, draw);
    var s' := GcPass(s, s.wb, draw, []).1;
    FreeBelowLess(s.nand.blocks, s'.nand.blocks, s'.wb, s.Geo().User());
    if NoneFree(s') {
      forall i | 0 <= i < s.Geo().User() && s'.nand.blocks[i].state == Used ensures 0 < LiveFrom(s', i, 0) {
        OwnedHolds(s', i);
      }
    } else {
      var j :| 0 <= j < s.Geo().User() && s'.nand.blocks[j].state == Free;
      SomeNextFree(s'.nand, s'.wb + 1, j);
    }
  }

  /** What wear-out of a victim leaves when all USED blocks are full. */
  lemma StuckFullWears(s: Ftl, v: nat, draw: bool)
    requires Inv(s) && StuckFull(s) && OwnedBut(s, -1) && IsLeast(s.nand, 0, s.Geo().User(), v)
    requires WearsOut(s.nand, v, draw)
    ensures var (code, s') := GcPass(s, v, draw, []);
            && code == BadBlock && Inv(s') && OwnedBut(s', -1)
            && FreeBelow(s'.nand.blocks, s.Geo().User()) + 1 == FreeBelow(s.nand.blocks, s.Geo().User())
            && (if NoneFree(s') then Dry(s') else StuckFull(s'))
  {
    hide Inv, Safe, GcPass, Live, LiveFrom, NextFree, FreeBelow, OwnedBut;
    FullIsLive(s, v);
    PassWears(s, v, s.Geo().pages, draw);
    PassOwned(s, v, draw);
    var s' := GcPass(s, v, draw, []).1;
    FreeBelowLess(s.nand.blocks, s'.nand.blocks, s'.wb, s.Geo().User());
    if NoneFree(s') {
      forall i | 0 <= i < s.Geo().User() && s'.nand.blocks[i].state == Used ensures 0 < LiveFrom(s', i, 0) {
        OwnedHolds(s', i);
      }
    } else {
      var j :| 0 <= j < s.Geo().User() && s'.nand.blocks[j].state == Free;
      SomeNextFree(s'.nand, s'.wb + 1, j);
      assert UsedIn(s'.nand, 0, s.Geo().User());
    }
  }

  /**
   A pass of a stuck loop whose victim wears out fails and takes a block with it: one FREE block fewer, and the state is
   stuck again, or dry if that was the last one.
   */
  lemma StuckWears(s: Ftl, draw: bool)
    requires Inv(s) && Stuck(s) && OwnedBut(s, -1)
    ensures GoesOn(s)
    ensures WearsOut(s.nand, GreedyVictim(s), draw) ==>
              var (code, s') := GcPass(s, GreedyVictim(s), draw, []);
              && code == BadBlock && Inv(s') && OwnedBut(s', -1)
              && FreeBelow(s'.nand.blocks, s.Geo().User()) + 1 == FreeBelow(s.nand.blocks, s.Geo().User())
              && (if NoneFree(s') then Dry(s') else Stuck(s'))
  {
    hide Inv, Safe, GcPass, OwnedBut, StuckFull, FreeBelow, Dry, WearsOut;
    StuckPass(s);
    var v := GreedyVictim(s);
    if WearsOut(s.nand, v, draw) {
      if StuckOpen(s) {
        StuckOpenPass(s);
        LeastUnique(s.nand, 0, s.Geo().User(), s.wb, v);
        StuckOpenWears(s, draw);
      } else {
        StuckFullWears(s, v, draw);
      }
    }
  }

  // ---- no FREE block is left

  lemma {:induction false} NoneFreeBelow(blocks: seq<Block>, wb: nat, k: nat)
    requires k <= |blocks| && forall i :: 0 <= i < k ==> blocks[i].state != Free
    ensures FreeBelow(blocks, k) == 0 && FreeOther(blocks, wb, k) == 0
  {
    if k != 0 { NoneFreeBelow(blocks, wb, k - 1); }
  }

  lemma DryGoesOn(s: Ftl)
    requires s.Shape() && Ordinary(s) && s.nand.blocks[s.wb].state == Used && NoneFree(s)
    ensures GoesOn(s)
  {
    NoneFreeBelow(s.nand.blocks, s.wb, s.Geo().User());
    assert UsedIn(s.nand, 0, s.Geo().User());
    var v := LeastExists(s.nand, s.Geo().User());
  }

  /** What the scan of a pass keeps while there is no FREE block. */
  ghost predicate Draining(s: Ftl)
    ensures Draining(s) ==> s.Shape()
  {
    Inv(s) && Ordinary(s) && s.nand.blocks[s.wb].state == Used && NoneFree(s) && AllHold(s)
  }

  /** A move into the open block. */
  lemma DrainingMove(s: Ftl, p: nat, buf: Page)
    requires Draining(s) && p < s.Geo().pages && Live(s, s.wb, p) && NoneBelow(s, s.wb, p) && s.wp < s.Geo().pages
    ensures s.rmap[s.Geo().Ppn(s.wb, p)] != INVALID
    ensures var (code, s', _) := GcMove(s, s.wb, p, buf);
            && code == Ok && Draining(s') && s'.wb == s.wb && s'.wp == s.wp + 1
            && NoneBelow(s', s.wb, p + 1) && 0 < LiveFrom(s', s.wb, p + 1)
  {
    hide Inv, Safe, GcMove, Live, LiveFrom, Programmable, Moves, Alike, NoneBelow;
    LiveIsOwned(s, s.wb, p);
    HasRoom(s);
    GcMoveExact(s, s.wb, p, buf);
    GcMoveKeeps(s, s.wb, p, buf);
    GcMoveGain(s, s.wb, p, buf);
    var s' := GcMove(s, s.wb, p, buf).1;
    forall i | 0 <= i < s.Geo().User() && s'.nand.blocks[i].state == Used ensures 0 < LiveFrom(s', i, 0) {
      if i == s.wb {
        LiveFromMore(s', i, p + 1);
      } else {
        assert Alike(s'.nand.blocks[i], s.nand.blocks[i]);
        MoveElsewhere(s, s', s.wb, p, i);
      }
    }
    MoveStates(s, s', p);
  }

  lemma {:induction false} LiveFromMore(s: Ftl, b: nat, p: nat)
    requires s.Shape() && b < s.Geo().blocks && p <= s.Geo().pages
    ensures LiveFrom(s, b, p) <= LiveFrom(s, b, 0)
    decreases p
  {
    if p != 0 { LiveFromMore(s, b, p - 1); }
  }

  /** A block that a move neither empties nor fills keeps its live pages. */
  lemma MoveElsewhere(s: Ftl, s': Ftl, v: nat, p: nat, b: nat)
    requires s.Shape() && s'.Shape() && s'.Geo() == s.Geo() && v < s.Geo().blocks && p < s.Geo().pages
    requires MovedExactly(s, s', v, p) && Live(s, v, p) && b < s.Geo().blocks && b != v && b != s'.wb
    ensures LiveFrom(s', b, 0) == LiveFrom(s, b, 0) && s'.nand.blocks[b].state == s.nand.blocks[b].state
  {
    hide Live, LiveFrom;
    forall q | 0 <= q < s.Geo().pages ensures Live(s', b, q) == Live(s, b, q) { LiveAfterMove(s, s', v, p, b, q); }
    LiveFromSame(s, s', b, 0);
    assert Alike(s'.nand.blocks[b], s.nand.blocks[b]);
  }

  lemma MoveStates(s: Ftl, s': Ftl, p: nat)
    requires s.Shape() && s'.Shape() && s'.Geo() == s.Geo() && s.wb < s.Geo().blocks && p < s.Geo().pages
    requires MovedExactly(s, s', s.wb, p) && s.wp < s.Geo().pages && Ordinary(s) && NoneFree(s)
    ensures NoneFree(s') && Ordinary(s') && s'.wb == s.wb && s'.wp == s.wp + 1 && s'.nand.blocks[s.wb].state == Used
  {
    forall i | 0 <= i < s.Geo().User() ensures s'.nand.blocks[i].state != Free {
      if i != s.wb { assert Alike(s'.nand.blocks[i], s.nand.blocks[i]); }
    }
  }

  /** With the open block used up, a move finds no slot, and has only read. */
  lemma NoSlot(s: Ftl, v: nat, p: nat, buf: Page)
    requires Draining(s) && v < s.Geo().User() && p < s.Geo().pages && Live(s, v, p) && NoneBelow(s, v, p)
    requires s.wp == s.Geo().pages
    ensures s.rmap[s.Geo().Ppn(v, p)] != INVALID
    ensures var (code, s', _) := GcMove(s, v, p, buf);
            code == NoSpace && Draining(s') && s'.wb == s.wb && s'.wp == s.wp
  {
    hide Inv, Safe, Live, LiveFrom, NoneBelow, PageRead, NextFree;
    LiveIsOwned(s, v, p);
    GcMoveKeeps(s, v, p, buf);
    ReadAlike(s, v, p, buf);
    var n1 := PageRead(s.nand, v, p, buf).2;
    AlikeStates(s, n1);
    AlikeHolds(s, s.(nand := n1));
  }

  lemma AlikeStates(s: Ftl, n: Nand)
    requires s.Shape() && n.Shape() && n.geo == s.Geo() && NoneFree(s) && s.wb < s.Geo().User()
    requires forall i :: 0 <= i < |n.blocks| ==> Alike(n.blocks[i], s.nand.blocks[i])
    ensures NoneFree(s.(nand := n)) && NextFree(n, s.wb + 1).None?
  {
    hide FirstFree;
    forall i | 0 <= i < s.Geo().User() ensures n.blocks[i].state != Free {
      assert Alike(n.blocks[i], s.nand.blocks[i]);
    }
  }

  lemma AlikeHolds(s: Ftl, s': Ftl)
    requires s.Shape() && s'.Shape() && s'.Geo() == s.Geo() && s'.rmap == s.rmap && AllHold(s)
    requires forall i :: 0 <= i < |s.nand.blocks| ==> Alike(s'.nand.blocks[i], s.nand.blocks[i])
    ensures AllHold(s')
  {
    hide LiveFrom, Live;
    forall i | 0 <= i < s.Geo().User() && s'.nand.blocks[i].state == Used ensures 0 < LiveFrom(s', i, 0) {
      assert Alike(s'.nand.blocks[i], s.nand.blocks[i]);
      SameLive(s, s', i);
      LiveFromSame(s, s', i, 0);
    }
  }

  /** So the scan of such a pass ends without a slot, and with the open block used up. */
  lemma {:induction false} ScanDrains(s: Ftl, v: nat, p: nat, buf: Page)
    requires Draining(s) && v < s.Geo().User() && p <= s.Geo().pages && NoneBelow(s, v, p)
    requires 0 < LiveFrom(s, v, p) && (v == s.wb || s.wp == s.Geo().pages)
    ensures var (code, s') := GcScan(s, v, p, buf);
            code == NoSpace && Draining(s') && s'.wb == s.wb && s'.wp == s.Geo().pages
    decreases s.Geo().pages - p
  {
    hide Draining, GcMove, Live, NoneBelow;
    if Live(s, v, p) {
      if s.wp < s.Geo().pages {
        DrainingMove(s, p, buf);
        var (code, s1, data) := GcMove(s, v, p, buf);
        ScanDrains(s1, v, p + 1, data);
      } else {
        NoSlot(s, v, p, buf);
      }
    } else {
      DrainingDead(s, v, p);
      ScanDrains(s, v, p + 1, buf);
    }
  }

  lemma DrainingDead(s: Ftl, v: nat, p: nat)
    requires Draining(s) && v < s.Geo().blocks && p < s.Geo().pages && !Live(s, v, p) && NoneBelow(s, v, p)
    ensures NoneBelow(s, v, p + 1)
  {
    DeadIsUnmapped(s, v, p);
  }

  lemma DrainingCounters(s: Ftl, s': Ftl)
    requires Draining(s) && s' == s.(stats := s'.stats)
    ensures Draining(s')
  {
    hide Inv, Safe, LiveFrom;
    CountersIrrelevant(s, s'.stats, s.wal);
    assert s' == s.(stats := s'.stats, wal := s.wal);
    AlikeHolds(s, s');
  }

  /** A pass over the greedy victim of a dry state fails for want of a slot, and leaves a dry state. */
  lemma DryPass(s: Ftl, v: nat, draw: bool)
    requires Inv(s) && Dry(s) && IsLeast(s.nand, 0, s.Geo().User(), v)
    ensures var (code, s') := GcPass(s, v, draw, []); code == NoSpace && Inv(s') && Dry(s')
  {
    hide Inv, Safe, GcScan, LiveFrom, NoneFree, AllHold;
    if s.wp < s.Geo().pages { LeastUnique(s.nand, 0, s.Geo().User(), v, s.wb); }
    var s0 := s.(stats := s.stats.(gcCount := s.stats.gcCount + 1));
    DrainingCounters(s, s0);
    HoldsAt(s0, v);
    ScanDrains(s0, v, 0, []);
  }

  lemma HoldsAt(s: Ftl, v: nat)
    requires s.Shape() && AllHold(s) && v < s.Geo().User() && s.nand.blocks[v].state == Used
    ensures 0 < LiveFrom(s, v, 0)
  {
  }

  // ---- and so no write succeeds any more

  /** Stuck, or dry. */
  ghost predicate Jammed(s: Ftl)
    ensures Jammed(s) ==> s.Shape()
  {
    Inv(s) && ((Stuck(s) && OwnedBut(s, -1)) || Dry(s))
  }

  lemma JammedGoesOn(s: Ftl)
    requires Jammed(s)
    ensures GoesOn(s) && NeedsGc(s.nand)
  {
    hide Inv, Safe, OwnedBut, FreeBelow;
    if Dry(s) { DryGoesOn(s); } else { StuckPass(s); }
  }

  /** One pass over the greedy victim: the loop goes on, or the write has failed; either way it stays jammed. */
  lemma JammedPass(s: Ftl, draw: bool)
    requires Jammed(s) && GoesOn(s)
    ensures Jammed(GcPass(s, GreedyVictim(s), draw, []).1)
  {
    hide Inv, Safe, OwnedBut, Stuck, Dry, GcPass, WearsOut;
    var v := GreedyVictim(s);
    if Dry(s) {
      DryPass(s, v, draw);
    } else if WearsOut(s.nand, v, draw) {
      StuckWears(s, draw);
    } else {
      PassDraw(s, v, draw);
      StuckPass(s);
    }
  }

  lemma {:induction false} JammedLoop(s: Ftl, passes: seq<Pass>, noVictim: bool)
    requires Jammed(s) && GreedyPasses(s, passes)
    requires forall i :: 0 <= i < |passes| ==> passes[i].victim < s.Geo().blocks
    ensures var (end, s') := GcLoop(s, passes, noVictim, []); end != Enough && Jammed(s')
    decreases passes
  {
    hide Jammed, GcPass;
    JammedGoesOn(s);
    if passes != [] {
      JammedPass(s, passes[0].draw);
      var (code, s1) := GcPass(s, passes[0].victim, passes[0].draw, []);
      if code == Ok { JammedLoop(s1, passes[1..], noVictim); }
    }
  }

  /** A write to a jammed device is still looping or answers NO_SPACE, whatever the draws, and leaves it jammed. */
  lemma JammedWrite(s: Ftl, lpn: nat, data: Page, env: Env)
    requires Jammed(s) && lpn < s.Geo().lpns && GreedyPasses(s, env.passes)
    requires forall i :: 0 <= i < |env.passes| ==> env.passes[i].victim < s.Geo().blocks
    ensures var (end, s') := Write(s, lpn, data, env); (end == Looping || end == Done(NoSpace)) && Jammed(s')
  {
    hide Jammed, GcLoop, GreedyPasses, Alloc, Program, Commit, Log;
    JammedLoop(s, env.passes, env.noVictim);
  }

  // ---- whole runs of reads and writes

  /** Read counters and statistics apart, nothing has changed. */
  ghost predicate Unmoved(s: Ftl, s': Ftl)
    requires s.Shape() && s'.Shape()
  {
    && s'.Geo() == s.Geo() && s'.rmap == s.rmap && s'.wb == s.wb && s'.wp == s.wp
    && forall i :: 0 <= i < |s.nand.blocks| ==> Alike(s'.nand.blocks[i], s.nand.blocks[i])
  }

  lemma UnmovedScans(s: Ftl, s': Ftl)
    requires s.Shape() && s'.Shape() && Unmoved(s, s')
    ensures NextFree(s'.nand, 0) == NextFree(s.nand, 0) && NeedsGc(s'.nand) == NeedsGc(s.nand)
    ensures s.wb < s.Geo().blocks ==> NextFree(s'.nand, s.wb + 1) == NextFree(s.nand, s.wb + 1)
    ensures forall i :: 0 <= i < s.Geo().blocks ==>
              && s'.nand.blocks[i].state == s.nand.blocks[i].state && s'.nand.blocks[i].count == s.nand.blocks[i].count
              && s'.nand.blocks[i].valid == s.nand.blocks[i].valid
  {
    hide NextFree, FreeBelow;
    forall i | 0 <= i < s.Geo().blocks
      ensures s'.nand.blocks[i].state == s.nand.blocks[i].state && s'.nand.blocks[i].count == s.nand.blocks[i].count
      ensures s'.nand.blocks[i].valid == s.nand.blocks[i].valid
    {
      assert Alike(s'.nand.blocks[i], s.nand.blocks[i]);
    }
    SameNextFree(s.nand, s'.nand, 0);
    SameNextFree(s.nand, s'.nand, s.wb + 1);
    FreeBelowSame(s.nand.blocks, s'.nand.blocks, s.Geo().User());
  }

  lemma UnmovedLive(s: Ftl, s': Ftl)
    requires s.Shape() && s'.Shape() && Unmoved(s, s')
    ensures forall b, q :: 0 <= b < s.Geo().blocks && 0 <= q < s.Geo().pages ==> Live(s', b, q) == Live(s, b, q)
  {
    forall b, q | 0 <= b < s.Geo().blocks && 0 <= q < s.Geo().pages ensures Live(s', b, q) == Live(s, b, q) {
      assert Alike(s'.nand.blocks[b], s.nand.blocks[b]);
    }
  }

  lemma UnmovedStuck(s: Ftl, s': Ftl)
    requires s.Shape() && s'.Shape() && Unmoved(s, s')
    ensures Stuck(s) ==> Stuck(s')
  {
    hide NextFree, NeedsGc, Alike, Live;
    UnmovedScans(s, s');
    UnmovedLive(s, s');
  }

  lemma UnmovedOwned(s: Ftl, s': Ftl)
    requires s.Shape() && s'.Shape() && Unmoved(s, s')
    ensures OwnedBut(s, -1) ==> OwnedBut(s', -1)
  {
    hide NextFree, NeedsGc, Alike, Live;
    UnmovedScans(s, s');
    UnmovedLive(s, s');
  }

  lemma UnmovedDry(s: Ftl, s': Ftl)
    requires s.Shape() && s'.Shape() && Unmoved(s, s')
    ensures Dry(s) ==> Dry(s')
  {
    hide NextFree, NeedsGc, AllHold, Alike;
    UnmovedScans(s, s');
    if Dry(s) { AlikeHolds(s, s'); }
  }

  /** A read leaves it jammed. */
  lemma JammedRead(s: Ftl, lpn: nat, buf: Page)
    requires Jammed(s)
    ensures Jammed(Read(s, lpn, buf).2)
  {
    hide Inv, Safe, Stuck, Dry, OwnedBut, Read, Unmoved;
    ReadMeetsContent(s, lpn, buf);
    ReadUnmoved(s, lpn, buf);
    var s' := Read(s, lpn, buf).2;
    UnmovedStuck(s, s');
    UnmovedOwned(s, s');
    UnmovedDry(s, s');
  }

  lemma ReadUnmoved(s: Ftl, lpn: nat, buf: Page)
    requires Safe(s)
    ensures Unmoved(s, Read(s, lpn, buf).2)
  {
    hide Readout;
    if lpn < s.Geo().lpns && s.l2p[lpn] != INVALID {
      s.Geo().PpnOfParts(s.l2p[lpn]);
      assert s.rmap[s.l2p[lpn]] == lpn && Sound(s.nand, s.l2p[lpn]);
    }
  }

  /** Reads, and writes whose passes are over greedy victims, with any wear draws. */
  ghost predicate HostCall(s: Ftl, op: Op)
    requires s.Shape()
    ensures HostCall(s, op) ==> Callable(s, op)
  {
    Callable(s, op) && (op.DoRead? || (op.DoWrite? && GreedyPasses(s, op.env.passes)))
  }

  ghost predicate HostRun(s: Ftl, ops: seq<Op>)
    requires s.Shape()
    decreases ops
  {
    ops == [] || (HostCall(s, ops[0]) && HostRun(Step(s, ops[0]).1, ops[1..]))
  }

  /** The reply of a write that has stored nothing: NO_SPACE, PARAM beyond the table, or none because it still loops. */
  predicate Refused(op: Op, reply: Reply) {
    op.DoWrite? ==> reply == NoAnswer || reply == Answer(NoSpace, []) || reply == Answer(Param, [])
  }

  lemma JammedStep(s: Ftl, op: Op)
    requires Jammed(s) && HostCall(s, op)
    ensures Admissible(s, op)
    ensures var (reply, s') := Step(s, op); Jammed(s') && Refused(op, reply)
  {
    hide Inv, Safe, Stuck, Dry, OwnedBut, Read, Write, GreedyPasses;
    match op
    case DoRead(lpn, buf) => JammedRead(s, lpn, buf);
    case DoWrite(lpn, data, env) =>
      if lpn < s.Geo().lpns { JammedWrite(s, lpn, data, env); } else { BeyondTable(s, lpn, data, env); }
    case _ =>
  }

  lemma BeyondTable(s: Ftl, lpn: nat, data: Page, env: Env)
    requires s.Shape() && s.Geo().lpns <= lpn
    requires forall i :: 0 <= i < |env.passes| ==> env.passes[i].victim < s.Geo().blocks
    ensures Write(s, lpn, data, env) == (Done(Param), s)
  {
  }

  /** From a jammed state on, in every run of reads and writes, every write is refused, and nothing stored is lost. */
  lemma {:induction false} NoWriteAgain(s: Ftl, ops: seq<Op>)
    requires Jammed(s) && HostRun(s, ops)
    ensures AdmissibleRun(s, ops)
    ensures var (replies, s') := Run(s, ops);
            && Jammed(s') && Logical(s') == Logical(s)
            && forall i :: 0 <= i < |ops| ==> Refused(ops[i], replies[i])
    decreases ops
  {
    hide Jammed, Step, Admissible, HostCall, Refused, Logical;
    if ops != [] {
      JammedStep(s, ops[0]);
      SameContent(s, ops[0]);
      var (reply, s1) := Step(s, ops[0]);
      NoWriteAgain(s1, ops[1..]);
      var (replies, s2) := Run(s1, ops[1..]);
      forall i | 0 <= i < |ops| ensures Refused(ops[i], ([reply] + replies)[i]) {
        if 0 < i { assert ops[i] == ops[1..][i - 1]; }
      }
    }
  }

  lemma SameContent(s: Ftl, op: Op)
    requires Jammed(s) && HostCall(s, op) && Admissible(s, op) && Refused(op, Step(s, op).0)
    ensures Logical(Step(s, op).1) == Logical(s)
  {
    hide Inv, Safe, Stuck, Dry, OwnedBut, Step, Admissible, Logical, GreedyPasses;
    StepRefines(s, op);
  }
}
