/**
 The ring of blocks that a stuck loop turns through when only the live pages of the open block move on: the open block,
 and the FREE ones in the order of the circular search.  It tells exactly which wear draws end the loop.
 */
module FtlRing {
  import opened Common
  import opened Layout
  import opened NandModel
  import opened FtlModel
  import opened FtlInvariant
  import opened FtlGain
  import opened FtlRotation
  import opened FtlChoices
  import opened FtlStuck
  import Victims

  // ---- the ring

  /** The FREE blocks in `lo..hi`, in order. */
  function FreeList(blocks: seq<Block>, lo: nat, hi: nat): (r: seq<nat>)
    requires hi <= |blocks|
    ensures forall i :: 0 <= i < |r| ==> lo <= r[i] < hi && blocks[r[i]].state == Free
    decreases hi - lo
  {
    if hi <= lo then [] else (if blocks[lo].state == Free then [lo] else []) + FreeList(blocks, lo + 1, hi)
  }

  lemma FreeListHead(blocks: seq<Block>, lo: nat, hi: nat)
    requires lo < hi <= |blocks|
    ensures FreeList(blocks, lo, hi) ==
            (if blocks[lo].state == Free then [lo] else []) + FreeList(blocks, lo + 1, hi)
    ensures FreeList(blocks, hi, hi) == []
  {
  }

  lemma {:induction false} FreeListSplit(blocks: seq<Block>, lo: nat, mid: nat, hi: nat)
    requires lo <= mid <= hi <= |blocks|
    ensures FreeList(blocks, lo, hi) == FreeList(blocks, lo, mid) + FreeList(blocks, mid, hi)
    decreases mid - lo
  {
    if lo < mid { FreeListSplit(blocks, lo + 1, mid, hi); }
  }

  lemma {:induction false} FreeListSame(a: seq<Block>, b: seq<Block>, lo: nat, hi: nat)
    requires hi <= |a| == |b| && forall i :: lo <= i < hi ==> (a[i].state == Free <==> b[i].state == Free)
    ensures FreeList(a, lo, hi) == FreeList(b, lo, hi)
    decreases hi - lo
  {
    if lo < hi { FreeListSame(a, b, lo + 1, hi); }
  }

  lemma {:induction false} FreeListNone(blocks: seq<Block>, lo: nat, hi: nat)
    requires hi <= |blocks| && forall i :: lo <= i < hi ==> blocks[i].state != Free
    ensures FreeList(blocks, lo, hi) == []
    decreases hi - lo
  {
    if lo < hi { FreeListNone(blocks, lo + 1, hi); }
  }

  lemma {:induction false} FreeListCounts(blocks: seq<Block>, k: nat)
    requires k <= |blocks|
    ensures |FreeList(blocks, 0, k)| == FreeBelow(blocks, k)
  {
    hide FreeList;
    if k == 0 {
      FreeListNone(blocks, 0, 0);
    } else {
      FreeListCounts(blocks, k - 1);
      FreeListSplit(blocks, 0, k - 1, k);
      FreeListHead(blocks, k - 1, k);
    }
  }

  /** The open block and then the FREE ones, as the circular search comes to them. */
  function Ring(s: Ftl): (r: seq<nat>)
    requires s.Shape() && s.wb < s.Geo().User()
    ensures 0 < |r| && r[0] == s.wb && forall i :: 0 <= i < |r| ==> r[i] < s.Geo().User()
    ensures forall i :: 0 < i < |r| ==> s.nand.blocks[r[i]].state == Free
  {
    [s.wb] + FreeList(s.nand.blocks, s.wb + 1, s.Geo().User()) + FreeList(s.nand.blocks, 0, s.wb)
  }

  lemma RingLength(s: Ftl)
    requires s.Shape() && s.wb < s.Geo().User() && s.nand.blocks[s.wb].state != Free
    ensures |Ring(s)| == FreeBelow(s.nand.blocks, s.Geo().User()) + 1
  {
    var blocks, user := s.nand.blocks, s.Geo().User();
    FreeListCounts(blocks, user);
    FreeListSplit(blocks, 0, s.wb, user);
  }

  /** `v` becomes FREE and `w` is opened, the next FREE block; either lies above `v` or the search comes round to it. */
  predicate Turn(a: seq<Block>, b: seq<Block>, v: nat, w: nat, user: nat)
    requires user <= |a| == |b|
  {
    && v < user && w < user && v != w
    && a[v].state != Free && a[w].state == Free && b[v].state == Free && b[w].state != Free
    && (forall i :: 0 <= i < user && i != v && i != w ==> (a[i].state == Free <==> b[i].state == Free))
    && if v < w then forall i :: v < i < w ==> a[i].state != Free
       else (forall i :: v < i < user ==> a[i].state != Free) && forall i :: 0 <= i < w ==> a[i].state != Free
  }

  lemma TurnMoves(a: seq<Block>, b: seq<Block>, v: nat, w: nat, user: nat)
    requires user <= |a| == |b| && Turn(a, b, v, w, user)
    ensures v != w
  {
  }

  lemma TurnsUp(a: seq<Block>, b: seq<Block>, v: nat, w: nat, user: nat)
    requires user <= |a| == |b| && Turn(a, b, v, w, user) && v < w
    ensures FreeList(a, v + 1, user) == [w] + FreeList(b, w + 1, user)
    ensures FreeList(b, 0, w) == FreeList(a, 0, v) + [v]
  {
    hide FreeList;
    FreeListNone(a, v + 1, w);
    FreeListSplit(a, v + 1, w, user);
    FreeListHead(a, w, user);
    FreeListSame(a, b, w + 1, user);
    FreeListSame(a, b, 0, v);
    FreeListNone(b, v + 1, w);
    FreeListSplit(b, 0, v, w);
    FreeListHead(b, v, w);
  }

  lemma TurnsRound(a: seq<Block>, b: seq<Block>, v: nat, w: nat, user: nat)
    requires user <= |a| == |b| && Turn(a, b, v, w, user) && w < v
    ensures FreeList(a, v + 1, user) == [] && FreeList(b, 0, w) == []
    ensures FreeList(a, 0, v) == [w] + FreeList(a, w + 1, v)
    ensures FreeList(b, w + 1, user) == FreeList(a, w + 1, v) + [v]
  {
    hide FreeList;
    FreeListNone(a, v + 1, user);
    FreeListNone(a, 0, w);
    FreeListSplit(a, 0, w, v);
    FreeListHead(a, w, v);
    FreeListNone(b, 0, w);
    FreeListSame(a, b, w + 1, v);
    FreeListNone(b, v + 1, user);
    FreeListSplit(b, w + 1, v, user);
    FreeListHead(b, v, user);
  }

  /** When the open block becomes FREE and the next FREE block is opened, the ring turns by one. */
  lemma RingTurns(s: Ftl, s': Ftl)
    requires s.Shape() && s'.Shape() && s'.Geo() == s.Geo() && s.wb < s.Geo().User() && s'.wb < s.Geo().User()
    requires Turn(s.nand.blocks, s'.nand.blocks, s.wb, s'.wb, s.Geo().User())
    ensures Ring(s') == Ring(s)[1..] + [s.wb]
  {
    hide Turn, FreeList;
    var a, b, user, v, w := s.nand.blocks, s'.nand.blocks, s.Geo().User(), s.wb, s'.wb;
    TurnMoves(a, b, v, w, user);
    if v < w { TurnsUp(a, b, v, w, user); } else { TurnsRound(a, b, v, w, user); }
    Relist(v, w, FreeList(a, v + 1, user), FreeList(a, 0, v), FreeList(b, w + 1, user), FreeList(b, 0, w),
           if v < w then [] else FreeList(a, w + 1, v));
  }

  lemma Relist(v: nat, w: nat, above: seq<nat>, below: seq<nat>, above': seq<nat>, below': seq<nat>, between: seq<nat>)
    requires (above == [w] + above' && below' == below + [v])
             || (above == [] && below' == [] && below == [w] + between && above' == between + [v])
    ensures [w] + above' + below' == ([v] + above + below)[1..] + [v]
  {
  }

  // ---- how worn the victims are

  /** The erase count of the victim of pass `j`. */
  function ErasesAt(s: Ftl, j: nat): nat
    requires s.Shape() && s.wb < s.Geo().User()
  {
    s.nand.blocks[Ring(s)[j % |Ring(s)|]].erases + j / |Ring(s)|
  }

  lemma NextTurn(j: nat, r: nat)
    requires 0 < r
    ensures if j % r == r - 1 then (j + 1) % r == 0 && (j + 1) / r == j / r + 1
            else (j + 1) % r == j % r + 1 && (j + 1) / r == j / r
  {
    Parts(j, r);
    NextParts(j, r, j / r, j % r);
  }

  lemma NextParts(j: nat, r: nat, q: nat, m: nat)
    requires j == q * r + m && m < r
    ensures if m == r - 1 then (j + 1) % r == 0 && (j + 1) / r == q + 1 else (j + 1) % r == m + 1 && (j + 1) / r == q
  {
    if m == r - 1 { DivModUnique(j + 1, r, q + 1, 0); } else { DivModUnique(j + 1, r, q, m + 1); }
  }

  /** After the pass everything comes one pass earlier. */
  lemma ErasesTurn(s: Ftl, s': Ftl, j: nat)
    requires s.Shape() && s'.Shape() && s'.Geo() == s.Geo() && s.wb < s.Geo().User() && s'.wb < s.Geo().User()
    requires s.nand.blocks[s.wb].state != Free && Ring(s') == Ring(s)[1..] + [s.wb]
    requires s'.nand.blocks[s.wb].erases == s.nand.blocks[s.wb].erases + 1
    requires forall i :: 0 <= i < s.Geo().blocks && i != s.wb ==> s'.nand.blocks[i].erases == s.nand.blocks[i].erases
    ensures ErasesAt(s', j) == ErasesAt(s, j + 1)
  {
    hide FreeList;
    NextTurn(j, |Ring(s)|);
  }

  /** A pass of a loop that is stuck at its open block. */
  lemma RingPass(s: Ftl)
    requires Inv(s) && StuckOpen(s) && OwnedBut(s, -1)
    ensures GoesOn(s) && GreedyVictim(s) == s.wb && ErasesAt(s, 0) == s.nand.blocks[s.wb].erases
    ensures var (code, s') := GcPass(s, s.wb, false, []);
            && code == Ok && Inv(s') && StuckOpen(s') && OwnedBut(s', -1) && s'.nand.wearLimit == s.nand.wearLimit
            && forall j: nat :: ErasesAt(s', j) == ErasesAt(s, j + 1)
  {
    hide Inv, Safe, GcPass, OwnedBut, Live, NextFree, ErasesAt;
    StuckOpenPass(s);
    assert GoesOn(s);
    Victims.LeastUnique(s.nand, 0, s.Geo().User(), s.wb, GreedyVictim(s));
    PassOwned(s, s.wb, false);
    OpenCount(s);
    OpenIsMovable(s);
    PassRotates(s, s.wb, s.wp, false);
    var s' := GcPass(s, s.wb, false, []).1;
    NextFreeIsNext(s.nand, s.wb + 1, s'.wb);
    StatesTurn(s, s');
    FirstErases(s);
    forall j: nat ensures ErasesAt(s', j) == ErasesAt(s, j + 1) { ErasesTurn(s, s', j); }
  }

  lemma FirstErases(s: Ftl)
    requires s.Shape() && s.wb < s.Geo().User()
    ensures ErasesAt(s, 0) == s.nand.blocks[s.wb].erases
  {
    DivModUnique(0, |Ring(s)|, 0, 0);
  }

  lemma StatesTurn(s: Ftl, s': Ftl)
    requires s.Shape() && s'.Shape() && s'.Geo() == s.Geo() && s.nand.blocks[s.wb].state == Used
    requires Rotated(s, s', s.wb, s'.wb, s.wp) && NextFrom(s.nand, s.wb + 1, s'.wb)
    ensures Ring(s') == Ring(s)[1..] + [s.wb]
    ensures forall i :: 0 <= i < s.Geo().blocks && i != s.wb ==> s'.nand.blocks[i].erases == s.nand.blocks[i].erases
  {
    hide Live, Ring;
    assert s.wb != s'.wb;
    forall i | 0 <= i < s.Geo().blocks && i != s.wb && i != s'.wb
      ensures s'.nand.blocks[i].state == s.nand.blocks[i].state && s'.nand.blocks[i].erases == s.nand.blocks[i].erases
    {
      assert Alike(s'.nand.blocks[i], s.nand.blocks[i]);
    }
    RingTurns(s, s');
  }

  // ---- which draws end the loop

  /** Pass `j` has a draw that hits, and its victim is worn. */
  ghost predicate HitAt(s: Ftl, passes: seq<Pass>, j: nat)
    requires s.Shape() && s.wb < s.Geo().User()
  {
    j < |passes| && passes[j].draw && s.nand.wearLimit < ErasesAt(s, j)
  }

  lemma {:induction false} RingLoop(s: Ftl, passes: seq<Pass>)
    requires Inv(s) && StuckOpen(s) && OwnedBut(s, -1) && GreedyPasses(s, passes)
    requires forall i :: 0 <= i < |passes| ==> passes[i].victim < s.Geo().blocks
    ensures GcLoop(s, passes, false, []).0 == if exists j: nat :: HitAt(s, passes, j) then Failed else Running
    decreases passes
  {
    hide Inv, Safe, OwnedBut, GcPass, ErasesAt, StuckOpen;
    StuckOrdinary(s);
    RingPass(s);
    if passes != [] {
      var draw := passes[0].draw;
      PassDraw(s, s.wb, draw);
      assert HitAt(s, passes, 0) <==> WearsOut(s.nand, s.wb, draw);
      if !WearsOut(s.nand, s.wb, draw) {
        var s' := GcPass(s, s.wb, draw, []).1;
        StuckOrdinary(s');
        RingLoop(s', passes[1..]);
        HitLater(s, s', passes);
      }
    }
  }

  lemma HitLater(s: Ftl, s': Ftl, passes: seq<Pass>)
    requires s.Shape() && s'.Shape() && s.wb < s.Geo().User() && s'.wb < s'.Geo().User() && passes != []
    requires s'.nand.wearLimit == s.nand.wearLimit && forall j: nat :: ErasesAt(s', j) == ErasesAt(s, j + 1)
    requires !HitAt(s, passes, 0)
    ensures (exists j: nat :: HitAt(s, passes, j)) <==> exists j: nat :: HitAt(s', passes[1..], j)
  {
    hide ErasesAt;
    if j: nat :| HitAt(s, passes, j) {
      assert ErasesAt(s', j - 1) == ErasesAt(s, j);
      assert HitAt(s', passes[1..], j - 1);
    }
    if j: nat :| HitAt(s', passes[1..], j) {
      assert ErasesAt(s', j) == ErasesAt(s, j + 1);
      assert HitAt(s, passes, j + 1);
    }
  }

  /**
   The write that meets a loop stuck at its open block, for every sequence of wear draws: it answers NO_SPACE exactly if
   a draw hits whose victim is worn by then, and otherwise it is still looping.
   */
  lemma RingWrite(s: Ftl, lpn: nat, data: Page, env: Env)
    requires Inv(s) && StuckOpen(s) && OwnedBut(s, -1) && lpn < s.Geo().lpns
    requires GreedyPasses(s, env.passes) && !env.noVictim
    requires forall i :: 0 <= i < |env.passes| ==> env.passes[i].victim < s.Geo().blocks
    ensures Write(s, lpn, data, env).0 ==
            if exists j: nat :: HitAt(s, env.passes, j) then Done(NoSpace) else Looping
  {
    hide Inv, OwnedBut, StuckOpen, GcLoop, GreedyPasses, HitAt;
    StuckOrdinary(s);
    RingLoop(s, env.passes);
  }

  // ---- for every stream of draws

  /** One pass on, everything comes one pass earlier. */
  lemma RingStep(s: Ftl, j: nat) returns (s1: Ftl)
    requires Inv(s) && StuckOpen(s) && OwnedBut(s, -1) && 0 < j
    ensures Inv(s1) && StuckOpen(s1) && OwnedBut(s1, -1) && s1.nand.wearLimit == s.nand.wearLimit
    ensures Greedy(s, j) == Greedy(s1, j - 1) && ErasesAt(s1, j - 1) == ErasesAt(s, j)
  {
    hide Inv, Safe, OwnedBut, GcPass, ErasesAt, StuckOpen, Greedy, GoesOn;
    RingPass(s);
    GreedyNext(s, j);
    s1 := GcPass(s, s.wb, false, []).1;
  }

  /** The state before pass `j`, if no victim has worn out. */
  lemma {:induction false} RingAt(s: Ftl, j: nat)
    requires Inv(s) && StuckOpen(s) && OwnedBut(s, -1)
    ensures Greedy(s, j).Some?
    ensures var s' := Greedy(s, j).value;
            && Inv(s') && StuckOpen(s') && OwnedBut(s', -1) && s'.nand.wearLimit == s.nand.wearLimit
            && s'.nand.blocks[s'.wb].erases == ErasesAt(s, j)
    decreases j
  {
    hide Inv, Safe, OwnedBut, ErasesAt, StuckOpen, Greedy, GoesOn;
    if j == 0 {
      GreedyNext(s, 0);
      StuckOrdinary(s);
      FirstErases(s);
    } else {
      var s1 := RingStep(s, j);
      RingAt(s1, j - 1);
    }
  }

  lemma RingWears(s: Ftl, j: nat, draw: bool)
    requires Inv(s) && StuckOpen(s) && OwnedBut(s, -1)
    ensures WearsAt(s, j, draw) <==> draw && s.nand.wearLimit < ErasesAt(s, j)
  {
    hide Inv, Safe, OwnedBut, Greedy, ErasesAt, StuckOpen, GcPass;
    RingAt(s, j);
    RingPass(Greedy(s, j).value);
  }

  /** A loop stuck at its open block never ends if and only if no draw ever hits whose victim is worn by then. */
  lemma RingForever(s: Ftl, draws: nat -> bool)
    requires Inv(s) && StuckOpen(s) && OwnedBut(s, -1)
    ensures (forall k: nat :: Going(s, First(draws, k))) <==>
            forall j: nat :: draws(j) ==> ErasesAt(s, j) <= s.nand.wearLimit
  {
    hide Inv, Safe, OwnedBut, ErasesAt, StuckOpen, Going, First, WearsAt, Greedy, GoesOn, Distance;
    StuckOrdinary(s);
    EndlessIff(s, draws);
    GreedyNext(s, 0);
    assert 0 <= Distance(s) && Stuck(Greedy(s, 0).value);
    forall j: nat ensures WearsAt(s, j, draws(j)) <==> draws(j) && s.nand.wearLimit < ErasesAt(s, j) {
      RingWears(s, j, draws(j));
    }
  }
}
