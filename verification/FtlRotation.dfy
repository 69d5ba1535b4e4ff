/**
 One garbage-collection pass, exactly: which slot each move takes, what becomes of every block, and where the live pages
 of the victim are found afterwards.
 */
module FtlRotation {
  import opened Common
  import opened Layout
  import opened NandModel
  import opened WalModel
  import opened FtlModel
  import opened FtlInvariant
  import opened FtlRelocation
  import opened FtlGain
  import opened FtlMoves
  import opened FtlChoices

  // ---- one page, exactly

  lemma SameNextFree(n: Nand, n': Nand, start: nat)
    requires n.Shape() && n'.Shape() && n'.geo == n.geo && start <= n.geo.blocks
    requires forall i :: 0 <= i < n.geo.blocks ==> (n.blocks[i].state == Free <==> n'.blocks[i].state == Free)
    ensures NextFree(n, start) == NextFree(n', start)
  {
    SameFirstFree(n.blocks, n'.blocks, start, n.geo.User());
    SameFirstFree(n.blocks, n'.blocks, 0, start);
  }

  /** Same state, count, erase count and valid map; the read count may differ. */
  predicate Alike(a: Block, b: Block) {
    a.state == b.state && a.count == b.count && a.erases == b.erases && a.valid == b.valid
  }

  /** One GC move, exactly: which slot it takes, and what becomes of the blocks and the inverse table. */
  ghost predicate MovedExactly(s: Ftl, s': Ftl, v: nat, p: nat)
    requires s.Shape() && s'.Shape() && s'.Geo() == s.Geo() && v < s.Geo().blocks && p < s.Geo().pages
  {
    var g, w, at := s.Geo(), s'.wb, s'.wp - 1;
    && 0 <= at < g.pages && w < g.User()
    && (if s.wp < g.pages then w == s.wb && at == s.wp else NextFree(s.nand, s.wb + 1) == Some(w) && at == 0)
    && (forall i :: 0 <= i < g.blocks && i != w ==> Alike(s'.nand.blocks[i], s.nand.blocks[i]))
    && s'.nand.blocks[w].state == Used && s'.nand.blocks[w].count == s.nand.blocks[w].count + 1
    && s'.nand.blocks[w].erases == s.nand.blocks[w].erases
    && !s.nand.blocks[w].valid[at] && s'.nand.blocks[w].valid == s.nand.blocks[w].valid[at := true]
    && s'.rmap == s.rmap[g.Ppn(w, at) := s.rmap[g.Ppn(v, p)]][g.Ppn(v, p) := INVALID]
    && s'.nand.wearLimit == s.nand.wearLimit
  }

  lemma ReadAlike(s: Ftl, b: nat, p: nat, buf: Page)
    requires s.Shape() && b < s.Geo().blocks && p < s.Geo().pages
    ensures var n := PageRead(s.nand, b, p, buf).2;
            n.wearLimit == s.nand.wearLimit && forall i :: 0 <= i < |n.blocks| ==> Alike(n.blocks[i], s.nand.blocks[i])
  {
  }

  lemma ProgramAlike(n: Nand, b: nat, p: nat, data: Page)
    requires n.Shape() && b < n.geo.blocks && p < n.geo.pages && n.blocks[b].state != Bad && !n.blocks[b].valid[p]
    ensures var (code, n') := PageWrite(n, b, p, data);
            code == Ok && n'.wearLimit == n.wearLimit && n'.blocks[b].count == n.blocks[b].count + 1
  {
  }

  lemma GcMoveExact(s: Ftl, v: nat, p: nat, buf: Page)
    requires Inv(s) && Ordinary(s) && v < s.Geo().blocks && p < s.Geo().pages && Live(s, v, p) && 0 < Programmable(s)
    ensures var (code, s', _) := GcMove(s, v, p, buf); code == Ok && MovedExactly(s, s', v, p)
  {
    hide Inv, Safe, Core, Sane, OpenOk, Counts, PageRead, PageWrite, Programmable, NextFree;
    GcReadEffect(s, v, p, buf);
    ReadAlike(s, v, p, buf);
    var (_, data, n1) := PageRead(s.nand, v, p, buf);
    var s1 := s.(nand := n1);
    AllocRoom(s1);
    SameNextFree(s.nand, n1, s.wb + 1);
    var (slot, s2) := Alloc(s1);
    s.Geo().PpnOfParts(slot.value);
    ProgramEffect(n1, s2.wb, s2.wp - 1, data);
    ProgramAlike(n1, s2.wb, s2.wp - 1, data);
  }

  /** What a move does not touch stays live or dead; the page it programs is live. */
  lemma LiveAfterMove(s: Ftl, s': Ftl, v: nat, p: nat, b: nat, q: nat)
    requires s.Shape() && s'.Shape() && s'.Geo() == s.Geo() && v < s.Geo().blocks && p < s.Geo().pages
    requires MovedExactly(s, s', v, p) && Live(s, v, p) && b < s.Geo().blocks && q < s.Geo().pages
    ensures !(b == v && q == p) && !(b == s'.wb && q == s'.wp - 1) ==> Live(s', b, q) == Live(s, b, q)
    ensures b == s'.wb && q == s'.wp - 1 ==> Live(s', b, q)
  {
    var g := s.Geo();
    assert g.BlockOf(g.Ppn(b, q)) == b && g.PageOf(g.Ppn(b, q)) == q;
    assert g.BlockOf(g.Ppn(v, p)) == v && g.PageOf(g.Ppn(v, p)) == p;
    assert g.BlockOf(g.Ppn(s'.wb, s'.wp - 1)) == s'.wb && g.PageOf(g.Ppn(s'.wb, s'.wp - 1)) == s'.wp - 1;
  }

  // ---- one pass, exactly: the live pages at the front of the victim move to the front of the next block

  ghost predicate LiveRange(s: Ftl, b: nat, lo: nat, hi: nat)
    requires s.Shape() && b < s.Geo().blocks && hi <= s.Geo().pages
  {
    forall q :: lo <= q < hi ==> Live(s, b, q)
  }

  /** The blocks other than `w` are as they were. */
  predicate OthersAlike(a: seq<Block>, b: seq<Block>, w: nat)
    requires |a| == |b|
  {
    forall i :: 0 <= i < |a| && i != w ==> Alike(a[i], b[i])
  }

  lemma HasRoom(s: Ftl)
    requires s.Shape() && s.wp < s.Geo().pages
    ensures 0 < Programmable(s)
  {
    ProgrammablePositive(s);
  }

  /** Once the scan fills another block than its victim, it goes on to the end of the victim. */
  lemma {:induction false} ScanIntoNext(s: Ftl, v: nat, p: nat, buf: Page)
    requires Inv(s) && Ordinary(s) && v < s.Geo().blocks && p <= s.Geo().pages && NoneBelow(s, v, p)
    requires v != s.wb && 1 <= s.wp && s.wp + (s.Geo().pages - p) <= s.Geo().pages
    requires LiveRange(s, v, p, s.Geo().pages) && LiveRange(s, s.wb, 0, s.wp)
    requires s.nand.blocks[s.wb].state == Used
    ensures var (code, s') := GcScan(s, v, p, buf);
            && code == Ok && Inv(s') && Ordinary(s') && s'.wb == s.wb && s'.wp == s.wp + (s.Geo().pages - p)
            && LiveRange(s', s.wb, 0, s'.wp) && s'.nand.blocks[s.wb].state == Used
            && s'.nand.blocks[s.wb].erases == s.nand.blocks[s.wb].erases
            && s'.nand.wearLimit == s.nand.wearLimit
            && OthersAlike(s'.nand.blocks, s.nand.blocks, s.wb)
    decreases s.Geo().pages - p
  {
    hide Inv, Safe, GcMove, Live, LiveRange, OthersAlike, NoneBelow;
    if p < s.Geo().pages {
      MoveIntoNext(s, v, p, buf);
      var (code, s1, data) := GcMove(s, v, p, buf);
      ScanIntoNext(s1, v, p + 1, data);
      AlikeChain(s.nand.blocks, s1.nand.blocks, GcScan(s, v, p, buf).1.nand.blocks, s.wb);
    } else {
      AlikeRefl(s.nand.blocks);
    }
  }

  lemma MoveIntoNext(s: Ftl, v: nat, p: nat, buf: Page)
    requires Inv(s) && Ordinary(s) && v < s.Geo().blocks && p < s.Geo().pages && NoneBelow(s, v, p)
    requires v != s.wb && s.wp < s.Geo().pages && LiveRange(s, v, p, s.Geo().pages) && LiveRange(s, s.wb, 0, s.wp)
    ensures Live(s, v, p) && s.rmap[s.Geo().Ppn(v, p)] != INVALID
    ensures var (code, s', _) := GcMove(s, v, p, buf);
            && code == Ok && Inv(s') && Ordinary(s') && NoneBelow(s', v, p + 1) && s'.wb == s.wb && s'.wp == s.wp + 1
            && LiveRange(s', v, p + 1, s.Geo().pages) && LiveRange(s', s.wb, 0, s'.wp)
            && s'.nand.blocks[s.wb].state == Used && s'.nand.blocks[s.wb].erases == s.nand.blocks[s.wb].erases
            && s'.nand.wearLimit == s.nand.wearLimit && OthersAlike(s'.nand.blocks, s.nand.blocks, s.wb)
  {
    hide Inv, Safe, GcMove, Live, Programmable, Alike, NoneBelow, OthersAlike;
    assert Live(s, v, p);
    LiveIsOwned(s, v, p);
    HasRoom(s);
    GcMoveExact(s, v, p, buf);
    GcMoveKeeps(s, v, p, buf);
    MoveKeepsRanges(s, GcMove(s, v, p, buf).1, v, p);
  }

  lemma AlikeChain(a: seq<Block>, b: seq<Block>, c: seq<Block>, w: nat)
    requires |a| == |b| == |c| && OthersAlike(b, a, w) && OthersAlike(c, b, w)
    ensures OthersAlike(c, a, w)
  {
  }

  /** What a move into a block other than the victim does to the two live ranges. */
  lemma MoveKeepsRanges(s: Ftl, s': Ftl, v: nat, p: nat)
    requires s.Shape() && s'.Shape() && s'.Geo() == s.Geo() && v < s.Geo().blocks && p < s.Geo().pages
    requires MovedExactly(s, s', v, p) && Live(s, v, p) && s'.wb != v
    ensures LiveRange(s, v, p, s.Geo().pages) ==> LiveRange(s', v, p + 1, s.Geo().pages)
    ensures s.wb == s'.wb && s'.wp == s.wp + 1 && LiveRange(s, s.wb, 0, s.wp) ==> LiveRange(s', s.wb, 0, s'.wp)
    ensures s'.wp == 1 ==> LiveRange(s', s'.wb, 0, 1)
    ensures OthersAlike(s'.nand.blocks, s.nand.blocks, s'.wb)
  {
    hide Live, Alike;
    forall q | p + 1 <= q < s.Geo().pages && LiveRange(s, v, p, s.Geo().pages) ensures Live(s', v, q) {
      LiveAfterMove(s, s', v, p, v, q);
    }
    forall q | 0 <= q < s'.wp && (q == s'.wp - 1 || (s.wb == s'.wb && q < s.wp && LiveRange(s, s.wb, 0, s.wp)))
      ensures Live(s', s'.wb, q)
    {
      LiveAfterMove(s, s', v, p, s'.wb, q);
    }
  }

  /** While the scan fills its own victim, the live range only slides up. */
  lemma {:induction false} ScanIntoSelf(s: Ftl, v: nat, p: nat, buf: Page) returns (s': Ftl, buf': Page)
    requires Inv(s) && Ordinary(s) && v < s.Geo().blocks && p < s.wp && NoneBelow(s, v, p)
    requires v == s.wb && LiveRange(s, v, p, s.wp)
    ensures Inv(s') && Ordinary(s') && s'.Geo() == s.Geo() && s'.wb == v && s'.wp == s.Geo().pages
    ensures var p' := s.Geo().pages - (s.wp - p);
            && NoneBelow(s', v, p') && LiveRange(s', v, p', s.Geo().pages)
            && GcScan(s, v, p, buf) == GcScan(s', v, p', buf')
    ensures s'.nand.blocks[v].state == s.nand.blocks[v].state && s'.nand.blocks[v].erases == s.nand.blocks[v].erases
    ensures s'.nand.wearLimit == s.nand.wearLimit && OthersAlike(s'.nand.blocks, s.nand.blocks, v)
    decreases s.Geo().pages - p
  {
    hide Inv, Safe, GcMove, Live, LiveRange, NoneBelow, OthersAlike, Ordinary;
    if s.wp == s.Geo().pages {
      s', buf' := s, buf;
      AlikeRefl(s.nand.blocks);
    } else {
      MoveIntoSelf(s, v, p, buf);
      var (code, s1, data) := GcMove(s, v, p, buf);
      s', buf' := ScanIntoSelf(s1, v, p + 1, data);
      AlikeChain(s.nand.blocks, s1.nand.blocks, s'.nand.blocks, v);
    }
  }

  lemma MoveIntoSelf(s: Ftl, v: nat, p: nat, buf: Page)
    requires Inv(s) && Ordinary(s) && v < s.Geo().blocks && p < s.wp < s.Geo().pages && NoneBelow(s, v, p)
    requires v == s.wb && LiveRange(s, v, p, s.wp)
    ensures Live(s, v, p) && s.rmap[s.Geo().Ppn(v, p)] != INVALID
    ensures var (code, s', _) := GcMove(s, v, p, buf);
            && code == Ok && Inv(s') && Ordinary(s') && s'.wb == v && s'.wp == s.wp + 1 && NoneBelow(s', v, p + 1)
            && LiveRange(s', v, p + 1, s'.wp)
            && s'.nand.blocks[v].state == s.nand.blocks[v].state && s'.nand.blocks[v].erases == s.nand.blocks[v].erases
            && s'.nand.wearLimit == s.nand.wearLimit && OthersAlike(s'.nand.blocks, s.nand.blocks, v)
  {
    hide Inv, Safe, GcMove, Live, Programmable, Alike, NoneBelow;
    assert Live(s, v, p);
    LiveIsOwned(s, v, p);
    LiveIsUsedHere(s, v, p);
    HasRoom(s);
    GcMoveExact(s, v, p, buf);
    GcMoveKeeps(s, v, p, buf);
    var s1 := GcMove(s, v, p, buf).1;
    forall q | p + 1 <= q < s1.wp ensures Live(s1, v, q) {
      LiveAfterMove(s, s1, v, p, v, q);
    }
  }

  lemma AlikeRefl(a: seq<Block>)
    ensures forall w :: OthersAlike(a, a, w)
  {
  }

  lemma LiveIsUsedHere(s: Ftl, b: nat, p: nat)
    requires Inv(s) && b < s.Geo().blocks && p < s.Geo().pages && Live(s, b, p)
    ensures s.nand.blocks[b].state == Used
  {
    LiveIsUsed(s, b, p);
  }

  // ---- the pass

  /**
   The first `k` pages of USED block `v` are live, the rest of it dead, and the scan will fill `v` itself or nothing.
   */
  ghost predicate Movable(s: Ftl, v: nat, k: nat)
    requires s.Shape()
  {
    && v < s.Geo().User() && s.nand.blocks[v].state == Used && 1 <= k <= s.Geo().pages
    && LiveRange(s, v, 0, k) && (forall q :: k <= q < s.Geo().pages ==> !Live(s, v, q))
    && (if v == s.wb then s.wp == k else s.wp == s.Geo().pages && k == s.Geo().pages)
    && NextFree(s.nand, s.wb + 1).Some?
  }

  /**
   `v` has been erased once more and is FREE, and `w` is open with its first `k` pages live and counted; nothing else
   has changed.
   */
  ghost predicate Rotated(s: Ftl, s': Ftl, v: nat, w: nat, k: nat)
    requires s.Shape() && s'.Shape() && s'.Geo() == s.Geo()
  {
    && v < s.Geo().User() && w < s.Geo().User() && v != w && k <= s.Geo().pages
    && s'.wb == w && s'.wp == k && LiveRange(s', w, 0, k)
    && s.nand.blocks[w].state == Free && s'.nand.blocks[w].state == Used && s'.nand.blocks[w].count == k
    && s'.nand.blocks[v].state == Free && s'.nand.blocks[v].erases == s.nand.blocks[v].erases + 1
    && s'.nand.blocks[w].erases == s.nand.blocks[w].erases && s'.nand.wearLimit == s.nand.wearLimit
    && forall i :: 0 <= i < s.Geo().blocks && i != v && i != w ==> Alike(s'.nand.blocks[i], s.nand.blocks[i])
  }

  lemma {:induction false} CountPrefix(v: seq<bool>, k: nat)
    requires k <= |v| && forall q :: 0 <= q < |v| ==> v[q] == (q < k)
    ensures CountTrue(v) == k
  {
    if v != [] && 0 < k {
      CountPrefix(v[1..], k - 1);
    } else {
      CountTrueZero(v);
    }
  }

  lemma OpenCount(s: Ftl)
    requires Inv(s) && s.nand.blocks[s.wb].state != Bad && LiveRange(s, s.wb, 0, s.wp)
    ensures s.nand.blocks[s.wb].count == s.wp
  {
    forall q | 0 <= q < s.wp ensures s.nand.blocks[s.wb].valid[q] { assert Live(s, s.wb, q); }
    CountPrefix(s.nand.blocks[s.wb].valid, s.wp);
  }

  /** The scan of a movable victim, from its start to the switch of blocks. */
  lemma ScanStarts(s: Ftl, v: nat, k: nat, buf: Page) returns (s': Ftl, buf': Page)
    requires Inv(s) && Ordinary(s) && Movable(s, v, k)
    ensures var p := s.Geo().pages - k;
            && Inv(s') && Ordinary(s') && s'.Geo() == s.Geo() && s'.wb == s.wb && s'.wp == s.Geo().pages
            && NoneBelow(s', v, p) && LiveRange(s', v, p, s.Geo().pages)
            && GcScan(s, v, 0, buf) == GcScan(s', v, p, buf')
    ensures s'.nand.blocks[v].state == Used && s'.nand.blocks[v].erases == s.nand.blocks[v].erases
    ensures s'.nand.wearLimit == s.nand.wearLimit && OthersAlike(s'.nand.blocks, s.nand.blocks, v)
  {
    hide Inv, Safe, Live, Alike, GcScan;
    if v == s.wb {
      s', buf' := ScanIntoSelf(s, v, 0, buf);
    } else {
      s', buf' := s, buf;
      AlikeRefl(s.nand.blocks);
    }
  }

  /** From the switch on. */
  lemma ScanSwitches(s: Ftl, v: nat, p: nat, buf: Page)
    requires Inv(s) && Ordinary(s) && v < s.Geo().User() && p < s.Geo().pages && s.wp == s.Geo().pages
    requires NoneBelow(s, v, p) && LiveRange(s, v, p, s.Geo().pages) && s.nand.blocks[v].state == Used
    requires NextFree(s.nand, s.wb + 1).Some?
    ensures var w := NextFree(s.nand, s.wb + 1).value;
            var (code, s') := GcScan(s, v, p, buf);
            && w < s.Geo().User() && w != v
            && code == Ok && Inv(s') && Ordinary(s') && s'.wb == w && s'.wp == s.Geo().pages - p
            && LiveRange(s', w, 0, s'.wp) && s'.nand.blocks[w].state == Used
            && s'.nand.blocks[w].erases == s.nand.blocks[w].erases
            && s'.nand.wearLimit == s.nand.wearLimit && OthersAlike(s'.nand.blocks, s.nand.blocks, w)
  {
    hide Inv, Safe, GcMove, Live, Programmable, Alike, NextFree;
    assert Live(s, v, p);
    LiveIsOwned(s, v, p);
    SwitchRoom(s);
    GcMoveExact(s, v, p, buf);
    GcMoveKeeps(s, v, p, buf);
    var (code, s1, data) := GcMove(s, v, p, buf);
    MoveKeepsRanges(s, s1, v, p);
    ScanIntoNext(s1, v, p + 1, data);
    AlikeChain(s.nand.blocks, s1.nand.blocks, GcScan(s1, v, p + 1, data).1.nand.blocks, s1.wb);
  }

  lemma SwitchRoom(s: Ftl)
    requires s.Shape() && Ordinary(s) && NextFree(s.nand, s.wb + 1).Some? && s.wp == s.Geo().pages
    ensures 0 < Programmable(s)
    ensures var w := NextFree(s.nand, s.wb + 1).value; w < s.Geo().User() && s.nand.blocks[w].state == Free
  {
    hide FirstFree;
    ProgrammablePositive(s);
  }

  /** What the scan of the victim leaves: its live pages at the front of open block `w`. */
  ghost predicate Carried(s: Ftl, s': Ftl, v: nat, w: nat, k: nat)
    requires s.Shape() && s'.Shape() && s'.Geo() == s.Geo()
  {
    && v < s.Geo().User() && w < s.Geo().User() && w != v && k <= s.Geo().pages
    && s'.wb == w && s'.wp == k && LiveRange(s', w, 0, k)
    && s'.nand.blocks[w].state == Used && s'.nand.blocks[w].count == k
    && s'.nand.blocks[w].erases == s.nand.blocks[w].erases
    && s'.nand.blocks[v].state == Used && s'.nand.blocks[v].erases == s.nand.blocks[v].erases
    && s'.nand.wearLimit == s.nand.wearLimit
    && forall i :: 0 <= i < s.Geo().blocks && i != v && i != w ==> Alike(s'.nand.blocks[i], s.nand.blocks[i])
  }

  /** The whole scan of a movable victim. */
  lemma ScanRotates(s: Ftl, v: nat, k: nat, buf: Page)
    requires Inv(s) && Ordinary(s) && Movable(s, v, k)
    ensures var w := NextFree(s.nand, s.wb + 1).value;
            var (code, s') := GcScan(s, v, 0, buf);
            code == Ok && Inv(s') && Ordinary(s') && Carried(s, s', v, w, k)
  {
    hide Inv, Safe, LiveRange, NoneBelow, OthersAlike, Movable, GcScan, NextFree, Carried;
    MovableParts(s, v, k);
    var s1, buf' := ScanStarts(s, v, k, buf);
    SwitchTarget(s, NextFree(s.nand, s.wb + 1).value);
    SameFreeAround(s, s1, v);
    SameNextFree(s.nand, s1.nand, s.wb + 1);
    ScanSwitches(s1, v, s.Geo().pages - k, buf');
    var s2 := GcScan(s, v, 0, buf).1;
    OpenCount(s2);
    CarriedFrom(s, s1, s2, v, s2.wb, k);
  }

  lemma CarriedFrom(s: Ftl, s1: Ftl, s2: Ftl, v: nat, w: nat, k: nat)
    requires s.Shape() && s1.Shape() && s2.Shape() && s1.Geo() == s.Geo() == s2.Geo()
    requires v < s.Geo().User() && w < s.Geo().User() && w != v && k <= s.Geo().pages
    requires s1.nand.blocks[v].state == Used && s1.nand.blocks[v].erases == s.nand.blocks[v].erases
    requires s1.nand.wearLimit == s.nand.wearLimit == s2.nand.wearLimit
    requires OthersAlike(s1.nand.blocks, s.nand.blocks, v) && OthersAlike(s2.nand.blocks, s1.nand.blocks, w)
    requires s2.wb == w && s2.wp == k && LiveRange(s2, w, 0, k)
    requires s2.nand.blocks[w].state == Used && s2.nand.blocks[w].count == k
    requires s2.nand.blocks[w].erases == s1.nand.blocks[w].erases
    ensures Carried(s, s2, v, w, k)
  {
    hide LiveRange;
  }

  lemma SameFreeAround(s: Ftl, s': Ftl, v: nat)
    requires s.Shape() && s'.Shape() && s'.Geo() == s.Geo() && v < s.Geo().blocks
    requires s'.nand.blocks[v].state == s.nand.blocks[v].state && OthersAlike(s'.nand.blocks, s.nand.blocks, v)
    ensures forall i :: 0 <= i < s.Geo().blocks ==>
              (s.nand.blocks[i].state == Free <==> s'.nand.blocks[i].state == Free)
  {
  }

  lemma MovableCounters(s: Ftl, s': Ftl, v: nat, k: nat)
    requires s.Shape() && s' == s.(stats := s'.stats) && Movable(s, v, k)
    ensures Movable(s', v, k)
  {
    SameLive(s, s', v);
  }

  /**
   A pass over a movable victim that does not wear out: its live pages are in the next block, and nothing is gained.
   */
  lemma PassRotates(s: Ftl, v: nat, k: nat, draw: bool)
    requires Inv(s) && Ordinary(s) && Movable(s, v, k) && !WearsOut(s.nand, v, draw)
    ensures var (code, s') := GcPass(s, v, draw, []);
            code == Ok && Inv(s') && Ordinary(s') && Rotated(s, s', v, NextFree(s.nand, s.wb + 1).value, k)
  {
    hide Inv, Safe, GcScan, NextFree, Movable, Carried, Rotated, Erase, WearsOut;
    var s0 := s.(stats := s.stats.(gcCount := s.stats.gcCount + 1));
    CountersIrrelevant(s, s0.stats, s.wal);
    assert s0 == s.(stats := s0.stats, wal := s.wal);
    MovableCounters(s, s0, v, k);
    ScanRotates(s0, v, k, []);
    MovableParts(s, v, k);
    var w := NextFree(s.nand, s.wb + 1).value;
    SwitchTarget(s, w);
    GcPassInvisible(s, v, draw, []);
    CarriedCounters(s, s0, GcScan(s0, v, 0, []).1, v, w, k);
    EraseRotates(s, GcScan(s0, v, 0, []).1, v, w, k, draw);
  }

  /** `v` has worn out, and `w` is open with its first `k` pages live and counted; nothing else has changed. */
  ghost predicate WornAway(s: Ftl, s': Ftl, v: nat, w: nat, k: nat)
    requires s.Shape() && s'.Shape() && s'.Geo() == s.Geo()
  {
    && v < s.Geo().User() && w < s.Geo().User() && v != w && k <= s.Geo().pages
    && s'.wb == w && s'.wp == k && LiveRange(s', w, 0, k)
    && s.nand.blocks[w].state == Free && s'.nand.blocks[w].state == Used && s'.nand.blocks[w].count == k
    && s'.nand.blocks[v].state == Bad
    && forall i :: 0 <= i < s.Geo().blocks && i != v && i != w ==> Alike(s'.nand.blocks[i], s.nand.blocks[i])
  }

  /** A pass over a movable victim that does: its live pages have moved all the same, and the block is lost. */
  lemma PassWears(s: Ftl, v: nat, k: nat, draw: bool)
    requires Inv(s) && Ordinary(s) && Movable(s, v, k) && WearsOut(s.nand, v, draw)
    ensures var (code, s') := GcPass(s, v, draw, []);
            code == BadBlock && Inv(s') && Ordinary(s') && WornAway(s, s', v, NextFree(s.nand, s.wb + 1).value, k)
  {
    hide Inv, Safe, GcScan, NextFree, Movable, Carried, WornAway, Erase, WearsOut;
    var s0 := s.(stats := s.stats.(gcCount := s.stats.gcCount + 1));
    CountersIrrelevant(s, s0.stats, s.wal);
    assert s0 == s.(stats := s0.stats, wal := s.wal);
    MovableCounters(s, s0, v, k);
    ScanRotates(s0, v, k, []);
    MovableParts(s, v, k);
    var w := NextFree(s.nand, s.wb + 1).value;
    SwitchTarget(s, w);
    GcPassInvisible(s, v, draw, []);
    CarriedCounters(s, s0, GcScan(s0, v, 0, []).1, v, w, k);
    EraseWears(s, GcScan(s0, v, 0, []).1, v, w, k, draw);
  }

  lemma EraseWears(s: Ftl, s1: Ftl, v: nat, w: nat, k: nat, draw: bool)
    requires s.Shape() && s1.Shape() && s1.Geo() == s.Geo() && Carried(s, s1, v, w, k)
    requires s.nand.blocks[w].state == Free && WearsOut(s.nand, v, draw)
    ensures var (code, n) := Erase(s1.nand, v, draw);
            code == BadBlock && Ordinary(s1.(nand := n)) && WornAway(s, s1.(nand := n), v, w, k)
  {
    hide Live, Alike, LiveRange;
    var s' := s1.(nand := Erase(s1.nand, v, draw).1);
    KeepsLiveRange(s1, s', w, k);
  }

  lemma CarriedCounters(s: Ftl, s0: Ftl, s': Ftl, v: nat, w: nat, k: nat)
    requires s.Shape() && s0 == s.(stats := s0.stats) && s'.Shape() && s'.Geo() == s.Geo() && Carried(s0, s', v, w, k)
    ensures Carried(s, s', v, w, k)
  {
  }

  lemma EraseRotates(s: Ftl, s1: Ftl, v: nat, w: nat, k: nat, draw: bool)
    requires s.Shape() && s1.Shape() && s1.Geo() == s.Geo() && Carried(s, s1, v, w, k)
    requires s.nand.blocks[w].state == Free && !WearsOut(s.nand, v, draw)
    ensures var (code, n) := Erase(s1.nand, v, draw);
            code == Ok && Ordinary(s1.(nand := n)) && Rotated(s, s1.(nand := n), v, w, k)
  {
    hide Live, Alike, LiveRange;
    var s' := s1.(nand := Erase(s1.nand, v, draw).1);
    KeepsLiveRange(s1, s', w, k);
  }

  lemma MovableParts(s: Ftl, v: nat, k: nat)
    requires s.Shape() && Movable(s, v, k)
    ensures v < s.Geo().User() && s.nand.blocks[v].state == Used && 1 <= k <= s.Geo().pages
    ensures NextFree(s.nand, s.wb + 1).Some?
  {
  }

  lemma KeepsLiveRange(s: Ftl, s': Ftl, b: nat, k: nat)
    requires s.Shape() && s'.Shape() && s'.Geo() == s.Geo() && b < s.Geo().blocks && k <= s.Geo().pages
    requires s'.rmap == s.rmap && s'.nand.blocks[b].valid == s.nand.blocks[b].valid && LiveRange(s, b, 0, k)
    ensures LiveRange(s', b, 0, k)
  {
    SameLive(s, s', b);
  }

  lemma SwitchTarget(s: Ftl, w: nat)
    requires s.Shape() && Ordinary(s) && NextFree(s.nand, s.wb + 1) == Some(w)
    ensures w < s.Geo().User() && s.nand.blocks[w].state == Free
  {
  }

  lemma SameLive(s: Ftl, s': Ftl, b: nat)
    requires s.Shape() && s'.Shape() && s'.Geo() == s.Geo() && b < s.Geo().blocks
    requires s'.rmap == s.rmap && s'.nand.blocks[b].valid == s.nand.blocks[b].valid
    ensures forall q :: 0 <= q < s.Geo().pages ==> Live(s', b, q) == Live(s, b, q)
  {
  }

  // ---- every valid page has an owner

  /** No valid page of a good block of the user region, except in block `v`, is without an owner. */
  ghost predicate OwnedBut(s: Ftl, v: int)
    requires s.Shape()
  {
    forall b, p :: (0 <= b < s.Geo().User() && b != v && 0 <= p < s.Geo().pages
                    && s.nand.blocks[b].state != Bad && s.nand.blocks[b].valid[p]) ==> Live(s, b, p)
  }

  lemma {:induction false} ScanOwned(s: Ftl, v: nat, p: nat, buf: Page)
    requires Inv(s) && Ordinary(s) && v < s.Geo().blocks && p <= s.Geo().pages && NoneBelow(s, v, p) && OwnedBut(s, v)
    ensures var (code, s') := GcScan(s, v, p, buf); code == Ok ==> OwnedBut(s', v)
    decreases s.Geo().pages - p
  {
    hide Inv, Safe, GcMove, OwnedBut, NoneBelow;
    if p < s.Geo().pages {
      if Live(s, v, p) {
        GcMoveEffect(s, v, p, buf);
        GcMoveKeeps(s, v, p, buf);
        var (code, s1, data) := GcMove(s, v, p, buf);
        if code == Ok {
          GcMoveExact(s, v, p, buf);
          MoveOwned(s, s1, v, p);
          ScanOwned(s1, v, p + 1, data);
        }
      } else {
        DeadIsUnmappedHere(s, v, p);
        ScanOwned(s, v, p + 1, buf);
      }
    }
  }

  lemma DeadIsUnmappedHere(s: Ftl, v: nat, p: nat)
    requires Inv(s) && v < s.Geo().blocks && p < s.Geo().pages && !Live(s, v, p) && NoneBelow(s, v, p)
    ensures NoneBelow(s, v, p + 1)
  {
    DeadIsUnmapped(s, v, p);
  }

  lemma MoveOwned(s: Ftl, s': Ftl, v: nat, p: nat)
    requires s.Shape() && s'.Shape() && s'.Geo() == s.Geo() && v < s.Geo().blocks && p < s.Geo().pages
    requires MovedExactly(s, s', v, p) && Live(s, v, p) && OwnedBut(s, v) && Ordinary(s)
    ensures OwnedBut(s', v) && Ordinary(s')
  {
    hide Live;
    forall b, q | 0 <= b < s.Geo().User() && b != v && 0 <= q < s.Geo().pages
                  && s'.nand.blocks[b].state != Bad && s'.nand.blocks[b].valid[q]
      ensures Live(s', b, q)
    {
      LiveAfterMove(s, s', v, p, b, q);
      if b == s'.wb { SlotGood(s, s', v, p); }
    }
  }

  lemma SlotGood(s: Ftl, s': Ftl, v: nat, p: nat)
    requires s.Shape() && s'.Shape() && s'.Geo() == s.Geo() && v < s.Geo().blocks && p < s.Geo().pages
    requires MovedExactly(s, s', v, p) && Ordinary(s)
    ensures s.nand.blocks[s'.wb].state != Bad
  {
  }

  lemma OwnedCounters(s: Ftl, s': Ftl)
    requires s.Shape() && OwnedBut(s, -1) && s' == s.(stats := s'.stats)
    ensures forall v :: OwnedBut(s', v)
  {
    forall b, p | 0 <= b < s.Geo().User() && 0 <= p < s.Geo().pages && s.nand.blocks[b].state != Bad
                  && s.nand.blocks[b].valid[p]
      ensures Live(s', b, p)
    {
      assert Live(s, b, p);
    }
  }

  /** A pass that gets to its erase leaves no valid page without an owner, whether or not the victim wears out. */
  lemma PassOwned(s: Ftl, v: nat, draw: bool)
    requires Inv(s) && Ordinary(s) && v < s.Geo().blocks && OwnedBut(s, -1)
    ensures var (code, s') := GcPass(s, v, draw, []); code == Ok || code == BadBlock ==> OwnedBut(s', -1)
  {
    hide Inv, Safe, GcScan;
    var s0 := s.(stats := s.stats.(gcCount := s.stats.gcCount + 1));
    CountersIrrelevant(s, s0.stats, s.wal);
    assert s0 == s.(stats := s0.stats, wal := s.wal);
    OwnedCounters(s, s0);
    ScanOwned(s0, v, 0, []);
    ScanCodes(s0, v, 0, []);
    var (code, s1) := GcScan(s0, v, 0, []);
    if code == Ok { EraseOwned(s1, v, draw); }
  }

  lemma {:induction false} ScanCodes(s: Ftl, v: nat, p: nat, buf: Page)
    requires s.Shape() && v < s.Geo().blocks && p <= s.Geo().pages
    ensures GcScan(s, v, p, buf).0 != BadBlock
    decreases s.Geo().pages - p
  {
    hide PageRead, PageWrite, Alloc;
    if p < s.Geo().pages {
      if Live(s, v, p) {
        var (code, s1, data) := GcMove(s, v, p, buf);
        if code == Ok { ScanCodes(s1, v, p + 1, data); }
      } else {
        ScanCodes(s, v, p + 1, buf);
      }
    }
  }

  lemma EraseOwned(s: Ftl, v: nat, draw: bool)
    requires s.Shape() && v < s.Geo().blocks && OwnedBut(s, v)
    ensures OwnedBut(s.(nand := Erase(s.nand, v, draw).1), -1)
  {
    var s' := s.(nand := Erase(s.nand, v, draw).1);
    forall b, p | 0 <= b < s.Geo().User() && 0 <= p < s.Geo().pages
                  && s'.nand.blocks[b].state != Bad && s'.nand.blocks[b].valid[p]
      ensures Live(s', b, p)
    {
      assert b != v;
      assert Live(s, b, p);
    }
  }

  /** Then a full block is live from end to end. */
  lemma FullIsLive(s: Ftl, b: nat)
    requires Inv(s) && OwnedBut(s, -1) && b < s.Geo().User() && s.nand.blocks[b].state == Used
    requires s.nand.blocks[b].count == s.Geo().pages
    ensures LiveRange(s, b, 0, s.Geo().pages)
  {
    AllCounted(s.nand.blocks[b].valid);
    assert CountOk(s.nand.blocks[b]);
  }

  lemma {:induction false} AllCounted(v: seq<bool>)
    requires CountTrue(v) == |v|
    ensures forall q :: 0 <= q < |v| ==> v[q]
  {
    if v != [] {
      AllCounted(v[1..]);
      assert forall q :: 1 <= q < |v| ==> v[q] == v[1..][q - 1];
    }
  }
}
