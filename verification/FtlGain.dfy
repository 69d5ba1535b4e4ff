/**
 What one garbage-collection pass gains, exactly.  A pass can gain nothing, and so the loop in ftl_write
 need not stop; FtlStuck says when it does not.
 */
module FtlGain {
  import opened Common
  import opened Layout
  import opened NandModel
  import opened WalModel
  import opened FtlModel
  import opened FtlInvariant
  import opened FtlRelocation

  /** FREE blocks below `k` other than `wb`. */
  function FreeOther(blocks: seq<Block>, wb: nat, k: nat): (c: nat)
    requires k <= |blocks|
    ensures c > 0 <==> exists i :: 0 <= i < k && i != wb && blocks[i].state == Free
  {
    if k == 0 then 0
    else FreeOther(blocks, wb, k - 1) + (if blocks[k - 1].state == Free && k - 1 != wb then 1 else 0)
  }

  /**
   What the open block still offers: its unallocated slots, or all of it if it is used up but FREE and can be opened
   again.
   */
  function Rest(s: Ftl): nat
    requires s.Shape()
  {
    if s.wp < s.Geo().pages then s.Geo().pages - s.wp
    else if s.nand.blocks[s.wb].state == Free then s.Geo().pages else 0
  }

  /** Pages that can be programmed before an erase: whole free user blocks and the rest of the open one. */
  function Programmable(s: Ftl): nat
    requires s.Shape()
  {
    FreeOther(s.nand.blocks, s.wb, s.Geo().User()) * s.Geo().pages + Rest(s)
  }

  /** Live pages of block `b` from page `p` on. */
  function LiveFrom(s: Ftl, b: nat, p: nat): nat
    requires s.Shape() && b < s.Geo().blocks && p <= s.Geo().pages
    decreases s.Geo().pages - p
  {
    if p == s.Geo().pages then 0 else (if Live(s, b, p) then 1 else 0) + LiveFrom(s, b, p + 1)
  }

  /**
   How many pages a scan from `p` moves.  In the open block every unallocated slot is filled first,
   by pages that are met again, and then the live pages leave.
   */
  function Moves(s: Ftl, v: nat, p: nat): nat
    requires s.Shape() && v < s.Geo().blocks && p <= s.Geo().pages
  {
    var live := LiveFrom(s, v, p);
    if v != s.wb || live == 0 then live else (s.Geo().pages - s.wp) + live
  }

  lemma {:induction false} LiveFromSame(s: Ftl, s': Ftl, b: nat, p: nat)
    requires s.Shape() && s'.Shape() && s'.Geo() == s.Geo() && b < s.Geo().blocks && p <= s.Geo().pages
    requires forall q :: p <= q < s.Geo().pages ==> Live(s', b, q) == Live(s, b, q)
    ensures LiveFrom(s', b, p) == LiveFrom(s, b, p)
    decreases s.Geo().pages - p
  {
    if p < s.Geo().pages { LiveFromSame(s, s', b, p + 1); }
  }

  lemma {:induction false} LiveFromOneMore(s: Ftl, s': Ftl, b: nat, p: nat, at: nat)
    requires s.Shape() && s'.Shape() && s'.Geo() == s.Geo() && b < s.Geo().blocks && p <= at < s.Geo().pages
    requires !Live(s, b, at) && Live(s', b, at)
    requires forall q :: p <= q < s.Geo().pages && q != at ==> Live(s', b, q) == Live(s, b, q)
    ensures LiveFrom(s', b, p) == LiveFrom(s, b, p) + 1
    decreases s.Geo().pages - p
  {
    if p < at {
      LiveFromOneMore(s, s', b, p + 1, at);
    } else {
      LiveFromSame(s, s', b, p + 1);
    }
  }

  lemma {:induction false} FreeOtherSame(a: seq<Block>, b: seq<Block>, wa: nat, wb: nat, k: nat)
    requires k <= |a| == |b|
    requires forall i :: 0 <= i < k ==> ((a[i].state == Free && i != wa) <==> (b[i].state == Free && i != wb))
    ensures FreeOther(a, wa, k) == FreeOther(b, wb, k)
  {
    if k != 0 { FreeOtherSame(a, b, wa, wb, k - 1); }
  }

  /** One free block more than before. */
  lemma {:induction false} FreeOtherOneMore(a: seq<Block>, b: seq<Block>, wa: nat, wb: nat, k: nat, at: nat)
    requires at < k <= |a| == |b|
    requires !(a[at].state == Free && at != wa) && (b[at].state == Free && at != wb)
    requires forall i :: 0 <= i < k && i != at ==>
               ((a[i].state == Free && i != wa) <==> (b[i].state == Free && i != wb))
    ensures FreeOther(b, wb, k) == FreeOther(a, wa, k) + 1
  {
    if at == k - 1 { FreeOtherSame(a, b, wa, wb, k - 1); } else { FreeOtherOneMore(a, b, wa, wb, k - 1, at); }
  }

  /** The open block is an ordinary user block. */
  ghost predicate Ordinary(s: Ftl)
    requires s.Shape()
  {
    s.wb < s.Geo().User() && s.nand.blocks[s.wb].state != Bad
  }

  /** Moving one page out of `v`, step by step. */
  ghost predicate Moved(s: Ftl, s': Ftl, v: nat, p: nat)
    requires s.Shape() && s'.Shape() && s'.Geo() == s.Geo() && v < s.Geo().blocks && p < s.Geo().pages
  {
    var at := s'.wp - 1;
    && 0 <= at < s.Geo().pages
    && (if s.wp < s.Geo().pages then s'.wb == s.wb && at == s.wp
        else s'.wb < s.Geo().User() && s.nand.blocks[s'.wb].state == Free && at == 0)
    && (forall i :: 0 <= i < s.Geo().blocks && i != s'.wb ==> s'.nand.blocks[i].state == s.nand.blocks[i].state)
    && s'.nand.blocks[s'.wb].state == Used
    && (forall q :: p < q < s.Geo().pages && !(v == s'.wb && q == at) ==> Live(s', v, q) == Live(s, v, q))
    && (v == s'.wb ==> Live(s', v, at))
  }

  /** Allocation succeeds exactly if there is room, and hands out a slot that can be programmed. */
  lemma AllocRoom(s: Ftl)
    requires Inv(s) && Ordinary(s)
    ensures var (slot, s') := Alloc(s);
            && (slot.Some? <==> 0 < Programmable(s))
            && (slot.Some? ==>
                  && s.Geo().BlockOf(slot.value) == s'.wb && s.Geo().PageOf(slot.value) == s'.wp - 1
                  && (if s.wp < s.Geo().pages then s'.wb == s.wb && s'.wp == s.wp + 1
                      else s'.wb < s.Geo().User() && s.nand.blocks[s'.wb].state == Free && s'.wp == 1)
                  && s.nand.blocks[s'.wb].state != Bad && !s.nand.blocks[s'.wb].valid[s'.wp - 1])
  {
    hide Core, Sane, Safe, FirstFree;
    var (slot, s') := Alloc(s);
    ProgrammablePositive(s);
    if s.wp == s.Geo().pages {
      assert slot.Some? <==> exists i :: 0 <= i < s.Geo().User() && s.nand.blocks[i].state == Free;
      if slot.Some? { FreeIsClean(s, s'.wb); }
    }
  }

  lemma ProgramEffect(n: Nand, b: nat, p: nat, data: Page)
    requires n.Shape() && b < n.geo.blocks && p < n.geo.pages && n.blocks[b].state != Bad && !n.blocks[b].valid[p]
    ensures var (code, n') := PageWrite(n, b, p, data);
            && code == Ok && n'.geo == n.geo && n'.wearLimit == n.wearLimit
            && n'.blocks[b].state == Used && n'.blocks[b].valid == n.blocks[b].valid[p := true]
            && n'.blocks[b].erases == n.blocks[b].erases
            && forall i :: 0 <= i < n.geo.blocks && i != b ==> n'.blocks[i] == n.blocks[i]
  {
  }

  /** What reading the page leaves for the allocation: same tables, same block states, same room. */
  lemma GcReadEffect(s: Ftl, v: nat, p: nat, buf: Page)
    requires Inv(s) && Ordinary(s) && v < s.Geo().blocks && p < s.Geo().pages && Live(s, v, p)
    ensures var s1 := s.(nand := PageRead(s.nand, v, p, buf).2);
            && s.nand.blocks[v].state == Used
            && Inv(s1) && Ordinary(s1)
            && Programmable(s1) == Programmable(s)
            && forall i :: 0 <= i < s.Geo().blocks ==>
                 s1.nand.blocks[i].state == s.nand.blocks[i].state && s1.nand.blocks[i].valid == s.nand.blocks[i].valid
  {
    hide Core, Sane, Safe, OpenOk, Logical, PageRead, Sound;
    LiveIsUsed(s, v, p);
    ReadStep(s, v, p, buf);
    ReadCountOnly(s, v, p, buf);
    var n1 := PageRead(s.nand, v, p, buf).2;
    FreeOtherSame(s.nand.blocks, n1.blocks, s.wb, s.wb, s.Geo().User());
  }

  /** A GC move succeeds exactly if a page can be programmed, and then takes one slot. */
  lemma GcMoveEffect(s: Ftl, v: nat, p: nat, buf: Page)
    requires Inv(s) && Ordinary(s) && v < s.Geo().blocks && p < s.Geo().pages && Live(s, v, p)
    ensures var (code, s', _) := GcMove(s, v, p, buf);
            && (code == Ok <==> 0 < Programmable(s))
            && (code == Ok ==> Moved(s, s', v, p) && s'.nand.blocks[v].state == Used)
            && (code != Ok ==> code == NoSpace)
  {
    hide Inv, Safe, PageRead, PageWrite, Alloc, Programmable;
    GcReadEffect(s, v, p, buf);
    var (_, data, n1) := PageRead(s.nand, v, p, buf);
    var s1 := s.(nand := n1);
    AllocRoom(s1);
    var (slot, s2) := Alloc(s1);
    if slot.Some? {
      s.Geo().PpnOfParts(slot.value);
      ProgramEffect(n1, s2.wb, s2.wp - 1, data);
    }
  }

  lemma ReadCountOnly(s: Ftl, b: nat, p: nat, buf: Page)
    requires s.Shape() && b < s.Geo().blocks && p < s.Geo().pages
    ensures var n := PageRead(s.nand, b, p, buf).2;
            forall i :: 0 <= i < |n.blocks| ==>
              n.blocks[i].state == s.nand.blocks[i].state && n.blocks[i].valid == s.nand.blocks[i].valid
  {
  }

  lemma GcMoveErases(s: Ftl, v: nat, p: nat, buf: Page)
    requires s.Shape() && v < s.Geo().blocks && p < s.Geo().pages && Live(s, v, p)
    ensures var s' := GcMove(s, v, p, buf).1;
            s'.nand.wearLimit == s.nand.wearLimit
            && forall i :: 0 <= i < s.Geo().blocks ==> s'.nand.blocks[i].erases == s.nand.blocks[i].erases
  {
    hide Seal, Readout, FirstFree;
  }

  lemma OneLess(f: nat, k: nat)
    ensures (f + 1) * k == f * k + k
  {
  }

  lemma MovedProgrammable(s: Ftl, s': Ftl, v: nat, p: nat)
    requires s.Shape() && s'.Shape() && s'.Geo() == s.Geo() && v < s.Geo().blocks && p < s.Geo().pages
    requires Ordinary(s) && Moved(s, s', v, p)
    ensures Ordinary(s') && Programmable(s') == Programmable(s) - 1
  {
    hide Live;
    var user := s.Geo().User();
    if s'.wb == s.wb {
      FreeOtherSame(s.nand.blocks, s'.nand.blocks, s.wb, s.wb, user);
    } else if s.nand.blocks[s.wb].state == Free {
      FreeOtherSwap(s.nand.blocks, s'.nand.blocks, s.wb, s'.wb, user);
    } else {
      FreeOtherOneMore(s'.nand.blocks, s.nand.blocks, s'.wb, s.wb, user, s'.wb);
      OneLess(FreeOther(s'.nand.blocks, s'.wb, user), s.Geo().pages);
    }
  }

  /** Leaving a FREE block open for another one that was FREE. */
  lemma FreeOtherSwap(a: seq<Block>, b: seq<Block>, wa: nat, wb: nat, k: nat)
    requires wa < k <= |a| == |b| && wb < k && wa != wb && a[wa].state == Free && a[wb].state == Free
    requires forall i :: 0 <= i < |a| && i != wb ==> b[i].state == a[i].state
    ensures FreeOther(b, wb, k) == FreeOther(a, wa, k)
  {
    FreeOtherOneMore(a, a, wa, k, k, wa);
    FreeOtherOneMore(a, a, wb, k, k, wb);
    FreeOtherSame(b, a, wb, wb, k);
  }

  lemma MovedMoves(s: Ftl, s': Ftl, v: nat, p: nat)
    requires Inv(s) && s'.Shape() && s'.Geo() == s.Geo() && v < s.Geo().blocks && p < s.Geo().pages
    requires Live(s, v, p) && Moved(s, s', v, p)
    ensures Moves(s', v, p + 1) == Moves(s, v, p) - 1
    ensures v == s'.wb ==> v == s.wb && 0 < LiveFrom(s', v, p + 1)
  {
    hide Core, Sane, Safe, OpenOk;
    LiveIsUsed(s, v, p);
    if v == s'.wb {
      PointerBeyond(s, p);
      LiveFromOneMore(s, s', v, p + 1, s'.wp - 1);
    } else {
      LiveFromSame(s, s', v, p + 1);
    }
  }

  /** A successful move uses up one programmable page and one pending move, no more and no less. */
  lemma GcMoveGain(s: Ftl, v: nat, p: nat, buf: Page)
    requires Inv(s) && Ordinary(s) && v < s.Geo().blocks && p < s.Geo().pages && Live(s, v, p)
    requires GcMove(s, v, p, buf).0 == Ok
    ensures var s' := GcMove(s, v, p, buf).1;
            && Ordinary(s')
            && Programmable(s') == Programmable(s) - 1
            && Moves(s', v, p + 1) == Moves(s, v, p) - 1
            && (v == s'.wb ==> v == s.wb && 0 < LiveFrom(s', v, p + 1))
  {
    hide Inv, Safe, GcMove, Moved, Programmable, Moves;
    GcMoveEffect(s, v, p, buf);
    var s' := GcMove(s, v, p, buf).1;
    MovedProgrammable(s, s', v, p);
    MovedMoves(s, s', v, p);
  }

  /** Live pages of the open block lie below the pointer, and the slot at the pointer is not live. */
  lemma PointerBeyond(s: Ftl, p: nat)
    requires Inv(s) && p < s.Geo().pages && Live(s, s.wb, p)
    ensures p < s.wp && (s.wp < s.Geo().pages ==> !Live(s, s.wb, s.wp))
  {
    LiveIsUsed(s, s.wb, p);
  }

  lemma ProgrammablePositive(s: Ftl)
    requires s.Shape()
    ensures 0 < Programmable(s) <==> 0 < Rest(s) || 0 < FreeOther(s.nand.blocks, s.wb, s.Geo().User())
  {
    var f := FreeOther(s.nand.blocks, s.wb, s.Geo().User());
    if 0 < f { MulMono(1, f, s.Geo().pages); }
  }

  /** The scan succeeds exactly if there is room for all its moves, and uses exactly that room. */
  lemma {:induction false} GcScanGain(s: Ftl, v: nat, p: nat, buf: Page)
    requires Inv(s) && Ordinary(s) && v < s.Geo().blocks && p <= s.Geo().pages && NoneBelow(s, v, p)
    ensures var (code, s') := GcScan(s, v, p, buf);
            && (code == Ok <==> Moves(s, v, p) <= Programmable(s))
            && (code != Ok ==> code == NoSpace)
            && (code == Ok ==>
                  && Ordinary(s') && Programmable(s') == Programmable(s) - Moves(s, v, p)
                  && (v == s'.wb <==> v == s.wb && LiveFrom(s, v, p) == 0)
                  && (LiveFrom(s, v, p) == 0 ==> s'.wb == s.wb && s'.wp == s.wp)
                  && (LiveFrom(s, v, p) > 0 || s.nand.blocks[s.wb].state == Used ==>
                        s'.nand.blocks[s'.wb].state == Used)
                  && s'.nand.blocks[v].state == s.nand.blocks[v].state
                  && s'.nand.blocks[v].erases == s.nand.blocks[v].erases
                  && s'.nand.wearLimit == s.nand.wearLimit)
    decreases s.Geo().pages - p
  {
    hide Inv, Core, Sane, Safe, OpenOk, Logical, GcMove, Programmable;
    if p < s.Geo().pages {
      if Live(s, v, p) {
        GcMoveKeeps(s, v, p, buf);
        GcMoveEffect(s, v, p, buf);
        var (code, s1, data) := GcMove(s, v, p, buf);
        if code == Ok {
          LiveIsUsed(s, v, p);
          GcMoveGain(s, v, p, buf);
          GcMoveErases(s, v, p, buf);
          GcScanGain(s1, v, p + 1, data);
        }
      } else {
        if !s.nand.IsValid(v, p) { UnmappedUnlessSound(s, v, p); }
        GcScanGain(s, v, p + 1, buf);
      }
    }
  }

  lemma EraseProgrammable(s: Ftl, v: nat, draw: bool)
    requires s.Shape() && v < s.Geo().User() && s.nand.blocks[v].state == Used && !WearsOut(s.nand, v, draw)
    ensures var (code, n) := Erase(s.nand, v, draw);
            code == Ok && (Ordinary(s) ==> Ordinary(s.(nand := n)))
            && Programmable(s.(nand := n)) ==
               Programmable(s) + (if v != s.wb || s.wp == s.Geo().pages then s.Geo().pages else 0)
  {
    var n := Erase(s.nand, v, draw).1;
    var user := s.Geo().User();
    if v == s.wb {
      FreeOtherSame(s.nand.blocks, n.blocks, s.wb, s.wb, user);
    } else {
      FreeOtherOneMore(s.nand.blocks, n.blocks, s.wb, s.wb, user, v);
      OneLess(FreeOther(s.nand.blocks, s.wb, user), s.Geo().pages);
    }
  }

  /** What a successful pass over user block `v` adds to the programmable pages. */
  function Gain(s: Ftl, v: nat): int
    requires s.Shape() && v < s.Geo().blocks
  {
    var live := LiveFrom(s, v, 0);
    if v != s.wb then s.Geo().pages - live
    else if live == 0 then (if s.wp == s.Geo().pages then s.Geo().pages else 0)
    else s.wp - live
  }

  /**
   The exact gain of a pass over a USED user block, with an ordinary open block: it succeeds iff
   there is room for its moves and the victim survives the erase, and then adds exactly Gain and
   leaves an ordinary open block.
   */
  lemma GcPassGain(s: Ftl, v: nat, draw: bool, buf: Page)
    requires Inv(s) && Ordinary(s) && v < s.Geo().User() && s.nand.blocks[v].state == Used
    ensures var (code, s') := GcPass(s, v, draw, buf);
            && (code == Ok <==> Moves(s, v, 0) <= Programmable(s) && !WearsOut(s.nand, v, draw))
            && (code == NoSpace <==> Programmable(s) < Moves(s, v, 0))
            && (code == Ok ==> Ordinary(s') && Programmable(s') == Programmable(s) + Gain(s, v))
  {
    hide Inv, Core, Sane, Safe, OpenOk, Logical, GcScan, Programmable, Live, Erase;
    var s0 := s.(stats := s.stats.(gcCount := s.stats.gcCount + 1));
    CountersIrrelevant(s, s0.stats, s.wal);
    CounterLive(s, s0.stats, v);
    GcScanGain(s0, v, 0, buf);
    var (code, s1) := GcScan(s0, v, 0, buf);
    if code == Ok {
      if WearsOut(s.nand, v, draw) { EraseWorn(s1.nand, v, draw); } else { EraseProgrammable(s1, v, draw); }
    }
  }

  lemma EraseWorn(n: Nand, v: nat, draw: bool)
    requires n.Shape() && v < n.geo.blocks && n.blocks[v].state == Used && WearsOut(n, v, draw)
    ensures Erase(n, v, draw).0 == BadBlock
  {
  }

  lemma CounterLive(s: Ftl, stats: Stats, v: nat)
    requires s.Shape() && v < s.Geo().blocks
    ensures LiveFrom(s.(stats := stats), v, 0) == LiveFrom(s, v, 0)
    ensures Programmable(s.(stats := stats)) == Programmable(s)
  {
    LiveFromSame(s, s.(stats := stats), v, 0);
  }

  lemma {:induction false} LiveFromAtMost(s: Ftl, b: nat, p: nat, bound: nat)
    requires s.Shape() && b < s.Geo().blocks && p <= s.Geo().pages && p <= bound <= s.Geo().pages
    requires forall q :: bound <= q < s.Geo().pages ==> !Live(s, b, q)
    ensures LiveFrom(s, b, p) <= bound - p
    ensures LiveFrom(s, b, p) == bound - p <==> forall q :: p <= q < bound ==> Live(s, b, q)
    decreases s.Geo().pages - p
  {
    if p < bound {
      LiveFromAtMost(s, b, p + 1, bound);
    } else if p < s.Geo().pages {
      LiveFromAtMost(s, b, p + 1, p + 1);
    }
  }

  /**
   A pass never loses room, and it gains nothing exactly if every page of the victim was live, where
   for the open block only the allocated pages count, or it was the open block, not yet used up,
   and held nothing live at all.
   */
  lemma GainNeverNegative(s: Ftl, v: nat)
    requires Inv(s) && v < s.Geo().blocks
    ensures 0 <= Gain(s, v)
    ensures Gain(s, v) == 0 <==>
            || (v == s.wb && s.wp < s.Geo().pages && LiveFrom(s, v, 0) == 0)
            || forall q :: 0 <= q < (if v == s.wb then s.wp else s.Geo().pages) ==> Live(s, v, q)
  {
    var bound := if v == s.wb then s.wp else s.Geo().pages;
    forall q | bound <= q < s.Geo().pages ensures !Live(s, v, q) {
      if Live(s, v, q) { PointerBeyond(s, q); }
    }
    LiveFromAtMost(s, v, 0, bound);
  }
}
