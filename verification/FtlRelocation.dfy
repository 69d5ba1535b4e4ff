/**
 The relocators: garbage collection, relocation at equal offsets, and bad-block replacement.
 Each keeps the invariant and is invisible to the host; where the code needs luck for that,
 the exact condition is stated.
 */
module FtlRelocation {
  import opened Common
  import opened Layout
  import opened NandModel
  import opened WalModel
  import opened FtlModel
  import opened FtlInvariant

  // ---- garbage collection

  /** One page of GC.  If the new page lands in the victim itself, it lands ahead of the scan. */
  lemma GcMoveKeeps(s: Ftl, v: nat, p: nat, buf: Page)
    requires Safe(s) && v < s.Geo().blocks && p < s.Geo().pages
    requires Counts(s.nand) || OpensClean(s.(nand := PageRead(s.nand, v, p, buf).2))
    requires Live(s, v, p) && NoneBelow(s, v, p)
    ensures var (code, s', _) := GcMove(s, v, p, buf);
            && Safe(s') && (Counts(s.nand) ==> Counts(s'.nand)) && Logical(s') == Logical(s)
            && (code == Ok ==> NoneBelow(s', v, p + 1))
  {
    hide Sane, Counts, Logical, PageRead, PageWrite, Sound, OpensClean, Alloc;
    var from := s.Geo().Ppn(v, p);
    LiveIsSound(s, v, p);
    ReadStep(s, v, p, buf);
    var (_, data, n1) := PageRead(s.nand, v, p, buf);
    var s1 := s.(nand := n1);
    AllocStep(s1);
    var (slot, s2) := Alloc(s1);
    if slot.Some? {
      var b, pg := s.Geo().BlockOf(slot.value), s.Geo().PageOf(slot.value);
      s.Geo().PpnOfParts(slot.value);
      if s2.nand.blocks[b].state != Bad {
        ProgramStep(s2, b, pg, data);
        var s3 := s2.(nand := PageWrite(s2.nand, b, pg, data).1,
                      stats := s.stats.(nand := s.stats.nand + 1, gcMoved := s.stats.gcMoved + 1));
        CountersIrrelevant(s2.(nand := s3.nand), s3.stats, s3.wal);
        RemapStep(s3, s.rmap[from], from, slot.value);
      } else {
        BadRefuses(s2.nand, b, pg, data);
      }
    }
  }

  lemma BadRefuses(n: Nand, b: nat, p: nat, data: Page)
    requires n.Shape() && b < n.geo.blocks && p < n.geo.pages && n.blocks[b].state == Bad
    ensures PageWrite(n, b, p, data) == (BadBlock, n)
  {
  }

  /** Every block that the scan opens is clean when it is opened. */
  ghost predicate ScanClean(s: Ftl, v: nat, p: nat, buf: Page)
    requires s.Shape() && v < s.Geo().blocks && p <= s.Geo().pages
    decreases s.Geo().pages - p
  {
    if p == s.Geo().pages then true
    else if !Live(s, v, p) then ScanClean(s, v, p + 1, buf)
    else
      && OpensClean(s.(nand := PageRead(s.nand, v, p, buf).2))
      && var (code, s1, data) := GcMove(s, v, p, buf);
         code == Ok ==> ScanClean(s1, v, p + 1, data)
  }

  lemma {:induction false} GcScanKeeps(s: Ftl, v: nat, p: nat, buf: Page)
    requires Safe(s) && v < s.Geo().blocks && p <= s.Geo().pages && NoneBelow(s, v, p)
    requires Counts(s.nand) || ScanClean(s, v, p, buf)
    ensures var (code, s') := GcScan(s, v, p, buf);
            && Safe(s') && (Counts(s.nand) ==> Counts(s'.nand)) && Logical(s') == Logical(s)
            && (code == Ok ==> NoneBelow(s', v, s.Geo().pages))
    decreases s.Geo().pages - p
  {
    hide Counts, Safe, Sane, OpenOk, Logical, GcMove, OpensClean;
    if p < s.Geo().pages {
      if Live(s, v, p) {
        GcMoveKeeps(s, v, p, buf);
        var (code, s1, data) := GcMove(s, v, p, buf);
        if code == Ok { GcScanKeeps(s1, v, p + 1, data); }
      } else {
        if !s.nand.IsValid(v, p) { UnmappedUnlessSound(s, v, p); }
        GcScanKeeps(s, v, p + 1, buf);
      }
    }
  }

  ghost predicate PassClean(s: Ftl, v: nat, buf: Page)
    requires s.Shape() && v < s.Geo().blocks
  {
    ScanClean(s.(stats := s.stats.(gcCount := s.stats.gcCount + 1)), v, 0, buf)
  }

  /**
   One GC pass over any victim, the open block included, keeps the invariant and changes
   nothing the host can see, however it ends: out of pages, on a failed program, or with the
   victim worn out by the erase.  With forged counts it does so as long as the blocks it opens are clean.
   */
  lemma GcPassInvisible(s: Ftl, v: nat, draw: bool, buf: Page)
    requires Safe(s) && v < s.Geo().blocks && (Counts(s.nand) || PassClean(s, v, buf))
    ensures var s' := GcPass(s, v, draw, buf).1;
            Safe(s') && (Counts(s.nand) ==> Counts(s'.nand)) && Logical(s') == Logical(s)
  {
    hide Safe, Sane, OpenOk, Counts, Logical, GcScan;
    var s0 := s.(stats := s.stats.(gcCount := s.stats.gcCount + 1));
    CountersIrrelevant(s, s0.stats, s.wal);
    assert s0 == s.(stats := s0.stats, wal := s.wal);
    GcScanKeeps(s0, v, 0, buf);
    var (code, s1) := GcScan(s0, v, 0, buf);
    if code == Ok { EraseStep(s1, v, draw); }
  }

  ghost predicate LoopClean(s: Ftl, passes: seq<Pass>, buf: Page)
    requires s.Shape() && forall i :: 0 <= i < |passes| ==> passes[i].victim < s.Geo().blocks
    decreases passes
  {
    NeedsGc(s.nand) && passes != [] ==>
      && PassClean(s, passes[0].victim, buf)
      && var (code, s1) := GcPass(s, passes[0].victim, passes[0].draw, buf);
         code == Ok ==> LoopClean(s1, passes[1..], buf)
  }

  lemma {:induction false} GcLoopInvisible(s: Ftl, passes: seq<Pass>, noVictim: bool, buf: Page)
    requires Safe(s) && forall i :: 0 <= i < |passes| ==> passes[i].victim < s.Geo().blocks
    requires Counts(s.nand) || LoopClean(s, passes, buf)
    ensures var (end, s') := GcLoop(s, passes, noVictim, buf);
            && Safe(s') && (Counts(s.nand) ==> Counts(s'.nand)) && Logical(s') == Logical(s)
            && (end == Enough ==> !NeedsGc(s'.nand))
    decreases passes
  {
    hide Safe, Sane, OpenOk, Counts, Logical, GcPass, PassClean;
    if NeedsGc(s.nand) && passes != [] {
      GcPassInvisible(s, passes[0].victim, passes[0].draw, buf);
      var (code, s1) := GcPass(s, passes[0].victim, passes[0].draw, buf);
      if code == Ok { GcLoopInvisible(s1, passes[1..], noVictim, buf); }
    }
  }

  // ---- relocation at equal offsets

  /** What moving one page does to the NAND and the tables, when read and program go through. */
  lemma MovePageEffect(s: Ftl, src: nat, dst: nat, p: nat, buf: Page)
    requires s.Shape() && src < s.Geo().blocks && dst < s.Geo().blocks && p < s.Geo().pages && src != dst
    requires Live(s, src, p) && s.nand.blocks[src].state != Bad
    requires s.nand.blocks[dst].state != Bad && !s.nand.IsValid(dst, p)
    ensures var (moved, s', _) := MovePage(s, src, dst, p, buf);
            && moved && s'.wb == s.wb && s'.wp == s.wp
            && s'.rmap == s.rmap[s.Geo().Ppn(dst, p) := s.rmap[s.Geo().Ppn(src, p)]][s.Geo().Ppn(src, p) := INVALID]
            && s'.nand.blocks[dst].state == Used && s'.nand.blocks[src].state != Bad
            && s'.nand.blocks[dst].valid == s.nand.blocks[dst].valid[p := true]
            && s'.nand.blocks[src].valid == s.nand.blocks[src].valid[p := false]
            && (forall i :: 0 <= i < s.Geo().blocks && i != src && i != dst ==> s'.nand.blocks[i] == s.nand.blocks[i])
  {
  }

  lemma MovePageKeeps(s: Ftl, src: nat, dst: nat, p: nat, buf: Page)
    requires Sane(s) && src < s.Geo().blocks && dst < s.Geo().blocks && p < s.Geo().pages && src != dst
    requires Live(s, src, p) && s.nand.blocks[dst].state != Bad && !s.nand.IsValid(dst, p)
    ensures var s' := MovePage(s, src, dst, p, buf).1;
            Sane(s') && (Counts(s.nand) ==> Counts(s'.nand)) && Logical(s') == Logical(s)
  {
    hide Core, Sane, Safe, OpenOk, Logical, Sound, MarkInvalid, PageWrite;
    var from, to := s.Geo().Ppn(src, p), s.Geo().Ppn(dst, p);
    LiveIsSound(s, src, p);
    ReadStep(s, src, p, buf);
    var (_, data, n1) := PageRead(s.nand, src, p, buf);
    var s1 := s.(nand := n1);
    assert n1.blocks[dst].valid == s.nand.blocks[dst].valid;
    ProgramStep(s1, dst, p, data);
    var s2 := s1.(nand := PageWrite(n1, dst, p, data).1);
    var s3 := s2.(stats := s.stats.(nand := s.stats.nand + 1));
    CountersIrrelevant(s2, s3.stats, s.wal);
    RemapStep(s3, s.rmap[from], from, to);
    InvalidateStep(Remap(s3, s.rmap[from], from, to), src, p);
  }

  lemma MovePageFrame(s: Ftl, src: nat, dst: nat, p: nat, buf: Page)
    requires s.Shape() && src < s.Geo().blocks && dst < s.Geo().blocks && p < s.Geo().pages && src != dst
    requires Live(s, src, p) && s.nand.blocks[src].state != Bad
    requires CleanFrom(s.nand, dst, p) && NoneBelow(s, src, p)
    ensures var s' := MovePage(s, src, dst, p, buf).1;
            && CleanFrom(s'.nand, dst, p + 1) && NoneBelow(s', src, p + 1)
            && forall q :: p < q < s.Geo().pages ==> Live(s', src, q) == Live(s, src, q)
  {
    hide MovePage;
    assert !s.nand.IsValid(dst, p);
    MovePageEffect(s, src, dst, p, buf);
  }

  /** The loop: everything live moves, nothing else in the destination becomes valid. */
  lemma {:induction false} MoveLiveKeeps(s: Ftl, src: nat, dst: nat, p: nat, buf: Page)
    requires Sane(s) && src < s.Geo().blocks && dst < s.Geo().blocks && p <= s.Geo().pages && src != dst
    requires CleanFrom(s.nand, dst, p) && NoneBelow(s, src, p)
    ensures var s' := MoveLive(s, src, dst, p, buf).0;
            && Sane(s') && (Counts(s.nand) ==> Counts(s'.nand)) && Logical(s') == Logical(s)
            && s'.wb == s.wb && s'.wp == s.wp
            && NoneBelow(s', src, s.Geo().pages)
            && s'.nand.blocks[dst].state != Bad
            && (forall q :: 0 <= q < s.Geo().pages ==>
                  (s'.nand.IsValid(dst, q) <==> s.nand.IsValid(dst, q) || (p <= q && Live(s, src, q))))
            && (forall q :: 0 <= q < s.Geo().pages && s'.nand.IsValid(src, q) ==> s.nand.IsValid(src, q))
            && (s.nand.blocks[src].state == Bad <==> s'.nand.blocks[src].state == Bad)
            && (forall i :: 0 <= i < s.Geo().blocks && i != src && i != dst ==> s'.nand.blocks[i] == s.nand.blocks[i])
    decreases s.Geo().pages - p
  {
    hide Core, Sane, Safe, Logical, MovePage;
    if p < s.Geo().pages {
      if Live(s, src, p) {
        LiveIsSound(s, src, p);
        assert !s.nand.IsValid(dst, p);
        MovePageKeeps(s, src, dst, p, buf);
        MovePageEffect(s, src, dst, p, buf);
        MovePageFrame(s, src, dst, p, buf);
        var (_, s1, data) := MovePage(s, src, dst, p, buf);
        MoveLiveKeeps(s1, src, dst, p + 1, data);
      } else {
        if !s.nand.IsValid(src, p) { UnmappedUnlessSound(s, src, p); }
        MoveLiveKeeps(s, src, dst, p + 1, buf);
      }
    }
  }

  /** Every live page of `b` sits below the write pointer. */
  ghost predicate LiveBelowPointer(s: Ftl, b: nat)
    requires s.Shape() && b < s.Geo().blocks
  {
    forall p :: s.wp <= p < s.Geo().pages ==> !Live(s, b, p)
  }

  /**
   Relocating a block into a FREE block never skips a live page and changes nothing the host can
   see, even if the source wears out on the final erase; no mapping into the source is left.  It keeps the
   whole invariant exactly if the destination is not the open block or every live page of the
   source lies below the write pointer.  With forged counts the destination has to be clean.
   */
  lemma RelocateKeeps(s: Ftl, src: nat, dst: nat, draw: bool, buf: Page)
    requires Safe(s) && src < s.Geo().blocks && dst < s.Geo().blocks
    requires src != dst && s.nand.blocks[dst].state == Free && (Counts(s.nand) || CleanFrom(s.nand, dst, 0))
    ensures var s' := Relocate(s, src, dst, draw, buf).0;
            && Sane(s') && (Counts(s.nand) ==> Counts(s'.nand))
            && Logical(s') == Logical(s) && NoneBelow(s', src, s.Geo().pages)
            && (Safe(s') <==> dst != s.wb || LiveBelowPointer(s, src))
  {
    hide Sane, Logical, Erase, MoveLive, Live, Counts;
    FreeIsCleanHere(s, dst);
    MoveLiveKeeps(s, src, dst, 0, buf);
    var s1 := MoveLive(s, src, dst, 0, buf).0;
    EraseStep(s1, src, draw);
    EraseElsewhere(s1.nand, src, draw);
    var s' := Relocate(s, src, dst, draw, buf).0;
    assert s'.wb == s.wb && s'.wp == s.wp;
    if dst == s.wb {
      forall p | s.wp <= p < s.Geo().pages
        ensures s'.nand.blocks[dst].valid[p] <==> Live(s, src, p)
      {
        assert s1.nand.IsValid(dst, p) <==> s.nand.IsValid(dst, p) || Live(s, src, p);
      }
    } else {
      OpenElsewhere(s, s1, src, dst);
    }
  }

  lemma OpenElsewhere(s: Ftl, s': Ftl, src: nat, dst: nat)
    requires s.Shape() && OpenOk(s) && s'.Shape() && s'.Geo() == s.Geo() && s'.wb == s.wb && s'.wp == s.wp
    requires src < s.Geo().blocks && dst < s.Geo().blocks && dst != s.wb
    requires s.nand.blocks[src].state == Bad <==> s'.nand.blocks[src].state == Bad
    requires forall q :: 0 <= q < s.Geo().pages && s'.nand.IsValid(src, q) ==> s.nand.IsValid(src, q)
    requires forall i :: 0 <= i < s.Geo().blocks && i != src && i != dst ==> s'.nand.blocks[i] == s.nand.blocks[i]
    ensures OpenOk(s')
  {
    if s.wb == src && s'.nand.blocks[src].state != Bad {
      forall q | s.wp <= q < s.Geo().pages ensures !s'.nand.blocks[src].valid[q] {
        assert s'.nand.IsValid(src, q) ==> s.nand.IsValid(src, q);
      }
    }
  }

  lemma FreeIsCleanHere(s: Ftl, b: nat)
    requires s.Shape() && b < s.Geo().blocks && s.nand.blocks[b].state == Free
    requires Counts(s.nand) || CleanFrom(s.nand, b, 0)
    ensures CleanFrom(s.nand, b, 0)
  {
    if Counts(s.nand) { CleanWhenFree(s.nand.blocks[b]); }
  }

  /** An erase leaves all other blocks alone, and validates nothing. */
  lemma EraseElsewhere(n: Nand, b: nat, draw: bool)
    requires n.Shape() && b < n.geo.blocks
    ensures forall i :: 0 <= i < n.geo.blocks && i != b ==> Erase(n, b, draw).1.blocks[i] == n.blocks[i]
    ensures forall q :: 0 <= q < n.geo.pages && Erase(n, b, draw).1.blocks[b].valid[q] ==> n.blocks[b].valid[q]
    ensures n.blocks[b].state == Bad ==> Erase(n, b, draw).1.blocks[b].state == Bad
  {
  }

  // ---- bad-block replacement

  /** One turn of the copy loop of the NAND layer. */
  lemma CopyTurn(n: Nand, src: nat, dst: nat, p: nat, buf: Page)
    requires n.Shape() && src < n.geo.blocks && dst < n.geo.blocks && p < n.geo.pages && src != dst
    requires n.blocks[src].state != Bad && n.IsValid(src, p) && CleanFrom(n, dst, p)
    ensures var (got, data, n1) := PageRead(n, src, p, buf);
            var (put, n') := PageWrite(n1, dst, p, data);
            && got == Ok && put == Ok && n'.geo == n.geo && CleanFrom(n', dst, p + 1)
            && n'.blocks[dst].valid == n.blocks[dst].valid[p := true]
            && n'.blocks[src].state == n.blocks[src].state && n'.blocks[src].valid == n.blocks[src].valid
            && (forall i :: 0 <= i < n.geo.blocks && i != src && i != dst ==> n'.blocks[i] == n.blocks[i])
            && n'.media == n.media[n.geo.Ppn(dst, p) := Seal(Readout(n.media[n.geo.Ppn(src, p)]))]
  {
  }

  lemma CopyTurnKeeps(s: Ftl, src: nat, dst: nat, p: nat, buf: Page)
    requires Sane(s) && src < s.Geo().blocks && dst < s.Geo().blocks && p < s.Geo().pages && src != dst
    requires s.nand.blocks[src].state != Bad && s.nand.IsValid(src, p) && CleanFrom(s.nand, dst, p)
    ensures var (_, data, n1) := PageRead(s.nand, src, p, buf);
            var s' := s.(nand := PageWrite(n1, dst, p, data).1);
            Sane(s') && (Counts(s.nand) ==> Counts(s'.nand)) && Logical(s') == Logical(s)
  {
    hide Core, Sane, Safe, OpenOk, Logical, Readout;
    ReadCountStep(s, src, p, buf);
    var (_, data, n1) := PageRead(s.nand, src, p, buf);
    ProgramStep(s.(nand := n1), dst, p, data);
  }

  /** What the copy loop of the NAND layer leaves in the destination. */
  lemma {:induction false} CopyValidEffect(n: Nand, src: nat, dst: nat, p: nat, buf: Page)
    requires n.Shape() && src < n.geo.blocks && dst < n.geo.blocks && p <= n.geo.pages && src != dst
    requires n.blocks[src].state != Bad && CleanFrom(n, dst, p)
    ensures var n' := CopyValid(n, src, dst, p, buf);
            && n'.blocks[dst].state != Bad && n'.blocks[src].state == n.blocks[src].state
            && n'.blocks[src].valid == n.blocks[src].valid
            && (forall q :: 0 <= q < n.geo.pages ==>
                  (n'.blocks[dst].valid[q] <==> n.blocks[dst].valid[q] || (p <= q && n.blocks[src].valid[q])))
            && (forall i :: 0 <= i < n.geo.blocks && i != src && i != dst ==> n'.blocks[i] == n.blocks[i])
    decreases n.geo.pages - p
  {
    hide PageRead, PageWrite;
    if p < n.geo.pages {
      if n.IsValid(src, p) {
        CopyTurn(n, src, dst, p, buf);
        var (_, data, n1) := PageRead(n, src, p, buf);
        CopyValidEffect(PageWrite(n1, dst, p, data).1, src, dst, p + 1, data);
      } else {
        CopyValidEffect(n, src, dst, p + 1, buf);
      }
    }
  }

  /** Page for page the destination ends up with what reading the source delivers. */
  lemma {:induction false} CopyValidMedia(n: Nand, src: nat, dst: nat, p: nat, buf: Page)
    requires n.Shape() && src < n.geo.blocks && dst < n.geo.blocks && p <= n.geo.pages && src != dst
    requires n.blocks[src].state != Bad && CleanFrom(n, dst, p)
    ensures var n' := CopyValid(n, src, dst, p, buf);
            && (forall q :: 0 <= q < n.geo.pages ==> n'.media[n.geo.Ppn(src, q)] == n.media[n.geo.Ppn(src, q)])
            && (forall q :: 0 <= q < p ==> n'.media[n.geo.Ppn(dst, q)] == n.media[n.geo.Ppn(dst, q)])
            && (forall q :: p <= q < n.geo.pages && n.IsValid(src, q) ==>
                  n'.media[n.geo.Ppn(dst, q)] == Seal(Readout(n.media[n.geo.Ppn(src, q)])))
    decreases n.geo.pages - p
  {
    hide Seal, Readout, PageRead, PageWrite;
    if p < n.geo.pages {
      if n.IsValid(src, p) {
        CopyTurn(n, src, dst, p, buf);
        var (_, data, n1) := PageRead(n, src, p, buf);
        CopyValidMedia(PageWrite(n1, dst, p, data).1, src, dst, p + 1, data);
      } else {
        CopyValidMedia(n, src, dst, p + 1, buf);
      }
    }
  }

  lemma {:induction false} CopyValidKeeps(s: Ftl, src: nat, dst: nat, p: nat, buf: Page)
    requires Sane(s) && src < s.Geo().blocks && dst < s.Geo().blocks && p <= s.Geo().pages && src != dst
    requires s.nand.blocks[src].state != Bad && CleanFrom(s.nand, dst, p)
    ensures var s' := s.(nand := CopyValid(s.nand, src, dst, p, buf));
            Sane(s') && (Counts(s.nand) ==> Counts(s'.nand)) && Logical(s') == Logical(s)
    decreases s.Geo().pages - p
  {
    hide Core, Sane, Safe, Logical, PageRead, PageWrite;
    if p < s.Geo().pages {
      if s.nand.IsValid(src, p) {
        CopyTurn(s.nand, src, dst, p, buf);
        CopyTurnKeeps(s, src, dst, p, buf);
        var (_, data, n1) := PageRead(s.nand, src, p, buf);
        CopyValidKeeps(s.(nand := PageWrite(n1, dst, p, data).1), src, dst, p + 1, data);
      } else {
        CopyValidKeeps(s, src, dst, p + 1, buf);
      }
    }
  }

  /** Reading any valid page, owned or not, only bumps a read counter. */
  lemma ReadCountStep(s: Ftl, b: nat, p: nat, buf: Page)
    requires Sane(s) && b < s.Geo().blocks && p < s.Geo().pages
    requires s.nand.IsValid(b, p) && s.nand.blocks[b].state != Bad
    ensures var (code, data, n) := PageRead(s.nand, b, p, buf);
            && code == Ok && data == Readout(s.nand.media[s.Geo().Ppn(b, p)])
            && Sane(s.(nand := n)) && (Counts(s.nand) ==> Counts(n)) && Logical(s.(nand := n)) == Logical(s)
            && n == s.nand.(blocks := n.blocks)
            && forall i :: 0 <= i < |n.blocks| ==>
                n.blocks[i] == s.nand.blocks[i].(readCount := n.blocks[i].readCount)
                && (i != b ==> n.blocks[i] == s.nand.blocks[i])
  {
    var n := PageRead(s.nand, b, p, buf).2;
    assert forall q :: 0 <= q < |s.rmap| && s.rmap[q] != INVALID && Sound(s.nand, q) ==> Sound(n, q);
    assert Logical(s.(nand := n)) == Logical(s);
  }

  /** `dst` holds, page for page, an unowned sound copy of what is mapped in `src` from `p` on. */
  ghost predicate Copied(s: Ftl, src: nat, dst: nat, p: nat)
    requires s.Shape() && src < s.Geo().blocks && dst < s.Geo().blocks && p <= s.Geo().pages
  {
    forall q :: p <= q < s.Geo().pages && s.rmap[s.Geo().Ppn(src, q)] != INVALID ==>
      && s.rmap[s.Geo().Ppn(dst, q)] == INVALID
      && Sound(s.nand, s.Geo().Ppn(dst, q))
      && s.nand.media[s.Geo().Ppn(dst, q)].data == s.nand.media[s.Geo().Ppn(src, q)].data
  }

  lemma {:induction false} RemapBlockKeeps(s: Ftl, src: nat, dst: nat, p: nat)
    requires Sane(s) && src < s.Geo().blocks && dst < s.Geo().blocks && p <= s.Geo().pages && src != dst
    requires NoneBelow(s, src, p) && Copied(s, src, dst, p)
    ensures var s' := RemapBlock(s, src, dst, p).0;
            && Sane(s') && (Counts(s.nand) ==> Counts(s'.nand))
            && Logical(s') == Logical(s) && NoneBelow(s', src, s.Geo().pages)
    decreases s.Geo().pages - p
  {
    hide Core, Sane, Safe, OpenOk, Logical, Sound;
    if p < s.Geo().pages {
      var from, to := s.Geo().Ppn(src, p), s.Geo().Ppn(dst, p);
      if s.rmap[from] == INVALID {
        RemapBlockKeeps(s, src, dst, p + 1);
      } else {
        RemapStep(s, s.rmap[from], from, to);
        RemapBlockKeeps(Remap(s, s.rmap[from], from, to), src, dst, p + 1);
      }
    }
  }

  /** The remapping loop looks at nothing but the tables. */
  lemma {:induction false} RemapBlockTablesOnly(s: Ftl, n: Nand, src: nat, dst: nat, p: nat)
    requires s.Shape() && n.Shape() && n.geo == s.Geo()
    requires src < s.Geo().blocks && dst < s.Geo().blocks && p <= s.Geo().pages
    ensures var (s1, k1) := RemapBlock(s, src, dst, p);
            var (s2, k2) := RemapBlock(s.(nand := n), src, dst, p);
            k1 == k2 && s2 == s1.(nand := n)
    decreases s.Geo().pages - p
  {
    if p < s.Geo().pages {
      var from := s.Geo().Ppn(src, p);
      if s.rmap[from] == INVALID {
        RemapBlockTablesOnly(s, n, src, dst, p + 1);
      } else {
        var s1 := Remap(s, s.rmap[from], from, s.Geo().Ppn(dst, p));
        assert Remap(s.(nand := n), s.rmap[from], from, s.Geo().Ppn(dst, p)) == s1.(nand := n);
        RemapBlockTablesOnly(s1, n, src, dst, p + 1);
      }
    }
  }

  lemma {:induction false} RemapBlockNothing(s: Ftl, src: nat, dst: nat, p: nat)
    requires s.Shape() && src < s.Geo().blocks && dst < s.Geo().blocks && p <= s.Geo().pages
    requires NoneBelow(s, src, s.Geo().pages)
    ensures RemapBlock(s, src, dst, p) == (s, 0)
    decreases s.Geo().pages - p
  {
    if p < s.Geo().pages {
      assert s.rmap[s.Geo().Ppn(src, p)] == INVALID;
      RemapBlockNothing(s, src, dst, p + 1);
    }
  }

  lemma MarkBadEffect(n: Nand, b: nat)
    requires n.Shape() && b < n.geo.blocks
    ensures forall i :: 0 <= i < n.geo.blocks && i != b ==> MarkBad(n, b).blocks[i] == n.blocks[i]
  {
  }

  lemma MarkBadStep(s: Ftl, b: nat)
    requires Sane(s) && b < s.Geo().blocks && NoneBelow(s, b, s.Geo().pages)
    ensures var s' := s.(nand := MarkBad(s.nand, b));
            && Sane(s') && (Counts(s.nand) ==> Counts(s'.nand))
            && Logical(s') == Logical(s) && NoneBelow(s', b, s.Geo().pages)
  {
    var n := MarkBad(s.nand, b);
    forall q | 0 <= q < |s.rmap| && s.rmap[q] != INVALID
      ensures Sound(n, q)
    {
      assert Sound(s.nand, q);
      s.Geo().PpnOfParts(q);
    }
    assert Logical(s.(nand := n)) == Logical(s);
  }

  /** The replacement block ftl_replace_bad_block would take. */
  function Spare(n: Nand): Option<nat>
    requires n.Shape()
  {
    AllocReserved(n).0
  }

  /** Every valid page of `b` sits below the write pointer. */
  ghost predicate ValidBelowPointer(s: Ftl, b: nat)
    requires s.Shape() && b < s.Geo().blocks
  {
    forall p :: s.wp <= p < s.Geo().pages ==> !s.nand.blocks[b].valid[p]
  }

  /** When a replacement can disturb the write pointer: the spare is the open block. */
  ghost predicate SpareHarmless(s: Ftl, b: nat)
    requires s.Shape() && b < s.Geo().blocks
  {
    Spare(s.nand) == Some(s.wb) && s.nand.blocks[b].state == Used ==> ValidBelowPointer(s, b)
  }

  /** Nothing is valid in the block a replacement would take. */
  ghost predicate SpareClean(s: Ftl)
    requires s.Shape()
  {
    Spare(s.nand).Some? ==> CleanFrom(s.nand, Spare(s.nand).value, 0)
  }

  lemma SpareIsClean(s: Ftl)
    requires s.Shape() && Spare(s.nand).Some? && (Counts(s.nand) || SpareClean(s))
    ensures var dst := Spare(s.nand).value;
            dst < s.Geo().blocks && s.nand.blocks[dst].state == Free && CleanFrom(s.nand, dst, 0)
  {
    FreeIsCleanHere(s, Spare(s.nand).value);
  }

  /** ftl_replace_bad_block on a USED block, in one line. */
  lemma ReplaceUsedUnfolds(s: Ftl, b: nat, buf: Page)
    requires s.Shape() && b < s.Geo().blocks && s.nand.blocks[b].state == Used && Spare(s.nand).Some?
    requires CleanFrom(s.nand, Spare(s.nand).value, 0)
    ensures var dst := Spare(s.nand).value;
            var (code, s') := ReplaceBlock(s, b, buf);
            var n2 := CopyValid(AllocReserved(s.nand).1, b, dst, 0, buf);
            var s3 := RemapBlock(s.(nand := n2), b, dst, 0).0;
            && dst != b && code == Ok
            && s' == s3.(nand := MarkBad(n2, b), stats := s'.stats, wb := if s.wb == b then dst else s.wb)
  {
    hide MarkBad, CopyValid, RemapBlock, FirstFree;
    var dst := Spare(s.nand).value;
    var n1 := AllocReserved(s.nand).1;
    CopyValidEffect(n1, b, dst, 0, buf);
    var n2 := CopyValid(n1, b, dst, 0, buf);
    RemapBlockTablesOnly(s.(nand := n2), MarkBad(n2, b), b, dst, 0);
  }

  lemma ReplaceUsedContent(s: Ftl, b: nat, buf: Page)
    requires Sane(s) && b < s.Geo().blocks && s.nand.blocks[b].state == Used && Spare(s.nand).Some?
    requires Counts(s.nand) || SpareClean(s)
    ensures var (code, s') := ReplaceBlock(s, b, buf);
            && code == Ok && Sane(s') && (Counts(s.nand) ==> Counts(s'.nand))
            && Logical(s') == Logical(s) && NoneBelow(s', b, s.Geo().pages)
  {
    hide Sane, OpenOk, Counts, Logical, Sound, CopyValid, MarkBad, RemapBlock, Copied, NoneBelow, FirstFree;
    hide ReplaceBlock, SpareClean;
    var n1 := AllocReserved(s.nand).1;
    var dst := Spare(s.nand).value;
    SpareIsClean(s);
    ReplaceUsedUnfolds(s, b, buf);
    ReserveStep(s);
    var s1 := s.(nand := n1);
    CleanIsUnowned(s1, dst);
    NothingBelow(s1, b);
    CopyValidKeeps(s1, b, dst, 0, buf);
    CopyIsCopied(s1, b, dst, buf);
    var n2 := CopyValid(n1, b, dst, 0, buf);
    RemapBlockKeeps(s.(nand := n2), b, dst, 0);
    var s3 := RemapBlock(s.(nand := n2), b, dst, 0).0;
    MarkBadStep(s3, b);
    var s' := ReplaceBlock(s, b, buf).1;
    PointerIrrelevant(s3.(nand := MarkBad(n2, b)), s'.wb, s'.stats);
  }

  lemma NothingBelow(s: Ftl, b: nat)
    requires s.Shape() && b < s.Geo().blocks
    ensures NoneBelow(s, b, 0)
  {
  }

  lemma ReplaceUsed(s: Ftl, b: nat, buf: Page)
    requires Safe(s) && b < s.Geo().blocks && s.nand.blocks[b].state == Used && Spare(s.nand).Some?
    requires Counts(s.nand) || SpareClean(s)
    ensures var (code, s') := ReplaceBlock(s, b, buf);
            && code == Ok && Sane(s') && (Counts(s.nand) ==> Counts(s'.nand))
            && Logical(s') == Logical(s) && NoneBelow(s', b, s.Geo().pages)
            && (OpenOk(s') <==> SpareHarmless(s, b))
  {
    hide Sane, Safe, OpenOk, Counts, Logical, SpareHarmless, CopyValid, MarkBad, RemapBlock, NoneBelow, FirstFree;
    hide ReplaceBlock, SpareClean;
    var n1 := AllocReserved(s.nand).1;
    var dst := Spare(s.nand).value;
    SpareIsClean(s);
    ReplaceUsedUnfolds(s, b, buf);
    ReplaceUsedContent(s, b, buf);
    CopyValidEffect(n1, b, dst, 0, buf);
    MarkBadEffect(CopyValid(n1, b, dst, 0, buf), b);
    OpenAfterReplace(s, ReplaceBlock(s, b, buf).1, b, dst);
  }

  lemma ReserveStep(s: Ftl)
    requires Sane(s)
    ensures var s' := s.(nand := AllocReserved(s.nand).1);
            Sane(s') && (Counts(s.nand) ==> Counts(s'.nand)) && Logical(s') == Logical(s)
  {
    var n := AllocReserved(s.nand).1;
    assert forall q :: 0 <= q < |s.rmap| && s.rmap[q] != INVALID && Sound(s.nand, q) ==> Sound(n, q);
    assert Logical(s.(nand := n)) == Logical(s);
  }

  /** A clean block owns nothing. */
  lemma CleanIsUnowned(s: Ftl, b: nat)
    requires Sane(s) && b < s.Geo().blocks && CleanFrom(s.nand, b, 0)
    ensures forall q :: 0 <= q < s.Geo().pages ==> s.rmap[s.Geo().Ppn(b, q)] == INVALID
  {
    forall q | 0 <= q < s.Geo().pages ensures s.rmap[s.Geo().Ppn(b, q)] == INVALID {
      UnmappedUnlessSound(s, b, q);
    }
  }

  lemma FreeIsClean(s: Ftl, b: nat)
    requires Core(s) && b < s.Geo().blocks && s.nand.blocks[b].state == Free
    ensures CleanFrom(s.nand, b, 0)
    ensures forall q :: 0 <= q < s.Geo().pages ==> s.rmap[s.Geo().Ppn(b, q)] == INVALID
    ensures NoneBelow(s, b, 0)
  {
    FreeIsCleanHere(s, b);
    CleanIsUnowned(s, b);
  }

  /** Neither the write pointer nor the counters matter to the tables. */
  lemma PointerIrrelevant(s: Ftl, wb: nat, stats: Stats)
    requires Sane(s) && wb < s.Geo().blocks
    ensures var s' := s.(wb := wb, stats := stats);
            Sane(s') && (Counts(s.nand) ==> Counts(s'.nand)) && Logical(s') == Logical(s)
            && forall b, p :: 0 <= b < s.Geo().blocks && 0 <= p <= s.Geo().pages ==>
                 NoneBelow(s, b, p) == NoneBelow(s', b, p)
  {
    assert Logical(s.(wb := wb, stats := stats)) == Logical(s);
  }

  lemma CopyIsCopied(s: Ftl, src: nat, dst: nat, buf: Page)
    requires Sane(s) && src < s.Geo().blocks && dst < s.Geo().blocks && src != dst
    requires s.nand.blocks[src].state == Used && CleanFrom(s.nand, dst, 0)
    ensures var s' := s.(nand := CopyValid(s.nand, src, dst, 0, buf));
            Copied(s', src, dst, 0) && NoneBelow(s', src, 0)
  {
    hide Logical, CopyValid, Inverses, Seal, Readout;
    CleanIsUnowned(s, dst);
    CopyValidEffect(s.nand, src, dst, 0, buf);
    CopyValidMedia(s.nand, src, dst, 0, buf);
    var n := CopyValid(s.nand, src, dst, 0, buf);
    forall q | 0 <= q < s.Geo().pages && s.rmap[s.Geo().Ppn(src, q)] != INVALID
      ensures Sound(n, s.Geo().Ppn(dst, q))
      ensures n.media[s.Geo().Ppn(dst, q)].data == n.media[s.Geo().Ppn(src, q)].data
    {
      var from := s.Geo().Ppn(src, q);
      assert Sound(s.nand, from);
      ReadoutSealed(s.nand.media[from]);
      assert s.nand.IsValid(src, q);
      assert n.blocks[dst].valid[q];
    }
  }

  lemma OpenAfterReplace(s: Ftl, s': Ftl, b: nat, dst: nat)
    requires s.Shape() && OpenOk(s) && s'.Shape() && s'.Geo() == s.Geo() && b < s.Geo().blocks && dst < s.Geo().blocks
    requires s.nand.blocks[b].state == Used && Spare(s.nand) == Some(dst) && s.nand.blocks[dst].state == Free
    requires s'.wp == s.wp && s'.wb == if s.wb == b then dst else s.wb
    requires s'.nand.blocks[dst].state != Bad
    requires forall i :: 0 <= i < s.Geo().blocks && i != b && i != dst ==> s'.nand.blocks[i] == s.nand.blocks[i]
    requires forall q :: 0 <= q < s.Geo().pages ==> s'.nand.blocks[dst].valid[q] == s.nand.blocks[b].valid[q]
    ensures OpenOk(s') <==> SpareHarmless(s, b)
  {
  }

  lemma ReplaceBad(s: Ftl, b: nat, buf: Page)
    requires Safe(s) && b < s.Geo().blocks && s.nand.blocks[b].state == Bad && Spare(s.nand).Some?
    requires Counts(s.nand) || SpareClean(s)
    ensures var (code, s') := ReplaceBlock(s, b, buf);
            && code == Ok && Safe(s') && (Counts(s.nand) ==> Counts(s'.nand)) && Logical(s') == Logical(s)
            && s'.wb == (if s.wb == b then Spare(s.nand).value else s.wb) && s'.wp == s.wp
            && s'.nand == s.nand.(reservedLeft := s'.nand.reservedLeft)
  {
    hide Sane, Counts, Logical, SpareClean;
    var n1 := AllocReserved(s.nand).1;
    var dst := Spare(s.nand).value;
    SpareIsClean(s);
    CopyFromBad(n1, b, dst, 0, buf);
    ReserveStep(s);
    BadOwnsNothing(s, b);
    var s1 := s.(nand := n1);
    RemapBlockNothing(s1, b, dst, 0);
    PointerIrrelevant(s1, ReplaceBlock(s, b, buf).1.wb, ReplaceBlock(s, b, buf).1.stats);
  }

  lemma BadOwnsNothing(s: Ftl, b: nat)
    requires Sane(s) && b < s.Geo().blocks && s.nand.blocks[b].state == Bad
    ensures NoneBelow(s, b, s.Geo().pages)
  {
    forall q | 0 <= q < s.Geo().pages ensures s.rmap[s.Geo().Ppn(b, q)] == INVALID {
      UnmappedUnlessSound(s, b, q);
    }
  }

  lemma {:induction false} CopyFromBad(n: Nand, src: nat, dst: nat, p: nat, buf: Page)
    requires n.Shape() && src < n.geo.blocks && dst < n.geo.blocks && p <= n.geo.pages
    requires n.blocks[src].state == Bad
    ensures CopyValid(n, src, dst, p, buf) == n
    decreases n.geo.pages - p
  {
    if p < n.geo.pages { CopyFromBad(n, src, dst, p + 1, buf); }
  }

  /**
   Replacing any block, used or already bad, is invisible to the host and leaves no mapping into
   the replaced block.  The whole invariant survives exactly if the spare is not the open block,
   or nothing valid of the replaced block sits at or above the write pointer.  With forged counts the
   spare has to be clean.
   */
  lemma ReplaceBlockKeeps(s: Ftl, b: nat, buf: Page)
    requires Safe(s) && (Counts(s.nand) || SpareClean(s))
    ensures var (code, s') := ReplaceBlock(s, b, buf);
            && Sane(s') && (Counts(s.nand) ==> Counts(s'.nand)) && Logical(s') == Logical(s)
            && (code == Ok <==> b < s.Geo().blocks && s.nand.blocks[b].state != Free && Spare(s.nand).Some?)
            && (code == Ok ==> NoneBelow(s', b, s.Geo().pages))
            && (Safe(s') <==> code == Ok ==> SpareHarmless(s, b))
  {
    hide Sane, Counts, Logical, SpareClean, CopyValid, RemapBlock, FirstFree, OpenOk;
    if b < s.Geo().blocks && s.nand.blocks[b].state != Free && Spare(s.nand).Some? {
      if s.nand.blocks[b].state == Used {
        ReplaceUsed(s, b, buf);
      } else {
        ReplaceBad(s, b, buf);
        BadOwnsNothing(ReplaceBlock(s, b, buf).1, b);
      }
    } else {
      assert ReplaceBlock(s, b, buf).1 == s;
    }
  }
}
