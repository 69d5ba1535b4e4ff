/** The FTL as the source has it: tables and write pointer updated in place over a NAND device. */
module FtlDevice {
  import opened Common
  import opened Layout
  import opened NandModel
  import opened NandDevice
  import opened WalModel
  import opened FtlModel
  import opened Victims
  import FtlErase

  class FtlDevice {
    const nand: NandDevice
    const l2p: array<nat>
    const rmap: array<nat>
    var wb: nat
    var wp: nat
    var stats: Stats
    var wal: Option<Wal>

    ghost function View(): Ftl
      reads this, l2p, rmap, nand, nand.blocks, nand.media
    {
      Ftl(nand.View(), l2p[..], rmap[..], wb, wp, stats, wal)
    }

    ghost predicate Valid()
      reads this, l2p, rmap, nand, nand.blocks, nand.media
    {
      l2p != rmap && View().Shape()
    }

    /** The part of ftl_init that follows the search for the first free block. */
    constructor (nand: NandDevice, first: nat)
      requires nand.Valid() && first < nand.geo.blocks
      ensures this.nand == nand && fresh(l2p) && fresh(rmap) && Valid()
      ensures View() == Ftl(nand.View(), seq(nand.geo.lpns, _ => INVALID), seq(nand.geo.Total(), _ => INVALID),
                            first, 0, NO_STATS, None)
    {
      this.nand := nand;
      l2p := new nat[nand.geo.lpns](_ => INVALID);
      rmap := new nat[nand.geo.Total()](_ => INVALID);
      wb, wp, stats, wal := first, 0, NO_STATS, None;
      new;
      assert l2p[..] == seq(nand.geo.lpns, _ => INVALID);
      assert rmap[..] == seq(nand.geo.Total(), _ => INVALID);
    }

    /** ftl_init: refuses a NAND without a free user block. */
    static method Start(nand: NandDevice) returns (code: RetCode, d: FtlDevice?)
      requires nand.Valid()
      ensures code == if Init(nand.View()).None? then NoSpace else Ok
      ensures d == null <==> code != Ok
      ensures d != null ==> fresh(d) && d.nand == nand && fresh(d.l2p) && fresh(d.rmap)
                            && d.Valid() && Init(nand.View()) == Some(d.View())
    {
      d := null;
      for i := 0 to nand.geo.User()
        invariant FirstFree(nand.blocks[..], 0, nand.geo.User()) == FirstFree(nand.blocks[..], i, nand.geo.User())
      {
        if nand.blocks[i].state == Free {
          d := new FtlDevice(nand, i);
          return Ok, d;
        }
      }
      code := NoSpace;
    }

    /** ftl_find_next_free_block. */
    method FindNextFree(start: nat) returns (got: Option<nat>)
      requires Valid() && start <= nand.geo.blocks
      ensures got == NextFree(View().nand, start)
    {
      if start < nand.geo.User() {
        for i := start to nand.geo.User()
          invariant FirstFree(nand.blocks[..], start, nand.geo.User()) == FirstFree(nand.blocks[..], i, nand.geo.User())
        {
          if nand.blocks[i].state == Free { return Some(i); }
        }
      }
      for i := 0 to start
        invariant FirstFree(nand.blocks[..], 0, start) == FirstFree(nand.blocks[..], i, start)
      {
        if nand.blocks[i].state == Free { return Some(i); }
      }
      got := None;
    }

    /** ftl_alloc_phy_page. */
    method AllocPage() returns (slot: Option<nat>)
      requires Valid()
      modifies `wb, `wp
      ensures Valid()
      ensures (slot, View()) == Alloc(old(View()))
    {
      if wp < nand.geo.pages {
        slot := Some(nand.geo.Ppn(wb, wp));
        wp := wp + 1;
        return;
      }
      var next := FindNextFree(wb + 1);
      if next.None? { return None; }
      wb, wp := next.value, 1;
      slot := Some(nand.geo.Ppn(wb, 0));
    }

    /** The table updates of a relocation. */
    method Move(lpn: nat, from: nat, to: nat)
      requires Valid() && lpn < l2p.Length && from < rmap.Length && to < rmap.Length
      modifies l2p, rmap
      ensures Valid()
      ensures View() == Remap(old(View()), lpn, from, to)
    {
      l2p[lpn] := to;
      rmap[to] := lpn;
      rmap[from] := INVALID;
      assert l2p[..] == old(l2p[..])[lpn := to];
      assert rmap[..] == old(rmap[..])[to := lpn][from := INVALID];
    }

    // ---- victim selection

    /** The scan of gc_select_greedy, also run over its window by gc_select_windowed. */
    method LeastValid(lo: nat, hi: nat) returns (got: Option<nat>)
      requires Valid() && lo <= hi <= nand.geo.blocks
      ensures got.Some? ==> IsLeast(View().nand, lo, hi, got.value)
      ensures got.None? <==>
              forall i :: lo <= i < hi && View().nand.blocks[i].state == Used ==>
                nand.geo.pages < View().nand.blocks[i].count
    {
      got := None;
      var min := nand.geo.pages + 1;
      for i := lo to hi
        invariant got.None? ==> min == nand.geo.pages + 1
        invariant got.Some? ==>
                    IsLeast(View().nand, lo, i, got.value) && min == nand.blocks[got.value].count <= nand.geo.pages
        invariant forall j :: lo <= j < i && nand.blocks[j].state == Used ==> min <= nand.blocks[j].count
      {
        if nand.blocks[i].state == Used && nand.blocks[i].count < min {
          min, got := nand.blocks[i].count, Some(i);
        }
      }
    }

    /** gc_select_cost_benefit. */
    method SelectCostBenefit() returns (got: Option<nat>)
      requires Valid()
      ensures got.Some? ==> MayChoose(View(), CostBenefit, got.value)
      ensures got.None? <==> !UsedIn(View().nand, 0, nand.geo.User())
    {
      got := BestScore(b => CostBenefitScore(nand.geo.pages, b));
    }

    /** gc_select_cat: first the largest erase count, then the scores. */
    method SelectCat() returns (got: Option<nat>)
      requires Valid()
      ensures got.Some? ==> MayChoose(View(), Cat, got.value)
      ensures got.None? <==> !UsedIn(View().nand, 0, nand.geo.User())
    {
      var oldest := 0;
      for i := 0 to nand.geo.User()
        invariant oldest == MostErased(nand.blocks[..], i)
      {
        if nand.blocks[i].state == Used && oldest < nand.blocks[i].erases {
          oldest := nand.blocks[i].erases;
        }
      }
      got := BestScore(b => CatScore(nand.geo.pages, oldest, b));
    }

    /** The scoring loop of the cost-benefit and CAT selectors: first block with the highest score. */
    method BestScore(score: Block -> real) returns (got: Option<nat>)
      requires Valid() && forall b :: 0.0 <= score(b)
      ensures got.Some? ==> IsBest(View().nand, score, got.value)
      ensures got.None? <==> !UsedIn(View().nand, 0, nand.geo.User())
    {
      got := None;
      var max := -1.0;
      for i := 0 to nand.geo.User()
        invariant got.None? ==> max == -1.0 && forall j :: 0 <= j < i ==> nand.blocks[j].state != Used
        invariant got.Some? ==>
                    && got.value < i && nand.blocks[got.value].state == Used && max == score(nand.blocks[got.value])
                    && forall j :: 0 <= j < got.value && nand.blocks[j].state == Used ==> score(nand.blocks[j]) < max
        invariant forall j :: 0 <= j < i && nand.blocks[j].state == Used ==> score(nand.blocks[j]) <= max
      {
        if nand.blocks[i].state == Used && max < score(nand.blocks[i]) {
          max, got := score(nand.blocks[i]), Some(i);
        }
      }
    }

    /** gc_select_windowed: least valid block of the window, else greedy. */
    method SelectWindowed() returns (got: Option<nat>)
      requires Valid()
      ensures got.Some? ==> got.value < nand.geo.blocks && View().nand.blocks[got.value].state == Used
      ensures CountsFit(View().nand) && got.Some? ==> MayChoose(View(), Windowed, got.value)
      ensures CountsFit(View().nand) && UsedIn(View().nand, 0, nand.geo.User()) ==> got.Some?
    {
      got := LeastValid(WindowStart(wb), wb + 1);
      if got.None? { got := LeastValid(0, nand.geo.User()); }
    }

    /** The rounds of gc_select_d_choices over the USED blocks. */
    method DrawLeast(used: seq<nat>) returns (got: Option<nat>)
      requires Valid() && used != [] && used == UsedList(nand.blocks[..], nand.geo.User())
      ensures got.Some? ==> IsDrawn(View().nand, stats.gcCount, got.value)
      ensures CountsFit(View().nand) ==> got.Some?
    {
      hide UsedList, Candidate;
      got := None;
      var min := nand.geo.pages + 1;
      for i := 0 to CHOICES
        invariant CountsFit(View().nand) && 0 < i ==> got.Some?
        invariant got.Some? ==> got.value < nand.blocks.Length && min == nand.blocks[got.value].count
                                && exists j :: 0 <= j < i && got.value == Candidate(stats.gcCount, used, j)
        invariant got.None? ==> min == nand.geo.pages + 1
        invariant forall j :: 0 <= j < i ==> min <= nand.blocks[Candidate(stats.gcCount, used, j)].count
      {
        var block := Candidate(stats.gcCount, used, i);
        if nand.blocks[block].count < min {
          min, got := nand.blocks[block].count, Some(block);
        }
      }
    }

    /** gc_select_d_choices: collect the USED blocks, draw candidates, keep the least valid one. */
    method SelectDChoices() returns (got: Option<nat>)
      requires Valid()
      ensures got.Some? ==> MayChoose(View(), DChoices, got.value)
      ensures CountsFit(View().nand) && UsedIn(View().nand, 0, nand.geo.User()) ==> got.Some?
    {
      hide IsDrawn, IsLeast;
      var used: seq<nat> := [];
      for i := 0 to nand.geo.User()
        invariant used == UsedList(nand.blocks[..], i)
      {
        if nand.blocks[i].state == Used { used := used + [i]; }
      }
      if |used| == 0 { return None; }
      if |used| < CHOICES {
        got := LeastValid(0, nand.geo.User());
        return;
      }
      got := DrawLeast(used);
    }

    /** gc_select_fra: the first USED block without valid pages, else greedy. */
    method SelectFra() returns (got: Option<nat>)
      requires Valid()
      ensures got.Some? ==> MayChoose(View(), Fra, got.value)
      ensures CountsFit(View().nand) && UsedIn(View().nand, 0, nand.geo.User()) ==> got.Some?
    {
      for i := 0 to nand.geo.User()
        invariant forall j :: 0 <= j < i && nand.blocks[j].state == Used ==> nand.blocks[j].count != 0
      {
        if nand.blocks[i].state == Used && nand.blocks[i].count == 0 { return Some(i); }
      }
      got := LeastValid(0, nand.geo.User());
    }

    /** gc_select_victim_block: every selector returns a USED block, and finds one whenever the user region has one. */
    method SelectVictim(a: Algorithm) returns (got: Option<nat>)
      requires Valid()
      ensures got.Some? ==> got.value < nand.geo.blocks && View().nand.blocks[got.value].state == Used
      ensures CountsFit(View().nand) && got.Some? ==> MayChoose(View(), a, got.value)
      ensures CountsFit(View().nand) && UsedIn(View().nand, 0, nand.geo.User()) ==> got.Some?
    {
      match a
      case Greedy => got := LeastValid(0, nand.geo.User());
      case CostBenefit => got := SelectCostBenefit();
      case Cat => got := SelectCat();
      case Windowed => got := SelectWindowed();
      case DChoices => got := SelectDChoices();
      case Fra => got := SelectFra();
      if got.Some? && a != Windowed { ChoiceIsUsed(View(), a, got.value); }
    }

    // ---- relocation

    /** The loop body of gc_do_recycle for one live page. */
    method EvacuatePage(v: nat, p: nat, buf: Page) returns (code: RetCode, page: Page)
      requires Valid() && v < nand.geo.blocks && p < nand.geo.pages
      requires rmap[nand.geo.Ppn(v, p)] != INVALID
      modifies this, l2p, rmap, nand, nand.blocks, nand.media
      ensures Valid()
      ensures (code, View(), page) == GcMove(old(View()), v, p, buf)
    {
      hide NandModel.PageRead, NandModel.PageWrite, Alloc;
      var from := nand.geo.Ppn(v, p);
      var lpn := rmap[from];
      var got;
      got, page := nand.PageRead(v, p, buf);
      var slot := AllocPage();
      if slot.None? { return NoSpace, page; }
      var put := nand.PageWrite(nand.geo.BlockOf(slot.value), nand.geo.PageOf(slot.value), page);
      if put != Ok { return Internal, page; }
      stats := stats.(nand := stats.nand + 1, gcMoved := stats.gcMoved + 1);
      Move(lpn, from, slot.value);
      code := Ok;
    }

    /** The scan of gc_do_recycle over its victim. */
    method ScanVictim(v: nat, buf: Page) returns (code: RetCode)
      requires Valid() && v < nand.geo.blocks
      modifies this, l2p, rmap, nand, nand.blocks, nand.media
      ensures Valid()
      ensures (code, View()) == GcScan(old(View()), v, 0, buf)
    {
      hide GcMove;
      var page := buf;
      for p := 0 to nand.geo.pages
        invariant Valid() && GcScan(View(), v, p, page) == GcScan(old(View()), v, 0, buf)
      {
        if nand.blocks[v].valid[p] && rmap[nand.geo.Ppn(v, p)] != INVALID {
          var moved;
          moved, page := EvacuatePage(v, p, page);
          if moved != Ok { return moved; }
        }
      }
      code := Ok;
    }

    /** gc_do_recycle on a chosen victim. */
    method Recycle(v: nat, draw: bool, buf: Page) returns (code: RetCode)
      requires Valid() && v < nand.geo.blocks
      modifies this, l2p, rmap, nand, nand.blocks, nand.media
      ensures Valid()
      ensures (code, View()) == GcPass(old(View()), v, draw, buf)
    {
      stats := stats.(gcCount := stats.gcCount + 1);
      code := ScanVictim(v, buf);
      if code == Ok {
        code := nand.Erase(v, draw);
      }
    }

    /** The body of the equal-offset relocation loop for one live page. */
    method MoveAcross(src: nat, dst: nat, p: nat, buf: Page) returns (moved: bool, page: Page)
      requires Valid() && src < nand.geo.blocks && dst < nand.geo.blocks && p < nand.geo.pages
      requires rmap[nand.geo.Ppn(src, p)] != INVALID
      modifies this, l2p, rmap, nand, nand.blocks, nand.media
      ensures Valid()
      ensures (moved, View(), page) == MovePage(old(View()), src, dst, p, buf)
    {
      hide NandModel.PageRead, NandModel.PageWrite, NandModel.MarkInvalid;
      var from := nand.geo.Ppn(src, p);
      var lpn := rmap[from];
      var got;
      got, page := nand.PageRead(src, p, buf);
      var put := nand.PageWrite(dst, p, page);
      if put != Ok { return false, page; }
      stats := stats.(nand := stats.nand + 1);
      Move(lpn, from, nand.geo.Ppn(dst, p));
      var _ := nand.MarkInvalid(src, p);
      moved := true;
    }

    /** The relocation loop shared by static wear leveling and read-disturb handling, and the final erase. */
    method Empty(src: nat, dst: nat, draw: bool, buf: Page) returns (moved: nat)
      requires Valid() && src < nand.geo.blocks && dst < nand.geo.blocks
      modifies this, l2p, rmap, nand, nand.blocks, nand.media
      ensures Valid()
      ensures (View(), moved) == Relocate(old(View()), src, dst, draw, buf)
    {
      hide MovePage, NandModel.Erase;
      ghost var s0 := View();
      var page := buf;
      moved := 0;
      for p := 0 to nand.geo.pages
        invariant Valid() && View().Geo() == s0.Geo()
        invariant var (s1, k) := MoveLive(View(), src, dst, p, page); MoveLive(s0, src, dst, 0, buf) == (s1, moved + k)
      {
        if nand.blocks[src].valid[p] && rmap[nand.geo.Ppn(src, p)] != INVALID {
          var done;
          done, page := MoveAcross(src, dst, p, page);
          if done { moved := moved + 1; }
        }
      }
      var _ := nand.Erase(src, draw);
    }

    /** wear_leveling_check with nand_mark_cold_block. */
    method CheckWear()
      requires Valid()
      modifies this, nand.blocks
      ensures Valid()
      ensures View() == WearCheck(old(View()))
    {
      var max: nat, min: nat, cold: Option<nat> := 0, INVALID, None;
      for i := 0 to nand.geo.User()
        invariant View() == old(View())
        invariant WearScan(nand.blocks[..], i) == Spread(max, min, cold)
      {
        if nand.blocks[i].state != Bad {
          var erases := nand.blocks[i].erases;
          if max < erases { max := erases; }
          if erases < min {
            min := erases;
            if nand.blocks[i].state == Used { cold := Some(i); }
          }
        }
      }
      ColdIsUsed(nand.blocks[..], nand.geo.User());
      if WEAR_DIFF < (max - min) % TWO32 && cold.Some? {
        var c := cold.value;
        if 1 < nand.blocks[c].count {
          nand.blocks[c] := nand.blocks[c].(count := 1);
        }
        stats := stats.(wearCount := stats.wearCount + 1);
        assert nand.blocks[..] == old(nand.blocks[..])[c := nand.blocks[c]];
      }
    }

    /** static_wear_leveling_check. */
    method LevelStatically(draw: bool, buf: Page)
      requires Valid()
      modifies this, l2p, rmap, nand, nand.blocks, nand.media
      ensures Valid()
      ensures View() == StaticWear(old(View()), draw, buf)
    {
      var max: nat, src: Option<nat>, min: nat, dst: Option<nat> := 0, None, INVALID, None;
      for i := 0 to nand.geo.User()
        invariant View() == old(View())
        invariant StaticScan(nand.blocks[..], i) == Pick(max, src, min, dst)
      {
        var blk := nand.blocks[i];
        if blk.state == Used && max < blk.erases { max, src := blk.erases, Some(i); }
        if blk.state == Free && blk.erases < min { min, dst := blk.erases, Some(i); }
      }
      if STATIC_WEAR_DIFF < (max - min) % TWO32 && src.Some? && dst.Some? {
        var moved := Empty(src.value, dst.value, draw, buf);
        stats := stats.(staticCount := stats.staticCount + 1, staticMoved := stats.staticMoved + moved);
      }
    }

    /** The remapping loop of ftl_replace_bad_block. */
    method RemapAll(b: nat, dst: nat) returns (moved: nat)
      requires Valid() && b < nand.geo.blocks && dst < nand.geo.blocks
      modifies l2p, rmap
      ensures Valid()
      ensures (View(), moved) == RemapBlock(old(View()), b, dst, 0)
    {
      hide Remap;
      ghost var s0 := View();
      moved := 0;
      for p := 0 to nand.geo.pages
        invariant Valid() && View().Geo() == s0.Geo()
        invariant var (s1, k) := RemapBlock(View(), b, dst, p); RemapBlock(s0, b, dst, 0) == (s1, moved + k)
      {
        var from := nand.geo.Ppn(b, p);
        var lpn := rmap[from];
        if lpn != INVALID {
          Move(lpn, from, nand.geo.Ppn(dst, p));
          moved := moved + 1;
        }
      }
    }

    /** ftl_replace_bad_block. */
    method ReplaceBlock(b: nat, buf: Page) returns (code: RetCode)
      requires Valid()
      modifies this, l2p, rmap, nand, nand.blocks, nand.media
      ensures Valid()
      ensures (code, View()) == FtlModel.ReplaceBlock(old(View()), b, buf)
    {
      hide NandModel.Replace, RemapBlock;
      if nand.geo.blocks <= b { return Param; }
      var dst;
      code, dst := nand.Replace(b, buf);
      if code != Ok { return; }
      var moved := RemapAll(b, dst);
      stats := stats.(replaceCount := stats.replaceCount + 1, replaceMoved := stats.replaceMoved + moved);
      if wb == b { wb := dst; }
    }

    /** ftl_handle_read_disturb with nand_check_read_disturb. */
    method HandleReadDisturb(draw: bool, buf: Page) returns (code: RetCode)
      requires Valid()
      modifies this, l2p, rmap, nand, nand.blocks, nand.media
      ensures Valid()
      ensures (code, View()) == ReadDisturb(old(View()), draw, buf)
    {
      var max: nat, src: Option<nat> := 0, None;
      for i := 0 to nand.geo.User()
        invariant View() == old(View())
        invariant ReadScan(nand.blocks[..], i) == (max, src)
      {
        if nand.blocks[i].state == Used && max < nand.blocks[i].readCount {
          max, src := nand.blocks[i].readCount, Some(i);
        }
      }
      if max < READ_DISTURB || src.None? { return Ok; }
      var dst := FindNextFree(0);
      if dst.None? { return NoSpace; }
      var _ := Empty(src.value, dst.value, draw, buf);
      code := Ok;
    }

    /** ftl_read. */
    method Read(lpn: nat, buf: Page) returns (code: RetCode, data: Page)
      requires Valid()
      modifies this, l2p, rmap, nand, nand.blocks, nand.media
      ensures Valid()
      ensures (code, data, View()) == FtlModel.Read(old(View()), lpn, buf)
    {
      if nand.geo.lpns <= lpn { return Param, buf; }
      if l2p[lpn] == INVALID { return NotMapped, buf; }
      var b := nand.geo.BlockOf(l2p[lpn]);
      code, data := nand.PageRead(b, nand.geo.PageOf(l2p[lpn]), buf);
      if code == BadBlock {
        var _ := ReplaceBlock(b, []);
      }
    }

    /** wal_log_write and wal_log_trim. */
    method LogEntry(op: WalOp, lpn: nat, oldPpn: nat, newPpn: nat, wrote: bool) returns (code: RetCode)
      requires Valid()
      modifies `wal
      ensures Valid()
      ensures (code, View()) == Log(old(View()), op, lpn, oldPpn, newPpn, wrote)
    {
      if wal.None? { return Ok; }
      var (appended, w) := Append(wal.value, op, lpn, oldPpn, newPpn, wrote);
      wal := Some(w);
      code := appended;
    }

    /** The loop body of ftl_trim for one mapped page. */
    method TrimPage(lpn: nat, wrote: nat -> bool)
      requires Valid() && lpn < nand.geo.lpns && l2p[lpn] != INVALID
      modifies this, l2p, rmap, nand.blocks
      ensures Valid()
      ensures View() == TrimOne(old(View()), lpn, wrote)
    {
      hide NandModel.MarkInvalid, Log;
      var ppn := l2p[lpn];
      var _ := LogEntry(OpTrim, lpn, ppn, INVALID, wrote(lpn));
      var _ := nand.MarkInvalid(nand.geo.BlockOf(ppn), nand.geo.PageOf(ppn));
      l2p[lpn] := INVALID;
      rmap[ppn] := INVALID;
      assert l2p[..] == old(l2p[..])[lpn := INVALID];
      assert rmap[..] == old(rmap[..])[ppn := INVALID];
    }

    /** ftl_trim. */
    method Trim(lpn: nat, count: nat, wrote: nat -> bool) returns (code: RetCode)
      requires Valid()
      requires lpn < nand.geo.lpns && 0 < count ==> lpn + TrimCount(nand.geo, lpn, count) <= nand.geo.lpns
      modifies this, l2p, rmap, nand.blocks
      ensures Valid()
      ensures (code, View()) == FtlModel.Trim(old(View()), lpn, count, wrote)
    {
      hide TrimOne, TrimCount;
      if count == 0 || nand.geo.lpns <= lpn { return Param; }
      var end := lpn + TrimCount(nand.geo, lpn, count);
      var trimmed := 0;
      ghost var s0 := View();
      for cur := lpn to end
        invariant Valid() && View().Geo() == s0.Geo()
        invariant var (s1, k) := TrimRange(View(), cur, end, wrote); TrimRange(s0, lpn, end, wrote) == (s1, trimmed + k)
      {
        if l2p[cur] != INVALID {
          TrimPage(cur, wrote);
          trimmed := trimmed + 1;
        }
      }
      stats := stats.(trimCount := stats.trimCount + 1, trimPages := stats.trimPages + trimmed);
      code := Ok;
    }

    // ---- ftl_write

    /** The program step with its replacement of a bad open block and its single retry. */
    method ProgramPage(ppn: nat, data: Page) returns (code: RetCode, home: nat)
      requires Valid() && ppn < nand.geo.Total()
      modifies this, l2p, rmap, nand, nand.blocks, nand.media
      ensures Valid()
      ensures (code, home, View()) == Program(old(View()), ppn, data)
    {
      hide NandModel.PageWrite, FtlModel.ReplaceBlock, Alloc;
      home := ppn;
      code := nand.PageWrite(nand.geo.BlockOf(ppn), nand.geo.PageOf(ppn), data);
      if code == BadBlock {
        code := ReplaceBlock(nand.geo.BlockOf(ppn), []);
        if code == Ok {
          var slot := AllocPage();
          if slot.None? { return NoSpace, ppn; }
          home := slot.value;
          code := nand.PageWrite(nand.geo.BlockOf(home), nand.geo.PageOf(home), data);
        }
      }
    }

    /** The table updates, in the order of the source. */
    method CommitPage(lpn: nat, home: nat)
      requires Valid() && lpn < nand.geo.lpns && home < nand.geo.Total()
      modifies this, l2p, rmap, nand.blocks
      ensures Valid()
      ensures View() == Commit(old(View()), lpn, home)
    {
      hide NandModel.MarkInvalid;
      stats := stats.(host := stats.host + 1, nand := stats.nand + 1);
      var was := l2p[lpn];
      if was != INVALID {
        var _ := nand.MarkInvalid(nand.geo.BlockOf(was), nand.geo.PageOf(was));
        rmap[was] := INVALID;
        assert rmap[..] == old(rmap[..])[was := INVALID];
      }
      l2p[lpn] := home;
      ghost var mid := rmap[..];
      rmap[home] := lpn;
      assert l2p[..] == old(l2p[..])[lpn := home];
      assert rmap[..] == mid[home := lpn];
    }

    /**
     The GC loop, with the given wear draws for its passes; `Running` if it wants more passes than
     there are draws.  The ghost result lists the passes made.
     */
    method CollectUntilFree(a: Algorithm, draws: seq<bool>)
      returns (end: LoopEnd, ghost passes: seq<Pass>, ghost noVictim: bool)
      requires Valid()
      modifies this, l2p, rmap, nand, nand.blocks, nand.media
      ensures Valid() && View().Geo() == old(View()).Geo()
      ensures |passes| <= |draws| && forall i :: 0 <= i < |passes| ==>
                passes[i].victim < nand.geo.blocks && passes[i].draw == draws[i]
      ensures (end, View()) == GcLoop(old(View()), passes, noVictim, [])
      ensures noVictim ==> end == Failed
      ensures noVictim && CountsFit(View().nand) ==> !UsedIn(View().nand, 0, nand.geo.User())
      ensures end == Running ==> |passes| == |draws|
    {
      hide GcPass, GcLoop, GcTrail, CountsFit, UsedIn, MayChoose;
      GcTrailNothing(View());
      passes, noVictim := [], false;
      var k := 0;
      var free := nand.FreeCount();
      while free <= GC_TRIGGER && k < |draws|
        invariant Valid() && View().Geo() == old(View()).Geo() && k == |passes| <= |draws|
        invariant free == FreeBelow(View().nand.blocks, nand.geo.User())
        invariant forall i :: 0 <= i < k ==> passes[i].victim < nand.geo.blocks && passes[i].draw == draws[i]
        invariant GcTrail(old(View()), passes) == Some(View())
        decreases |draws| - k
      {
        var got := SelectVictim(a);
        if got.None? {
          noVictim := true;
          GcTrailEnds(old(View()), passes, [], true);
          GcLoopStops(View(), true);
          assert passes + [] == passes;
          return Failed, passes, true;
        }
        ghost var s, pass := View(), Pass(got.value, draws[k]);
        var code := Recycle(got.value, draws[k], []);
        if code != Ok {
          GcTrailEnds(old(View()), passes, [pass], false);
          GcLoopFails(s, pass, false);
          passes := passes + [pass];
          return Failed, passes, false;
        }
        GcTrailNext(old(View()), passes, pass);
        passes, k := passes + [pass], k + 1;
        free := nand.FreeCount();
      }
      GcTrailEnds(old(View()), passes, [], false);
      GcLoopStops(View(), false);
      assert passes + [] == passes;
      end := if free <= GC_TRIGGER then Running else Enough;
    }

    /** ftl_write up to the table updates. */
    method WriteThrough(a: Algorithm, lpn: nat, data: Page, draws: seq<bool>, wrote: bool, draw: bool)
      returns (end: WriteEnd, ghost env: Env)
      requires Valid() && lpn < nand.geo.lpns
      modifies this, l2p, rmap, nand, nand.blocks, nand.media
      ensures Valid()
      ensures env.wrote == wrote && env.draw == draw
      ensures |env.passes| <= |draws| && forall i :: 0 <= i < |env.passes| ==>
                env.passes[i].victim < nand.geo.blocks && env.passes[i].draw == draws[i]
      ensures (end, View()) == WriteBody(old(View()), lpn, data, env)
      ensures env.noVictim ==> end == Done(NoSpace)
      ensures env.noVictim && CountsFit(View().nand) ==> !UsedIn(View().nand, 0, nand.geo.User())
      ensures end == Looping ==> |env.passes| == |draws|
    {
      hide GcLoop, Alloc, Program, Commit, Log, CountsFit, UsedIn;
      var loop, passes, noVictim := CollectUntilFree(a, draws);
      env := Env(passes, noVictim, wrote, draw);
      if loop == Running { return Looping, env; }
      if loop == Failed { return Done(NoSpace), env; }
      var slot := AllocPage();
      if slot.None? { return Done(NoSpace), env; }
      var logged := LogEntry(OpWrite, lpn, l2p[lpn], slot.value, wrote);
      if logged != Ok { return Done(logged), env; }
      var code, home := ProgramPage(slot.value, data);
      if code != Ok { return Done(code), env; }
      CommitPage(lpn, home);
      end := Done(Ok);
    }

    /** ftl_write. */
    method Write(a: Algorithm, lpn: nat, data: Page, draws: seq<bool>, wrote: bool, draw: bool)
      returns (end: WriteEnd, ghost env: Env)
      requires Valid()
      modifies this, l2p, rmap, nand, nand.blocks, nand.media
      ensures Valid()
      ensures env.wrote == wrote && env.draw == draw
      ensures |env.passes| <= |draws| && forall i :: 0 <= i < |env.passes| ==>
                env.passes[i].victim < nand.geo.blocks && env.passes[i].draw == draws[i]
      ensures (end, View()) == FtlModel.Write(old(View()), lpn, data, env)
      ensures env.noVictim ==> end == Done(NoSpace)
      ensures env.noVictim && CountsFit(View().nand) ==> !UsedIn(View().nand, 0, nand.geo.User())
      ensures end == Looping ==> |env.passes| == |draws|
    {
      hide WriteBody, WearCheck, StaticWear, CountsFit, UsedIn;
      if nand.geo.lpns <= lpn { return Done(Param), Env([], false, wrote, draw); }
      end, env := WriteThrough(a, lpn, data, draws, wrote, draw);
      if end != Done(Ok) { return; }
      CheckWear();
      stats := stats.(sinceCheck := stats.sinceCheck + 1);
      if STATIC_WEAR_INTERVAL <= stats.sinceCheck {
        stats := stats.(sinceCheck := 0);
        LevelStatically(draw, []);
      }
    }

    // ---- ftl_secure_erase

    /** One overwriting pass; the ghost result records what its writes took from outside. */
    method OverwritePass(a: Algorithm, lpn: nat, n: nat, pass: nat, outside: (nat, nat) -> FtlErase.Outside,
                         ghost was: FtlErase.Envs)
      returns (end: WriteEnd, ghost envs: FtlErase.Envs)
      requires Valid() && lpn + n <= nand.geo.lpns && FtlErase.VictimsExist(nand.geo, was)
      modifies this, l2p, rmap, nand, nand.blocks, nand.media
      ensures Valid() && FtlErase.VictimsExist(nand.geo, envs)
      ensures forall k, l :: k != pass ==> envs(k, l) == was(k, l)
      ensures (end, View()) == FtlErase.Overwrite(old(View()), lpn, n, pass, envs)
    {
      hide FtlModel.Write, FtlErase.VictimsExist, FtlErase.Overwrite, FtlErase.With, CountsFit, UsedIn;
      envs := was;
      FtlErase.OverwriteStarts(View(), lpn, pass, envs);
      ghost var s0 := View();
      var buf := FtlErase.Pattern(pass);
      for i := 0 to n
        invariant Valid() && FtlErase.VictimsExist(nand.geo, envs) && nand.geo == s0.Geo()
        invariant forall k, l :: k != pass ==> envs(k, l) == was(k, l)
        invariant (Done(Ok), View()) == FtlErase.Overwrite(s0, lpn, i, pass, envs)
      {
        ghost var s1 := View();
        var o := outside(pass, i);
        ghost var env;
        end, env := Write(a, lpn + i, buf, o.draws, o.wrote, o.draw);
        FtlErase.OverwriteNext(s0, lpn, i, pass, envs, s1, env);
        envs := FtlErase.With(envs, pass, lpn + i, env);
        if end != Done(Ok) {
          FtlErase.OverwriteStops(s0, lpn, i + 1, n, pass, envs);
          return end, envs;
        }
      }
      end := Done(Ok);
    }

    /** ftl_secure_erase. */
    method SecureErase(a: Algorithm, lpn: nat, count: nat, passes: nat, memory: bool,
                       outside: (nat, nat) -> FtlErase.Outside, wrote: nat -> bool)
      returns (end: WriteEnd, ghost envs: FtlErase.Envs)
      requires Valid()
      requires lpn < nand.geo.lpns && 0 < count ==> lpn + TrimCount(nand.geo, lpn, count) <= nand.geo.lpns
      modifies this, l2p, rmap, nand, nand.blocks, nand.media
      ensures Valid() && FtlErase.VictimsExist(nand.geo, envs)
      ensures (end, View()) == FtlErase.SecureErase(old(View()), lpn, count, passes, memory, envs, wrote)
    {
      hide FtlErase.Overwrite, FtlModel.Trim, TrimCount;
      envs := (k: nat, l: nat) => Env([], false, true, false);
      if count == 0 || passes == 0 || nand.geo.lpns <= lpn { return Done(Param), envs; }
      if !memory { return Done(Internal), envs; }
      var n := TrimCount(nand.geo, lpn, count);
      ghost var s0 := View();
      for pass := 0 to passes
        invariant Valid() && FtlErase.VictimsExist(nand.geo, envs) && nand.geo == s0.Geo()
        invariant (Done(Ok), View()) == FtlErase.OverwriteAll(s0, lpn, n, pass, envs)
      {
        ghost var before := envs;
        end, envs := OverwritePass(a, lpn, n, pass, outside, before);
        FtlErase.OverwriteAllLocal(s0, lpn, n, pass, before, envs);
        if end != Done(Ok) {
          FtlErase.OverwriteAllStops(s0, lpn, n, pass + 1, passes, envs);
          return end, envs;
        }
      }
      FtlErase.ClippedOnce(nand.geo, lpn, count);
      var code := Trim(lpn, n, wrote);
      end := Done(code);
    }
  }

  /** The state after GC passes that were all needed and all succeeded. */
  function GcTrail(s: Ftl, passes: seq<Pass>): (r: Option<Ftl>)
    requires s.Shape() && forall i :: 0 <= i < |passes| ==> passes[i].victim < s.Geo().blocks
    ensures r.Some? ==> r.value.Shape() && r.value.Geo() == s.Geo()
    decreases passes
  {
    if passes == [] then Some(s)
    else if !NeedsGc(s.nand) then None
    else
      var (code, s1) := GcPass(s, passes[0].victim, passes[0].draw, []);
      if code != Ok then None else GcTrail(s1, passes[1..])
  }

  lemma GcTrailNothing(s: Ftl)
    requires s.Shape()
    ensures GcTrail(s, []) == Some(s)
  {
  }

  lemma GcLoopStops(s: Ftl, noVictim: bool)
    requires s.Shape()
    ensures GcLoop(s, [], noVictim, []) ==
            (if !NeedsGc(s.nand) then Enough else if noVictim then Failed else Running, s)
  {
  }

  lemma GcLoopFails(s: Ftl, pass: Pass, noVictim: bool)
    requires s.Shape() && NeedsGc(s.nand) && pass.victim < s.Geo().blocks
    requires GcPass(s, pass.victim, pass.draw, []).0 != Ok
    ensures GcLoop(s, [pass], noVictim, []) == (Failed, GcPass(s, pass.victim, pass.draw, []).1)
  {
    hide GcPass;
  }

  lemma {:induction false} GcTrailEnds(s: Ftl, passes: seq<Pass>, rest: seq<Pass>, noVictim: bool)
    requires s.Shape() && forall i :: 0 <= i < |passes + rest| ==> (passes + rest)[i].victim < s.Geo().blocks
    requires (forall i :: 0 <= i < |passes| ==> passes[i] == (passes + rest)[i]) && GcTrail(s, passes).Some?
    requires forall i :: 0 <= i < |rest| ==> rest[i].victim < s.Geo().blocks
    ensures GcLoop(s, passes + rest, noVictim, []) == GcLoop(GcTrail(s, passes).value, rest, noVictim, [])
    decreases passes
  {
    hide GcPass;
    if passes == [] {
      assert passes + rest == rest;
    } else {
      var s1 := GcPass(s, passes[0].victim, passes[0].draw, []).1;
      assert (passes + rest)[1..] == passes[1..] + rest;
      GcTrailEnds(s1, passes[1..], rest, noVictim);
    }
  }

  lemma {:induction false} GcTrailNext(s: Ftl, passes: seq<Pass>, pass: Pass)
    requires s.Shape() && forall i :: 0 <= i < |passes| ==> passes[i].victim < s.Geo().blocks
    requires pass.victim < s.Geo().blocks && GcTrail(s, passes).Some?
    requires NeedsGc(GcTrail(s, passes).value.nand)
    requires GcPass(GcTrail(s, passes).value, pass.victim, pass.draw, []).0 == Ok
    ensures forall i :: 0 <= i < |passes + [pass]| ==> (passes + [pass])[i].victim < s.Geo().blocks
    ensures GcTrail(s, passes + [pass]) == Some(GcPass(GcTrail(s, passes).value, pass.victim, pass.draw, []).1)
    decreases passes
  {
    hide GcPass;
    if passes == [] {
      assert (passes + [pass])[1..] == [];
    } else {
      var s1 := GcPass(s, passes[0].victim, passes[0].draw, []).1;
      assert (passes + [pass])[1..] == passes[1..] + [pass];
      GcTrailNext(s1, passes[1..], pass);
    }
  }
}
