/**
 The page-mapping FTL as a value: mapping tables, write pointer, counters and log over a NAND,
 with one pure function for each operation and for each scanning or relocating loop.
 */
module FtlModel {
  import opened Common
  import opened Layout
  import opened NandModel
  import opened WalModel

  const GC_TRIGGER: nat := 5
  const WEAR_DIFF: nat := 50
  const STATIC_WEAR_DIFF: nat := 100
  const STATIC_WEAR_INTERVAL: nat := 1000
  const READ_DISTURB: nat := 100000

  datatype Stats = Stats(
    host: nat, nand: nat, gcCount: nat, gcMoved: nat, wearCount: nat, staticCount: nat, staticMoved: nat,
    trimCount: nat, trimPages: nat, replaceCount: nat, replaceMoved: nat, sinceCheck: nat)

  datatype Ftl = Ftl(
    nand: Nand, l2p: seq<nat>, rmap: seq<nat>, wb: nat, wp: nat, stats: Stats, wal: Option<Wal>)
  {
    function Geo(): Geometry { nand.geo }

    ghost predicate Shape() {
      && nand.Shape()
      && |l2p| == nand.geo.lpns
      && |rmap| == nand.geo.Total()
      && wb < nand.geo.blocks && wp <= nand.geo.pages
      && (forall i :: 0 <= i < |l2p| ==> l2p[i] == INVALID || l2p[i] < |rmap|)
      && (forall i :: 0 <= i < |rmap| ==> rmap[i] == INVALID || rmap[i] < |l2p|)
    }

    function Maps(): Tables { Tables(l2p, rmap) }
  }

  const NO_STATS: Stats := Stats(0, 0, 0, 0, 0, 0, 0, 0, 0, 0, 0, 0)

  /** ftl_init: empty tables, the first free block becomes the open block. */
  function Init(n: Nand): Option<Ftl>
    requires n.Shape()
  {
    match NextFree(n, 0)
    case None => None
    case Some(b) =>
      Some(Ftl(n, seq(n.geo.lpns, _ => INVALID), seq(n.geo.Total(), _ => INVALID), b, 0, NO_STATS, None))
  }

  // ---- allocation

  /** ftl_find_next_free_block: from `start` to the end of the user region, then from 0 to `start`. */
  function NextFree(n: Nand, start: nat): (r: Option<nat>)
    requires n.Shape() && start <= n.geo.blocks
    ensures r.Some? ==> r.value < n.geo.blocks && n.blocks[r.value].state == Free
    ensures r.Some? && start <= n.geo.User() ==> r.value < n.geo.User()
    ensures r.None? ==> forall i :: 0 <= i < n.geo.User() ==> n.blocks[i].state != Free
  {
    match FirstFree(n.blocks, start, n.geo.User())
    case Some(b) => Some(b)
    case None => FirstFree(n.blocks, 0, start)
  }

  /** ftl_alloc_phy_page. */
  function Alloc(s: Ftl): (r: (Option<nat>, Ftl))
    requires s.Shape()
    ensures r.1.Shape() && r.1 == s.(wb := r.1.wb, wp := r.1.wp)
    ensures r.0.Some? ==> r.0.value < s.Geo().Total()
  {
    if s.wp < s.Geo().pages then
      (Some(s.Geo().Ppn(s.wb, s.wp)), s.(wp := s.wp + 1))
    else
      match NextFree(s.nand, s.wb + 1)
      case None => (None, s)
      case Some(b) => (Some(s.Geo().Ppn(b, 0)), s.(wb := b, wp := 1))
  }

  // ---- moving one mapping

  /** The three table updates of every relocator. */
  function Remap(s: Ftl, lpn: nat, from: nat, to: nat): (r: Ftl)
    requires s.Shape() && lpn < |s.l2p| && from < |s.rmap| && to < |s.rmap|
    ensures r.Shape()
  {
    s.(l2p := s.l2p[lpn := to], rmap := s.rmap[to := lpn][from := INVALID])
  }

  // ---- garbage collection

  /** The body of the GC loop for one live page: read, allocate, program, remap. */
  function GcMove(s: Ftl, v: nat, p: nat, buf: Page): (r: (RetCode, Ftl, Page))
    requires s.Shape() && v < s.Geo().blocks && p < s.Geo().pages
    requires s.rmap[s.Geo().Ppn(v, p)] != INVALID
    ensures r.1.Shape() && r.1.Geo() == s.Geo()
  {
    var from := s.Geo().Ppn(v, p);
    var (got, data, n1) := PageRead(s.nand, v, p, buf);
    var (slot, s2) := Alloc(s.(nand := n1));
    match slot
    case None => (NoSpace, s2, data)
    case Some(to) =>
      var (put, n3) := PageWrite(s2.nand, s.Geo().BlockOf(to), s.Geo().PageOf(to), data);
      if put != Ok then (Internal, s2.(nand := n3), data)
      else
        var s3 := s2.(nand := n3, stats := s.stats.(nand := s.stats.nand + 1, gcMoved := s.stats.gcMoved + 1));
        (Ok, Remap(s3, s.rmap[from], from, to), data)
  }

  /** A page the relocators carry along: valid in its block and owned by some LPN. */
  predicate Live(s: Ftl, b: nat, p: nat)
    requires s.Shape() && b < s.Geo().blocks && p < s.Geo().pages
  {
    s.nand.IsValid(b, p) && s.rmap[s.Geo().Ppn(b, p)] != INVALID
  }

  /** The GC loop over the victim, from page `p` on. */
  function GcScan(s: Ftl, v: nat, p: nat, buf: Page): (r: (RetCode, Ftl))
    requires s.Shape() && v < s.Geo().blocks && p <= s.Geo().pages
    ensures r.1.Shape() && r.1.Geo() == s.Geo()
    decreases s.Geo().pages - p
  {
    if p == s.Geo().pages then (Ok, s)
    else if !Live(s, v, p) then GcScan(s, v, p + 1, buf)
    else
      var (code, s1, data) := GcMove(s, v, p, buf);
      if code != Ok then (code, s1) else GcScan(s1, v, p + 1, data)
  }

  /** gc_do_recycle once a victim is chosen: scan, then erase. */
  function GcPass(s: Ftl, v: nat, draw: bool, buf: Page): (r: (RetCode, Ftl))
    requires s.Shape() && v < s.Geo().blocks
    ensures r.1.Shape() && r.1.Geo() == s.Geo()
  {
    var (code, s1) := GcScan(s.(stats := s.stats.(gcCount := s.stats.gcCount + 1)), v, 0, buf);
    if code != Ok then (code, s1)
    else
      var (erased, n) := Erase(s1.nand, v, draw);
      (erased, s1.(nand := n))
  }

  // ---- relocation at equal offsets (static wear leveling, read disturb)

  /** The relocation loop from page `p` on: the new state and the number of pages moved. */
  function MoveLive(s: Ftl, src: nat, dst: nat, p: nat, buf: Page): (r: (Ftl, nat))
    requires s.Shape() && src < s.Geo().blocks && dst < s.Geo().blocks && p <= s.Geo().pages
    ensures r.0.Shape() && r.0.Geo() == s.Geo()
    decreases s.Geo().pages - p
  {
    if p == s.Geo().pages then (s, 0)
    else if !Live(s, src, p) then MoveLive(s, src, dst, p + 1, buf)
    else
      var (moved, s1, data) := MovePage(s, src, dst, p, buf);
      var (s2, k) := MoveLive(s1, src, dst, p + 1, data);
      (s2, if moved then k + 1 else k)
  }

  /** The body of the relocation loop for one live page. */
  function MovePage(s: Ftl, src: nat, dst: nat, p: nat, buf: Page): (r: (bool, Ftl, Page))
    requires s.Shape() && src < s.Geo().blocks && dst < s.Geo().blocks && p < s.Geo().pages
    requires s.rmap[s.Geo().Ppn(src, p)] != INVALID
    ensures r.1.Shape() && r.1.Geo() == s.Geo()
  {
    var from := s.Geo().Ppn(src, p);
    var to := s.Geo().Ppn(dst, p);
    var (got, data, n1) := PageRead(s.nand, src, p, buf);
    var (put, n2) := PageWrite(n1, dst, p, data);
    if put != Ok then (false, s.(nand := n2), data)
    else
      var s2 := Remap(s.(nand := n2, stats := s.stats.(nand := s.stats.nand + 1)), s.rmap[from], from, to);
      (true, s2.(nand := MarkInvalid(s2.nand, src, p).1), data)
  }

  /** Relocate and erase the source. */
  function Relocate(s: Ftl, src: nat, dst: nat, draw: bool, buf: Page): (r: (Ftl, nat))
    requires s.Shape() && src < s.Geo().blocks && dst < s.Geo().blocks
    ensures r.0.Shape() && r.0.Geo() == s.Geo()
  {
    var (s1, k) := MoveLive(s, src, dst, 0, buf);
    (s1.(nand := Erase(s1.nand, src, draw).1), k)
  }

  // ---- wear leveling

  /** What wear_leveling_check has collected after the first `k` blocks. */
  datatype Spread = Spread(max: nat, min: nat, cold: Option<nat>)

  function WearScan(blocks: seq<Block>, k: nat): Spread
    requires k <= |blocks|
  {
    if k == 0 then Spread(0, INVALID, None)
    else
      var sp := WearScan(blocks, k - 1);
      var b := blocks[k - 1];
      if b.state == Bad then sp
      else
        Spread(if sp.max < b.erases then b.erases else sp.max,
               if b.erases < sp.min then b.erases else sp.min,
               if b.erases < sp.min && b.state == Used then Some(k - 1) else sp.cold)
  }

  /** The block wear_leveling_check forges, if any: erase spread above the threshold. */
  function ColdBlock(n: Nand): (r: Option<nat>)
    requires n.Shape()
  {
    var sp := WearScan(n.blocks, n.geo.User());
    if WEAR_DIFF < (sp.max - sp.min) % TWO32 then sp.cold else None
  }

  lemma {:induction false} ColdIsUsed(blocks: seq<Block>, k: nat)
    requires k <= |blocks|
    ensures var c := WearScan(blocks, k).cold; c.Some? ==> c.value < k && blocks[c.value].state == Used
  {
    if k != 0 { ColdIsUsed(blocks, k - 1); }
  }

  /** wear_leveling_check with nand_mark_cold_block: the forged valid count. */
  function WearCheck(s: Ftl): (r: Ftl)
    requires s.Shape()
    ensures r.Shape() && r.Geo() == s.Geo()
  {
    ColdIsUsed(s.nand.blocks, s.Geo().User());
    match ColdBlock(s.nand)
    case None => s
    case Some(c) =>
      var blk := s.nand.blocks[c];
      var forged := if 1 < blk.count then blk.(count := 1) else blk;
      s.(nand := s.nand.(blocks := s.nand.blocks[c := forged]),
         stats := s.stats.(wearCount := s.stats.wearCount + 1))
  }

  /** What static_wear_leveling_check has collected after the first `k` blocks. */
  datatype Pick = Pick(max: nat, src: Option<nat>, min: nat, dst: Option<nat>)

  function StaticScan(blocks: seq<Block>, k: nat): (r: Pick)
    requires k <= |blocks|
    ensures r.src.Some? ==> r.src.value < k && blocks[r.src.value].state == Used
    ensures r.dst.Some? ==> r.dst.value < k && blocks[r.dst.value].state == Free
  {
    if k == 0 then Pick(0, None, INVALID, None)
    else
      var pk := StaticScan(blocks, k - 1);
      var b := blocks[k - 1];
      if b.state == Used && pk.max < b.erases then pk.(max := b.erases, src := Some(k - 1))
      else if b.state == Free && b.erases < pk.min then pk.(min := b.erases, dst := Some(k - 1))
      else pk
  }

  /** Source and destination of static wear leveling, if the (unsigned) spread exceeds its threshold. */
  function StaticPick(n: Nand): (r: Option<(nat, nat)>)
    requires n.Shape()
    ensures r.Some? ==> r.value.0 < n.geo.User() && n.blocks[r.value.0].state == Used
                        && r.value.1 < n.geo.User() && n.blocks[r.value.1].state == Free
  {
    var pk := StaticScan(n.blocks, n.geo.User());
    if STATIC_WEAR_DIFF < (pk.max - pk.min) % TWO32 && pk.src.Some? && pk.dst.Some?
    then Some((pk.src.value, pk.dst.value)) else None
  }

  /** static_wear_leveling_check. */
  function StaticWear(s: Ftl, draw: bool, buf: Page): (r: Ftl)
    requires s.Shape()
    ensures r.Shape() && r.Geo() == s.Geo()
  {
    match StaticPick(s.nand)
    case None => s
    case Some((src, dst)) =>
      var (s1, k) := Relocate(s, src, dst, draw, buf);
      s1.(stats := s1.stats.(staticCount := s1.stats.staticCount + 1, staticMoved := s1.stats.staticMoved + k))
  }

  // ---- bad-block replacement

  /** The remapping loop of ftl_replace_bad_block from page `p` on, and the number of pages remapped. */
  function RemapBlock(s: Ftl, src: nat, dst: nat, p: nat): (r: (Ftl, nat))
    requires s.Shape() && src < s.Geo().blocks && dst < s.Geo().blocks && p <= s.Geo().pages
    ensures r.0.Shape() && r.0 == s.(l2p := r.0.l2p, rmap := r.0.rmap)
    decreases s.Geo().pages - p
  {
    if p == s.Geo().pages then (s, 0)
    else
      var from := s.Geo().Ppn(src, p);
      if s.rmap[from] == INVALID then RemapBlock(s, src, dst, p + 1)
      else
        var (s1, k) := RemapBlock(Remap(s, s.rmap[from], from, s.Geo().Ppn(dst, p)), src, dst, p + 1);
        (s1, k + 1)
  }

  /** ftl_replace_bad_block. */
  function ReplaceBlock(s: Ftl, b: nat, buf: Page): (r: (RetCode, Ftl))
    requires s.Shape()
    ensures r.1.Shape() && r.1.Geo() == s.Geo()
  {
    if s.Geo().blocks <= b then (Param, s)
    else
      var (code, dst, n) := Replace(s.nand, b, buf);
      if code != Ok then (code, s.(nand := n))
      else
        var (s1, k) := RemapBlock(s.(nand := n), b, dst, 0);
        (Ok, s1.(stats := s1.stats.(replaceCount := s1.stats.replaceCount + 1,
                                    replaceMoved := s1.stats.replaceMoved + k),
                 wb := if s1.wb == b then dst else s1.wb))
  }

  // ---- read disturb

  /** nand_check_read_disturb after the first `k` blocks: highest read count of a USED block, and where. */
  function ReadScan(blocks: seq<Block>, k: nat): (r: (nat, Option<nat>))
    requires k <= |blocks|
    ensures r.1.Some? ==> r.1.value < k && blocks[r.1.value].state == Used
  {
    if k == 0 then (0, None)
    else
      var (m, at) := ReadScan(blocks, k - 1);
      if blocks[k - 1].state == Used && m < blocks[k - 1].readCount then (blocks[k - 1].readCount, Some(k - 1))
      else (m, at)
  }

  /** The block read-disturb handling empties, if any. */
  function Disturbed(n: Nand): (r: Option<nat>)
    requires n.Shape()
    ensures r.Some? ==> r.value < n.geo.User() && n.blocks[r.value].state == Used
  {
    var (m, at) := ReadScan(n.blocks, n.geo.User());
    if READ_DISTURB <= m then at else None
  }

  /** ftl_handle_read_disturb. */
  function ReadDisturb(s: Ftl, draw: bool, buf: Page): (r: (RetCode, Ftl))
    requires s.Shape()
    ensures r.1.Shape() && r.1.Geo() == s.Geo()
  {
    match Disturbed(s.nand)
    case None => (Ok, s)
    case Some(src) =>
      match NextFree(s.nand, 0)
      case None => (NoSpace, s)
      case Some(dst) => (Ok, Relocate(s, src, dst, draw, buf).0)
  }

  // ---- host operations

  /** ftl_read: the answer, the buffer and the new state. */
  function Read(s: Ftl, lpn: nat, buf: Page): (r: (RetCode, Page, Ftl))
    requires s.Shape()
    ensures r.2.Shape() && r.2.Geo() == s.Geo()
  {
    if s.Geo().lpns <= lpn then (Param, buf, s)
    else if s.l2p[lpn] == INVALID then (NotMapped, buf, s)
    else
      var b := s.Geo().BlockOf(s.l2p[lpn]);
      var (code, data, n) := PageRead(s.nand, b, s.Geo().PageOf(s.l2p[lpn]), buf);
      if code == BadBlock then (BadBlock, data, ReplaceBlock(s.(nand := n), b, []).1)
      else (code, data, s.(nand := n))
  }

  /** One garbage-collection pass inside a write: the victim the selector chose and the wear draw. */
  datatype Pass = Pass(victim: nat, draw: bool)

  predicate NeedsGc(n: Nand)
    requires n.Shape()
  {
    FreeBelow(n.blocks, n.geo.User()) <= GC_TRIGGER
  }

  /** How the GC loop of ftl_write ends. */
  datatype LoopEnd = Enough | Failed | Running

  /**
   The GC loop of ftl_write over the passes it makes.  The loop of the source need not stop by
   itself; `Running` says that it has not stopped after these passes.
   */
  function GcLoop(s: Ftl, passes: seq<Pass>, noVictim: bool, buf: Page): (r: (LoopEnd, Ftl))
    requires s.Shape() && forall i :: 0 <= i < |passes| ==> passes[i].victim < s.Geo().blocks
    ensures r.1.Shape() && r.1.Geo() == s.Geo()
    decreases passes
  {
    if !NeedsGc(s.nand) then (Enough, s)
    else if passes == [] then (if noVictim then Failed else Running, s)
    else
      var (code, s1) := GcPass(s, passes[0].victim, passes[0].draw, buf);
      if code != Ok then (Failed, s1) else GcLoop(s1, passes[1..], noVictim, buf)
  }

  /** wal_log_write / wal_log_trim: nothing to do when no log is open. */
  function Log(s: Ftl, op: WalOp, lpn: nat, oldPpn: nat, newPpn: nat, wrote: bool): (r: (RetCode, Ftl))
    requires s.Shape()
    ensures r.1.Shape() && r.1 == s.(wal := r.1.wal)
  {
    match s.wal
    case None => (Ok, s)
    case Some(w) =>
      var (code, w1) := Append(w, op, lpn, oldPpn, newPpn, wrote);
      (code, s.(wal := Some(w1)))
  }

  /** Programming the allocated page, with the bad-block replacement and single retry of ftl_write. */
  function Program(s: Ftl, ppn: nat, data: Page): (r: (RetCode, nat, Ftl))
    requires s.Shape() && ppn < s.Geo().Total()
    ensures r.2.Shape() && r.2.Geo() == s.Geo() && r.1 < s.Geo().Total()
  {
    var b := s.Geo().BlockOf(ppn);
    var (code, n) := PageWrite(s.nand, b, s.Geo().PageOf(ppn), data);
    var s1 := s.(nand := n);
    if code != BadBlock then (code, ppn, s1)
    else
      var (rc, s2) := ReplaceBlock(s1, b, []);
      if rc != Ok then (rc, ppn, s2)
      else
        var (slot, s3) := Alloc(s2);
        match slot
        case None => (NoSpace, ppn, s3)
        case Some(again) =>
          var (code2, n4) := PageWrite(s3.nand, s.Geo().BlockOf(again), s.Geo().PageOf(again), data);
          (code2, again, s3.(nand := n4))
  }

  /** The table and metadata updates of ftl_write once the data is on the media. */
  function Commit(s: Ftl, lpn: nat, to: nat): (r: Ftl)
    requires s.Shape() && lpn < s.Geo().lpns && to < s.Geo().Total()
    ensures r.Shape() && r.Geo() == s.Geo()
  {
    var from := s.l2p[lpn];
    var s1 := s.(stats := s.stats.(host := s.stats.host + 1, nand := s.stats.nand + 1));
    var s2 := if from == INVALID then s1
              else s1.(nand := MarkInvalid(s1.nand, s.Geo().BlockOf(from), s.Geo().PageOf(from)).1,
                       rmap := s1.rmap[from := INVALID]);
    s2.(l2p := s2.l2p[lpn := to], rmap := s2.rmap[to := lpn])
  }

  /** The periodic static wear leveling of ftl_write. */
  function Periodic(s: Ftl, draw: bool, buf: Page): (r: Ftl)
    requires s.Shape()
    ensures r.Shape() && r.Geo() == s.Geo()
  {
    var k := s.stats.sinceCheck + 1;
    if k < STATIC_WEAR_INTERVAL then s.(stats := s.stats.(sinceCheck := k))
    else StaticWear(s.(stats := s.stats.(sinceCheck := 0)), draw, buf)
  }

  /** Everything ftl_write takes from outside: its GC passes, the log file, the wear draw. */
  datatype Env = Env(passes: seq<Pass>, noVictim: bool, wrote: bool, draw: bool)

  datatype WriteEnd = Done(code: RetCode) | Looping

  /** ftl_write up to and including the table updates: end, whether it committed, state. */
  function WriteBody(s: Ftl, lpn: nat, data: Page, env: Env): (r: (WriteEnd, Ftl))
    requires s.Shape() && lpn < s.Geo().lpns
    requires forall i :: 0 <= i < |env.passes| ==> env.passes[i].victim < s.Geo().blocks
    ensures r.1.Shape() && r.1.Geo() == s.Geo()
  {
    var (end, s1) := GcLoop(s, env.passes, env.noVictim, []);
    if end == Running then (Looping, s1)
    else if end == Failed then (Done(NoSpace), s1)
    else
      var (slot, s2) := Alloc(s1);
      match slot
      case None => (Done(NoSpace), s2)
      case Some(ppn) =>
        var (logged, s3) := Log(s2, OpWrite, lpn, s2.l2p[lpn], ppn, env.wrote);
        if logged != Ok then (Done(logged), s3)
        else
          var (code, to, s4) := Program(s3, ppn, data);
          if code != Ok then (Done(code), s4) else (Done(Ok), Commit(s4, lpn, to))
  }

  /** ftl_write in page-mapping mode. */
  function Write(s: Ftl, lpn: nat, data: Page, env: Env): (r: (WriteEnd, Ftl))
    requires s.Shape()
    requires forall i :: 0 <= i < |env.passes| ==> env.passes[i].victim < s.Geo().blocks
    ensures r.1.Shape() && r.1.Geo() == s.Geo()
  {
    if s.Geo().lpns <= lpn then (Done(Param), s)
    else
      var (end, s1) := WriteBody(s, lpn, data, env);
      if end != Done(Ok) then (end, s1)
      else (end, Periodic(WearCheck(s1), env.draw, []))
  }

  /** How many pages ftl_trim visits: the sum is a 32-bit word, and is clipped only if it is too big. */
  function TrimCount(g: Geometry, lpn: nat, count: nat): nat
    requires lpn < g.lpns
  {
    if g.lpns < (lpn + count) % TWO32 then g.lpns - lpn else count
  }

  /** The trim loop over `lpn..end`, and the number of pages released. */
  function TrimRange(s: Ftl, lpn: nat, end: nat, wrote: nat -> bool): (r: (Ftl, nat))
    requires s.Shape() && lpn <= end <= s.Geo().lpns
    ensures r.0.Shape() && r.0.Geo() == s.Geo()
    decreases end - lpn
  {
    if lpn == end then (s, 0)
    else if s.l2p[lpn] == INVALID then TrimRange(s, lpn + 1, end, wrote)
    else
      var (s1, k) := TrimRange(TrimOne(s, lpn, wrote), lpn + 1, end, wrote);
      (s1, k + 1)
  }

  /** The body of the trim loop for one mapped page; a failed log write is ignored. */
  function TrimOne(s: Ftl, lpn: nat, wrote: nat -> bool): (r: Ftl)
    requires s.Shape() && lpn < s.Geo().lpns && s.l2p[lpn] != INVALID
    ensures r.Shape() && r.Geo() == s.Geo()
  {
    var ppn := s.l2p[lpn];
    var s1 := Log(s, OpTrim, lpn, ppn, INVALID, wrote(lpn)).1;
    s1.(nand := MarkInvalid(s1.nand, s.Geo().BlockOf(ppn), s.Geo().PageOf(ppn)).1,
        l2p := s1.l2p[lpn := INVALID], rmap := s1.rmap[ppn := INVALID])
  }

  /** ftl_trim, where the loop stays inside the table. */
  function Trim(s: Ftl, lpn: nat, count: nat, wrote: nat -> bool): (r: (RetCode, Ftl))
    requires s.Shape()
    requires lpn < s.Geo().lpns && 0 < count ==> lpn + TrimCount(s.Geo(), lpn, count) <= s.Geo().lpns
    ensures r.1.Shape() && r.1.Geo() == s.Geo()
  {
    if count == 0 || s.Geo().lpns <= lpn then (Param, s)
    else
      var (s1, k) := TrimRange(s, lpn, lpn + TrimCount(s.Geo(), lpn, count), wrote);
      (Ok, s1.(stats := s1.stats.(trimCount := s1.stats.trimCount + 1, trimPages := s1.stats.trimPages + k)))
  }
}
