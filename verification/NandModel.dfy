/**
 The NAND module as a value: block metadata, the media with its out-of-band word, and one pure
 function for each operation.  The class in NandDevice.dfy updates arrays in place and is
 proved equal to these functions.
 */
module NandModel {
  import opened Common
  import opened Layout
  import Ecc

  type Page = seq<bv8>

  datatype BlockState = Free | Used | Bad

  /** Metadata of one physical block; `count` is the stored valid-page count. */
  datatype Block = Block(state: BlockState, erases: nat, count: nat, readCount: nat, valid: seq<bool>)

  /** One page of the media: data area, whether the out-of-band magic is set, stored ECC word. */
  datatype Cell = Cell(data: Page, tagged: bool, ecc: Ecc.Word)

  /** What programming a page leaves on the media. */
  function Seal(data: Page): Cell {
    Cell(data, true, Ecc.Encode(data))
  }

  /** What reading a page of the media puts in the caller's buffer: ECC is applied if the page is tagged. */
  function Readout(c: Cell): Page {
    if c.tagged then Ecc.Decode(c.data, c.ecc).1 else c.data
  }

  lemma ReadoutSealed(c: Cell)
    requires c == Seal(c.data)
    ensures Readout(c) == c.data
  {
    Ecc.DecodeUndamaged(c.data);
  }

  datatype Nand = Nand(
    geo: Geometry, wearLimit: nat, blocks: seq<Block>, media: seq<Cell>, reservedLeft: nat, writes: nat)
  {
    ghost predicate Shape() {
      && geo.Valid()
      && |blocks| == geo.blocks
      && |media| == geo.Total()
      && forall b :: 0 <= b < |blocks| ==> |blocks[b].valid| == geo.pages
    }

    /** `p` is a valid page of block `b` in the sense of nand_is_page_valid. */
    predicate IsValid(b: nat, p: nat)
      requires Shape() && b < geo.blocks && p < geo.pages
    {
      blocks[b].valid[p]
    }
  }

  /** nand_page_read; `buf` is the caller's buffer, returned untouched on error. */
  function PageRead(n: Nand, b: nat, p: nat, buf: Page): (r: (RetCode, Page, Nand))
    requires n.Shape()
    ensures r.2.Shape() && r.2 == n.(blocks := r.2.blocks)
  {
    if n.geo.blocks <= b || n.geo.pages <= p then (Param, buf, n)
    else if n.blocks[b].state == Bad then (BadBlock, buf, n)
    else if !n.blocks[b].valid[p] then (NotMapped, buf, n)
    else
      var blk := n.blocks[b];
      (Ok, Readout(n.media[n.geo.Ppn(b, p)]), n.(blocks := n.blocks[b := blk.(readCount := blk.readCount + 1)]))
  }

  /** nand_page_write: refuses bad blocks and valid pages, otherwise programs data and ECC word. */
  function PageWrite(n: Nand, b: nat, p: nat, buf: Page): (r: (RetCode, Nand))
    requires n.Shape()
    ensures r.1.Shape() && r.1.geo == n.geo
  {
    if n.geo.blocks <= b || n.geo.pages <= p then (Param, n)
    else if n.blocks[b].state == Bad then (BadBlock, n)
    else if n.blocks[b].valid[p] then (Overwrite, n)
    else
      var blk := n.blocks[b];
      (Ok, n.(media := n.media[n.geo.Ppn(b, p) := Seal(buf)],
              blocks := n.blocks[b := blk.(state := Used, count := blk.count + 1, valid := blk.valid[p := true])],
              writes := n.writes + 1))
  }

  /** A worn block turns bad on erase when the random draw says so. */
  predicate WearsOut(n: Nand, b: nat, draw: bool)
    requires n.Shape() && b < n.geo.blocks
  {
    n.wearLimit < n.blocks[b].erases && draw
  }

  /** nand_block_erase. */
  function Erase(n: Nand, b: nat, draw: bool): (r: (RetCode, Nand))
    requires n.Shape()
    ensures r.1.Shape() && r.1 == n.(blocks := r.1.blocks)
  {
    if n.geo.blocks <= b then (Param, n)
    else if n.blocks[b].state == Bad then (BadBlock, n)
    else if WearsOut(n, b, draw) then (BadBlock, n.(blocks := n.blocks[b := n.blocks[b].(state := Bad)]))
    else (Ok, n.(blocks := n.blocks[b := Block(Free, n.blocks[b].erases + 1, 0, 0, AllFalse(n.geo.pages))]))
  }

  function AllFalse(k: nat): (v: seq<bool>)
    ensures |v| == k && forall i :: 0 <= i < k ==> !v[i]
  {
    seq(k, _ => false)
  }

  /** nand_mark_page_invalid; the count is a 32-bit word and wraps below zero. */
  function MarkInvalid(n: Nand, b: nat, p: nat): (r: (RetCode, Nand))
    requires n.Shape()
    ensures r.1.Shape() && r.1 == n.(blocks := r.1.blocks)
  {
    if n.geo.blocks <= b || n.geo.pages <= p then (Param, n)
    else if n.blocks[b].state == Bad then (BadBlock, n)
    else if !n.blocks[b].valid[p] then (NotMapped, n)
    else
      var blk := n.blocks[b];
      var left := (blk.count - 1) % TWO32;
      (Ok, n.(blocks := n.blocks[b := blk.(
                state := if left == 0 then Free else blk.state, count := left, valid := blk.valid[p := false])]))
  }

  /** nand_mark_block_bad: clears the valid map and stamps the out-of-band area of page 0. */
  function MarkBad(n: Nand, b: nat): (r: Nand)
    requires n.Shape() && b < n.geo.blocks
    ensures r.Shape() && r.geo == n.geo
  {
    var at := n.geo.Ppn(b, 0);
    n.(blocks := n.blocks[b := n.blocks[b].(state := Bad, count := 0, valid := AllFalse(n.geo.pages))],
       media := n.media[at := n.media[at].(tagged := true, ecc := 0)])
  }

  /** First FREE block in `lo..hi`. */
  function FirstFree(blocks: seq<Block>, lo: nat, hi: nat): (r: Option<nat>)
    requires hi <= |blocks|
    ensures r.Some? ==> lo <= r.value < hi && blocks[r.value].state == Free
    ensures r.None? ==> forall i :: lo <= i < hi ==> blocks[i].state != Free
    decreases hi - lo
  {
    if hi <= lo then None
    else if blocks[lo].state == Free then Some(lo)
    else FirstFree(blocks, lo + 1, hi)
  }

  /** nand_alloc_reserved_block. */
  function AllocReserved(n: Nand): (r: (Option<nat>, Nand))
    requires n.Shape()
    ensures r.1.Shape() && r.1 == n.(reservedLeft := r.1.reservedLeft)
  {
    if n.reservedLeft == 0 then (None, n)
    else
      match FirstFree(n.blocks, n.geo.User(), n.geo.blocks)
      case None => (None, n)
      case Some(b) => (Some(b), n.(reservedLeft := n.reservedLeft - 1))
  }

  /** The copy loop of nand_replace_bad_block, from page `p` on: page by page at equal offsets. */
  function CopyValid(n: Nand, src: nat, dst: nat, p: nat, buf: Page): (r: Nand)
    requires n.Shape() && src < n.geo.blocks && dst < n.geo.blocks && p <= n.geo.pages
    ensures r.Shape() && r.geo == n.geo
    decreases n.geo.pages - p
  {
    if p == n.geo.pages then n
    else if !n.IsValid(src, p) then CopyValid(n, src, dst, p + 1, buf)
    else
      var (got, data, n1) := PageRead(n, src, p, buf);
      if got != Ok then CopyValid(n1, src, dst, p + 1, data)
      else
        var (put, n2) := PageWrite(n1, dst, p, data);
        CopyValid(n2, src, dst, p + 1, data)
  }

  /** nand_replace_bad_block: the code, the replacement block, and the new state. */
  function Replace(n: Nand, b: nat, buf: Page): (r: (RetCode, nat, Nand))
    requires n.Shape()
    ensures r.2.Shape() && r.2.geo == n.geo
    ensures r.0 == Ok ==> b < n.geo.blocks && r.1 < n.geo.blocks
  {
    if n.geo.blocks <= b || n.blocks[b].state == Free then (Param, 0, n)
    else
      var (got, n1) := AllocReserved(n);
      match got
      case None => (NoSpace, 0, n1)
      case Some(dst) =>
        var n2 := CopyValid(n1, b, dst, 0, buf);
        (Ok, dst, if n2.blocks[b].state != Bad then MarkBad(n2, b) else n2)
  }

  /** nand_get_free_block_count: FREE blocks outside the reserved region, below `k`. */
  function FreeBelow(blocks: seq<Block>, k: nat): (c: nat)
    requires k <= |blocks|
    ensures c <= k
  {
    if k == 0 then 0 else FreeBelow(blocks, k - 1) + (if blocks[k - 1].state == Free then 1 else 0)
  }
}
