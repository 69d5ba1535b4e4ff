/** The NAND module as the source has it: global arrays updated in place, one method a call. */
module NandDevice {
  import opened Common
  import opened Layout
  import opened NandModel
  import Ecc

  class NandDevice {
    const geo: Geometry
    const wearLimit: nat
    const blocks: array<Block>
    const media: array<Cell>
    var reservedLeft: nat
    var writes: nat

    ghost function View(): Nand
      reads this, blocks, media
    {
      Nand(geo, wearLimit, blocks[..], media[..], reservedLeft, writes)
    }

    ghost predicate Valid()
      reads this, blocks, media
    {
      View().Shape()
    }

    /** New media; `factoryBad` says which blocks the random draw of nand_init marks bad. */
    constructor (geo: Geometry, wearLimit: nat, factoryBad: nat -> bool)
      requires geo.Valid()
      ensures Valid() && fresh(blocks) && fresh(media) && this.geo == geo
      ensures forall b :: 0 <= b < geo.blocks ==>
                View().blocks[b] == Block(if factoryBad(b) then Bad else Free, 0, 0, 0, AllFalse(geo.pages))
      ensures reservedLeft == ReservedFree(geo, View().blocks, geo.blocks) && writes == 0
    {
      this.geo := geo;
      this.wearLimit := wearLimit;
      blocks := new Block[geo.blocks](b => Block(if factoryBad(b) then Bad else Free, 0, 0, 0, AllFalse(geo.pages)));
      media := new Cell[geo.Total()](_ => Cell([], false, 0));
      reservedLeft, writes := 0, 0;
      new;
      for b := geo.User() to geo.blocks
        invariant forall i :: 0 <= i < geo.blocks ==>
                    blocks[i] == Block(if factoryBad(i) then Bad else Free, 0, 0, 0, AllFalse(geo.pages))
        invariant reservedLeft == ReservedFree(geo, blocks[..], b) && writes == 0
      {
        if blocks[b].state == Free {
          reservedLeft := reservedLeft + 1;
        }
      }
    }

    method PageRead(b: nat, p: nat, buf: Page) returns (code: RetCode, data: Page)
      requires Valid()
      modifies blocks
      ensures Valid()
      ensures (code, data, View()) == NandModel.PageRead(old(View()), b, p, buf)
    {
      if geo.blocks <= b || geo.pages <= p { return Param, buf; }
      if blocks[b].state == Bad { return BadBlock, buf; }
      if !blocks[b].valid[p] { return NotMapped, buf; }
      var cell := media[geo.Ppn(b, p)];
      data := cell.data;
      if cell.tagged {
        var copy := new bv8[|data|](i requires 0 <= i < |data| => data[i]);
        assert copy[..] == data;
        var res := Ecc.DecodePage(copy, cell.ecc);
        data := copy[..];
      }
      blocks[b] := blocks[b].(readCount := blocks[b].readCount + 1);
      assert blocks[..] == old(blocks[..])[b := blocks[b]];
      code := Ok;
    }

    method PageWrite(b: nat, p: nat, buf: Page) returns (code: RetCode)
      requires Valid()
      modifies this, blocks, media
      ensures Valid()
      ensures (code, View()) == NandModel.PageWrite(old(View()), b, p, buf)
    {
      hide Ecc.Encode;
      if geo.blocks <= b || geo.pages <= p { return Param; }
      if blocks[b].state == Bad { return BadBlock; }
      if blocks[b].valid[p] { return Overwrite; }
      var copy := new bv8[|buf|](i requires 0 <= i < |buf| => buf[i]);
      assert copy[..] == buf;
      var _, ecc := Ecc.EncodePage(copy, 0);
      EmptyWord();
      media[geo.Ppn(b, p)] := Cell(buf, true, ecc);
      var blk := blocks[b];
      blocks[b] := blk.(state := Used, count := blk.count + 1, valid := blk.valid[p := true]);
      writes := writes + 1;
      assert media[..] == old(media[..])[geo.Ppn(b, p) := Seal(buf)];
      assert blocks[..] == old(blocks[..])[b := blocks[b]];
      code := Ok;
    }

    method Erase(b: nat, draw: bool) returns (code: RetCode)
      requires Valid()
      modifies blocks
      ensures Valid()
      ensures (code, View()) == NandModel.Erase(old(View()), b, draw)
    {
      if geo.blocks <= b { return Param; }
      if blocks[b].state == Bad { return BadBlock; }
      if wearLimit < blocks[b].erases && draw {
        blocks[b] := blocks[b].(state := Bad);
        assert blocks[..] == old(blocks[..])[b := blocks[b]];
        return BadBlock;
      }
      blocks[b] := Block(Free, blocks[b].erases + 1, 0, 0, AllFalse(geo.pages));
      assert blocks[..] == old(blocks[..])[b := blocks[b]];
      code := Ok;
    }

    method MarkInvalid(b: nat, p: nat) returns (code: RetCode)
      requires Valid()
      modifies blocks
      ensures Valid()
      ensures (code, View()) == NandModel.MarkInvalid(old(View()), b, p)
    {
      if geo.blocks <= b || geo.pages <= p { return Param; }
      if blocks[b].state == Bad { return BadBlock; }
      if !blocks[b].valid[p] { return NotMapped; }
      var blk := blocks[b];
      var left := (blk.count - 1) % TWO32;
      blocks[b] := blk.(count := left, valid := blk.valid[p := false]);
      if left == 0 {
        blocks[b] := blocks[b].(state := Free);
      }
      assert blocks[..] == old(blocks[..])[b := blocks[b]];
      code := Ok;
    }

    method MarkBad(b: nat)
      requires Valid() && b < geo.blocks
      modifies blocks, media
      ensures Valid()
      ensures View() == NandModel.MarkBad(old(View()), b)
    {
      blocks[b] := blocks[b].(state := Bad, count := 0, valid := AllFalse(geo.pages));
      var at := geo.Ppn(b, 0);
      media[at] := media[at].(tagged := true, ecc := 0);
      assert blocks[..] == old(blocks[..])[b := blocks[b]];
      assert media[..] == old(media[..])[at := media[at]];
    }

    method AllocReserved() returns (got: Option<nat>)
      requires Valid()
      modifies `reservedLeft
      ensures Valid()
      ensures (got, View()) == NandModel.AllocReserved(old(View()))
    {
      if reservedLeft == 0 { return None; }
      for i := geo.User() to geo.blocks
        invariant View() == old(View())
        invariant FirstFree(blocks[..], geo.User(), geo.blocks) == FirstFree(blocks[..], i, geo.blocks)
      {
        if blocks[i].state == Free {
          reservedLeft := reservedLeft - 1;
          return Some(i);
        }
      }
      got := None;
    }

    method Replace(b: nat, buf: Page) returns (code: RetCode, dst: nat)
      requires Valid()
      modifies this, blocks, media
      ensures Valid()
      ensures (code, dst, View()) == NandModel.Replace(old(View()), b, buf)
    {
      if geo.blocks <= b { return Param, 0; }
      if blocks[b].state == Free { return Param, 0; }
      var got := AllocReserved();
      if got.None? { return NoSpace, 0; }
      dst := got.value;
      var page := buf;
      ghost var n1 := View();
      for p := 0 to geo.pages
        invariant Valid()
        invariant CopyValid(View(), b, dst, p, page) == CopyValid(n1, b, dst, 0, buf)
      {
        if blocks[b].valid[p] {
          var ret;
          ret, page := PageRead(b, p, page);
          if ret == Ok {
            ret := PageWrite(dst, p, page);
          }
        }
      }
      if blocks[b].state != Bad { MarkBad(b); }
      code := Ok;
    }

    method FreeCount() returns (count: nat)
      requires Valid()
      ensures count == FreeBelow(View().blocks, geo.User())
    {
      count := 0;
      for i := 0 to geo.User()
        invariant count == FreeBelow(blocks[..], i)
      {
        if blocks[i].state == Free { count := count + 1; }
      }
    }
  }

  /** FREE blocks in the reserved region below `k`. */
  function ReservedFree(geo: Geometry, blocks: seq<Block>, k: nat): nat
    requires geo.Valid() && geo.User() <= k <= |blocks|
  {
    if k == geo.User() then 0
    else ReservedFree(geo, blocks, k - 1) + (if blocks[k - 1].state == Free then 1 else 0)
  }

  lemma EmptyWord()
    ensures Ecc.Encode([]) == 0
  {
  }
}
