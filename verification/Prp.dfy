/**
 The PRP walker: moving a buffer to and from guest memory through the physical region pages of a
 command (section 4.3 of NVMe 1.4), with guest addresses translated by the mapped DMA regions.
 */
module Prp {
  import opened Common

  newtype Byte = x: int | 0 <= x < 256

  const PAGE: nat := 4096
  const LIMIT: nat := 0xFFFF_FFFF

  /** One mapped DMA region; different regions have different host memory. */
  datatype Region = Region(iova: nat, bytes: seq<Byte>)

  type Mem = seq<Region>

  /** Regions are mapped in whole pages. */
  ghost predicate Paged(m: Mem) {
    forall i :: 0 <= i < |m| ==> m[i].iova % PAGE == 0 && |m[i].bytes| % PAGE == 0
  }

  predicate Holds(r: Region, gpa: nat) {
    r.iova <= gpa < r.iova + |r.bytes|
  }

  /** gpa_to_hva: the first region that contains the address. */
  function Translate(m: Mem, gpa: nat): (r: Option<nat>)
    ensures r.Some? ==> r.value < |m| && Holds(m[r.value], gpa)
  {
    if gpa == 0 || LIMIT < gpa then None else FirstHolding(m, gpa, 0)
  }

  function FirstHolding(m: Mem, gpa: nat, i: nat): (r: Option<nat>)
    requires i <= |m|
    ensures r.Some? ==> i <= r.value < |m| && Holds(m[r.value], gpa)
    decreases |m| - i
  {
    if i == |m| then None else if Holds(m[i], gpa) then Some(i) else FirstHolding(m, gpa, i + 1)
  }

  function PageBase(addr: nat): nat { addr - addr % PAGE }

  /** A piece of host memory: region, offset in it, length. */
  datatype Seg = Seg(region: nat, off: nat, len: nat)

  predicate Within(m: Mem, s: Seg) {
    s.region < |m| && s.off + s.len <= |m[s.region].bytes|
  }

  function Load(m: Mem, s: Seg): (b: seq<Byte>)
    requires Within(m, s)
    ensures |b| == s.len
  {
    m[s.region].bytes[s.off..s.off + s.len]
  }

  function Store(m: Mem, s: Seg, b: seq<Byte>): (m': Mem)
    requires Within(m, s) && |b| == s.len
    ensures SameLayout(m, m')
  {
    var bytes := m[s.region].bytes;
    m[s.region := m[s.region].(bytes := bytes[..s.off] + b + bytes[s.off + s.len..])]
  }

  ghost predicate SameLayout(m: Mem, m': Mem) {
    |m| == |m'| && forall i :: 0 <= i < |m| ==> m[i].iova == m'[i].iova && |m[i].bytes| == |m'[i].bytes|
  }

  /** Bytes the transfer moves at `addr` with `left` bytes to go: to the end of the page at most. */
  function Chunk(addr: nat, left: nat): (c: nat)
    requires 0 < left
    ensures 0 < c <= left && addr % PAGE + c <= PAGE
  {
    if left < PAGE - addr % PAGE then left else PAGE - addr % PAGE
  }

  /** Host memory of the next chunk, or nothing if its page is not mapped. */
  function Place(m: Mem, addr: nat, left: nat): (r: Option<Seg>)
    requires 0 < left
    ensures r.Some? ==> r.value.len == Chunk(addr, left)
  {
    match Translate(m, PageBase(addr))
    case None => None
    case Some(i) => Some(Seg(i, PageBase(addr) - m[i].iova + addr % PAGE, Chunk(addr, left)))
  }

  lemma PlaceWithin(m: Mem, addr: nat, left: nat)
    requires Paged(m) && 0 < left && Place(m, addr, left).Some?
    ensures Within(m, Place(m, addr, left).value)
  {
    var i := Translate(m, PageBase(addr)).value;
    assert m[i].iova % PAGE == 0 && |m[i].bytes| % PAGE == 0;
    assert PageBase(addr) % PAGE == 0;
    assert PageBase(addr) + PAGE <= m[i].iova + |m[i].bytes|;
  }

  /** PRP2 points to a list iff the transfer needs more than two pages. */
  predicate UsesList(prp1: nat, len: nat) {
    (PAGE - prp1 % PAGE) + PAGE < len
  }

  /** Little-endian 64-bit word. */
  function Word64(b: seq<Byte>): nat
    requires |b| == 8
  {
    b[0] as int + 0x100 * b[1] as int + 0x1_0000 * b[2] as int + 0x100_0000 * b[3] as int
    + 0x1_0000_0000 * b[4] as int + 0x100_0000_0000 * b[5] as int + 0x1_0000_0000_0000 * b[6] as int
    + 0x100_0000_0000_0000 * b[7] as int
  }

  /** The eight bytes of a 64-bit word, lowest first. */
  function EntryBytes(n: nat): (r: seq<Byte>)
    requires n < 0x1_0000_0000_0000_0000
    ensures |r| == 8
  {
    Half(n % 0x1_0000_0000) + Half(n / 0x1_0000_0000)
  }

  function Half(n: nat): (r: seq<Byte>)
    requires n < 0x1_0000_0000
    ensures |r| == 4
    ensures r[0] as int + 0x100 * r[1] as int + 0x1_0000 * r[2] as int + 0x100_0000 * r[3] as int == n
  {
    var q1 := n / 256;
    var q2 := q1 / 256;
    [(n % 256) as Byte, (q1 % 256) as Byte, (q2 % 256) as Byte, (q2 / 256) as Byte]
  }

  /** An address stored in a list entry is the address the walk reads from it. */
  lemma EntryReadsBack(n: nat)
    requires n < 0x1_0000_0000_0000_0000
    ensures Word64(EntryBytes(n)) == n
  {
    var b, lo, hi := EntryBytes(n), Half(n % 0x1_0000_0000), Half(n / 0x1_0000_0000);
    assert b[0] == lo[0] && b[1] == lo[1] && b[2] == lo[2] && b[3] == lo[3];
    assert b[4] == hi[0] && b[5] == hi[1] && b[6] == hi[2] && b[7] == hi[3];
  }

  /** Where list entry `i` sits, if PRP2 is mapped. */
  function EntryPlace(m: Mem, prp2: nat, i: nat): Option<Seg> {
    match Translate(m, prp2)
    case None => None
    case Some(r) => Some(Seg(r, prp2 - m[r].iova + 8 * i, 8))
  }

  /** Where the walk goes after `done` chunks. */
  datatype Next = At(addr: nat) | ListUnmapped | ListTooLong | NoMore

  function NextAddr(m: Mem, prp2: nat, list: bool, done: nat): (r: Next)
    requires 0 < done
    ensures list ==> r != NoMore
  {
    if list then
      match EntryPlace(m, prp2, done - 1)
      case None => ListUnmapped
      case Some(s) => if Within(m, s) then At(Word64(Load(m, s))) else ListTooLong
    else if done == 1 then At(prp2)
    else NoMore
  }

  /**
   How a transfer ends.  RET_OK is Finished and RET_ERR_PARAM is BadAddress; WildList stands for reading list
   entries beyond the mapped region, where the behaviour of the source is undefined.
   */
  datatype End = Finished | BadAddress | WildList

  /** prp_read_data from the current address on: `left` bytes still to read. */
  function Gather(m: Mem, prp2: nat, list: bool, addr: nat, done: nat, left: nat): (End, seq<Byte>)
    requires Paged(m)
    decreases left
  {
    if left == 0 then (Finished, [])
    else
      match Place(m, addr, left)
      case None => (BadAddress, [])
      case Some(s) =>
        PlaceWithin(m, addr, left);
        var here := Load(m, s);
        if s.len == left then (Finished, here)
        else
          match NextAddr(m, prp2, list, done + 1)
          case At(a) => var (end, rest) := Gather(m, prp2, list, a, done + 1, left - s.len); (end, here + rest)
          case ListUnmapped => (BadAddress, here)
          case ListTooLong => (WildList, here)
          case NoMore => (Finished, here)
  }

  /** prp_write_data from the current address on: `buf` is what is still to be written. */
  function Scatter(m: Mem, prp2: nat, list: bool, addr: nat, done: nat, buf: seq<Byte>): (r: (End, Mem))
    requires Paged(m)
    ensures SameLayout(m, r.1)
    decreases |buf|
  {
    if buf == [] then (Finished, m)
    else
      match Place(m, addr, |buf|)
      case None => (BadAddress, m)
      case Some(s) =>
        PlaceWithin(m, addr, |buf|);
        var m1 := Store(m, s, buf[..s.len]);
        if s.len == |buf| then (Finished, m1)
        else
          match NextAddr(m1, prp2, list, done + 1)
          case At(a) => Scatter(m1, prp2, list, a, done + 1, buf[s.len..])
          case ListUnmapped => (BadAddress, m1)
          case ListTooLong => (WildList, m1)
          case NoMore => (Finished, m1)
  }

  function ReadData(m: Mem, prp1: nat, prp2: nat, len: nat): (End, seq<Byte>)
    requires Paged(m)
  {
    Gather(m, prp2, UsesList(prp1, len), prp1, 0, len)
  }

  function WriteData(m: Mem, prp1: nat, prp2: nat, buf: seq<Byte>): (r: (End, Mem))
    requires Paged(m)
    ensures SameLayout(m, r.1)
  {
    Scatter(m, prp2, UsesList(prp1, |buf|), prp1, 0, buf)
  }

  // ---- the plan of a transfer: which pieces of host memory, in order

  function Plan(m: Mem, prp2: nat, list: bool, addr: nat, done: nat, left: nat): (r: (End, seq<Seg>))
    requires Paged(m)
    ensures forall i :: 0 <= i < |r.1| ==> Within(m, r.1[i])
    ensures 0 < left && r.0 == Finished ==> r.1 != []
    decreases left
  {
    if left == 0 then (Finished, [])
    else
      match Place(m, addr, left)
      case None => (BadAddress, [])
      case Some(s) =>
        PlaceWithin(m, addr, left);
        if s.len == left then (Finished, [s])
        else
          match NextAddr(m, prp2, list, done + 1)
          case At(a) => var (end, rest) := Plan(m, prp2, list, a, done + 1, left - s.len); (end, [s] + rest)
          case ListUnmapped => (BadAddress, [s])
          case ListTooLong => (WildList, [s])
          case NoMore => (Finished, [s])
  }

  /**
   One past the last list entry that a transfer reads which moves `k` pieces from piece `done` on and ends with `end`.
   */
  function ListEnd(list: bool, done: nat, end: End, k: nat): nat {
    if !list then 0 else if end == Finished && 0 < k then done + k - 1 else done + k
  }

  function Total(segs: seq<Seg>): nat {
    if segs == [] then 0 else segs[0].len + Total(segs[1..])
  }

  lemma TotalCons()
    ensures Total([]) == 0
    ensures forall s: Seg {:trigger Total([s])} :: Total([s]) == s.len
    ensures forall s: Seg, rest {:trigger Total([s] + rest)} :: Total([s] + rest) == s.len + Total(rest)
  {
    forall s: Seg, rest ensures Total([s] + rest) == s.len + Total(rest) {
      assert ([s] + rest)[1..] == rest;
    }
    forall s: Seg ensures Total([s]) == s.len {
      assert [s][1..] == [];
    }
  }

  predicate Apart(a: Seg, b: Seg) {
    a.region != b.region || a.off + a.len <= b.off || b.off + b.len <= a.off
  }

  ghost predicate PairwiseApart(segs: seq<Seg>) {
    forall i, j :: 0 <= i < j < |segs| ==> Apart(segs[i], segs[j])
  }

  /** None of the pieces touches the first `n` entries of the list. */
  ghost predicate ListUntouched(m: Mem, prp2: nat, n: nat, segs: seq<Seg>) {
    forall i, k :: 0 <= i < |segs| && 0 <= k < n && EntryPlace(m, prp2, k).Some? ==>
      Apart(segs[i], EntryPlace(m, prp2, k).value)
  }

  lemma StoreElsewhere(m: Mem, s: Seg, b: seq<Byte>, t: Seg)
    requires Within(m, s) && |b| == s.len && Within(m, t) && Apart(s, t)
    ensures Load(Store(m, s, b), t) == Load(m, t)
  {
  }

  lemma StoreHere(m: Mem, s: Seg, b: seq<Byte>)
    requires Within(m, s) && |b| == s.len
    ensures Load(Store(m, s, b), s) == b
  {
  }

  lemma {:induction false} TranslateLayout(m: Mem, m': Mem, gpa: nat, i: nat)
    requires SameLayout(m, m') && i <= |m|
    ensures FirstHolding(m, gpa, i) == FirstHolding(m', gpa, i)
    decreases |m| - i
  {
    if i < |m| { TranslateLayout(m, m', gpa, i + 1); }
  }

  lemma PlaceLayout(m: Mem, m': Mem, addr: nat, left: nat)
    requires SameLayout(m, m') && 0 < left
    ensures Place(m', addr, left) == Place(m, addr, left)
    ensures Paged(m) ==> Paged(m')
  {
    TranslateLayout(m, m', PageBase(addr), 0);
  }

  lemma EntryLayout(m: Mem, m': Mem, prp2: nat, i: nat)
    requires SameLayout(m, m')
    ensures EntryPlace(m', prp2, i) == EntryPlace(m, prp2, i)
  {
    TranslateLayout(m, m', prp2, 0);
  }

  /** The list reads the same in both memories, up to entry `n`. */
  ghost predicate SameList(m: Mem, m': Mem, prp2: nat, n: nat) {
    && SameLayout(m, m')
    && forall k :: 0 <= k < n && EntryPlace(m, prp2, k).Some? && Within(m, EntryPlace(m, prp2, k).value) ==>
        Load(m', EntryPlace(m, prp2, k).value) == Load(m, EntryPlace(m, prp2, k).value)
  }

  lemma NextLayout(m: Mem, m': Mem, prp2: nat, list: bool, done: nat, n: nat)
    requires SameList(m, m', prp2, n) && 0 < done && (list ==> done <= n)
    ensures NextAddr(m', prp2, list, done) == NextAddr(m, prp2, list, done)
  {
    EntryLayout(m, m', prp2, done - 1);
  }

  lemma SameListLayout(m: Mem, m': Mem, prp2: nat, n: nat)
    requires SameList(m, m', prp2, n)
    ensures SameLayout(m, m')
  {
  }

  /** The plan depends on the layout and on the list only. */
  lemma {:induction false} PlanSame(m: Mem, m': Mem, prp2: nat, list: bool, addr: nat, done: nat, left: nat, n: nat)
    requires Paged(m) && Paged(m') && SameList(m, m', prp2, n)
    requires var (end, segs) := Plan(m, prp2, list, addr, done, left); ListEnd(list, done, end, |segs|) <= n
    ensures Plan(m', prp2, list, addr, done, left) == Plan(m, prp2, list, addr, done, left)
    decreases left
  {
    hide EntryPlace, Translate, Word64, Load, Place, NextAddr, SameList;
    SameListLayout(m, m', prp2, n);
    if left != 0 {
      PlaceLayout(m, m', addr, left);
      if Place(m, addr, left).Some? {
        var s := Place(m, addr, left).value;
        if s.len != left {
          NextLayout(m, m', prp2, list, done + 1, n);
          var next := NextAddr(m, prp2, list, done + 1);
          if next.At? { PlanSame(m, m', prp2, list, next.addr, done + 1, left - s.len, n); }
        }
      }
    }
  }

  function LoadAll(m: Mem, segs: seq<Seg>): (b: seq<Byte>)
    requires forall i :: 0 <= i < |segs| ==> Within(m, segs[i])
    ensures |b| == Total(segs)
  {
    if segs == [] then [] else Load(m, segs[0]) + LoadAll(m, segs[1..])
  }

  lemma PlanUnfolds(m: Mem, prp2: nat, list: bool, addr: nat, done: nat, left: nat, s: Seg)
    requires Paged(m) && 0 < left && Place(m, addr, left) == Some(s)
    ensures var (end, segs) := Plan(m, prp2, list, addr, done, left);
            if s.len == left then (end, segs) == (Finished, [s])
            else
              match NextAddr(m, prp2, list, done + 1)
              case At(a) =>
                end == Plan(m, prp2, list, a, done + 1, left - s.len).0
                && segs == [s] + Plan(m, prp2, list, a, done + 1, left - s.len).1
              case ListUnmapped => (end, segs) == (BadAddress, [s])
              case ListTooLong => (end, segs) == (WildList, [s])
              case NoMore => (end, segs) == (Finished, [s])
  {
    hide Place, NextAddr;
  }

  lemma GatherUnfolds(m: Mem, prp2: nat, list: bool, addr: nat, done: nat, left: nat, s: Seg)
    requires Paged(m) && 0 < left && Place(m, addr, left) == Some(s)
    ensures Within(m, s) && s.len <= left
    ensures Gather(m, prp2, list, addr, done, left) ==
            if s.len == left then (Finished, Load(m, s))
            else
              match NextAddr(m, prp2, list, done + 1)
              case At(a) =>
                var (end, rest) := Gather(m, prp2, list, a, done + 1, left - s.len);
                (end, Load(m, s) + rest)
              case ListUnmapped => (BadAddress, Load(m, s))
              case ListTooLong => (WildList, Load(m, s))
              case NoMore => (Finished, Load(m, s))
  {
    hide Place, NextAddr, Load;
    PlaceWithin(m, addr, left);
  }

  lemma LoadAllCons(m: Mem, s: Seg, rest: seq<Seg>)
    requires Within(m, s) && forall i :: 0 <= i < |rest| ==> Within(m, rest[i])
    ensures forall i :: 0 <= i < |[s] + rest| ==> Within(m, ([s] + rest)[i])
    ensures LoadAll(m, [s] + rest) == Load(m, s) + LoadAll(m, rest)
    ensures LoadAll(m, [s]) == Load(m, s)
  {
    hide Load;
    assert ([s] + rest)[1..] == rest;
    assert [s][1..] == [];
  }

  /** Reading delivers the planned pieces, in order. */
  lemma {:induction false} GatherIsPlan(m: Mem, prp2: nat, list: bool, addr: nat, done: nat, left: nat)
    requires Paged(m)
    ensures var (end, segs) := Plan(m, prp2, list, addr, done, left);
            Gather(m, prp2, list, addr, done, left) == (end, LoadAll(m, segs))
    decreases left, 1
  {
    hide Place, NextAddr, Load;
    if left != 0 && Place(m, addr, left).Some? {
      GatherStep(m, prp2, list, addr, done, left, Place(m, addr, left).value);
    }
  }

  lemma GatherStep(m: Mem, prp2: nat, list: bool, addr: nat, done: nat, left: nat, s: Seg)
    requires Paged(m) && 0 < left && Place(m, addr, left) == Some(s)
    ensures var (end, segs) := Plan(m, prp2, list, addr, done, left);
            Gather(m, prp2, list, addr, done, left) == (end, LoadAll(m, segs))
    decreases left, 0
  {
    hide Place, NextAddr, Load, Plan, Gather, LoadAll, Within;
    PlanUnfolds(m, prp2, list, addr, done, left, s);
    GatherUnfolds(m, prp2, list, addr, done, left, s);
    LoadAllCons(m, s, []);
    var next := NextAddr(m, prp2, list, done + 1);
    if s.len != left && next.At? {
      GatherIsPlan(m, prp2, list, next.addr, done + 1, left - s.len);
      LoadAllCons(m, s, Plan(m, prp2, list, next.addr, done + 1, left - s.len).1);
    }
  }

  lemma {:induction false} PlanTotal(m: Mem, prp2: nat, list: bool, addr: nat, done: nat, left: nat)
    requires Paged(m)
    ensures Total(Plan(m, prp2, list, addr, done, left).1) <= left
    decreases left
  {
    hide Place, NextAddr;
    TotalCons();
    if left != 0 && Place(m, addr, left).Some? {
      hide Plan, Total;
      var s := Place(m, addr, left).value;
      PlaceWithin(m, addr, left);
      PlanUnfolds(m, prp2, list, addr, done, left, s);
      var next := NextAddr(m, prp2, list, done + 1);
      if s.len != left && next.At? {
        PlanTotal(m, prp2, list, next.addr, done + 1, left - s.len);
      }
    }
  }

  // ---- writing follows the plan and changes nothing else

  /** `m'` is `m` with `b` written over the pieces: read back piece by piece, and nothing else changed. */
  ghost predicate Wrote(m: Mem, m': Mem, segs: seq<Seg>, b: seq<Byte>) {
    && SameLayout(m, m')
    && (forall i :: 0 <= i < |segs| ==> Within(m', segs[i]))
    && LoadAll(m', segs) == b
    && forall t: Seg :: Within(m, t) && (forall i :: 0 <= i < |segs| ==> Apart(segs[i], t)) ==>
         Load(m', t) == Load(m, t)
  }

  lemma WroteOne(m: Mem, s: Seg, b: seq<Byte>)
    requires Within(m, s) && |b| == s.len
    ensures Wrote(m, Store(m, s, b), [s], b)
  {
    StoreHere(m, s, b);
    assert [s][1..] == [];
    forall t: Seg | Within(m, t) && Apart(s, t) ensures Load(Store(m, s, b), t) == Load(m, t) {
      StoreElsewhere(m, s, b, t);
    }
    forall t: Seg | Within(m, t) && (forall i :: 0 <= i < |[s]| ==> Apart([s][i], t)) ensures Apart(s, t) {
      assert [s][0] == s;
    }
  }

  lemma WroteNothing(m: Mem)
    ensures Wrote(m, m, [], [])
  {
  }

  lemma WroteMore(m: Mem, s: Seg, b: seq<Byte>, m': Mem, rest: seq<Seg>, c: seq<Byte>)
    requires Within(m, s) && |b| == s.len
    requires forall i :: 0 <= i < |rest| ==> Within(m, rest[i]) && Apart(s, rest[i])
    requires Wrote(Store(m, s, b), m', rest, c)
    ensures Wrote(m, m', [s] + rest, b + c)
  {
    var m1 := Store(m, s, b);
    var segs := [s] + rest;
    assert segs[1..] == rest && segs[0] == s;
    StoreHere(m, s, b);
    assert forall i :: 0 <= i < |rest| ==> Apart(rest[i], s);
    assert Load(m', s) == b;
    forall t: Seg | Within(m, t) && (forall i :: 0 <= i < |segs| ==> Apart(segs[i], t))
      ensures Load(m', t) == Load(m, t)
    {
      assert Apart(segs[0], t);
      assert forall i :: 0 <= i < |rest| ==> rest[i] == segs[i + 1];
      StoreElsewhere(m, s, b, t);
      assert Load(m', t) == Load(m1, t);
    }
  }

  lemma ScatterUnfolds(m: Mem, prp2: nat, list: bool, addr: nat, done: nat, buf: seq<Byte>, s: Seg)
    requires Paged(m) && buf != [] && Place(m, addr, |buf|) == Some(s)
    ensures Within(m, s) && s.len <= |buf|
    ensures var m1 := Store(m, s, buf[..s.len]);
            Paged(m1) &&
            Scatter(m, prp2, list, addr, done, buf) ==
            if s.len == |buf| then (Finished, m1)
            else
              match NextAddr(m1, prp2, list, done + 1)
              case At(a) => Scatter(m1, prp2, list, a, done + 1, buf[s.len..])
              case ListUnmapped => (BadAddress, m1)
              case ListTooLong => (WildList, m1)
              case NoMore => (Finished, m1)
  {
    hide Place, NextAddr, Store;
    PlaceWithin(m, addr, |buf|);
    PlaceLayout(m, Store(m, s, buf[..s.len]), addr, |buf|);
  }

  /** Writing follows the plan, as long as the pieces are apart from each other and from the list. */
  lemma {:induction false} ScatterIsPlan(m: Mem, prp2: nat, list: bool, addr: nat, done: nat, buf: seq<Byte>)
    requires Paged(m)
    requires var (end, segs) := Plan(m, prp2, list, addr, done, |buf|);
             PairwiseApart(segs) && ListUntouched(m, prp2, ListEnd(list, done, end, |segs|), segs)
    ensures var (end, segs) := Plan(m, prp2, list, addr, done, |buf|);
            var (e, m') := Scatter(m, prp2, list, addr, done, buf);
            e == end && Total(segs) <= |buf| && Wrote(m, m', segs, buf[..Total(segs)])
    decreases |buf|, 1
  {
    var (end, segs) := Plan(m, prp2, list, addr, done, |buf|);
    PlanTotal(m, prp2, list, addr, done, |buf|);
    if buf == [] || Place(m, addr, |buf|).None? {
      WroteNothing(m);
    } else {
      ScatterStep(m, prp2, list, addr, done, buf, Place(m, addr, |buf|).value);
    }
  }

  lemma ScatterStep(m: Mem, prp2: nat, list: bool, addr: nat, done: nat, buf: seq<Byte>, s: Seg)
    requires Paged(m) && buf != [] && Place(m, addr, |buf|) == Some(s)
    requires var (end, segs) := Plan(m, prp2, list, addr, done, |buf|);
             PairwiseApart(segs) && ListUntouched(m, prp2, ListEnd(list, done, end, |segs|), segs)
    ensures var (end, segs) := Plan(m, prp2, list, addr, done, |buf|);
            var (e, m') := Scatter(m, prp2, list, addr, done, buf);
            e == end && Total(segs) <= |buf| && Wrote(m, m', segs, buf[..Total(segs)])
    decreases |buf|, 0
  {
    hide EntryPlace, Translate, Word64, Load, Store, Place, NextAddr, Apart, Within, Wrote, SameList, Total,
      PairwiseApart, ListUntouched, Plan, Scatter;
    var (end, segs) := Plan(m, prp2, list, addr, done, |buf|);
    PlanTotal(m, prp2, list, addr, done, |buf|);
    PlanUnfolds(m, prp2, list, addr, done, |buf|, s);
    ScatterUnfolds(m, prp2, list, addr, done, buf, s);
    TotalCons();
    var m1 := Store(m, s, buf[..s.len]);
    WroteOne(m, s, buf[..s.len]);
    if s.len != |buf| {
      assert segs[0] == s;
      var n := ListEnd(list, done, end, |segs|);
      StoreKeepsList(m, s, buf[..s.len], prp2, n, segs);
      NextLayout(m, m1, prp2, list, done + 1, n);
      var next := NextAddr(m, prp2, list, done + 1);
      if next.At? {
        var left := |buf| - s.len;
        PlanSame(m, m1, prp2, list, next.addr, done + 1, left, n);
        var rest := Plan(m, prp2, list, next.addr, done + 1, left).1;
        assert segs[1..] == rest;
        RestApart(m, m1, prp2, n, n, segs);
        ScatterIsPlan(m1, prp2, list, next.addr, done + 1, buf[s.len..]);
        var m' := Scatter(m1, prp2, list, next.addr, done + 1, buf[s.len..]).1;
        WroteMore(m, s, buf[..s.len], m', rest, buf[s.len..][..Total(rest)]);
        assert buf[..s.len] + buf[s.len..][..Total(rest)] == buf[..Total(segs)];
      }
    }
  }

  lemma StoreKeepsList(m: Mem, s: Seg, b: seq<Byte>, prp2: nat, n: nat, segs: seq<Seg>)
    requires Within(m, s) && |b| == s.len && segs != [] && segs[0] == s && ListUntouched(m, prp2, n, segs)
    ensures SameList(m, Store(m, s, b), prp2, n)
  {
    forall k | 0 <= k < n && EntryPlace(m, prp2, k).Some? && Within(m, EntryPlace(m, prp2, k).value)
      ensures Load(Store(m, s, b), EntryPlace(m, prp2, k).value) == Load(m, EntryPlace(m, prp2, k).value)
    {
      assert Apart(segs[0], EntryPlace(m, prp2, k).value);
      StoreElsewhere(m, s, b, EntryPlace(m, prp2, k).value);
    }
  }

  lemma RestApart(m: Mem, m1: Mem, prp2: nat, n: nat, n1: nat, segs: seq<Seg>)
    requires segs != [] && PairwiseApart(segs) && ListUntouched(m, prp2, n, segs) && n1 <= n && SameLayout(m, m1)
    ensures PairwiseApart(segs[1..]) && ListUntouched(m1, prp2, n1, segs[1..])
    ensures forall i :: 0 <= i < |segs[1..]| ==> Apart(segs[0], segs[1..][i])
  {
    assert forall i :: 0 <= i < |segs[1..]| ==> segs[1..][i] == segs[i + 1];
    forall k | 0 <= k < n1 ensures EntryPlace(m1, prp2, k) == EntryPlace(m, prp2, k) { EntryLayout(m, m1, prp2, k); }
  }

  /**
   The hypotheses on a transfer: mapped in whole pages, its pieces apart from each other and from the list entries it
   reads.
   */
  ghost predicate CleanTransfer(m: Mem, prp1: nat, prp2: nat, len: nat) {
    Paged(m)
    && var list := UsesList(prp1, len);
       var (end, segs) := Plan(m, prp2, list, prp1, 0, len);
       PairwiseApart(segs) && ListUntouched(m, prp2, ListEnd(list, 0, end, |segs|), segs)
  }

  /**
   Scatter, then gather with the same pointers: the same end, exactly the bytes that were moved come back in
   order, and no byte of guest memory outside the pieces of the transfer has changed.
   */
  lemma ScatterGather(m: Mem, prp1: nat, prp2: nat, buf: seq<Byte>)
    requires CleanTransfer(m, prp1, prp2, |buf|)
    ensures var (end, segs) := Plan(m, prp2, UsesList(prp1, |buf|), prp1, 0, |buf|);
            var (e, m') := WriteData(m, prp1, prp2, buf);
            && e == end && Paged(m') && Total(segs) <= |buf|
            && ReadData(m', prp1, prp2, |buf|) == (end, buf[..Total(segs)])
            && forall t: Seg :: Within(m, t) && (forall i :: 0 <= i < |segs| ==> Apart(segs[i], t)) ==>
                 Load(m', t) == Load(m, t)
  {
    hide Plan, Scatter, Gather, Load, EntryPlace;
    var list := UsesList(prp1, |buf|);
    var (end, segs) := Plan(m, prp2, list, prp1, 0, |buf|);
    ScatterIsPlan(m, prp2, list, prp1, 0, buf);
    var m' := WriteData(m, prp1, prp2, buf).1;
    var n := ListEnd(list, 0, end, |segs|);
    forall k | 0 <= k < n && EntryPlace(m, prp2, k).Some? && Within(m, EntryPlace(m, prp2, k).value)
      ensures Load(m', EntryPlace(m, prp2, k).value) == Load(m, EntryPlace(m, prp2, k).value)
    {
      assert forall i :: 0 <= i < |segs| ==> Apart(segs[i], EntryPlace(m, prp2, k).value);
    }
    assert Paged(m');
    PlanSame(m, m', prp2, list, prp1, 0, |buf|, n);
    GatherIsPlan(m', prp2, list, prp1, 0, |buf|);
  }

  // ---- clean transfers, in terms of pages

  /** The addresses a transfer visits, one for each piece. */
  function Visited(m: Mem, prp2: nat, list: bool, addr: nat, done: nat, left: nat): (r: seq<nat>)
    requires Paged(m)
    ensures |r| == |Plan(m, prp2, list, addr, done, left).1|
    decreases left
  {
    if left == 0 || Place(m, addr, left).None? then []
    else
      var s := Place(m, addr, left).value;
      if s.len == left then [addr]
      else
        match NextAddr(m, prp2, list, done + 1)
        case At(a) => [addr] + Visited(m, prp2, list, a, done + 1, left - s.len)
        case _ => [addr]
  }

  /** `s` is the host memory of a chunk at `addr`. */
  predicate PlacedAt(m: Mem, addr: nat, s: Seg) {
    0 < s.len && Place(m, addr, s.len) == Some(s)
  }

  ghost predicate AllPlaced(m: Mem, at: seq<nat>, segs: seq<Seg>) {
    |at| == |segs| && forall i :: 0 <= i < |at| ==> PlacedAt(m, at[i], segs[i])
  }

  lemma AllPlacedCons(m: Mem, addr: nat, s: Seg, at: seq<nat>, segs: seq<Seg>)
    requires PlacedAt(m, addr, s) && AllPlaced(m, at, segs)
    ensures AllPlaced(m, [addr] + at, [s] + segs)
  {
    hide PlacedAt;
    forall i | 0 <= i < |[addr] + at| ensures PlacedAt(m, ([addr] + at)[i], ([s] + segs)[i]) {
      if 0 < i { assert PlacedAt(m, at[i - 1], segs[i - 1]); }
    }
  }

  lemma PlaceOfItsLength(m: Mem, addr: nat, left: nat)
    requires 0 < left && Place(m, addr, left).Some?
    ensures PlacedAt(m, addr, Place(m, addr, left).value)
  {
  }

  lemma {:induction false} PlacedWhereVisited(m: Mem, prp2: nat, list: bool, addr: nat, done: nat, left: nat)
    requires Paged(m)
    ensures AllPlaced(m, Visited(m, prp2, list, addr, done, left), Plan(m, prp2, list, addr, done, left).1)
    decreases left
  {
    hide NextAddr, Place, PlacedAt;
    if left != 0 && Place(m, addr, left).Some? {
      var s := Place(m, addr, left).value;
      PlaceWithin(m, addr, left);
      PlaceOfItsLength(m, addr, left);
      if s.len != left {
        var next := NextAddr(m, prp2, list, done + 1);
        if next.At? {
          PlacedWhereVisited(m, prp2, list, next.addr, done + 1, left - s.len);
          AllPlacedCons(m, addr, s, Visited(m, prp2, list, next.addr, done + 1, left - s.len),
                        Plan(m, prp2, list, next.addr, done + 1, left - s.len).1);
        }
      }
    }
  }

  /**
   A transfer is clean if it visits every page at most once and, when it uses a list, the entries it reads lie on
   one page that holds no data of the transfer.
   */
  lemma CleanByPages(m: Mem, prp1: nat, prp2: nat, len: nat)
    requires Paged(m)
    requires var list := UsesList(prp1, len);
             var at := Visited(m, prp2, list, prp1, 0, len);
             && (forall i, j :: 0 <= i < j < |at| ==> PageBase(at[i]) != PageBase(at[j]))
             && (list ==>
                   && prp2 % PAGE + 8 * ListEnd(list, 0, Plan(m, prp2, list, prp1, 0, len).0, |at|) <= PAGE
                   && forall i :: 0 <= i < |at| ==> PageBase(at[i]) != PageBase(prp2))
    ensures CleanTransfer(m, prp1, prp2, len)
  {
    hide Plan, Visited, Place, PlacedAt, EntryPlace, Apart, PageBase;
    var list := UsesList(prp1, len);
    var (end, segs) := Plan(m, prp2, list, prp1, 0, len);
    var at := Visited(m, prp2, list, prp1, 0, len);
    PlacedWhereVisited(m, prp2, list, prp1, 0, len);
    forall i, j | 0 <= i < j < |segs| ensures Apart(segs[i], segs[j]) {
      PlacedApart(m, at[i], segs[i], at[j], segs[j]);
    }
    forall i, k | 0 <= i < |segs| && 0 <= k < ListEnd(list, 0, end, |segs|) && EntryPlace(m, prp2, k).Some?
      ensures Apart(segs[i], EntryPlace(m, prp2, k).value)
    {
      EntryApart(m, at[i], segs[i], prp2, k);
    }
  }

  /** A transfer without a list is clean if its two pages differ. */
  lemma TwoPagesClean(m: Mem, prp1: nat, prp2: nat, len: nat)
    requires Paged(m) && !UsesList(prp1, len) && PageBase(prp1) != PageBase(prp2)
    ensures CleanTransfer(m, prp1, prp2, len)
  {
    hide Plan, Place, PageBase, CleanTransfer;
    VisitsTwo(m, prp1, prp2, len);
    CleanByPages(m, prp1, prp2, len);
  }

  lemma VisitsTwo(m: Mem, prp1: nat, prp2: nat, len: nat)
    requires Paged(m)
    ensures Visited(m, prp2, false, prp1, 0, len) <= [prp1, prp2]
  {
    hide Plan, Translate;
    if len != 0 && Place(m, prp1, len).Some? {
      var left := len - Place(m, prp1, len).value.len;
      if left != 0 {
        assert NextAddr(m, prp2, false, 1) == At(prp2);
        var rest := Visited(m, prp2, false, prp2, 1, left);
        assert rest <= [prp2];
        assert Visited(m, prp2, false, prp1, 0, len) == [prp1] + rest;
      }
    }
  }

  lemma PlacedApart(m: Mem, a: nat, s: Seg, b: nat, t: Seg)
    requires PlacedAt(m, a, s) && PlacedAt(m, b, t) && PageBase(a) != PageBase(b)
    ensures Apart(s, t)
  {
    PagesApart(m, a, b, s.len, t.len);
  }

  lemma EntryApart(m: Mem, a: nat, s: Seg, prp2: nat, k: nat)
    requires PlacedAt(m, a, s) && EntryPlace(m, prp2, k).Some?
    requires prp2 % PAGE + 8 * k + 8 <= PAGE && PageBase(a) != PageBase(prp2)
    ensures Apart(s, EntryPlace(m, prp2, k).value)
  {
    ListPageApart(m, a, s.len, prp2, k);
  }

  /** Pieces on different pages are apart, and so is a list entry on another page. */
  lemma PagesApart(m: Mem, a: nat, b: nat, la: nat, lb: nat)
    requires 0 < la && 0 < lb && PageBase(a) != PageBase(b)
    requires Place(m, a, la).Some? && Place(m, b, lb).Some?
    ensures Apart(Place(m, a, la).value, Place(m, b, lb).value)
  {
  }

  lemma ListPageApart(m: Mem, addr: nat, left: nat, prp2: nat, k: nat)
    requires 0 < left && Place(m, addr, left).Some? && EntryPlace(m, prp2, k).Some?
    requires prp2 % PAGE + 8 * k + 8 <= PAGE && PageBase(addr) != PageBase(prp2)
    ensures Apart(Place(m, addr, left).value, EntryPlace(m, prp2, k).value)
  {
  }

  // ---- when RET_OK means that everything was moved

  lemma {:induction false} ListMovesAll(m: Mem, prp2: nat, addr: nat, done: nat, left: nat)
    requires Paged(m)
    ensures var (end, segs) := Plan(m, prp2, true, addr, done, left); end == Finished ==> Total(segs) == left
    decreases left
  {
    hide EntryPlace, Word64, Load, Translate;
    if left != 0 && Place(m, addr, left).Some? {
      var s := Place(m, addr, left).value;
      assert Total([s]) == s.len by { assert [s][1..] == []; }
      if s.len != left {
        var next := NextAddr(m, prp2, true, done + 1);
        if next.At? {
          ListMovesAll(m, prp2, next.addr, done + 1, left - s.len);
          var rest := Plan(m, prp2, true, next.addr, done + 1, left - s.len).1;
          assert ([s] + rest)[1..] == rest;
        }
      }
    }
  }

  /** PRP2 can take the rest of a transfer of at most two pages. */
  predicate SecondPageSuffices(prp1: nat, prp2: nat, len: nat) {
    UsesList(prp1, len) || len <= PAGE - prp1 % PAGE || len - (PAGE - prp1 % PAGE) <= PAGE - prp2 % PAGE
  }

  /**
   RET_OK does not always mean that `len` bytes were moved: it does exactly if the transfer uses a list, fits
   the first page, or leaves no more for the second page than there is behind the offset of PRP2.
   */
  lemma OkMeansAll(m: Mem, prp1: nat, prp2: nat, len: nat)
    requires Paged(m) && Plan(m, prp2, UsesList(prp1, len), prp1, 0, len).0 == Finished
    ensures Total(Plan(m, prp2, UsesList(prp1, len), prp1, 0, len).1) == len <==> SecondPageSuffices(prp1, prp2, len)
  {
    hide EntryPlace, Word64, Load, Translate;
    if UsesList(prp1, len) {
      ListMovesAll(m, prp2, prp1, 0, len);
    } else if len != 0 {
      var s := Place(m, prp1, len).value;
      assert Total([s]) == s.len by { assert [s][1..] == []; }
      if s.len != len {
        var left := len - s.len;
        var rest := Plan(m, prp2, false, prp2, 1, left).1;
        var t := Place(m, prp2, left).value;
        assert rest == [t];
        assert ([s] + rest)[1..] == rest;
        assert Total([t]) == t.len by { assert [t][1..] == []; }
      }
    }
  }

  /** A transfer of two pages with an unaligned PRP2 reports RET_OK and is one byte short. */
  lemma ShortTransfer(bytes: seq<Byte>)
    requires |bytes| == 2 * PAGE
    ensures var m := [Region(PAGE, bytes)];
            Paged(m) && ReadData(m, PAGE, 2 * PAGE + 1, 2 * PAGE) == (Finished, bytes[..PAGE] + bytes[PAGE + 1..])
  {
    var m := [Region(PAGE, bytes)];
    assert PageBase(PAGE) == PAGE && PageBase(2 * PAGE + 1) == 2 * PAGE;
    assert Place(m, PAGE, 2 * PAGE) == Some(Seg(0, 0, PAGE));
    assert Place(m, 2 * PAGE + 1, PAGE) == Some(Seg(0, PAGE + 1, PAGE - 1));
    GatherUnfolds(m, 2 * PAGE + 1, false, PAGE, 0, 2 * PAGE, Seg(0, 0, PAGE));
    GatherUnfolds(m, 2 * PAGE + 1, false, 2 * PAGE + 1, 1, PAGE, Seg(0, PAGE + 1, PAGE - 1));
    assert bytes[PAGE + 1..PAGE + 1 + (PAGE - 1)] == bytes[PAGE + 1..];
  }

  /** Page-aligned later entries, as the standard requires them, always suffice. */
  lemma AlignedSuffices(prp1: nat, prp2: nat, len: nat)
    requires prp2 % PAGE == 0
    ensures SecondPageSuffices(prp1, prp2, len)
  {
  }

  /** The main case: a clean transfer with a suitable PRP2 that reports RET_OK delivers the whole buffer. */
  lemma RoundTrip(m: Mem, prp1: nat, prp2: nat, buf: seq<Byte>)
    requires CleanTransfer(m, prp1, prp2, |buf|) && SecondPageSuffices(prp1, prp2, |buf|)
    requires WriteData(m, prp1, prp2, buf).0 == Finished
    ensures var m' := WriteData(m, prp1, prp2, buf).1;
            Paged(m') && ReadData(m', prp1, prp2, |buf|) == (Finished, buf)
  {
    hide Plan, WriteData, ReadData;
    ScatterGather(m, prp1, prp2, buf);
    OkMeansAll(m, prp1, prp2, |buf|);
    assert buf[..|buf|] == buf;
  }

  // ---- the walkers over mapped memory

  /** memcpy. */
  method Copy(a: array<Byte>, off: nat, data: seq<Byte>)
    requires off + |data| <= a.Length
    modifies a
    ensures a[..] == old(a[..off]) + data + old(a[off + |data|..])
  {
    for i := 0 to |data|
      invariant a[..off + i] == old(a[..off]) + data[..i]
      invariant a[off + i..] == old(a[off + i..])
    {
      a[off + i] := data[i];
      assert a[..off + i + 1] == a[..off + i] + [data[i]];
      assert data[..i + 1] == data[..i] + [data[i]];
      assert a[off + i + 1..] == old(a[off + i..])[1..];
    }
    assert data[..|data|] == data;
    assert a[..] == a[..off + |data|] + a[off + |data|..];
  }

  /** Guest memory as the process sees it: one buffer for each DMA region. */
  class Guest {
    const iovas: seq<nat>
    const maps: seq<array<Byte>>

    ghost predicate Valid()
      reads set a | a in maps
    {
      && |iovas| == |maps|
      && (forall i, j :: 0 <= i < j < |maps| ==> maps[i] != maps[j])
      && Paged(View())
    }

    ghost function View(): (m: Mem)
      reads set a | a in maps
      ensures |m| == |maps|
      ensures |iovas| == |maps| ==> forall i :: 0 <= i < |maps| ==> m[i] == Region(iovas[i], maps[i][..])
    {
      seq(|maps|, i requires 0 <= i < |maps| reads set a | a in maps =>
        Region(if i < |iovas| then iovas[i] else 0, maps[i][..]))
    }

    constructor (iovas: seq<nat>, maps: seq<array<Byte>>)
      ensures this.iovas == iovas && this.maps == maps
    {
      this.iovas, this.maps := iovas, maps;
    }

    /** gpa_to_hva: the region, or nothing. */
    method Find(gpa: nat) returns (r: Option<nat>)
      requires Valid()
      ensures r == Translate(View(), gpa)
    {
      if gpa == 0 || LIMIT < gpa { return None; }
      for i := 0 to |maps|
        invariant FirstHolding(View(), gpa, 0) == FirstHolding(View(), gpa, i)
      {
        if iovas[i] <= gpa < iovas[i] + maps[i].Length { return Some(i); }
      }
      r := None;
    }

    /** Where the walk goes next: PRP2 itself, or the next list entry. */
    method Follow(prp2: nat, list: bool, done: nat) returns (next: Next)
      requires Valid() && 0 < done
      ensures next == NextAddr(View(), prp2, list, done)
    {
      if list {
        var r := Find(prp2);
        if r.None? { return ListUnmapped; }
        var at := prp2 - iovas[r.value] + 8 * (done - 1);
        if maps[r.value].Length < at + 8 { return ListTooLong; }
        return At(Word64(maps[r.value][at..at + 8]));
      }
      next := if done == 1 then At(prp2) else NoMore;
    }

    /** prp_read_data. */
    method PrpRead(prp1: nat, prp2: nat, len: nat) returns (end: End, buf: seq<Byte>)
      requires Valid()
      ensures (end, buf) == ReadData(View(), prp1, prp2, len)
    {
      hide Translate, NextAddr, Load, Gather;
      var list := UsesList(prp1, len);
      var addr: nat, done: nat := prp1, 0;
      buf := [];
      assert [] + Gather(View(), prp2, list, prp1, 0, len).1 == Gather(View(), prp2, list, prp1, 0, len).1;
      while |buf| < len
        invariant |buf| <= len
        invariant Gather(View(), prp2, list, prp1, 0, len) ==
                  var (e, rest) := Gather(View(), prp2, list, addr, done, len - |buf|); (e, buf + rest)
        decreases len - |buf|
      {
        var left := len - |buf|;
        var at := Find(PageBase(addr));
        if at.None? {
          GatherUnmapped(View(), prp2, list, addr, done, left);
          assert buf + [] == buf;
          return BadAddress, buf;
        }
        PlaceWithin(View(), addr, left);
        var off := PageBase(addr) - iovas[at.value] + addr % PAGE;
        var chunk := Chunk(addr, left);
        ghost var before := buf;
        ghost var s := Seg(at.value, off, chunk);
        assert Place(View(), addr, left) == Some(s);
        GatherUnfolds(View(), prp2, list, addr, done, left, s);
        LoadSlice(View(), s, maps[at.value][..]);
        var here := maps[at.value][off..off + chunk];
        assert here == maps[at.value][..][off..off + chunk];
        buf := buf + here;
        done := done + 1;
        if chunk == left { return Finished, buf; }
        var next := Follow(prp2, list, done);
        match next {
          case At(a) =>
            ghost var rest := Gather(View(), prp2, list, a, done, left - chunk).1;
            assert before + (here + rest) == buf + rest;
            addr := a;
          case ListUnmapped => return BadAddress, buf;
          case ListTooLong => return WildList, buf;
          case NoMore => return Finished, buf;
        }
      }
      GatherNothing(View(), prp2, list, addr, done);
      assert buf + [] == buf;
      end := Finished;
    }

    /** memcpy into one region. */
    method CopyIn(r: nat, off: nat, data: seq<Byte>)
      requires Valid() && r < |maps| && off + |data| <= maps[r].Length
      modifies maps[r]
      ensures Valid()
      ensures View() == Store(old(View()), Seg(r, off, |data|), data)
    {
      hide Paged;
      Copy(maps[r], off, data);
      assert View() == Store(old(View()), Seg(r, off, |data|), data);
      KeepsPaged(old(View()), View());
    }

    /** prp_write_data. */
    method PrpWrite(prp1: nat, prp2: nat, buf: seq<Byte>) returns (end: End)
      requires Valid()
      modifies set a | a in maps
      ensures Valid()
      ensures (end, View()) == WriteData(old(View()), prp1, prp2, buf)
    {
      hide Translate, NextAddr, Store, Scatter;
      var list := UsesList(prp1, |buf|);
      var addr: nat, done: nat, offset: nat := prp1, 0, 0;
      assert buf[0..] == buf;
      while offset < |buf|
        invariant Valid() && offset <= |buf|
        invariant Scatter(View(), prp2, list, addr, done, buf[offset..])
                  == Scatter(old(View()), prp2, list, prp1, 0, buf)
        decreases |buf| - offset
      {
        var left := |buf| - offset;
        var at := Find(PageBase(addr));
        if at.None? {
          ScatterUnmapped(View(), prp2, list, addr, done, buf[offset..]);
          return BadAddress;
        }
        PlaceWithin(View(), addr, left);
        var off := PageBase(addr) - iovas[at.value] + addr % PAGE;
        var chunk := Chunk(addr, left);
        ghost var m, s := View(), Seg(at.value, off, chunk);
        ScatterUnfolds(m, prp2, list, addr, done, buf[offset..], s);
        assert buf[offset..offset + chunk] == buf[offset..][..chunk];
        CopyIn(at.value, off, buf[offset..offset + chunk]);
        assert buf[offset..][chunk..] == buf[offset + chunk..];
        offset := offset + chunk;
        done := done + 1;
        if offset == |buf| { return Finished; }
        var next := Follow(prp2, list, done);
        match next {
          case At(a) => addr := a;
          case ListUnmapped => return BadAddress;
          case ListTooLong => return WildList;
          case NoMore => return Finished;
        }
      }
      ScatterNothing(View(), prp2, list, addr, done);
      assert buf[offset..] == [];
      end := Finished;
    }
  }

  lemma GatherNothing(m: Mem, prp2: nat, list: bool, addr: nat, done: nat)
    requires Paged(m)
    ensures Gather(m, prp2, list, addr, done, 0) == (Finished, [])
  {
  }

  lemma GatherUnmapped(m: Mem, prp2: nat, list: bool, addr: nat, done: nat, left: nat)
    requires Paged(m) && 0 < left && Translate(m, PageBase(addr)).None?
    ensures Gather(m, prp2, list, addr, done, left) == (BadAddress, [])
  {
  }

  lemma ScatterNothing(m: Mem, prp2: nat, list: bool, addr: nat, done: nat)
    requires Paged(m)
    ensures Scatter(m, prp2, list, addr, done, []) == (Finished, m)
  {
  }

  lemma ScatterUnmapped(m: Mem, prp2: nat, list: bool, addr: nat, done: nat, buf: seq<Byte>)
    requires Paged(m) && buf != [] && Translate(m, PageBase(addr)).None?
    ensures Scatter(m, prp2, list, addr, done, buf) == (BadAddress, m)
  {
  }

  lemma KeepsPaged(m: Mem, m': Mem)
    requires SameLayout(m, m') && Paged(m)
    ensures Paged(m')
  {
  }

  lemma LoadSlice(m: Mem, s: Seg, bytes: seq<Byte>)
    requires Within(m, s) && bytes == m[s.region].bytes
    ensures Load(m, s) == bytes[s.off..s.off + s.len]
  {
  }
}
