/** RAID 0 striping and RAID 1 mirroring over member buffers. */
module Raid {
  import opened Common
  import opened Layout

  type Page = seq<bv8>

  const MAX_MEMBERS: nat := 8
  const MEMBER_PAGES: nat := 1024
  const PAGE_SIZE: nat := 4096

  function Zeros(): Page { seq(PAGE_SIZE, _ => 0) }

  datatype Level = Raid0 | Raid1

  /** One member; `data` is meaningless unless the member is valid. */
  datatype Member = Member(valid: bool, online: bool, total: nat, data: seq<Page>)
  {
    ghost predicate Shape() {
      (valid <==> online) && (valid ==> total == MEMBER_PAGES == |data|)
    }
  }

  datatype Array = Array(level: Level, count: nat, stripe: nat, members: seq<Member>, capacity: nat)
  {
    ghost predicate Shape() {
      && 0 < count <= MAX_MEMBERS && 0 < stripe && |members| == MAX_MEMBERS
      && (forall i :: 0 <= i < MAX_MEMBERS ==> members[i].Shape())
      && capacity == Capacity(level, count, members)
    }
  }

  // ---- capacity

  /** Smallest total of a usable member below `k`, if any. */
  function MinTotal(members: seq<Member>, k: nat): (r: Option<nat>)
    requires k <= |members|
  {
    if k == 0 then None
    else
      var m := members[k - 1];
      var r := MinTotal(members, k - 1);
      if m.valid && m.online && (r.None? || m.total < r.value) then Some(m.total) else r
  }

  /** calculate_logical_capacity. */
  function Capacity(level: Level, count: nat, members: seq<Member>): nat {
    match MinTotal(members, |members|)
    case None => 0
    case Some(min) => if level == Raid0 then min * count else min
  }

  lemma {:induction false} MinTotalFixed(members: seq<Member>, k: nat)
    requires k <= |members|
    requires forall i :: 0 <= i < k && members[i].valid ==> members[i].online && members[i].total == MEMBER_PAGES
    ensures MinTotal(members, k) == if exists i :: 0 <= i < k && members[i].valid then Some(MEMBER_PAGES) else None
  {
    if k != 0 { MinTotalFixed(members, k - 1); }
  }

  // ---- striping

  /** raid0_map: member index and page within the member. */
  function Map(count: nat, stripe: nat, lpn: nat): (r: (nat, nat))
    requires 0 < count && 0 < stripe
    ensures r.0 < count
  {
    var number := lpn / stripe;
    (number % count, MemberPage(number / count, stripe, lpn % stripe))
  }

  function MemberPage(row: nat, stripe: nat, off: nat): nat {
    row * stripe + off
  }

  /** The inverse: which logical page sits at page `p` of member `m`. */
  function Unmap(count: nat, stripe: nat, m: nat, p: nat): nat
    requires 0 < count && 0 < stripe && m < count
  {
    ((p / stripe) * count + m) * stripe + p % stripe
  }

  lemma MapThenUnmap(count: nat, stripe: nat, lpn: nat)
    requires 0 < count && 0 < stripe
    ensures Unmap(count, stripe, Map(count, stripe, lpn).0, Map(count, stripe, lpn).1) == lpn
  {
    var n, off := lpn / stripe, lpn % stripe;
    var row, m := n / count, n % count;
    Parts(lpn, stripe);
    Parts(n, count);
    DivModUnique(row * stripe + off, stripe, row, off);
  }

  lemma UnmapThenMap(count: nat, stripe: nat, m: nat, p: nat)
    requires 0 < count && 0 < stripe && m < count
    ensures Map(count, stripe, Unmap(count, stripe, m, p)) == (m, p)
  {
    var row, off := p / stripe, p % stripe;
    var t := row * count + m;
    Parts(p, stripe);
    DivModUnique(t * stripe + off, stripe, t, off);
    DivModUnique(t, count, row, m);
  }

  /** Striping loses nothing: the inverse undoes it, and it undoes the inverse. */
  lemma MapRoundTrip(count: nat, stripe: nat, lpn: nat, m: nat, p: nat)
    requires 0 < count && 0 < stripe && m < count
    ensures Unmap(count, stripe, Map(count, stripe, lpn).0, Map(count, stripe, lpn).1) == lpn
    ensures Map(count, stripe, Unmap(count, stripe, m, p)) == (m, p)
  {
    hide Map, Unmap;
    MapThenUnmap(count, stripe, lpn);
    UnmapThenMap(count, stripe, m, p);
  }

  /** Page `off` of the stripe in row `row` of member `m`: stripes go round the members, row by row. */
  lemma MapAt(count: nat, stripe: nat, row: nat, m: nat, off: nat)
    requires m < count && off < stripe
    ensures Map(count, stripe, (row * count + m) * stripe + off) == (m, row * stripe + off)
  {
    var number := row * count + m;
    DivModUnique(number, count, row, m);
    DivModUnique(number * stripe + off, stripe, number, off);
    MapOf(count, stripe, number * stripe + off, number, row, m, off);
  }

  lemma MapOf(count: nat, stripe: nat, lpn: nat, number: nat, row: nat, m: nat, off: nat)
    requires 0 < count && 0 < stripe && lpn / stripe == number && lpn % stripe == off
    requires number / count == row && number % count == m
    ensures Map(count, stripe, lpn) == (m, row * stripe + off)
  {
  }

  /** Every logical page below `count * pages` lands inside its member. */
  ghost predicate StaysInside(count: nat, stripe: nat, pages: nat)
    requires 0 < count && 0 < stripe
  {
    forall lpn :: 0 <= lpn < pages * count ==> Map(count, stripe, lpn).1 < pages
  }

  lemma InsideWhenDivides(count: nat, stripe: nat, pages: nat, lpn: nat)
    requires 0 < count && 0 < stripe && pages % stripe == 0 && lpn < pages * count
    ensures Map(count, stripe, lpn).1 < pages
  {
    var k := pages / stripe;
    var row := (lpn / stripe) / count;
    Parts(pages, stripe);
    Reorder(k, stripe, count);
    QuotientBound(lpn, k * count, stripe);
    QuotientBound(lpn / stripe, k, count);
    MulMono(row + 1, k, stripe);
    assert (row + 1) * stripe == row * stripe + stripe;
  }

  lemma Reorder(a: nat, b: nat, c: nat)
    ensures (a * b) * c == (a * c) * b
  {
  }

  lemma InsideAlone(stripe: nat, lpn: nat)
    requires 0 < stripe
    ensures Map(1, stripe, lpn) == (0, lpn)
  {
    assert (lpn / stripe) * stripe + lpn % stripe == lpn;
  }

  /**
   The map of `count` members of `pages` pages is a bijection exactly if the stripe size divides the member
   size, or there is only one member; otherwise some logical page falls off the end of member 0.
   */
  lemma StaysInsideIff(count: nat, stripe: nat, pages: nat)
    requires 0 < count && 0 < stripe
    ensures StaysInside(count, stripe, pages) <==> count == 1 || pages % stripe == 0
  {
    if count == 1 {
      forall lpn | 0 <= lpn < pages * count ensures Map(count, stripe, lpn).1 < pages { InsideAlone(stripe, lpn); }
    } else if pages % stripe == 0 {
      forall lpn | 0 <= lpn < pages * count ensures Map(count, stripe, lpn).1 < pages {
        InsideWhenDivides(count, stripe, pages, lpn);
      }
    } else {
      var lpn := OffTheEnd(count, stripe, pages);
    }
  }

  lemma OffTheEnd(count: nat, stripe: nat, pages: nat) returns (lpn: nat)
    requires 1 < count && 0 < stripe && pages % stripe != 0
    ensures lpn < pages * count && Map(count, stripe, lpn) == (0, pages)
  {
    lpn := Unmap(count, stripe, 0, pages);
    MapRoundTrip(count, stripe, 0, 0, pages);
    var q, r := pages / stripe, pages % stripe;
    assert pages == q * stripe + r;
    assert (q * count) * stripe == (q * stripe) * count;
    assert pages * count == (q * stripe) * count + r * count;
    MulMono(2, count, r);
  }

  /** The logical pages below the capacity and the pages of the members correspond one to one. */
  lemma MapBijective(count: nat, stripe: nat, pages: nat, m: nat, p: nat)
    requires 0 < count && 0 < stripe && (count == 1 || pages % stripe == 0) && m < count && p < pages
    ensures Unmap(count, stripe, m, p) < pages * count
  {
    if count == 1 {
      assert (p / stripe) * stripe + p % stripe == p;
    } else {
      var k := pages / stripe;
      var row := p / stripe;
      assert pages == k * stripe;
      assert row < k by { if k <= row { MulMono(k, row, stripe); } }
      assert row * count + m + 1 <= (row + 1) * count;
      MulMono(row + 1, k, count);
      MulMono(row * count + m + 1, k * count, stripe);
      assert (row * count + m + 1) * stripe == (row * count + m) * stripe + stripe;
      assert (k * count) * stripe == (k * stripe) * count;
    }
  }

  // ---- member and array operations

  function MemberRead(a: Array, m: nat, p: nat): (RetCode, Page)
    requires a.Shape()
  {
    if MAX_MEMBERS <= m then (Param, [])
    else if !a.members[m].valid || !a.members[m].online then (Internal, [])
    else if a.members[m].total <= p then (Param, [])
    else (Ok, a.members[m].data[p])
  }

  function MemberWrite(a: Array, m: nat, p: nat, data: Page): (r: (RetCode, Array))
    requires a.Shape()
    ensures r.1.Shape() && r.1 == a.(members := r.1.members)
  {
    if MAX_MEMBERS <= m then (Param, a)
    else if !a.members[m].valid || !a.members[m].online then (Internal, a)
    else if a.members[m].total <= p then (Param, a)
    else
      var mem := a.members[m];
      var a' := a.(members := a.members[m := mem.(data := mem.data[p := data])]);
      CapacitySame(a, a');
      (Ok, a')
  }

  lemma CapacitySame(a: Array, a': Array)
    requires a.Shape() && a' == a.(members := a'.members) && |a'.members| == MAX_MEMBERS
    requires forall i :: 0 <= i < MAX_MEMBERS ==>
      a'.members[i].valid == a.members[i].valid && a'.members[i].online == a.members[i].online
      && a'.members[i].total == a.members[i].total
    ensures a'.capacity == Capacity(a'.level, a'.count, a'.members)
  {
    MinTotalSame(a.members, a'.members, MAX_MEMBERS);
  }

  lemma {:induction false} MinTotalSame(a: seq<Member>, b: seq<Member>, k: nat)
    requires k <= |a| == |b|
    requires forall i :: 0 <= i < k ==>
      a[i].valid == b[i].valid && a[i].online == b[i].online && a[i].total == b[i].total
    ensures MinTotal(a, k) == MinTotal(b, k)
  {
    if k != 0 { MinTotalSame(a, b, k - 1); }
  }

  /** Totals of unusable members do not matter. */
  lemma {:induction false} MinTotalUsable(a: seq<Member>, b: seq<Member>, k: nat)
    requires k <= |a| == |b|
    requires forall i :: 0 <= i < k ==>
      && (a[i].valid && a[i].online <==> b[i].valid && b[i].online)
      && (a[i].valid && a[i].online ==> a[i].total == b[i].total)
    ensures MinTotal(a, k) == MinTotal(b, k)
  {
    if k != 0 { MinTotalUsable(a, b, k - 1); }
  }

  /** The mirror loop of raid_write, from member `i` on. */
  function MirrorWrite(a: Array, i: nat, lpn: nat, data: Page): (r: (RetCode, Array))
    requires a.Shape() && i <= a.count
    ensures r.1.Shape() && r.1 == a.(members := r.1.members)
    decreases a.count - i
  {
    if i == a.count then (Ok, a)
    else if a.members[i].valid && a.members[i].online then
      var (code, a1) := MemberWrite(a, i, lpn, data);
      if code != Ok then (code, a1) else MirrorWrite(a1, i + 1, lpn, data)
    else MirrorWrite(a, i + 1, lpn, data)
  }

  /** The mirror loop of raid_read, from member `i` on: the first member that answers. */
  function MirrorRead(a: Array, i: nat, lpn: nat): (RetCode, Page)
    requires a.Shape() && i <= a.count
    decreases a.count - i
  {
    if i == a.count then (Internal, [])
    else if a.members[i].valid && a.members[i].online && MemberRead(a, i, lpn).0 == Ok then MemberRead(a, i, lpn)
    else MirrorRead(a, i + 1, lpn)
  }

  /** raid_read. */
  function Read(a: Array, lpn: nat): (RetCode, Page)
    requires a.Shape()
  {
    if a.capacity <= lpn then (Param, [])
    else
      match a.level
      case Raid0 => var (m, p) := Map(a.count, a.stripe, lpn); MemberRead(a, m, p)
      case Raid1 => MirrorRead(a, 0, lpn)
  }

  /** raid_write. */
  function Write(a: Array, lpn: nat, data: Page): (r: (RetCode, Array))
    requires a.Shape()
    ensures r.1.Shape() && r.1 == a.(members := r.1.members)
  {
    if a.capacity <= lpn then (Param, a)
    else
      match a.level
      case Raid0 => var (m, p) := Map(a.count, a.stripe, lpn); MemberWrite(a, m, p, data)
      case Raid1 => MirrorWrite(a, 0, lpn, data)
  }

  function WithMembers(a: Array, members: seq<Member>): Array {
    a.(members := members, capacity := Capacity(a.level, a.count, members))
  }

  /** raid_add_member; `memory` is whether calloc succeeds. */
  function Add(a: Array, m: nat, memory: bool): (r: (RetCode, Array))
    requires a.Shape()
    ensures r.1.Shape()
  {
    if MAX_MEMBERS <= m then (Param, a)
    else if a.members[m].valid then (Internal, a)
    else if !memory then
      var a' := a.(members := a.members[m := a.members[m].(total := MEMBER_PAGES)]);
      MinTotalUsable(a.members, a'.members, MAX_MEMBERS);
      (NoSpace, a')
    else (Ok, WithMembers(a, a.members[m := Member(true, true, MEMBER_PAGES, seq(MEMBER_PAGES, _ => Zeros()))]))
  }

  /** raid_remove_member. */
  function Remove(a: Array, m: nat): (r: (RetCode, Array))
    requires a.Shape()
    ensures r.1.Shape()
  {
    if MAX_MEMBERS <= m then (Param, a)
    else if !a.members[m].valid then (Ok, a)
    else (Ok, WithMembers(a, a.members[m := a.members[m].(valid := false, online := false, data := [])]))
  }

  // ---- RAID 0 is a flat array

  /** Some member below `k` is still there. */
  ghost predicate Alive(a: Array, k: nat) {
    exists i :: 0 <= i < k && i < |a.members| && a.members[i].valid
  }

  /** What the two membership calls answer, and that they touch no other member. */
  lemma MembershipAnswers(a: Array, m: nat, memory: bool)
    requires a.Shape()
    ensures var (code, a') := Add(a, m, memory);
            if MAX_MEMBERS <= m then code == Param && a' == a
            else if a.members[m].valid then code == Internal && a' == a
            else
              && code == (if memory then Ok else NoSpace)
              && (forall i :: 0 <= i < MAX_MEMBERS && i != m ==> a'.members[i] == a.members[i])
              && a'.members[m].valid == memory && a'.members[m].total == 1024
              && (memory ==> a'.members[m].data == seq(1024, _ => seq(4096, _ => 0)))
              && a'.level == a.level && a'.count == a.count && a'.stripe == a.stripe
    ensures var (code, a') := Remove(a, m);
            if MAX_MEMBERS <= m then code == Param && a' == a
            else if !a.members[m].valid then code == Ok && a' == a
            else
              && code == Ok && !a'.members[m].valid
              && (forall i :: 0 <= i < MAX_MEMBERS && i != m ==> a'.members[i] == a.members[i])
              && a'.level == a.level && a'.count == a.count && a'.stripe == a.stripe
  {
    hide Capacity;
    ZeroPages();
  }

  lemma ZeroPages()
    ensures seq(MEMBER_PAGES, _ => Zeros()) == seq(1024, _ => seq(4096, _ => 0))
  {
    assert Zeros() == seq(4096, _ => 0);
  }

  lemma CapacityFixed(a: Array)
    requires a.Shape()
    ensures a.capacity == if !Alive(a, MAX_MEMBERS) then 0
                          else if a.level == Raid0 then MEMBER_PAGES * a.count else MEMBER_PAGES
  {
    MinTotalFixed(a.members, MAX_MEMBERS);
  }

  ghost predicate Aligned(a: Array) {
    0 < a.count && 0 < a.stripe && (a.count == 1 || MEMBER_PAGES % a.stripe == 0)
  }

  /** What is stored at each logical page; nothing where the member is missing. */
  ghost function Flat(a: Array): (r: seq<Option<Page>>)
    requires a.Shape() && Aligned(a)
    ensures |r| == MEMBER_PAGES * a.count
    ensures forall lpn :: 0 <= lpn < |r| ==> r[lpn] == FlatAt(a, lpn)
  {
    seq(MEMBER_PAGES * a.count, lpn requires 0 <= lpn < MEMBER_PAGES * a.count => FlatAt(a, lpn))
  }

  ghost function FlatAt(a: Array, lpn: nat): Option<Page>
    requires a.Shape() && Aligned(a) && lpn < MEMBER_PAGES * a.count
  {
    StaysInsideIff(a.count, a.stripe, MEMBER_PAGES);
    var (m, p) := Map(a.count, a.stripe, lpn);
    if a.members[m].valid then Some(a.members[m].data[p]) else None
  }

  lemma MapInjective(count: nat, stripe: nat, i: nat, j: nat)
    requires 0 < count && 0 < stripe && Map(count, stripe, i) == Map(count, stripe, j)
    ensures i == j
  {
    MapRoundTrip(count, stripe, i, 0, 0);
    MapRoundTrip(count, stripe, j, 0, 0);
  }

  lemma Raid0Read(a: Array, lpn: nat)
    requires a.Shape() && a.level == Raid0 && Aligned(a)
    ensures lpn < a.capacity ==> lpn < MEMBER_PAGES * a.count
    ensures Read(a, lpn) == if a.capacity <= lpn then (Param, [])
                            else if Flat(a)[lpn] == None then (Internal, []) else (Ok, Flat(a)[lpn].value)
  {
    hide Map;
    CapacityFixed(a);
    StaysInsideIff(a.count, a.stripe, MEMBER_PAGES);
  }

  /** A striped write succeeds iff its member is there, and then changes that page of the flat array and no other. */
  lemma Raid0Write(a: Array, lpn: nat, data: Page)
    requires a.Shape() && a.level == Raid0 && Aligned(a)
    ensures var (code, a') := Write(a, lpn, data);
            && (code == Ok <==> lpn < MEMBER_PAGES * a.count && Flat(a)[lpn].Some?)
            && (code != Ok ==> a' == a)
            && (code == Ok ==> Aligned(a') && Flat(a') == Flat(a)[lpn := Some(data)])
  {
    hide Map;
    CapacityFixed(a);
    StaysInsideIff(a.count, a.stripe, MEMBER_PAGES);
    var (code, a') := Write(a, lpn, data);
    if code == Ok {
      forall i | 0 <= i < MEMBER_PAGES * a.count ensures FlatAt(a', i) == Flat(a)[lpn := Some(data)][i] {
        if Map(a.count, a.stripe, i) == Map(a.count, a.stripe, lpn) { MapInjective(a.count, a.stripe, i, lpn); }
      }
      assert Flat(a') == Flat(a)[lpn := Some(data)];
    }
  }

  /** Adding a member makes exactly its pages readable, as zeros; removing it makes exactly its pages unreadable. */
  lemma Raid0Membership(a: Array, m: nat)
    requires a.Shape() && a.level == Raid0 && Aligned(a) && m < a.count
    ensures !a.members[m].valid ==>
              var a' := Add(a, m, true).1;
              Aligned(a') && forall i :: 0 <= i < MEMBER_PAGES * a.count ==>
                Flat(a')[i] == if Map(a.count, a.stripe, i).0 == m then Some(Zeros()) else Flat(a)[i]
    ensures a.members[m].valid ==>
              var a' := Remove(a, m).1;
              Aligned(a') && forall i :: 0 <= i < MEMBER_PAGES * a.count ==>
                Flat(a')[i] == if Map(a.count, a.stripe, i).0 == m then None else Flat(a)[i]
  {
    hide Map;
    StaysInsideIff(a.count, a.stripe, MEMBER_PAGES);
  }

  /** With a stripe size that does not divide the member size some page below the capacity can never be accessed. */
  lemma Raid0Misaligned(a: Array, data: Page)
    requires a.Shape() && a.level == Raid0 && !Aligned(a) && Alive(a, MAX_MEMBERS) && a.members[0].valid
    ensures exists lpn :: 0 <= lpn < a.capacity && Read(a, lpn).0 == Param && Write(a, lpn, data) == (Param, a)
  {
    CapacityFixed(a);
    var lpn := OffTheEnd(a.count, a.stripe, MEMBER_PAGES);
    assert Read(a, lpn).0 == Param && Write(a, lpn, data) == (Param, a);
  }

  // ---- RAID 1 is one page array as long as one original member is left

  /** All valid members that hold data hold the same. */
  ghost predicate Mirrored(a: Array, mirror: seq<Page>) {
    && a.Shape() && a.level == Raid1 && |mirror| == MEMBER_PAGES
    && forall i :: 0 <= i < a.count && a.members[i].valid ==> a.members[i].data == mirror
  }

  lemma {:induction false} MirrorWriteEffect(a: Array, i: nat, lpn: nat, data: Page)
    requires a.Shape() && i <= a.count && lpn < MEMBER_PAGES
    ensures var (code, a') := MirrorWrite(a, i, lpn, data);
            && code == Ok
            && forall j :: 0 <= j < MAX_MEMBERS ==>
                a'.members[j] == if i <= j < a.count && a.members[j].valid
                                 then a.members[j].(data := a.members[j].data[lpn := data]) else a.members[j]
    decreases a.count - i
  {
    if i < a.count {
      if a.members[i].valid {
        var (code, a1) := MemberWrite(a, i, lpn, data);
        MirrorWriteEffect(a1, i + 1, lpn, data);
      } else {
        MirrorWriteEffect(a, i + 1, lpn, data);
      }
    }
  }

  lemma {:induction false} MirrorReadEffect(a: Array, i: nat, lpn: nat, page: Page)
    requires a.Shape() && i <= a.count && lpn < MEMBER_PAGES
    requires forall j :: i <= j < a.count && a.members[j].valid ==> a.members[j].data[lpn] == page
    ensures MirrorRead(a, i, lpn) ==
            if exists j :: i <= j < a.count && a.members[j].valid then (Ok, page) else (Internal, [])
    decreases a.count - i
  {
    if i < a.count && !a.members[i].valid { MirrorReadEffect(a, i + 1, lpn, page); }
  }

  /**
   What a mirrored write answers, and what it is worth: below the capacity it always answers OK, but the page can be
   read back if and only if a member of the mirror set is there; a member outside the set only lends its capacity.
   */
  lemma Raid1Stored(a: Array, lpn: nat, data: Page)
    requires a.Shape() && a.level == Raid1
    ensures var (code, a') := Write(a, lpn, data);
            && code == (if lpn < a.capacity then Ok else Param)
            && (code == Ok ==> Read(a', lpn) == if Alive(a, a.count) then (Ok, data) else (Internal, []))
            && (code == Ok && !Alive(a, a.count) ==> a' == a)
  {
    CapacityFixed(a);
    if lpn < a.capacity {
      MirrorWriteEffect(a, 0, lpn, data);
      var a' := Write(a, lpn, data).1;
      MirrorReadEffect(a', 0, lpn, data);
      if Alive(a, a.count) {
        var i :| 0 <= i < a.count && a.members[i].valid;
        assert a'.members[i].valid;
      } else {
        assert a'.members == a.members;
      }
    }
  }

  lemma Raid1Write(a: Array, mirror: seq<Page>, lpn: nat, data: Page)
    requires Mirrored(a, mirror)
    ensures Mirrored(Write(a, lpn, data).1, if lpn < MEMBER_PAGES then mirror[lpn := data] else mirror)
    ensures Alive(a, a.count) ==> Write(a, lpn, data).0 == if lpn < MEMBER_PAGES then Ok else Param
  {
    CapacityFixed(a);
    if lpn < a.capacity { MirrorWriteEffect(a, 0, lpn, data); }
  }

  /** Removing a member never disturbs the mirror. */
  lemma Raid1Remove(a: Array, mirror: seq<Page>, m: nat)
    requires Mirrored(a, mirror)
    ensures Mirrored(Remove(a, m).1, mirror)
  {
  }

  /** There is no rebuild: adding a mirror member keeps the mirror iff the array still holds only zeros. */
  lemma Raid1Add(a: Array, mirror: seq<Page>, m: nat)
    requires Mirrored(a, mirror) && m < MAX_MEMBERS && !a.members[m].valid
    ensures Mirrored(Add(a, m, true).1, mirror) <==> a.count <= m || mirror == seq(MEMBER_PAGES, _ => Zeros())
  {
    var a' := Add(a, m, true).1;
    if m < a.count { assert a'.members[m].data == seq(MEMBER_PAGES, _ => Zeros()); }
  }

  /** The allocation of the member's memory may fail. */
  datatype Op = DoWrite(lpn: nat, data: Page) | DoRemove(member: nat) | DoAdd(member: nat, memory: bool)

  function Step(a: Array, op: Op): (r: Array)
    requires a.Shape()
    ensures r.Shape()
  {
    match op
    case DoWrite(lpn, data) => Write(a, lpn, data).1
    case DoRemove(m) => Remove(a, m).1
    case DoAdd(m, memory) => Add(a, m, memory).1
  }

  function Run(a: Array, ops: seq<Op>): (r: Array)
    requires a.Shape()
    ensures r.Shape()
    decreases ops
  {
    if ops == [] then a else Run(Step(a, ops[0]), ops[1..])
  }

  /** The page once `op` is done. */
  function Overlaid(op: Op, lpn: nat, page: Page): Page {
    if op.DoWrite? && op.lpn == lpn then op.data else page
  }

  /** The last page written to `lpn`, or `start`. */
  function LastWritten(ops: seq<Op>, lpn: nat, start: Page): Page {
    if ops == [] then start else Overlaid(ops[|ops| - 1], lpn, LastWritten(ops[..|ops| - 1], lpn, start))
  }

  lemma {:induction false} LastWrittenFirst(op: Op, rest: seq<Op>, lpn: nat, start: Page)
    ensures LastWritten([op] + rest, lpn, start) == LastWritten(rest, lpn, Overlaid(op, lpn, start))
    decreases rest
  {
    if rest == [] {
      assert [op] + rest == [op] && [op][..0] == [];
      assert LastWritten([op][..0], lpn, start) == start;
    } else {
      assert ([op] + rest)[..|rest|] == [op] + rest[..|rest| - 1];
      LastWrittenFirst(op, rest[..|rest| - 1], lpn, start);
    }
  }

  function OverlaidAll(op: Op, mirror: seq<Page>): (r: seq<Page>)
    ensures |r| == |mirror| && forall i :: 0 <= i < |r| ==> r[i] == Overlaid(op, i, mirror[i])
  {
    seq(|mirror|, i requires 0 <= i < |mirror| => Overlaid(op, i, mirror[i]))
  }

  /** The condition of Raid1Add, if the call adds a member at all. */
  ghost predicate KeepsMirror(a: Array, mirror: seq<Page>, op: Op)
    requires a.Shape()
  {
    op.DoAdd? && op.memory && op.member < MAX_MEMBERS && !a.members[op.member].valid ==>
      a.count <= op.member || mirror == seq(MEMBER_PAGES, _ => Zeros())
  }

  /** Every addition on the way is to a place outside the mirror set, or to an array that still holds only zeros. */
  ghost predicate InSync(a: Array, mirror: seq<Page>, ops: seq<Op>)
    requires a.Shape()
    decreases ops
  {
    ops == [] ||
    (KeepsMirror(a, mirror, ops[0]) && InSync(Step(a, ops[0]), OverlaidAll(ops[0], mirror), ops[1..]))
  }

  lemma StepMirrored(a: Array, mirror: seq<Page>, op: Op)
    requires Mirrored(a, mirror)
    ensures Mirrored(Step(a, op), OverlaidAll(op, mirror)) <==> KeepsMirror(a, mirror, op)
    ensures Step(a, op).count == a.count
  {
    hide Write, Zeros;
    match op
    case DoWrite(l, data) =>
      Raid1Write(a, mirror, l, data);
      assert OverlaidAll(op, mirror) == if l < MEMBER_PAGES then mirror[l := data] else mirror;
      WriteCount(a, l, data);
    case DoRemove(m) =>
      Raid1Remove(a, mirror, m);
      assert OverlaidAll(op, mirror) == mirror;
    case DoAdd(m, memory) =>
      assert OverlaidAll(op, mirror) == mirror;
      if memory && m < MAX_MEMBERS && !a.members[m].valid { Raid1Add(a, mirror, m); }
  }

  lemma WriteCount(a: Array, lpn: nat, data: Page)
    requires a.Shape()
    ensures Write(a, lpn, data).1.count == a.count
  {
  }

  /** After any writes, removals and such additions, every page of the mirror is the last one written to it. */
  lemma {:induction false} RunMirrored(a: Array, mirror: seq<Page>, ops: seq<Op>)
    requires Mirrored(a, mirror) && InSync(a, mirror, ops)
    ensures Mirrored(Run(a, ops), seq(MEMBER_PAGES, i requires 0 <= i < MEMBER_PAGES => LastWritten(ops, i, mirror[i])))
    ensures Run(a, ops).count == a.count
    decreases ops
  {
    hide Step, KeepsMirror;
    if ops == [] {
      assert seq(MEMBER_PAGES, i requires 0 <= i < MEMBER_PAGES => LastWritten(ops, i, mirror[i])) == mirror;
    } else {
      var op, rest := ops[0], ops[1..];
      assert ops == [op] + rest;
      var next := OverlaidAll(op, mirror);
      StepMirrored(a, mirror, op);
      RunMirrored(Step(a, op), next, rest);
      forall i | 0 <= i < MEMBER_PAGES ensures LastWritten(ops, i, mirror[i]) == LastWritten(rest, i, next[i]) {
        LastWrittenFirst(op, rest, i, mirror[i]);
      }
      assert seq(MEMBER_PAGES, i requires 0 <= i < MEMBER_PAGES => LastWritten(ops, i, mirror[i]))
          == seq(MEMBER_PAGES, i requires 0 <= i < MEMBER_PAGES => LastWritten(rest, i, next[i]));
    }
  }

  /**
   A mirror read returns the last write after any writes, removals and additions that leave one member of the mirror
   set, if each addition meets the condition of Raid1Add.
   */
  lemma Raid1Survives(a: Array, mirror: seq<Page>, ops: seq<Op>, lpn: nat)
    requires Mirrored(a, mirror) && InSync(a, mirror, ops) && lpn < MEMBER_PAGES && Alive(Run(a, ops), a.count)
    ensures Read(Run(a, ops), lpn) == (Ok, LastWritten(ops, lpn, mirror[lpn]))
  {
    hide Run, InSync;
    RunMirrored(a, mirror, ops);
    var end := Run(a, ops);
    var m := seq(MEMBER_PAGES, i requires 0 <= i < MEMBER_PAGES => LastWritten(ops, i, mirror[i]));
    CapacityFixed(end);
    MirrorReadEffect(end, 0, lpn, m[lpn]);
  }

  // ---- the controller in place

  class RaidController {
    const level: Level
    const count: nat
    const stripe: nat
    const members: array<Member>
    var capacity: nat

    ghost function View(): Array
      reads this, members
    {
      Array(level, count, stripe, members[..], capacity)
    }

    ghost predicate Valid()
      reads this, members
    {
      members.Length == MAX_MEMBERS && View().Shape()
    }

    /** raid_init with a configuration it accepts; a stripe size of 0 would divide by zero later. */
    constructor (level: Level, count: nat, stripe: nat)
      requires 0 < count <= MAX_MEMBERS && 0 < stripe && (level == Raid1 ==> count % 2 == 0)
      ensures Valid() && fresh(members)
      ensures View() == Array(level, count, stripe, seq(MAX_MEMBERS, _ => Member(false, false, 0, [])), 0)
    {
      this.level, this.count, this.stripe := level, count, stripe;
      members := new Member[MAX_MEMBERS](_ => Member(false, false, 0, []));
      capacity := 0;
      new;
      assert members[..] == seq(MAX_MEMBERS, _ => Member(false, false, 0, []));
      MinTotalFixed(members[..], MAX_MEMBERS);
    }

    /** calculate_logical_capacity. */
    method CalculateCapacity() returns (c: nat)
      requires members.Length == MAX_MEMBERS
      ensures c == Capacity(level, count, members[..])
    {
      var min: Option<nat> := None;
      for i := 0 to MAX_MEMBERS
        invariant min == MinTotal(members[..], i)
      {
        if members[i].valid && members[i].online {
          if min.None? || members[i].total < min.value { min := Some(members[i].total); }
        }
      }
      if min.None? { return 0; }
      c := if level == Raid0 then min.value * count else min.value;
    }

    method AddMember(m: nat, memory: bool) returns (code: RetCode)
      requires Valid()
      modifies this, members
      ensures Valid()
      ensures (code, View()) == Add(old(View()), m, memory)
    {
      if MAX_MEMBERS <= m { return Param; }
      if members[m].valid { return Internal; }
      if !memory {
        MinTotalUsable(members[..], members[..][m := members[m].(total := MEMBER_PAGES)], MAX_MEMBERS);
        members[m] := members[m].(total := MEMBER_PAGES);
        assert members[..] == old(members[..])[m := members[m]];
        return NoSpace;
      }
      members[m] := Member(true, true, MEMBER_PAGES, seq(MEMBER_PAGES, _ => Zeros()));
      assert members[..] == old(members[..])[m := members[m]];
      capacity := CalculateCapacity();
      code := Ok;
    }

    method RemoveMember(m: nat) returns (code: RetCode)
      requires Valid()
      modifies this, members
      ensures Valid()
      ensures (code, View()) == Remove(old(View()), m)
    {
      if MAX_MEMBERS <= m { return Param; }
      if !members[m].valid { return Ok; }
      members[m] := members[m].(valid := false, online := false, data := []);
      assert members[..] == old(members[..])[m := members[m]];
      capacity := CalculateCapacity();
      code := Ok;
    }

    method WriteMember(m: nat, p: nat, data: Page) returns (code: RetCode)
      requires Valid()
      modifies members
      ensures Valid()
      ensures (code, View()) == MemberWrite(old(View()), m, p, data)
    {
      if MAX_MEMBERS <= m { return Param; }
      if !members[m].valid || !members[m].online { return Internal; }
      if members[m].total <= p { return Param; }
      members[m] := members[m].(data := members[m].data[p := data]);
      assert members[..] == old(members[..])[m := members[m]];
      CapacitySame(old(View()), View());
      code := Ok;
    }

    method WritePage(lpn: nat, data: Page) returns (code: RetCode)
      requires Valid()
      modifies members
      ensures Valid()
      ensures (code, View()) == Write(old(View()), lpn, data)
    {
      hide Map, MemberWrite;
      if capacity <= lpn { return Param; }
      if level == Raid0 {
        var (m, p) := Map(count, stripe, lpn);
        code := WriteMember(m, p, data);
        return;
      }
      code := Ok;
      for i := 0 to count
        invariant Valid() && code == Ok
        invariant MirrorWrite(View(), i, lpn, data) == MirrorWrite(old(View()), 0, lpn, data)
      {
        if members[i].valid && members[i].online {
          code := WriteMember(i, lpn, data);
          if code != Ok { return; }
        }
      }
    }

    method ReadPage(lpn: nat) returns (code: RetCode, data: Page)
      requires Valid()
      ensures (code, data) == Read(View(), lpn)
    {
      hide Map;
      if capacity <= lpn { return Param, []; }
      if level == Raid0 {
        var (m, p) := Map(count, stripe, lpn);
        if !members[m].valid || !members[m].online { return Internal, []; }
        if members[m].total <= p { return Param, []; }
        return Ok, members[m].data[p];
      }
      for i := 0 to count
        invariant MirrorRead(View(), i, lpn) == MirrorRead(View(), 0, lpn)
      {
        if members[i].valid && members[i].online && lpn < members[i].total {
          return Ok, members[i].data[lpn];
        }
      }
      return Internal, [];
    }
  }
}
