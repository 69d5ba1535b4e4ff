/**
 PRP transfers in terms of guest addresses: which guest page each piece of the buffer comes from or goes to, by the
 pointers of the command and the entries stored in its list.
 */
module PrpPages {
  import opened Common
  import opened Prp

  // ---- guest memory, byte by byte

  /** Region `i` is the first that holds guest address `a`. */
  ghost predicate FirstAt(m: Mem, a: nat, i: nat)
    ensures FirstAt(m, a, i) ==> i < |m| && m[i].iova <= a < m[i].iova + |m[i].bytes|
  {
    && i < |m| && m[i].iova <= a < m[i].iova + |m[i].bytes|
    && forall j :: 0 <= j < i ==> !(m[j].iova <= a < m[j].iova + |m[j].bytes|)
  }

  /** The guest finds byte `v` at address `a`. */
  ghost predicate GuestByte(m: Mem, a: nat, v: Byte) {
    exists i: nat :: FirstAt(m, a, i) && m[i].bytes[a - m[i].iova] == v
  }

  function PageStart(a: nat): nat { a - a % 4096 }

  /** The page of `a` is mapped; page 0 and addresses of more than 32 bits are never translated. */
  ghost predicate Mapped(m: Mem, a: nat) {
    0 < PageStart(a) <= 0xFFFF_FFFF && exists i: nat :: FirstAt(m, PageStart(a), i)
  }

  // ---- where a command points

  /** From the address to the end of its page. */
  function Room(a: nat): (r: nat)
    ensures 0 < r <= 4096
  {
    4096 - a % 4096
  }

  function Rooms(at: seq<nat>): nat {
    if at == [] then 0 else Room(at[0]) + Rooms(at[1..])
  }

  /** The guest address of byte `j` of the buffer, for pieces that start at the addresses `at`. */
  function Address(at: seq<nat>, j: nat): nat
    requires j < Rooms(at)
  {
    if j < Room(at[0]) then at[0] + j else Address(at[1..], j - Room(at[0]))
  }

  /** The list at `prp2` begins with these entries: eight bytes each, lowest first, one behind the other. */
  ghost predicate ListStored(m: Mem, prp2: nat, entries: seq<nat>) {
    && 0 < prp2 <= 0xFFFF_FFFF
    && exists r: nat :: FirstAt(m, prp2, r) && ListIn(m[r].bytes, prp2 - m[r].iova, entries)
  }

  ghost predicate ListIn(bytes: seq<Byte>, off: nat, entries: seq<nat>) {
    && off + 8 * |entries| <= |bytes|
    && forall i :: 0 <= i < |entries| ==>
         entries[i] < 0x1_0000_0000_0000_0000
         && bytes[off + 8 * i..off + 8 * i + 8] == EntryBytes(entries[i])
  }

  /**
   The addresses that the pointers of a command name for `len` bytes: PRP1 alone if its page is enough, PRP1 and PRP2 if
   two pages are, otherwise PRP1 and as many entries of the list at PRP2 as it takes.
   */
  ghost predicate Route(m: Mem, prp1: nat, prp2: nat, len: nat, at: seq<nat>) {
    && 0 < len && at != [] && at[0] == prp1
    && if len <= Room(prp1) then at == [prp1]
       else if len <= Room(prp1) + 4096 then at == [prp1, prp2]
       else Rooms(at[..|at| - 1]) < len <= Rooms(at) && ListStored(m, prp2, at[1..])
  }

  function Min(a: nat, b: nat): nat { if a < b then a else b }

  // ---- translation

  lemma {:induction false} HoldingIsFirst(m: Mem, a: nat, k: nat, i: nat)
    requires k <= i && FirstAt(m, a, i)
    ensures FirstHolding(m, a, k) == Some(i)
    decreases i - k
  {
    if k < i { HoldingIsFirst(m, a, k + 1, i); }
  }

  lemma MappedTranslates(m: Mem, a: nat, i: nat)
    requires 0 < a <= 0xFFFF_FFFF && FirstAt(m, a, i)
    ensures Translate(m, a) == Some(i)
  {
    HoldingIsFirst(m, a, 0, i);
  }

  /** Regions are whole pages, so the region of a page is that of each of its bytes. */
  lemma FirstInPage(m: Mem, a: nat, x: nat, i: nat)
    requires Paged(m) && x < Room(a) && FirstAt(m, PageStart(a), i)
    ensures FirstAt(m, a + x, i)
  {
    var b := PageStart(a);
    forall j | 0 <= j < |m| ensures m[j].iova <= a + x < m[j].iova + |m[j].bytes| <==>
                                     m[j].iova <= b < m[j].iova + |m[j].bytes|
    {
      WholePages(m[j].iova, |m[j].bytes|, b, a % 4096 + x);
    }
  }

  lemma WholePages(iova: nat, size: nat, b: nat, x: nat)
    requires iova % 4096 == 0 && size % 4096 == 0 && b % 4096 == 0 && x < 4096
    ensures iova <= b + x < iova + size <==> iova <= b < iova + size
  {
  }

  /** Byte `x` of the piece `s` is the byte of the guest at address `a + x`. */
  ghost predicate ByteIn(m: Mem, s: Seg, a: nat, x: nat) {
    FirstAt(m, a + x, s.region) && s.off + x == a + x - m[s.region].iova
  }

  /** The host memory of the piece at `a`. */
  lemma PieceAt(m: Mem, a: nat, left: nat)
    requires Paged(m) && 0 < left && Mapped(m, a)
    ensures Place(m, a, left).Some? && Within(m, Place(m, a, left).value)
    ensures var s := Place(m, a, left).value;
            && s.len == Min(left, Room(a))
            && (forall x :: 0 <= x < s.len ==> ByteIn(m, s, a, x))
            && (forall x :: 0 <= x < s.len ==> GuestByte(m, a + x, Load(m, s)[x]))
  {
    hide FirstAt, Translate;
    var i: nat :| FirstAt(m, PageStart(a), i);
    MappedTranslates(m, PageStart(a), i);
    PlaceWithin(m, a, left);
    var s := Place(m, a, left).value;
    forall x | 0 <= x < s.len
      ensures ByteIn(m, s, a, x) && GuestByte(m, a + x, Load(m, s)[x])
    {
      FirstInPage(m, a, x, i);
      ByteOfLoad(m, s, a, x);
    }
  }

  lemma ByteOfLoad(m: Mem, s: Seg, a: nat, x: nat)
    requires Within(m, s) && x < s.len && ByteIn(m, s, a, x)
    ensures GuestByte(m, a + x, Load(m, s)[x])
  {
  }

  // ---- the walk takes that route

  /** From piece `done` on the walk goes on to the addresses behind the first, and if these are too few it stops. */
  ghost predicate Leads(m: Mem, prp2: nat, list: bool, done: nat, left: nat, at: seq<nat>) {
    && at != [] && (forall i :: 0 <= i < |at| ==> Mapped(m, at[i]))
    && 0 < left && Rooms(at[..|at| - 1]) < left
    && (forall i :: 1 <= i < |at| ==> NextAddr(m, prp2, list, done + i) == At(at[i]))
    && (Rooms(at) < left ==> NextAddr(m, prp2, list, done + |at|) == NoMore)
  }

  lemma RoomsButLast(at: seq<nat>)
    requires 1 < |at|
    ensures Rooms(at[..|at| - 1]) == Room(at[0]) + Rooms(at[1..][..|at| - 2])
  {
    assert at[..|at| - 1][1..] == at[1..][..|at| - 2];
  }

  lemma LeadsOn(m: Mem, prp2: nat, list: bool, done: nat, left: nat, at: seq<nat>)
    requires Leads(m, prp2, list, done, left, at) && 1 < |at|
    ensures Room(at[0]) < left && NextAddr(m, prp2, list, done + 1) == At(at[1])
    ensures Leads(m, prp2, list, done + 1, left - Room(at[0]), at[1..])
  {
    hide NextAddr, Mapped;
    RoomsButLast(at);
    forall i | 1 <= i < |at[1..]| ensures NextAddr(m, prp2, list, done + 1 + i) == At(at[1..][i]) {
      assert NextAddr(m, prp2, list, done + (i + 1)) == At(at[i + 1]);
    }
  }

  lemma LeadsLast(m: Mem, prp2: nat, list: bool, done: nat, left: nat, at: seq<nat>)
    requires Leads(m, prp2, list, done, left, at) && |at| == 1
    ensures Rooms(at) == Room(at[0]) && (Room(at[0]) < left ==> NextAddr(m, prp2, list, done + 1) == NoMore)
  {
    hide NextAddr, Mapped;
    assert at[1..] == [];
  }

  lemma LeadsMapped(m: Mem, prp2: nat, list: bool, done: nat, left: nat, at: seq<nat>)
    requires Leads(m, prp2, list, done, left, at)
    ensures at != [] && 0 < left && Mapped(m, at[0])
  {
  }

  /** Byte for byte, the data are what the guest has at the addresses. */
  ghost predicate DataAt(m: Mem, at: seq<nat>, data: seq<Byte>) {
    |data| <= Rooms(at) && forall j :: 0 <= j < |data| ==> GuestByte(m, Address(at, j), data[j])
  }

  lemma DataCons(m: Mem, at: seq<nat>, here: seq<Byte>, rest: seq<Byte>)
    requires at != [] && |here| == Room(at[0]) && DataAt(m, at[1..], rest)
    requires forall x :: 0 <= x < |here| ==> GuestByte(m, at[0] + x, here[x])
    ensures DataAt(m, at, here + rest)
  {
    hide GuestByte;
    forall j | 0 <= j < |here + rest| ensures GuestByte(m, Address(at, j), (here + rest)[j]) {
      if |here| <= j { assert (here + rest)[j] == rest[j - |here|]; }
    }
  }

  lemma DataOne(m: Mem, at: seq<nat>, here: seq<Byte>)
    requires |at| == 1 && |here| <= Room(at[0]) && forall x :: 0 <= x < |here| ==> GuestByte(m, at[0] + x, here[x])
    ensures DataAt(m, at, here)
  {
    hide GuestByte;
  }

  lemma {:induction false} GatherRoute(m: Mem, prp2: nat, list: bool, done: nat, left: nat, at: seq<nat>)
    requires Paged(m) && Leads(m, prp2, list, done, left, at)
    ensures var (end, data) := Gather(m, prp2, list, at[0], done, left);
            end == Finished && |data| == Min(left, Rooms(at)) && DataAt(m, at, data)
    ensures Visited(m, prp2, list, at[0], done, left) == at
    decreases |at|
  {
    hide Gather, Visited, Leads, Place, Load, NextAddr, GuestByte, Mapped, FirstAt, Within, DataAt, Rooms, Room, Plan;
    LeadsMapped(m, prp2, list, done, left, at);
    PieceAt(m, at[0], left);
    var s := Place(m, at[0], left).value;
    GatherUnfolds(m, prp2, list, at[0], done, left, s);
    VisitedUnfolds(m, prp2, list, at[0], done, left, s);
    RoomsCons(at);
    if |at| == 1 {
      LeadsLast(m, prp2, list, done, left, at);
      DataOne(m, at, Load(m, s));
      assert at == [at[0]];
    } else {
      LeadsOn(m, prp2, list, done, left, at);
      GatherRoute(m, prp2, list, done + 1, left - s.len, at[1..]);
      var rest := Gather(m, prp2, list, at[1], done + 1, left - s.len).1;
      DataCons(m, at, Load(m, s), rest);
      assert at == [at[0]] + at[1..];
    }
  }

  lemma RoomsCons(at: seq<nat>)
    requires at != []
    ensures Rooms(at) == Room(at[0]) + Rooms(at[1..]) && Rooms([]) == 0
  {
  }

  lemma VisitedUnfolds(m: Mem, prp2: nat, list: bool, addr: nat, done: nat, left: nat, s: Seg)
    requires Paged(m) && 0 < left && Place(m, addr, left) == Some(s)
    ensures s.len <= left
    ensures Visited(m, prp2, list, addr, done, left) ==
            if s.len == left then [addr]
            else
              match NextAddr(m, prp2, list, done + 1)
              case At(a) => [addr] + Visited(m, prp2, list, a, done + 1, left - s.len)
              case _ => [addr]
  {
    hide Place, NextAddr, Plan;
    PlaceWithin(m, addr, left);
  }

  // ---- a route leads

  lemma StoredEntry(m: Mem, prp2: nat, entries: seq<nat>, i: nat)
    requires ListStored(m, prp2, entries) && i < |entries|
    ensures EntryPlace(m, prp2, i).Some? && Within(m, EntryPlace(m, prp2, i).value)
    ensures Load(m, EntryPlace(m, prp2, i).value) == EntryBytes(entries[i])
    ensures entries[i] < 0x1_0000_0000_0000_0000
    ensures NextAddr(m, prp2, true, i + 1) == At(entries[i])
  {
    hide EntryBytes, Word64;
    var r: nat :| FirstAt(m, prp2, r) && ListIn(m[r].bytes, prp2 - m[r].iova, entries);
    MappedTranslates(m, prp2, r);
    EntryReadsBack(entries[i]);
  }

  lemma RouteLeads(m: Mem, prp1: nat, prp2: nat, len: nat, at: seq<nat>)
    requires Route(m, prp1, prp2, len, at) && forall i :: 0 <= i < |at| ==> Mapped(m, at[i])
    ensures Leads(m, prp2, UsesList(prp1, len), 0, len, at)
  {
    hide NextAddr, Mapped, ListStored;
    RoomsCons(at);
    if len <= Room(prp1) {
      assert at[..0] == [];
    } else if len <= Room(prp1) + 4096 {
      assert at[..1] == [prp1] && [prp1][1..] == [];
      TwoPages(m, prp2);
    } else {
      forall i | 1 <= i < |at| ensures NextAddr(m, prp2, true, i) == At(at[i]) {
        StoredEntry(m, prp2, at[1..], i - 1);
      }
    }
  }

  lemma TwoPages(m: Mem, prp2: nat)
    ensures NextAddr(m, prp2, false, 1) == At(prp2) && NextAddr(m, prp2, false, 2) == NoMore
  {
  }

  // ---- reading

  /**
   prp_read_data: byte for byte, the buffer is what the guest has at the addresses its pointers name.  It is as long as
   asked for, except that a two-page transfer ends with the page of PRP2.
   */
  lemma ReadsRoute(m: Mem, prp1: nat, prp2: nat, len: nat, at: seq<nat>)
    requires Paged(m) && Route(m, prp1, prp2, len, at) && forall i :: 0 <= i < |at| ==> Mapped(m, at[i])
    ensures var (end, data) := ReadData(m, prp1, prp2, len);
            && end == Finished && |data| == Min(len, Rooms(at))
            && forall j :: 0 <= j < |data| ==> GuestByte(m, Address(at, j), data[j])
  {
    hide Route, Gather, GuestByte, Mapped;
    RouteLeads(m, prp1, prp2, len, at);
    GatherRoute(m, prp2, UsesList(prp1, len), 0, len, at);
    assert at[0] == prp1 by { RouteStarts(m, prp1, prp2, len, at); }
  }

  lemma RouteStarts(m: Mem, prp1: nat, prp2: nat, len: nat, at: seq<nat>)
    requires Route(m, prp1, prp2, len, at)
    ensures at != [] && at[0] == prp1
  {
  }

  // ---- a page that is not mapped

  /** The beginning of a route, up to a page that is not mapped. */
  ghost predicate Blocked(m: Mem, prp1: nat, prp2: nat, len: nat, at: seq<nat>) {
    && at != [] && at[0] == prp1 && Rooms(at[..|at| - 1]) < len
    && (forall i :: 0 <= i < |at| - 1 ==> Mapped(m, at[i])) && !Mapped(m, at[|at| - 1])
    && (1 < |at| && len <= Room(prp1) + 4096 ==> at == [prp1, prp2])
    && (1 < |at| && Room(prp1) + 4096 < len ==> ListStored(m, prp2, at[1..]))
  }

  lemma UnmappedPlace(m: Mem, a: nat, left: nat)
    requires 0 < left && !Mapped(m, a)
    ensures Place(m, a, left).None?
  {
    if Translate(m, PageStart(a)).Some? { TranslatesFirst(m, PageStart(a), 0); }
  }

  lemma {:induction false} TranslatesFirst(m: Mem, a: nat, k: nat)
    requires k <= |m| && FirstHolding(m, a, k).Some?
    requires forall j :: 0 <= j < k ==> !(m[j].iova <= a < m[j].iova + |m[j].bytes|)
    ensures FirstAt(m, a, FirstHolding(m, a, k).value)
    decreases |m| - k
  {
    if !Holds(m[k], a) { TranslatesFirst(m, a, k + 1); }
  }

  lemma {:induction false} GatherBlocked(m: Mem, prp2: nat, list: bool, done: nat, left: nat, at: seq<nat>)
    requires Paged(m) && at != [] && Rooms(at[..|at| - 1]) < left
    requires (forall i :: 0 <= i < |at| - 1 ==> Mapped(m, at[i])) && !Mapped(m, at[|at| - 1])
    requires forall i :: 1 <= i < |at| ==> NextAddr(m, prp2, list, done + i) == At(at[i])
    ensures var (end, data) := Gather(m, prp2, list, at[0], done, left);
            end == BadAddress && |data| == Rooms(at[..|at| - 1]) && DataAt(m, at, data)
    decreases |at|
  {
    hide Place, Load, NextAddr, GuestByte, Mapped, FirstAt, Within, DataAt, Rooms, Room;
    RoomsCons(at);
    if |at| == 1 {
      assert at[..0] == [];
      UnmappedPlace(m, at[0], left);
      DataNone(m, at);
    } else {
      hide Gather;
      RoomsButLast(at);
      PieceAt(m, at[0], left);
      var s := Place(m, at[0], left).value;
      GatherUnfolds(m, prp2, list, at[0], done, left, s);
      assert NextAddr(m, prp2, list, done + 1) == At(at[1]);
      forall i | 1 <= i < |at[1..]| ensures NextAddr(m, prp2, list, done + 1 + i) == At(at[1..][i]) {
        assert NextAddr(m, prp2, list, done + (i + 1)) == At(at[i + 1]);
      }
      GatherBlocked(m, prp2, list, done + 1, left - s.len, at[1..]);
      DataCons(m, at, Load(m, s), Gather(m, prp2, list, at[1], done + 1, left - s.len).1);
    }
  }

  lemma DataNone(m: Mem, at: seq<nat>)
    ensures DataAt(m, at, [])
  {
  }

  /** prp_read_data fails there, and the buffer holds what the guest has at the addresses before it. */
  lemma ReadBlocked(m: Mem, prp1: nat, prp2: nat, len: nat, at: seq<nat>)
    requires Paged(m) && Blocked(m, prp1, prp2, len, at)
    ensures var (end, data) := ReadData(m, prp1, prp2, len);
            && end == BadAddress && |data| == Rooms(at[..|at| - 1]) <= Rooms(at)
            && forall j :: 0 <= j < |data| ==> GuestByte(m, Address(at, j), data[j])
  {
    hide Gather, GuestByte, Mapped, ListStored, Rooms, NextAddr, UsesList, Address;
    forall i | 1 <= i < |at| ensures NextAddr(m, prp2, UsesList(prp1, len), 0 + i) == At(at[i]) {
      BlockedNext(m, prp1, prp2, len, at, i);
    }
    GatherBlocked(m, prp2, UsesList(prp1, len), 0, len, at);
  }

  lemma BlockedNext(m: Mem, prp1: nat, prp2: nat, len: nat, at: seq<nat>, i: nat)
    requires Blocked(m, prp1, prp2, len, at) && 1 <= i < |at|
    ensures NextAddr(m, prp2, UsesList(prp1, len), i) == At(at[i])
  {
    hide NextAddr, ListStored, Mapped, Rooms;
    if UsesList(prp1, len) { StoredEntry(m, prp2, at[1..], i - 1); } else { TwoPages(m, prp2); }
  }

  // ---- writing

  /** Different pages, and if there is a list, it lies on one page of its own as far as it is read. */
  ghost predicate PagesApart(prp1: nat, prp2: nat, len: nat, at: seq<nat>) {
    && (forall i, j :: 0 <= i < j < |at| ==> PageStart(at[i]) != PageStart(at[j]))
    && (Room(prp1) + 4096 < len ==>
          prp2 % 4096 + 8 * (|at| - 1) <= 4096 && forall i :: 0 <= i < |at| ==> PageStart(at[i]) != PageStart(prp2))
  }

  /** Then the transfer is clean, with or without a list. */
  lemma RouteClean(m: Mem, prp1: nat, prp2: nat, len: nat, at: seq<nat>)
    requires Paged(m) && Route(m, prp1, prp2, len, at) && forall i :: 0 <= i < |at| ==> Mapped(m, at[i])
    requires PagesApart(prp1, prp2, len, at)
    ensures CleanTransfer(m, prp1, prp2, len)
  {
    hide Route, Gather, Plan, Visited, Mapped, CleanTransfer;
    var list := UsesList(prp1, len);
    RouteStarts(m, prp1, prp2, len, at);
    RouteLeads(m, prp1, prp2, len, at);
    GatherRoute(m, prp2, list, 0, len, at);
    GatherIsPlan(m, prp2, list, prp1, 0, len);
    assert forall a: nat :: PageBase(a) == PageStart(a);
    CleanByPages(m, prp1, prp2, len);
  }

  /** The pieces of the plan, and where their bytes stand in the buffer. */
  lemma {:induction false} PlanRoute(m: Mem, prp2: nat, list: bool, done: nat, left: nat, at: seq<nat>)
    requires Paged(m) && Leads(m, prp2, list, done, left, at)
    ensures var segs := Plan(m, prp2, list, at[0], done, left).1;
            && |segs| == |at|
            && forall q :: 0 <= q < |at| ==> Piece(m, at, q, segs[q], Min(left, Rooms(at)))
    decreases |at|
  {
    hide Plan, Leads, Place, Load, NextAddr, GuestByte, Mapped, FirstAt, Within, Rooms, Room, Piece;
    LeadsMapped(m, prp2, list, done, left, at);
    PieceAt(m, at[0], left);
    var s := Place(m, at[0], left).value;
    PlanUnfolds(m, prp2, list, at[0], done, left, s);
    RoomsCons(at);
    PieceFirst(m, at, s, Min(left, Rooms(at)));
    if |at| == 1 {
      LeadsLast(m, prp2, list, done, left, at);
    } else {
      LeadsOn(m, prp2, list, done, left, at);
      PlanRoute(m, prp2, list, done + 1, left - s.len, at[1..]);
      var rest := Plan(m, prp2, list, at[1], done + 1, left - s.len).1;
      forall q | 1 <= q < |at| ensures Piece(m, at, q, ([s] + rest)[q], Min(left, Rooms(at))) {
        PieceLater(m, at, q, rest[q - 1], Min(left - s.len, Rooms(at[1..])));
      }
    }
  }

  /** `s` is the piece at address `at[q]`, and ends within the first `n` bytes of the buffer. */
  ghost predicate Piece(m: Mem, at: seq<nat>, q: nat, s: Seg, n: nat) {
    && q < |at| && (forall x :: 0 <= x < s.len ==> ByteIn(m, s, at[q], x))
    && s.len <= Room(at[q]) && Rooms(at[..q]) + s.len <= n
  }

  lemma PieceFirst(m: Mem, at: seq<nat>, s: Seg, n: nat)
    requires at != [] && s.len <= Room(at[0]) && s.len <= n && forall x :: 0 <= x < s.len ==> ByteIn(m, s, at[0], x)
    ensures Piece(m, at, 0, s, n)
  {
    assert at[..0] == [];
  }

  lemma PieceLater(m: Mem, at: seq<nat>, q: nat, s: Seg, n: nat)
    requires 1 <= q < |at| && Piece(m, at[1..], q - 1, s, n)
    ensures Piece(m, at, q, s, Room(at[0]) + n)
  {
    assert at[..q][1..] == at[1..][..q - 1];
  }

  lemma {:induction false} AddressIn(at: seq<nat>, q: nat, x: nat)
    requires q < |at| && x < Room(at[q])
    ensures Rooms(at[..q]) + x < Rooms(at) && Address(at, Rooms(at[..q]) + x) == at[q] + x
  {
    RoomsCons(at);
    if q == 0 {
      assert at[..0] == [];
    } else {
      AddressIn(at[1..], q - 1, x);
      assert at[..q][1..] == at[1..][..q - 1];
    }
  }

  /** A byte of a piece is at one of the addresses of the buffer. */
  lemma ByteOfPiece(m: Mem, at: seq<nat>, q: nat, s: Seg, n: nat, a: nat, t: Seg) returns (j: nat)
    requires Piece(m, at, q, s, n) && n <= Rooms(at) && FirstAt(m, a, t.region) && t.len == 1
    requires t.off == a - m[t.region].iova && !Apart(s, t)
    ensures j < n && Address(at, j) == a
  {
    hide Room, Address, Rooms;
    var x := t.off - s.off;
    assert ByteIn(m, s, at[q], x);
    AddressIn(at, q, x);
    j := Rooms(at[..q]) + x;
  }

  lemma ByteElsewhere(m: Mem, at: seq<nat>, q: nat, s: Seg, n: nat, a: nat, t: Seg)
    requires Piece(m, at, q, s, n) && n <= Rooms(at) && FirstAt(m, a, t.region) && t.len == 1
    requires t.off == a - m[t.region].iova
    requires forall j :: 0 <= j < n ==> Address(at, j) != a
    ensures Apart(s, t)
  {
    hide Piece, Apart, Address, Rooms;
    if !Apart(s, t) { var j := ByteOfPiece(m, at, q, s, n, a, t); }
  }

  lemma KeepsRoute(m: Mem, m': Mem, prp1: nat, prp2: nat, len: nat, at: seq<nat>)
    requires Route(m, prp1, prp2, len, at) && SameLayout(m, m')
    requires Room(prp1) + 4096 < len ==> SameEntries(m, m', prp2, |at| - 1)
    ensures Route(m', prp1, prp2, len, at)
  {
    if Room(prp1) + 4096 < len { KeepsList(m, m', prp2, at[1..]); }
  }

  ghost predicate SameEntries(m: Mem, m': Mem, prp2: nat, n: nat)
    requires SameLayout(m, m')
  {
    forall k :: 0 <= k < n && EntryPlace(m, prp2, k).Some? && Within(m, EntryPlace(m, prp2, k).value) ==>
      Load(m', EntryPlace(m, prp2, k).value) == Load(m, EntryPlace(m, prp2, k).value)
  }

  lemma KeepsFirst(m: Mem, m': Mem, a: nat, i: nat)
    requires SameLayout(m, m') && FirstAt(m, a, i)
    ensures FirstAt(m', a, i)
  {
  }

  lemma KeepsMapped(m: Mem, m': Mem, a: nat)
    requires SameLayout(m, m') && Mapped(m, a)
    ensures Mapped(m', a)
  {
    hide FirstAt;
    var i: nat :| FirstAt(m, PageStart(a), i);
    KeepsFirst(m, m', PageStart(a), i);
  }

  lemma KeepsList(m: Mem, m': Mem, prp2: nat, entries: seq<nat>)
    requires ListStored(m, prp2, entries) && SameLayout(m, m') && SameEntries(m, m', prp2, |entries|)
    ensures ListStored(m', prp2, entries)
  {
    hide EntryBytes, FirstAt, Translate;
    var r: nat :| FirstAt(m, prp2, r) && ListIn(m[r].bytes, prp2 - m[r].iova, entries);
    KeepsFirst(m, m', prp2, r);
    MappedTranslates(m, prp2, r);
    var off := prp2 - m[r].iova;
    forall i | 0 <= i < |entries| ensures m'[r].bytes[off + 8 * i..off + 8 * i + 8] == EntryBytes(entries[i]) {
      assert EntryPlace(m, prp2, i) == Some(Seg(r, off + 8 * i, 8));
    }
  }

  /**
   prp_write_data over pages that are apart: afterwards the guest finds, byte for byte, the buffer at the addresses the
   pointers name, and every other byte as it was.
   */
  lemma WritesRoute(m: Mem, prp1: nat, prp2: nat, buf: seq<Byte>, at: seq<nat>)
    requires Paged(m) && Route(m, prp1, prp2, |buf|, at) && forall i :: 0 <= i < |at| ==> Mapped(m, at[i])
    requires PagesApart(prp1, prp2, |buf|, at)
    ensures var (end, m') := WriteData(m, prp1, prp2, buf);
            var n := Min(|buf|, Rooms(at));
            && end == Finished
            && (forall j :: 0 <= j < n ==> GuestByte(m', Address(at, j), buf[j]))
            && forall a: nat, v: Byte ::
                 GuestByte(m, a, v) && (forall j :: 0 <= j < n ==> Address(at, j) != a) ==> GuestByte(m', a, v)
  {
    hide Route, Gather, Plan, GuestByte, Mapped, CleanTransfer, WriteData, ReadData, Load, Within;
    RouteClean(m, prp1, prp2, |buf|, at);
    RouteStarts(m, prp1, prp2, |buf|, at);
    RouteLeads(m, prp1, prp2, |buf|, at);
    WrittenBack(m, prp1, prp2, buf, at);
    var m' := WriteData(m, prp1, prp2, buf).1;
    var n := Min(|buf|, Rooms(at));
    forall a: nat, v: Byte | GuestByte(m, a, v) && (forall j :: 0 <= j < n ==> Address(at, j) != a)
      ensures GuestByte(m', a, v)
    {
      UnwrittenByte(m, prp1, prp2, buf, at, a, v);
    }
  }

  /** A clean write leaves the entries it reads as they are. */
  lemma CleanEntries(m: Mem, prp1: nat, prp2: nat, buf: seq<Byte>, k: nat)
    requires CleanTransfer(m, prp1, prp2, |buf|) && UsesList(prp1, |buf|)
    requires var (end, segs) := Plan(m, prp2, true, prp1, 0, |buf|); end == Finished && |segs| == k + 1
    ensures var m' := WriteData(m, prp1, prp2, buf).1; SameLayout(m, m') && SameEntries(m, m', prp2, k)
  {
    hide Plan, WriteData, ReadData, Load, EntryPlace, PairwiseApart, Apart;
    ScatterGather(m, prp1, prp2, buf);
    var segs := Plan(m, prp2, true, prp1, 0, |buf|).1;
    var m' := WriteData(m, prp1, prp2, buf).1;
    forall i | 0 <= i < k && EntryPlace(m, prp2, i).Some? && Within(m, EntryPlace(m, prp2, i).value)
      ensures Load(m', EntryPlace(m, prp2, i).value) == Load(m, EntryPlace(m, prp2, i).value)
    {
      assert forall q :: 0 <= q < |segs| ==> Apart(segs[q], EntryPlace(m, prp2, i).value);
    }
  }

  lemma WrittenBack(m: Mem, prp1: nat, prp2: nat, buf: seq<Byte>, at: seq<nat>)
    requires Route(m, prp1, prp2, |buf|, at) && forall i :: 0 <= i < |at| ==> Mapped(m, at[i])
    requires CleanTransfer(m, prp1, prp2, |buf|) && Paged(m)
    ensures var (end, m') := WriteData(m, prp1, prp2, buf);
            end == Finished && forall j :: 0 <= j < Min(|buf|, Rooms(at)) ==> GuestByte(m', Address(at, j), buf[j])
  {
    hide Route, Gather, Plan, GuestByte, Mapped, WriteData, ReadData, Load, Within, EntryPlace, CleanTransfer, Leads,
      SameEntries, Piece, DataAt, Address, Rooms, Apart, Visited, Total;
    var list := UsesList(prp1, |buf|);
    RouteStarts(m, prp1, prp2, |buf|, at);
    RouteLeads(m, prp1, prp2, |buf|, at);
    GatherRoute(m, prp2, list, 0, |buf|, at);
    GatherIsPlan(m, prp2, list, prp1, 0, |buf|);
    PlanRoute(m, prp2, list, 0, |buf|, at);
    ScatterGather(m, prp1, prp2, buf);
    if list { CleanEntries(m, prp1, prp2, buf, |at| - 1); }
    var m' := WriteData(m, prp1, prp2, buf).1;
    KeepsRoute(m, m', prp1, prp2, |buf|, at);
    forall i | 0 <= i < |at| ensures Mapped(m', at[i]) { KeepsMapped(m, m', at[i]); }
    ReadsRoute(m', prp1, prp2, |buf|, at);
    PrefixBytes(m', at, ReadData(m', prp1, prp2, |buf|).1, buf);
  }

  lemma PrefixBytes(m: Mem, at: seq<nat>, data: seq<Byte>, buf: seq<Byte>)
    requires |data| <= |buf| && data == buf[..|data|] && |data| <= Rooms(at)
    requires forall j :: 0 <= j < |data| ==> GuestByte(m, Address(at, j), data[j])
    ensures forall j :: 0 <= j < |data| ==> GuestByte(m, Address(at, j), buf[j])
  {
    assert forall j :: 0 <= j < |data| ==> data[j] == buf[j];
  }

  lemma UnwrittenByte(m: Mem, prp1: nat, prp2: nat, buf: seq<Byte>, at: seq<nat>, a: nat, v: Byte)
    requires Paged(m) && CleanTransfer(m, prp1, prp2, |buf|) && at != [] && at[0] == prp1
    requires Leads(m, prp2, UsesList(prp1, |buf|), 0, |buf|, at)
    requires GuestByte(m, a, v) && forall j :: 0 <= j < Min(|buf|, Rooms(at)) ==> Address(at, j) != a
    ensures GuestByte(WriteData(m, prp1, prp2, buf).1, a, v)
  {
    hide Leads, WriteData, CleanTransfer, FirstAt, Load, Address, Rooms;
    var i: nat :| FirstAt(m, a, i) && m[i].bytes[a - m[i].iova] == v;
    var t := Seg(i, a - m[i].iova, 1);
    var m' := WriteData(m, prp1, prp2, buf).1;
    SegUnwritten(m, prp1, prp2, buf, at, a, t);
    KeepsFirst(m, m', a, i);
    OneByte(m, m', t);
  }

  lemma SegUnwritten(m: Mem, prp1: nat, prp2: nat, buf: seq<Byte>, at: seq<nat>, a: nat, t: Seg)
    requires Paged(m) && CleanTransfer(m, prp1, prp2, |buf|) && at != [] && at[0] == prp1
    requires Leads(m, prp2, UsesList(prp1, |buf|), 0, |buf|, at)
    requires FirstAt(m, a, t.region) && t.len == 1 && t.off == a - m[t.region].iova
    requires forall j :: 0 <= j < Min(|buf|, Rooms(at)) ==> Address(at, j) != a
    ensures var m' := WriteData(m, prp1, prp2, buf).1;
            SameLayout(m, m') && Within(m, t) && Within(m', t) && Load(m', t) == Load(m, t)
  {
    hide Leads, Plan, WriteData, ReadData, CleanTransfer, Piece, FirstAt, Apart, Load, Address, Rooms, Total;
    var segs := Plan(m, prp2, UsesList(prp1, |buf|), prp1, 0, |buf|).1;
    PlanRoute(m, prp2, UsesList(prp1, |buf|), 0, |buf|, at);
    ScatterGather(m, prp1, prp2, buf);
    forall q | 0 <= q < |segs| ensures Apart(segs[q], t) {
      ByteElsewhere(m, at, q, segs[q], Min(|buf|, Rooms(at)), a, t);
    }
  }

  lemma OneByte(m: Mem, m': Mem, t: Seg)
    requires Within(m, t) && Within(m', t) && t.len == 1 && Load(m', t) == Load(m, t)
    ensures m'[t.region].bytes[t.off] == m[t.region].bytes[t.off]
  {
    assert Load(m', t)[0] == Load(m, t)[0];
  }
}
