/** Saving the forward table and write position to a file, loading them back, rebuilding the inverse table. */
module Snapshot {
  import opened Common
  import opened Layout
  import opened NandModel
  import opened WalModel
  import opened FtlModel
  import opened FtlInvariant

  const META_MAGIC: nat := 0x46544C31
  const META_VERSION: nat := 0x00010000

  datatype Header = Header(
    magic: nat, version: nat, checksum: nat, host: nat, nand: nat, gcCount: nat, wb: nat, wp: nat)

  /** What is at the path: nothing, too little for a header, or a header and as much of the table as there is. */
  datatype File = Absent | Truncated | File(header: Header, table: seq<nat>)

  /** Byte sum of the whole header. */
  function HeaderSum(h: Header): nat {
    (ByteSum(h.magic) + ByteSum(h.version) + ByteSum(h.checksum) + ByteSum(h.host) + ByteSum(h.nand)
     + ByteSum(h.gcCount) + ByteSum(h.wb) + ByteSum(h.wp)) % TWO32
  }

  /** ftl_save_snapshot: the sum is taken while the checksum field is zero. */
  function Save(s: Ftl): File {
    var bare := Header(META_MAGIC, META_VERSION, 0, s.stats.host % TWO32, s.stats.nand % TWO32,
                       s.stats.gcCount % TWO32, s.wb, s.wp);
    File(bare.(checksum := HeaderSum(bare)), s.l2p)
  }

  /** The rebuilding loop: the inverse table after the first `k` LPNs. */
  function Rebuilt(l2p: seq<nat>, total: nat, k: nat): (r: seq<nat>)
    requires k <= |l2p|
    ensures |r| == total
  {
    if k == 0 then seq(total, _ => INVALID)
    else
      var r := Rebuilt(l2p, total, k - 1);
      var ppn := l2p[k - 1];
      if ppn != INVALID && ppn < total then r[ppn := k - 1] else r
  }

  /** ftl_load_snapshot into device `d`; a table cut short has already overwritten part of the forward table. */
  function Load(f: File, d: Ftl): (RetCode, Ftl)
    requires d.Shape()
  {
    match f
    case Absent => (Internal, d)
    case Truncated => (Internal, d)
    case File(h, table) =>
      if h.magic != META_MAGIC || h.checksum != HeaderSum(h.(checksum := 0)) then (Checksum, d)
      else if |table| < |d.l2p| then (Internal, d.(l2p := table + d.l2p[|table|..]))
      else
        var l2p := table[..|d.l2p|];
        (Ok, d.(l2p := l2p, rmap := Rebuilt(l2p, |d.rmap|, |l2p|), wb := h.wb, wp := h.wp,
                stats := d.stats.(host := h.host, nand := h.nand, gcCount := h.gcCount)))
  }

  /** Each rebuilt entry names the last LPN that maps to the page; so it always agrees with the forward table. */
  lemma {:induction false} RebuiltAgrees(l2p: seq<nat>, total: nat, k: nat)
    requires k <= |l2p| <= INVALID && total <= INVALID
    ensures forall p :: 0 <= p < total ==> AgreesAt(l2p, k, Rebuilt(l2p, total, k), p)
  {
    if k != 0 {
      RebuiltAgrees(l2p, total, k - 1);
      var before, r := Rebuilt(l2p, total, k - 1), Rebuilt(l2p, total, k);
      forall p | 0 <= p < total ensures AgreesAt(l2p, k, r, p) {
        assert AgreesAt(l2p, k - 1, before, p);
        if l2p[k - 1] == p { assert r[p] == k - 1; } else { assert r[p] == before[p]; }
      }
    }
  }

  /** Entry `p` of `r` is the last of the first `k` LPNs that maps to page `p`, if any does. */
  ghost predicate AgreesAt(l2p: seq<nat>, k: nat, r: seq<nat>, p: nat)
    requires k <= |l2p| && p < |r|
  {
    if r[p] == INVALID then forall i :: 0 <= i < k ==> l2p[i] != p
    else r[p] < k && l2p[r[p]] == p && forall i :: r[p] < i < k ==> l2p[i] != p
  }

  ghost predicate InjectiveInRange(l2p: seq<nat>, total: nat) {
    forall i, j :: 0 <= i < j < |l2p| && l2p[i] == l2p[j] && l2p[i] < total ==> l2p[i] == INVALID
  }

  /** The rebuilt inverse finds every in-range mapping. */
  ghost predicate Complete(l2p: seq<nat>, r: seq<nat>) {
    forall i :: 0 <= i < |l2p| && l2p[i] != INVALID && l2p[i] < |r| ==> r[l2p[i]] == i
  }

  /**
   For an arbitrary loaded table the rebuilt inverse is complete iff the table is injective on the pages that exist.
   */
  lemma CompleteIffInjective(l2p: seq<nat>, total: nat)
    requires |l2p| <= INVALID && total <= INVALID
    ensures Complete(l2p, Rebuilt(l2p, total, |l2p|)) <==> InjectiveInRange(l2p, total)
  {
    RebuiltAgrees(l2p, total, |l2p|);
    var r := Rebuilt(l2p, total, |l2p|);
    if InjectiveInRange(l2p, total) {
      forall i | 0 <= i < |l2p| && l2p[i] != INVALID && l2p[i] < total ensures r[l2p[i]] == i {
        var p := l2p[i];
        assert AgreesAt(l2p, |l2p|, r, p);
      }
    }
  }

  /** Rebuilding from a consistent forward table gives exactly the inverse it came with. */
  lemma RebuiltIsInverse(s: Ftl)
    requires s.Shape() && Inverses(s)
    ensures Rebuilt(s.l2p, |s.rmap|, |s.l2p|) == s.rmap
  {
    RebuiltAgrees(s.l2p, |s.rmap|, |s.l2p|);
    var r := Rebuilt(s.l2p, |s.rmap|, |s.l2p|);
    forall p | 0 <= p < |r| ensures r[p] == s.rmap[p] {
      assert AgreesAt(s.l2p, |s.l2p|, r, p);
    }
  }

  /**
   Save, lose everything in memory, load: tables, write position and (32-bit) saved counters come
   back whatever the device held before; with the NAND as it was at save time the invariant holds
   again and the host sees the same content.
   */
  lemma SnapshotRoundTrip(s: Ftl, d: Ftl)
    requires Safe(s) && d.Shape() && d.Geo() == s.Geo()
    ensures var (code, d') := Load(Save(s), d);
            && code == Ok && d'.l2p == s.l2p && d'.rmap == s.rmap && d'.wb == s.wb && d'.wp == s.wp
            && d'.stats == d.stats.(host := s.stats.host % TWO32, nand := s.stats.nand % TWO32,
                                    gcCount := s.stats.gcCount % TWO32)
            && (d.nand == s.nand ==> Safe(d') && (Inv(s) ==> Inv(d')) && Logical(d') == Logical(s))
  {
    hide HeaderSum, Logical;
    RebuiltIsInverse(s);
    var d' := Load(Save(s), d).1;
    assert s.l2p[..|d.l2p|] == s.l2p;
    if d.nand == s.nand {
      assert d' == s.(stats := d'.stats, wal := d.wal);
      CountersIrrelevant(s, d'.stats, d.wal);
    }
  }

  /** What loading refuses, and what it leaves behind when it does. */
  lemma LoadRefusals(f: File, d: Ftl)
    requires d.Shape()
    ensures var (code, d') := Load(f, d);
            && (code == Ok <==> f.File? && f.header.magic == META_MAGIC
                                && f.header.checksum == HeaderSum(f.header.(checksum := 0)) && |d.l2p| <= |f.table|)
            && (code == Checksum ==> d' == d)
            && (code != Ok ==> d'.rmap == d.rmap && d'.nand == d.nand && d'.stats == d.stats
                               && (d'.l2p != d.l2p ==> f.File? && |f.table| < |d.l2p| && f.table <= d'.l2p))
  {
    hide HeaderSum;
  }

  // ---- the loops, in place

  /** The two loops of ftl_load_snapshot that clear and refill the inverse table. */
  method RebuildInverse(l2p: array<nat>, rmap: array<nat>)
    requires l2p != rmap
    modifies rmap
    ensures rmap[..] == Rebuilt(l2p[..], rmap.Length, l2p.Length)
  {
    for i := 0 to rmap.Length
      invariant forall j :: 0 <= j < i ==> rmap[j] == INVALID
    {
      rmap[i] := INVALID;
    }
    assert rmap[..] == Rebuilt(l2p[..], rmap.Length, 0);
    for lpn := 0 to l2p.Length
      invariant rmap[..] == Rebuilt(l2p[..], rmap.Length, lpn)
    {
      ghost var before := rmap[..];
      if l2p[lpn] != INVALID && l2p[lpn] < rmap.Length {
        rmap[l2p[lpn]] := lpn;
        assert rmap[..] == before[l2p[lpn] := lpn];
      }
    }
  }

  /** ftl_wal_replay over the two tables. */
  method ReplayLog(l2p: array<nat>, rmap: array<nat>, log: seq<Entry>)
    requires l2p != rmap
    requires ForwardInRange(Tables(l2p[..], rmap[..]))
    requires AllFit(log, l2p.Length, rmap.Length)
    modifies l2p, rmap
    ensures Tables(l2p[..], rmap[..]) == Replay(old(Tables(l2p[..], rmap[..])), log)
  {
    hide EntrySum;
    ghost var t0 := Tables(l2p[..], rmap[..]);
    for i := 0 to |log|
      invariant ForwardInRange(Tables(l2p[..], rmap[..]))
      invariant Replay(Tables(l2p[..], rmap[..]), log[i..]) == Replay(t0, log)
    {
      var e := log[i];
      ghost var t := Tables(l2p[..], rmap[..]);
      assert log[i..][0] == e && log[i..][1..] == log[i + 1..];
      ReplayEntry(l2p, rmap, e);
    }
    assert log[|log|..] == [];
  }

  method ReplayEntry(l2p: array<nat>, rmap: array<nat>, e: Entry)
    requires l2p != rmap
    requires ForwardInRange(Tables(l2p[..], rmap[..])) && Fits(e, l2p.Length, rmap.Length)
    modifies l2p, rmap
    ensures Tables(l2p[..], rmap[..]) == ReplayOne(old(Tables(l2p[..], rmap[..])), e)
  {
    hide EntrySum;
    if e.magic != WAL_MAGIC { return; }
    if e.checksum != EntrySum(e) { return; }
    ghost var t := Tables(l2p[..], rmap[..]);
    match e.op {
      case OpWrite =>
        if e.lpn < l2p.Length && e.newPpn != INVALID {
          if e.oldPpn != INVALID { rmap[e.oldPpn] := INVALID; }
          ghost var cleared := rmap[..];
          l2p[e.lpn] := e.newPpn;
          rmap[e.newPpn] := e.lpn;
          assert l2p[..] == t.l2p[e.lpn := e.newPpn];
          assert rmap[..] == cleared[e.newPpn := e.lpn];
        }
      case OpTrim =>
        if e.lpn < l2p.Length && l2p[e.lpn] != INVALID {
          rmap[l2p[e.lpn]] := INVALID;
          l2p[e.lpn] := INVALID;
          assert l2p[..] == t.l2p[e.lpn := INVALID];
          assert rmap[..] == t.rmap[t.l2p[e.lpn] := INVALID];
        }
      case _ =>
    }
  }
}
