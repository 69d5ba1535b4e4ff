/**
 New media filled by plain writes, block after block.  If every block filled keeps at least two valid pages, the
 state in which garbage collection is first needed is already a stuck one: for at least six times as many passes as the
 wear limit is large the next write does not return, then it answers NO_SPACE as soon as a wear draw hits, and no later
 write succeeds either.
 */
module FtlFill {
  import opened Common
  import opened Layout
  import opened NandModel
  import opened WalModel
  import opened FtlModel
  import opened FtlInvariant
  import opened FtlRelocation
  import opened FtlSteps
  import opened FtlRuns
  import opened FtlScript
  import opened FtlChoices
  import opened FtlGain
  import opened FtlRotation
  import opened FtlStuck
  import opened FtlRing
  import opened FtlJam

  // ---- the good blocks of the user region

  /** `good` lists the user blocks that are not bad, in order. */
  ghost predicate Roster(n: Nand, good: seq<nat>)
    requires n.Shape()
  {
    && (forall i :: 0 <= i < |good| ==> good[i] < n.geo.User() && n.blocks[good[i]].state != Bad)
    && (forall i, j :: 0 <= i < j < |good| ==> good[i] < good[j])
    && forall b :: 0 <= b < n.geo.User() && n.blocks[b].state != Bad ==> b in good
  }

  lemma {:induction false} FreeListSorted(blocks: seq<Block>, lo: nat, hi: nat)
    requires hi <= |blocks|
    ensures var r := FreeList(blocks, lo, hi);
            && (forall i, j :: 0 <= i < j < |r| ==> r[i] < r[j])
            && forall b :: lo <= b < hi && blocks[b].state == Free ==> b in r
    decreases hi - lo
  {
    hide FreeList;
    if lo < hi {
      FreeListHead(blocks, lo, hi);
      FreeListSorted(blocks, lo + 1, hi);
    }
  }

  /** On new media the good blocks are the FREE ones. */
  lemma NewRoster(n: Nand)
    requires n.Shape() && NewMedia(n)
    ensures Roster(n, FreeList(n.blocks, 0, n.geo.User()))
    ensures forall b :: 0 <= b < n.geo.User() && n.blocks[b].state != Bad ==> n.blocks[b].state == Free
  {
    hide FreeList;
    FreeListSorted(n.blocks, 0, n.geo.User());
    forall b | 0 <= b < n.geo.User() && n.blocks[b].state != Bad ensures n.blocks[b].state == Free {
      assert n.blocks[b].state != Used;
    }
  }

  lemma {:induction false} FreeBelowMono(blocks: seq<Block>, j: nat, k: nat)
    requires j <= k <= |blocks|
    ensures FreeBelow(blocks, j) <= FreeBelow(blocks, k)
  {
    if j < k { FreeBelowMono(blocks, j, k - 1); }
  }

  lemma {:induction false} ListedFree(blocks: seq<Block>, list: seq<nat>, k: nat)
    requires k <= |blocks| && forall i :: 0 <= i < |list| ==> list[i] < k && blocks[list[i]].state == Free
    requires forall i, j :: 0 <= i < j < |list| ==> list[i] < list[j]
    ensures |list| <= FreeBelow(blocks, k)
  {
    if list != [] {
      var last := list[|list| - 1];
      ListedFree(blocks, list[..|list| - 1], last);
      FreeBelowMono(blocks, last + 1, k);
    }
  }

  lemma {:induction false} FreeListed(blocks: seq<Block>, list: seq<nat>, k: nat)
    requires k <= |blocks| && forall i :: 0 <= i < |list| ==> list[i] < k
    requires forall i, j :: 0 <= i < j < |list| ==> list[i] < list[j]
    requires forall b :: 0 <= b < k && blocks[b].state == Free ==> b in list
    ensures FreeBelow(blocks, k) <= |list|
    decreases k
  {
    if k != 0 {
      var n := |list|;
      if 0 < n && list[n - 1] == k - 1 {
        forall b | 0 <= b < k - 1 && blocks[b].state == Free ensures b in list[..n - 1] {
          var i :| 0 <= i < n && list[i] == b;
          assert list[..n - 1][i] == b;
        }
        FreeListed(blocks, list[..n - 1], k - 1);
      } else {
        FreeListed(blocks, list, k - 1);
      }
    }
  }

  // ---- the writes

  /** LPNs and data, in the order in which they are written. */
  type Script = seq<(nat, Page)>

  function WriteOps(w: Script): (ops: seq<Op>)
    ensures |ops| == |w|
  {
    if w == [] then [] else [DoWrite(w[0].0, w[0].1, QUIET)] + WriteOps(w[1..])
  }

  /** After `k` writes, nothing has replaced the `q`-th one. */
  predicate Stands(w: Script, k: nat, q: nat)
    requires q < k <= |w|
  {
    forall i :: q < i < k ==> w[i].0 != w[q].0
  }

  /** Where the `q`-th page goes: the good blocks are filled in order. */
  function Home(g: Geometry, good: seq<nat>, q: nat): (ppn: nat)
    requires g.Valid() && forall i :: 0 <= i < |good| ==> good[i] < g.blocks
  {
    if q / g.pages < |good| then g.Ppn(good[q / g.pages], q % g.pages) else INVALID
  }

  /** The state after the first `k` writes, the last of them to the `c`-th good block. */
  ghost predicate Filling(s: Ftl, good: seq<nat>, w: Script, k: nat, c: nat)
    requires k <= |w| && forall i :: 0 <= i < |w| ==> w[i].0 < s.Geo().lpns
    ensures Filling(s, good, w, k, c) ==> Inv(s) && Roster(s.nand, good)
  {
    && Inv(s) && s.wal == None && Roster(s.nand, good)
    && c < |good| && s.wb == good[c] && c * s.Geo().pages + s.wp == k && (0 < k ==> 1 <= s.wp)
    && (forall b :: 0 <= b < s.Geo().User() ==> s.nand.blocks[b].erases == 0)
    && (forall i :: 0 <= i < |good| && (c < i || k == 0) ==> s.nand.blocks[good[i]].state == Free)
    && OwnedBut(s, -1)
    && forall q :: 0 <= q < k && Stands(w, k, q) ==> s.l2p[w[q].0] == Home(s.Geo(), good, q)
  }

  lemma SixLeft(c: nat, wp: nat, n: nat, pages: nat)
    requires c * pages + wp <= n * pages && (0 < c * pages + wp ==> 1 <= wp)
    ensures n <= c ==> c * pages + wp == 0
  {
    if n <= c { MulMono(n, c, pages); }
  }

  /** Behind the open block the search comes to the next good one. */
  lemma NextGood(n: Nand, good: seq<nat>, c: nat)
    requires n.Shape() && Roster(n, good) && c + 1 < |good| && n.blocks[good[c + 1]].state == Free
    ensures NextFree(n, good[c] + 1) == Some(good[c + 1])
  {
    hide NextFree;
    forall i | good[c] + 1 <= i < good[c + 1] ensures n.blocks[i].state != Free {
      if n.blocks[i].state == Free {
        var j :| 0 <= j < |good| && good[j] == i;
        Between(good, c, j);
      }
    }
    NextFreeIsNext(n, good[c] + 1, good[c + 1]);
  }

  lemma Between(good: seq<nat>, c: nat, j: nat)
    requires c + 1 < |good| && j < |good| && forall i, j :: 0 <= i < j < |good| ==> good[i] < good[j]
    ensures !(good[c] < good[j] < good[c + 1])
  {
  }

  /** The slot of write `k`. */
  ghost predicate SlotAt(s: Ftl, good: seq<nat>, k: nat, c: nat, p: nat)
    requires s.Shape() && forall i :: 0 <= i < |good| ==> good[i] < s.Geo().blocks
  {
    && c < |good| && p < s.Geo().pages && c * s.Geo().pages + p == k
    && if s.wp < s.Geo().pages then s.wb == good[c] && p == s.wp else 0 < c && s.wb == good[c - 1] && p == 0
  }

  /** As long as no more than all good blocks but six have been filled, there is room for the next write. */
  lemma FillingPlain(s: Ftl, good: seq<nat>, w: Script, k: nat, c: nat) returns (c': nat, p: nat)
    requires k < |w| && forall i :: 0 <= i < |w| ==> w[i].0 < s.Geo().lpns
    requires Filling(s, good, w, k, c) && 6 <= |good| && k <= (|good| - 6) * s.Geo().pages
    ensures SlotAt(s, good, k, c', p) && Plain(s, w[k].0, good[c'], p) && c <= c'
    ensures Home(s.Geo(), good, k) == s.Geo().Ppn(good[c'], p)
  {
    hide Inv, Safe, FreeBelow, OwnedBut, Stands, NextFree, Roster;
    var g := s.Geo();
    RosterInRange(s.nand, good);
    NextPlace(c, s.wp, g.pages);
    c', p := if s.wp < g.pages then c else c + 1, if s.wp < g.pages then s.wp else 0;
    SixLeft(c, s.wp, |good| - 6, g.pages);
    DivModUnique(k, g.pages, c', p);
    SixFree(s.nand, good, if k == 0 then 0 else c + 1);
    if s.wp == g.pages { NextGood(s.nand, good, c); }
  }

  lemma NextPlace(c: nat, wp: nat, pages: nat)
    requires wp <= pages
    ensures wp == pages ==> (c + 1) * pages == c * pages + wp
  {
  }

  lemma SixFree(n: Nand, good: seq<nat>, lo: nat)
    requires n.Shape() && Roster(n, good) && lo + 6 <= |good|
    requires forall i :: lo <= i < |good| ==> n.blocks[good[i]].state == Free
    ensures !NeedsGc(n)
  {
    ListedFree(n.blocks, good[lo..], n.geo.User());
  }

  /** What the write of LPN `x` to slot `(b, p)` leaves of the page tables. */
  lemma WriteOwned(s: Ftl, s': Ftl, x: nat, b: nat, p: nat)
    requires Inv(s) && OwnedBut(s, -1) && Plain(s, x, b, p) && s'.Shape() && s'.Geo() == s.Geo()
    requires s'.rmap == Disowned(s, x)[s.Geo().Ppn(b, p) := x] && s'.nand.blocks == WrittenBlocks(s, x, b, p)
    ensures OwnedBut(s', -1)
  {
    hide Inv, Safe, NextSlot, NeedsGc, Plain, OwnedBut, WrittenBlocks, Disowned;
    PlainInRange(s, x, b, p);
    forall i, q | 0 <= i < s.Geo().User() && 0 <= q < s.Geo().pages
                  && s'.nand.blocks[i].state != Bad && s'.nand.blocks[i].valid[q]
      ensures Live(s', i, q)
    {
      PageOwned(s, s', x, b, p, i, q);
    }
    OwnedFrom(s');
  }

  lemma OwnedFrom(s: Ftl)
    requires s.Shape()
    requires forall i, q :: (0 <= i < s.Geo().User() && 0 <= q < s.Geo().pages
                             && s.nand.blocks[i].state != Bad && s.nand.blocks[i].valid[q]) ==> Live(s, i, q)
    ensures OwnedBut(s, -1)
  {
  }

  lemma PlainInRange(s: Ftl, x: nat, b: nat, p: nat)
    requires s.Shape() && Plain(s, x, b, p)
    ensures x < s.Geo().lpns && b < s.Geo().blocks && p < s.Geo().pages && s.nand.blocks[b].state != Bad
  {
  }

  lemma PageOwned(s: Ftl, s': Ftl, x: nat, b: nat, p: nat, i: nat, q: nat)
    requires Inv(s) && OwnedBut(s, -1) && x < s.Geo().lpns && b < s.Geo().blocks && p < s.Geo().pages
    requires s.nand.blocks[b].state != Bad && s'.Shape() && s'.Geo() == s.Geo()
    requires s'.rmap == Disowned(s, x)[s.Geo().Ppn(b, p) := x] && s'.nand.blocks == WrittenBlocks(s, x, b, p)
    requires i < s.Geo().User() && q < s.Geo().pages && s'.nand.blocks[i].state != Bad && s'.nand.blocks[i].valid[q]
    ensures Live(s', i, q)
  {
    hide Inv, Safe;
    var g := s.Geo();
    if s.l2p[x] != INVALID { HomeCounted(s, x); }
    assert g.BlockOf(g.Ppn(i, q)) == i && g.PageOf(g.Ppn(i, q)) == q;
    if i != b || q != p {
      assert s.nand.blocks[i].valid[q];
      assert Live(s, i, q);
    }
  }

  /** One write. */
  lemma FillStep(s: Ftl, good: seq<nat>, w: Script, k: nat, c: nat) returns (c': nat)
    requires k < |w| && forall i :: 0 <= i < |w| ==> w[i].0 < s.Geo().lpns
    requires Filling(s, good, w, k, c) && 6 <= |good| && k <= (|good| - 6) * s.Geo().pages
    ensures Admissible(s, DoWrite(w[k].0, w[k].1, QUIET))
    ensures var (reply, s') := Step(s, DoWrite(w[k].0, w[k].1, QUIET));
            reply == Answer(Ok, []) && Filling(s', good, w, k + 1, c') && s'.nand.wearLimit == s.nand.wearLimit
  {
    hide Inv, Safe, Plain, Step, Admissible, OwnedBut, WrittenBlocks, Home, Roster;
    var p;
    c', p := FillingPlain(s, good, w, k, c);
    RosterInRange(s.nand, good);
    var b := good[c'];
    PlainWrite(s, w[k].0, w[k].1, b, p);
    var s' := Step(s, DoWrite(w[k].0, w[k].1, QUIET)).1;
    WriteOwned(s, s', w[k].0, b, p);
    WrittenElsewhere(s, w[k].0, b, p);
    SameRoster(s.nand, s'.nand, good);
    forall q | 0 <= q < k + 1 && Stands(w, k + 1, q) ensures s'.l2p[w[q].0] == Home(s.Geo(), good, q) {
      if q < k { assert Stands(w, k, q); }
    }
  }

  lemma RosterInRange(n: Nand, good: seq<nat>)
    requires n.Shape() && Roster(n, good)
    ensures forall i :: 0 <= i < |good| ==> good[i] < n.geo.User() && n.blocks[good[i]].state != Bad
    ensures forall i, j :: 0 <= i < j < |good| ==> good[i] < good[j]
  {
  }

  lemma SameRoster(n: Nand, n': Nand, good: seq<nat>)
    requires n.Shape() && n'.Shape() && n'.geo == n.geo && Roster(n, good)
    requires forall b :: 0 <= b < n.geo.blocks ==> (n'.blocks[b].state == Bad <==> n.blocks[b].state == Bad)
    ensures Roster(n', good)
  {
  }

  /** Blocks other than the slot's keep being good and unworn, and FREE ones FREE. */
  lemma WrittenElsewhere(s: Ftl, x: nat, b: nat, p: nat)
    requires Inv(s) && x < s.Geo().lpns && b < s.Geo().blocks && p < s.Geo().pages && s.nand.blocks[b].state != Bad
    ensures forall i :: 0 <= i < s.Geo().blocks ==>
              && WrittenBlocks(s, x, b, p)[i].erases == s.nand.blocks[i].erases
              && (WrittenBlocks(s, x, b, p)[i].state == Bad <==> s.nand.blocks[i].state == Bad)
              && (i != b && s.nand.blocks[i].state == Free ==> WrittenBlocks(s, x, b, p)[i].state == Free)
  {
    hide Inv, Safe;
    WrittenErases(s, x, b, p);
    if s.l2p[x] != INVALID { HomeCounted(s, x); }
  }

  lemma {:induction false} FillRun(s: Ftl, good: seq<nat>, w: Script, k: nat, c: nat) returns (c': nat)
    requires k <= |w| && forall i :: 0 <= i < |w| ==> w[i].0 < s.Geo().lpns
    requires Filling(s, good, w, k, c) && 6 <= |good| && |w| <= (|good| - 6) * s.Geo().pages + 1
    ensures AdmissibleRun(s, WriteOps(w[k..]))
    ensures var (replies, s') := Run(s, WriteOps(w[k..]));
            && Filling(s', good, w, |w|, c') && s'.nand.wearLimit == s.nand.wearLimit
            && forall i :: 0 <= i < |replies| ==> replies[i] == Answer(Ok, [])
    decreases |w| - k
  {
    hide Filling, Step, Admissible;
    c' := c;
    if k < |w| {
      var c1 := FillStep(s, good, w, k, c);
      assert WriteOps(w[k..])[0] == DoWrite(w[k].0, w[k].1, QUIET);
      assert w[k..][1..] == w[k + 1..];
      c' := FillRun(Step(s, DoWrite(w[k].0, w[k].1, QUIET)).1, good, w, k + 1, c1);
    }
  }

  /** How many user blocks are FREE; on new media these are the good ones. */
  ghost function GoodBlocks(n: Nand): nat
    requires n.Shape()
  {
    |FreeList(n.blocks, 0, n.geo.User())|
  }

  /** No user block has been erased yet. */
  predicate Unworn(n: Nand)
    requires n.Shape()
  {
    forall b :: 0 <= b < n.geo.User() ==> n.blocks[b].erases == 0
  }

  lemma {:induction false} FillStart(n: Nand, w: Script)
    requires n.Shape() && NewMedia(n) && Unworn(n) && forall i :: 0 <= i < |w| ==> w[i].0 < n.geo.lpns
    requires FreeList(n.blocks, 0, n.geo.User()) != []
    ensures Init(n).Some? && Init(n).value.nand == n
    ensures Filling(Init(n).value, FreeList(n.blocks, 0, n.geo.User()), w, 0, 0)
  {
    hide Inv, Safe, FreeList, NextFree, Home;
    var good := FreeList(n.blocks, 0, n.geo.User());
    NewRoster(n);
    InitEstablishes(n);
    FirstGood(n, good);
    NothingValid(n);
  }

  lemma LeastFirst(good: seq<nat>, j: nat)
    requires j < |good| && forall i, j :: 0 <= i < j < |good| ==> good[i] < good[j]
    ensures good[0] <= good[j]
  {
  }

  lemma FirstGood(n: Nand, good: seq<nat>)
    requires n.Shape() && Roster(n, good) && good != [] && n.blocks[good[0]].state == Free
    ensures NextFree(n, 0) == Some(good[0])
  {
    hide NextFree;
    forall i | 0 <= i < good[0] ensures n.blocks[i].state != Free {
      if n.blocks[i].state == Free {
        var j :| 0 <= j < |good| && good[j] == i;
        LeastFirst(good, j);
      }
    }
    NextFreeIsNext(n, 0, good[0]);
  }

  lemma NothingValid(n: Nand)
    requires n.Shape() && NewMedia(n) && Init(n).Some?
    ensures OwnedBut(Init(n).value, -1)
  {
  }

  /** Of the pages written to the `b`-th good block, two have not been replaced at the end. */
  predicate PairStands(w: Script, pages: nat, b: nat) {
    exists p: nat, q: nat :: b * pages <= p < q < b * pages + pages && q < |w| && Stands(w, |w|, p) && Stands(w, |w|, q)
  }

  /** A page that has not been replaced is live. */
  lemma StandsLive(s: Ftl, good: seq<nat>, w: Script, c: nat, q: nat, b: nat, p: nat)
    requires q < |w| && forall i :: 0 <= i < |w| ==> w[i].0 < s.Geo().lpns
    requires Filling(s, good, w, |w|, c) && Stands(w, |w|, q)
    requires b < |good| && p < s.Geo().pages && q == b * s.Geo().pages + p
    ensures good[b] < s.Geo().User() && Live(s, good[b], p)
  {
    hide Inv, Safe, OwnedBut, Stands, Live;
    RosterInRange(s.nand, good);
    DivModUnique(q, s.Geo().pages, b, p);
    OwnerLive(s, w[q].0, good[b], p);
  }

  lemma OwnerLive(s: Ftl, x: nat, b: nat, p: nat)
    requires Inv(s) && x < s.Geo().lpns && b < s.Geo().blocks && p < s.Geo().pages && s.l2p[x] == s.Geo().Ppn(b, p)
    ensures Live(s, b, p)
  {
    var ppn := s.Geo().Ppn(b, p);
    assert s.rmap[ppn] == x && Sound(s.nand, ppn);
  }

  lemma {:induction false} CountAtLeastTwo(v: seq<bool>, p: nat, q: nat)
    requires p < q < |v| && v[p] && v[q]
    ensures 2 <= CountTrue(v)
  {
    CountTrueUpdate(v, p, false);
    CountTrueZero(v[p := false]);
    assert v[p := false][q];
  }

  lemma PairCounts(s: Ftl, good: seq<nat>, w: Script, c: nat, b: nat)
    requires forall i :: 0 <= i < |w| ==> w[i].0 < s.Geo().lpns
    requires Filling(s, good, w, |w|, c) && b < |good| && PairStands(w, s.Geo().pages, b)
    ensures good[b] < s.Geo().User() && s.nand.blocks[good[b]].state == Used && 2 <= s.nand.blocks[good[b]].count
  {
    hide Inv, Safe, Live, Filling, Stands;
    var g := s.Geo();
    var p: nat, q: nat :| b * g.pages <= p < q < b * g.pages + g.pages && q < |w|
                          && Stands(w, |w|, p) && Stands(w, |w|, q);
    StandsLive(s, good, w, c, p, b, p - b * g.pages);
    StandsLive(s, good, w, c, q, b, q - b * g.pages);
    TwoLive(s, good[b], p - b * g.pages, q - b * g.pages);
  }

  lemma TwoLive(s: Ftl, b: nat, p: nat, q: nat)
    requires Inv(s) && b < s.Geo().blocks && p < q < s.Geo().pages && Live(s, b, p) && Live(s, b, q)
    ensures s.nand.blocks[b].state == Used && 2 <= s.nand.blocks[b].count
  {
    LiveIsUsed(s, b, p);
    assert CountOk(s.nand.blocks[b]);
    CountAtLeastTwo(s.nand.blocks[b].valid, p, q);
  }

  lemma OpenIs(wb: nat, wp: nat, n: nat, pages: nat)
    requires wb * pages + wp == n * pages + 1 && 1 <= wp <= pages && 2 <= pages
    ensures wb == n && wp == 1 && (n * pages) / pages == n && (n * pages) % pages == 0
  {
    if wb < n { MulMono(wb + 1, n, pages); } else if n < wb { MulMono(n + 1, wb, pages); }
    DivModUnique(n * pages, pages, n, 0);
  }

  /** The last write has opened the first of the last six good blocks. */
  lemma FilledOpen(s: Ftl, good: seq<nat>, w: Script, c: nat)
    requires forall i :: 0 <= i < |w| ==> w[i].0 < s.Geo().lpns
    requires Filling(s, good, w, |w|, c) && 6 <= |good| && 2 <= s.Geo().pages
    requires |w| == (|good| - 6) * s.Geo().pages + 1
    ensures c == |good| - 6 && s.wp == 1 && s.wb < s.Geo().User()
    ensures Live(s, s.wb, 0) && s.nand.blocks[s.wb].state == Used
  {
    hide Inv, Safe, Live, OwnedBut, Home;
    OpenIs(c, s.wp, |good| - 6, s.Geo().pages);
    StandsLive(s, good, w, c, |w| - 1, c, 0);
    LiveIsUsedHere(s, s.wb, 0);
  }

  /** All good blocks but six are full, one more page is written, and the state is stuck. */
  lemma {:induction false} FilledIsStuck(s: Ftl, good: seq<nat>, w: Script, c: nat)
    requires forall i :: 0 <= i < |w| ==> w[i].0 < s.Geo().lpns
    requires Filling(s, good, w, |w|, c) && 6 <= |good| && 2 <= s.Geo().pages
    requires |w| == (|good| - 6) * s.Geo().pages + 1
    requires forall b :: 0 <= b < |good| - 6 ==> PairStands(w, s.Geo().pages, b)
    ensures StuckOpen(s) && OwnedBut(s, -1) && |Ring(s)| == 6 && Unworn(s.nand)
  {
    hide Inv, Safe, Live, NextFree, PairStands, OwnedBut, Stands, FreeBelow, Ring, Home;
    FilledOpen(s, good, w, c);
    forall b | 0 <= b < |good| - 6 ensures s.nand.blocks[good[b]].state == Used && 2 <= s.nand.blocks[good[b]].count {
      PairCounts(s, good, w, c, b);
    }
    FiveFree(s.nand, good);
    SomeNextFree(s.nand, s.wb + 1, good[|good| - 5]);
    RingLength(s);
    forall i | 0 <= i < s.Geo().User() && i != s.wb && s.nand.blocks[i].state == Used
      ensures s.wp < s.nand.blocks[i].count
    {
      var j :| 0 <= j < |good| && good[j] == i;
      assert j < |good| - 6;
    }
  }

  lemma FiveFree(n: Nand, good: seq<nat>)
    requires n.Shape() && Roster(n, good) && 6 <= |good|
    requires forall i :: 0 <= i < |good| ==> (n.blocks[good[i]].state == Free <==> |good| - 6 < i)
    ensures FreeBelow(n.blocks, n.geo.User()) == 5
  {
    var list := good[|good| - 5..];
    ListedFree(n.blocks, list, n.geo.User());
    forall b | 0 <= b < n.geo.User() && n.blocks[b].state == Free ensures b in list {
      var j :| 0 <= j < |good| && good[j] == b;
      assert list[j - (|good| - 5)] == b;
    }
    FreeListed(n.blocks, list, n.geo.User());
  }

  /** The state after these writes from the start. */
  ghost predicate FillsUp(n: Nand, w: Script)
    requires n.Shape()
  {
    && Init(n).Some? && AdmissibleRun(Init(n).value, WriteOps(w))
    && var replies := Run(Init(n).value, WriteOps(w)).0;
       forall i :: 0 <= i < |replies| ==> replies[i] == Answer(Ok, [])
  }

  ghost function Filled(n: Nand, w: Script): (s: Ftl)
    requires n.Shape() && FillsUp(n, w)
    ensures s.Shape() && s.Geo() == n.geo
  {
    Run(Init(n).value, WriteOps(w)).1
  }

  /** Stuck at the open block, with a ring of six blocks none of which has ever been erased. */
  ghost predicate StuckUnworn(s: Ftl)
    ensures StuckUnworn(s) ==> s.Shape()
  {
    Inv(s) && OwnedBut(s, -1) && StuckOpen(s) && |Ring(s)| == 6 && Unworn(s.nand)
  }

  /**
   From new media, with whatever blocks bad from the factory, write until one page of the sixth-last good user block is
   programmed, and replace no more than leaves two pages standing in each block filled.  All these writes are answered
   OK, and the state is stuck with six blocks that have never been erased.
   */
  lemma {:induction false} FillingSticks(n: Nand, w: Script)
    requires n.Shape() && NewMedia(n) && Unworn(n) && forall i :: 0 <= i < |w| ==> w[i].0 < n.geo.lpns
    requires 6 <= GoodBlocks(n) && 2 <= n.geo.pages && |w| == (GoodBlocks(n) - 6) * n.geo.pages + 1
    requires forall b :: 0 <= b < GoodBlocks(n) - 6 ==> PairStands(w, n.geo.pages, b)
    ensures FillsUp(n, w) && StuckUnworn(Filled(n, w)) && Filled(n, w).nand.wearLimit == n.wearLimit
  {
    hide Inv, Safe, StuckOpen, OwnedBut, PairStands, Run, AdmissibleRun, Ring, FreeList, NewMedia, Filling, Unworn;
    var good := FreeList(n.blocks, 0, n.geo.User());
    FillStart(n, w);
    var start := Init(n).value;
    var c := FillRun(start, good, w, 0, 0);
    assert w[0..] == w;
    FilledIsStuck(Run(start, WriteOps(w)).1, good, w, c);
  }

  /** Passes over greedy victims, as many as there are, with any wear draws. */
  ghost predicate GreedyEnv(s: Ftl, env: Env)
    requires s.Shape()
  {
    && GreedyPasses(s, env.passes) && !env.noVictim
    && forall i :: 0 <= i < |env.passes| ==> env.passes[i].victim < s.Geo().blocks
  }

  /** A wear draw hits after the first 6 * (limit + 1) passes. */
  predicate LateHit(passes: seq<Pass>, limit: nat) {
    exists j :: 6 * (limit + 1) <= j < |passes| && passes[j].draw
  }

  /**
   In such a state the next write, for every sequence of wear draws: no draw counts in the first 6 * (wearLimit + 1)
   passes, and so it is looping that long in any case; it answers NO_SPACE exactly if a later one hits.
   */
  lemma UnwornWrite(s: Ftl, lpn: nat, data: Page, env: Env)
    requires StuckUnworn(s) && lpn < s.Geo().lpns
    requires GreedyEnv(s, env)
    ensures Write(s, lpn, data, env).0 ==
            if LateHit(env.passes, s.nand.wearLimit) then Done(NoSpace) else Looping
  {
    hide Inv, Safe, OwnedBut, StuckOpen, GreedyPasses, Ring, Write;
    RingWrite(s, lpn, data, env);
    forall j: nat ensures ErasesAt(s, j) == j / 6 { UnwornErases(s, j); }
    if j: nat :| HitAt(s, env.passes, j) { assert 6 * (s.nand.wearLimit + 1) <= j; }
    if LateHit(env.passes, s.nand.wearLimit) {
      var j :| 6 * (s.nand.wearLimit + 1) <= j < |env.passes| && env.passes[j].draw;
      assert HitAt(s, env.passes, j);
    }
  }

  lemma UnwornErases(s: Ftl, j: nat)
    requires s.Shape() && s.wb < s.Geo().User() && |Ring(s)| == 6 && Unworn(s.nand)
    ensures ErasesAt(s, j) == j / 6
  {
  }

  // ---- a script that needs hardly any LPNs

  /** The first page of block `b` goes to LPN 2b, all its other pages to LPN 2b + 1. */
  function FewLpns(pages: nat, count: nat, data: Page): (w: Script)
    requires 0 < pages
    ensures |w| == count
    ensures forall i :: 0 <= i < count ==> w[i] == (2 * (i / pages) + (if i % pages == 0 then 0 else 1), data)
  {
    seq(count, i requires 0 <= i < count => (2 * (i / pages) + (if i % pages == 0 then 0 else 1), data))
  }

  lemma Beyond(pages: nat, b: nat, i: nat)
    requires 0 < pages && b * pages < i
    ensures b <= i / pages && (i / pages == b ==> i % pages != 0) && (b * pages + pages <= i ==> b < i / pages)
  {
    Parts(i, pages);
    if i / pages < b { MulMono(i / pages + 1, b, pages); }
    if i / pages <= b { MulMono(i / pages, b, pages); }
  }

  /** The first and the last page of block `b` stand. */
  lemma FewStand(w: Script, pages: nat, b: nat, data: Page)
    requires 2 <= pages && b * pages + pages <= |w| && w == FewLpns(pages, |w|, data)
    ensures Stands(w, |w|, b * pages) && Stands(w, |w|, b * pages + pages - 1)
  {
    DivModUnique(b * pages, pages, b, 0);
    DivModUnique(b * pages + pages - 1, pages, b, pages - 1);
    forall i | b * pages < i < |w| ensures w[i].0 != w[b * pages].0 { Beyond(pages, b, i); }
    forall i | b * pages + pages - 1 < i < |w| ensures w[i].0 != w[b * pages + pages - 1].0 { Beyond(pages, b, i); }
  }

  lemma FewPairs(pages: nat, full: nat, data: Page, b: nat)
    requires 2 <= pages && b < full
    ensures PairStands(FewLpns(pages, full * pages + 1, data), pages, b)
  {
    hide Stands, FewLpns;
    MulMono(b + 1, full, pages);
    FewStand(FewLpns(pages, full * pages + 1, data), pages, b, data);
  }

  lemma FewIndeed(pages: nat, full: nat, data: Page)
    requires 2 <= pages
    ensures var w := FewLpns(pages, full * pages + 1, data); forall i :: 0 <= i < |w| ==> w[i].0 <= 2 * full
  {
    var w := FewLpns(pages, full * pages + 1, data);
    forall i | 0 <= i < |w| ensures w[i].0 <= 2 * full {
      Parts(i, pages);
      if full <= i / pages { MulMono(full, i / pages, pages); }
      if full + 1 <= i / pages { MulMono(full + 1, i / pages, pages); }
    }
  }

  lemma Times(a: nat, b: nat)
    ensures 0 <= a * b
  {
  }

  /** Two LPNs for each block filled, and one more. */
  ghost function FewWrites(n: Nand, data: Page): (w: Script)
    requires n.Shape() && 6 <= GoodBlocks(n)
  {
    Times(GoodBlocks(n) - 6, n.geo.pages);
    FewLpns(n.geo.pages, (GoodBlocks(n) - 6) * n.geo.pages + 1, data)
  }

  /** With at least two pages a block and six good user blocks, so few LPNs suffice. */
  lemma {:induction false} FewLpnsStick(n: Nand, data: Page)
    requires n.Shape() && NewMedia(n) && Unworn(n) && 2 <= n.geo.pages
    requires 6 <= GoodBlocks(n) && 2 * (GoodBlocks(n) - 6) < n.geo.lpns
    ensures var w := FewWrites(n, data);
            && (forall i :: 0 <= i < |w| ==> w[i].0 <= 2 * (GoodBlocks(n) - 6))
            && FillsUp(n, w) && StuckUnworn(Filled(n, w)) && Filled(n, w).nand.wearLimit == n.wearLimit
  {
    hide PairStands, FillsUp, Filled, StuckUnworn, FreeList, NewMedia, Unworn, GoodBlocks;
    var full := GoodBlocks(n) - 6;
    var w := FewWrites(n, data);
    forall b | 0 <= b < full ensures PairStands(w, n.geo.pages, b) { FewPairs(n.geo.pages, full, data, b); }
    FewIndeed(n.geo.pages, full, data);
    FillingSticks(n, w);
  }

  /** The repository's geometry, with six good user blocks: few writes, to few LPNs, fill new media up. */
  lemma {:induction false} RepositoryFills(n: Nand, data: Page)
    requires n.Shape() && n.geo == Geometry(256, 128, 8, 22937) && NewMedia(n) && Unworn(n) && 6 <= GoodBlocks(n)
    ensures var w := FewWrites(n, data);
            && |w| <= 29185 && (forall i :: 0 <= i < |w| ==> w[i].0 < 229)
            && FillsUp(n, w) && StuckUnworn(Filled(n, w)) && Filled(n, w).nand.wearLimit == n.wearLimit
  {
    hide FillsUp, Filled, StuckUnworn, FreeList, NewMedia, Unworn;
    FreeListBound(n.blocks, 0, 120);
    FewLpnsStick(n, data);
  }

  /**
   In the geometry of the repository, from new media with six good user blocks: no more than 29185 writes to 229 of the
   22937 LPNs, all answered OK.  Then the next write is looping through the first 6 * (wearLimit + 1) passes whatever
   the wear draws and answers NO_SPACE exactly if a later one hits; in every run of reads and writes from here on each
   write is refused and the content stays what it is.
   */
  lemma {:induction false} RepositorySticks(n: Nand, data: Page, lpn: nat, next: Page, env: Env, ops: seq<Op>)
    requires n.Shape() && n.geo == Geometry(256, 128, 8, 22937) && NewMedia(n) && Unworn(n) && 6 <= GoodBlocks(n)
    ensures var w := FewWrites(n, data);
            && |w| <= 29185 && (forall i :: 0 <= i < |w| ==> w[i].0 < 229) && FillsUp(n, w)
            && var s := Filled(n, w);
               && (lpn < 22937 && GreedyEnv(s, env) ==>
                     Write(s, lpn, next, env).0 == if LateHit(env.passes, n.wearLimit) then Done(NoSpace) else Looping)
               && (HostRun(s, ops) ==>
                     && AdmissibleRun(s, ops) && Logical(Run(s, ops).1) == Logical(s)
                     && forall i :: 0 <= i < |ops| ==> Refused(ops[i], Run(s, ops).0[i]))
  {
    hide FillsUp, Filled, Run, AdmissibleRun, FreeList, NewMedia, Unworn, Write, GreedyEnv, LateHit, HostRun, Logical,
      Refused, Jammed, FewWrites, StuckUnworn;
    RepositoryFills(n, data);
    var s := Filled(n, FewWrites(n, data));
    if lpn < 22937 && GreedyEnv(s, env) { UnwornWrite(s, lpn, next, env); }
    StuckIsJammed(s);
    if HostRun(s, ops) { NoWriteAgain(s, ops); }
  }

  lemma StuckIsJammed(s: Ftl)
    requires StuckUnworn(s)
    ensures Jammed(s)
  {
  }

  lemma {:induction false} FreeListBound(blocks: seq<Block>, lo: nat, hi: nat)
    requires lo <= hi <= |blocks|
    ensures |FreeList(blocks, lo, hi)| <= hi - lo
    decreases hi - lo
  {
    if lo < hi { FreeListBound(blocks, lo + 1, hi); }
  }
}
