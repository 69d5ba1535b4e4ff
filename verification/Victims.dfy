/**
 What the six victim selectors promise.  Scores are computed over the reals; only the order of the
 scores matters here, not their rounding.
 */
module Victims {
  import opened Common
  import opened Layout
  import opened NandModel
  import opened FtlModel
  import opened FtlInvariant

  datatype Algorithm = Greedy | CostBenefit | Cat | Windowed | DChoices | Fra

  const WINDOW: nat := 32
  const CHOICES: nat := 5
  const AGE_WEIGHT: nat := 100

  predicate UsedIn(n: Nand, lo: nat, hi: nat)
    requires hi <= |n.blocks|
  {
    exists i :: lo <= i < hi && n.blocks[i].state == Used
  }

  /** `v` is the first USED block of `lo..hi` with the least valid count. */
  ghost predicate IsLeast(n: Nand, lo: nat, hi: nat, v: nat)
    requires hi <= |n.blocks|
  {
    && lo <= v < hi && n.blocks[v].state == Used
    && (forall i :: lo <= i < hi && n.blocks[i].state == Used ==> n.blocks[v].count <= n.blocks[i].count)
    && (forall i :: lo <= i < v && n.blocks[i].state == Used ==> n.blocks[v].count < n.blocks[i].count)
  }

  /** `v` is the first USED user block with the highest score. */
  ghost predicate IsBest(n: Nand, score: Block -> real, v: nat)
    requires n.Shape()
  {
    && v < n.geo.User() && n.blocks[v].state == Used
    && (forall i :: 0 <= i < n.geo.User() && n.blocks[i].state == Used ==> score(n.blocks[i]) <= score(n.blocks[v]))
    && (forall i :: 0 <= i < v && n.blocks[i].state == Used ==> score(n.blocks[i]) < score(n.blocks[v]))
  }

  /** Valid counts of USED blocks do not exceed the block size. */
  ghost predicate CountsFit(n: Nand) {
    forall i :: 0 <= i < |n.blocks| && n.blocks[i].state == Used ==> n.blocks[i].count <= n.geo.pages
  }

  function InvalidRatio(pages: nat, b: Block): (r: real)
    requires 0 < pages
    ensures 0.0 <= r
  {
    ((pages - b.count) % TWO32) as real / pages as real
  }

  /** (1 - valid ratio) / (erase count + 1). */
  function CostBenefitScore(pages: nat, b: Block): (r: real)
    requires 0 < pages
    ensures 0.0 <= r
  {
    Quotient(InvalidRatio(pages, b), (b.erases + 1) as real)
  }

  function Quotient(a: real, b: real): (r: real)
    requires 0.0 <= a && 0.0 < b
    ensures 0.0 <= r
  {
    a / b
  }

  /** (1 - valid ratio) * age / (erase count + 1), the age relative to the most erased USED block. */
  function CatScore(pages: nat, oldest: nat, b: Block): (r: real)
    requires 0 < pages
    ensures 0.0 <= r
  {
    var age := if 0 < oldest then ((oldest - b.erases + AGE_WEIGHT) % TWO32) as real / oldest as real else 1.0;
    Quotient(Product(InvalidRatio(pages, b), age), (b.erases + 1) as real)
  }

  function Product(a: real, b: real): (r: real)
    requires 0.0 <= a && 0.0 <= b
    ensures 0.0 <= r
  {
    a * b
  }

  /** The largest erase count of a USED block below `k`. */
  function MostErased(blocks: seq<Block>, k: nat): nat
    requires k <= |blocks|
  {
    if k == 0 then 0
    else
      var m := MostErased(blocks, k - 1);
      if blocks[k - 1].state == Used && m < blocks[k - 1].erases then blocks[k - 1].erases else m
  }

  /** The USED blocks below `k`, in order. */
  function UsedList(blocks: seq<Block>, k: nat): (r: seq<nat>)
    requires k <= |blocks|
    ensures forall i :: 0 <= i < |r| ==> r[i] < k && blocks[r[i]].state == Used
    ensures r == [] <==> forall i :: 0 <= i < k ==> blocks[i].state != Used
  {
    if k == 0 then []
    else if blocks[k - 1].state == Used then UsedList(blocks, k - 1) + [k - 1]
    else UsedList(blocks, k - 1)
  }

  /** The candidate that d-choices draws in round `i`. */
  function Candidate(gcCount: nat, used: seq<nat>, i: nat): (r: nat)
    requires used != []
    ensures r in used
  {
    used[((gcCount * 7 + i * 13) % TWO32) % |used|]
  }

  /** `v` has the least valid count among the candidates of all rounds. */
  ghost predicate IsDrawn(n: Nand, gcCount: nat, v: nat)
    requires n.Shape()
  {
    var used := UsedList(n.blocks, n.geo.User());
    && used != []
    && (exists i :: 0 <= i < CHOICES && v == Candidate(gcCount, used, i))
    && forall i :: 0 <= i < CHOICES ==>
         v < |n.blocks| && n.blocks[v].count <= n.blocks[Candidate(gcCount, used, i)].count
  }

  /** The window of the windowed selector: up to and including the open block. */
  function WindowStart(wb: nat): nat {
    if WINDOW <= wb then wb - WINDOW else 0
  }

  /** What selector `a` may choose. */
  ghost predicate MayChoose(s: Ftl, a: Algorithm, v: nat)
    requires s.Shape()
  {
    var n := s.nand;
    match a
    case Greedy => IsLeast(n, 0, n.geo.User(), v)
    case CostBenefit => IsBest(n, b => CostBenefitScore(s.Geo().pages, b), v)
    case Cat => IsBest(n, b => CatScore(s.Geo().pages, MostErased(s.nand.blocks, s.Geo().User()), b), v)
    case Windowed =>
      if UsedIn(n, WindowStart(s.wb), s.wb + 1) then IsLeast(n, WindowStart(s.wb), s.wb + 1, v)
      else IsLeast(n, 0, n.geo.User(), v)
    case DChoices =>
      if |UsedList(n.blocks, n.geo.User())| < CHOICES then IsLeast(n, 0, n.geo.User(), v)
      else IsDrawn(n, s.stats.gcCount, v)
    case Fra =>
      if exists i :: 0 <= i < n.geo.User() && n.blocks[i].state == Used && n.blocks[i].count == 0
      then v < n.geo.User() && n.blocks[v].state == Used && n.blocks[v].count == 0
           && forall i :: 0 <= i < v && n.blocks[i].state == Used ==> n.blocks[i].count != 0
      else IsLeast(n, 0, n.geo.User(), v)
  }

  // ---- the window

  /** `i` lies in the window of the open block `wb`: that block and the 32 before it. */
  predicate InWindow(wb: nat, i: nat) { i <= wb <= i + 32 }

  /**
   The windowed selector takes the first USED block with the least valid count in the window, and if none of its blocks
   is USED, what greedy takes.
   */
  lemma WindowedIs(s: Ftl, v: nat)
    requires s.Shape()
    ensures MayChoose(s, Windowed, v) <==>
            if exists i :: 0 <= i < s.Geo().blocks && InWindow(s.wb, i) && s.nand.blocks[i].state == Used then
              && v < s.Geo().blocks && InWindow(s.wb, v) && s.nand.blocks[v].state == Used
              && (forall i :: 0 <= i < s.Geo().blocks && InWindow(s.wb, i) && s.nand.blocks[i].state == Used ==>
                    s.nand.blocks[v].count <= s.nand.blocks[i].count)
              && (forall i :: 0 <= i < v && InWindow(s.wb, i) && s.nand.blocks[i].state == Used ==>
                    s.nand.blocks[v].count < s.nand.blocks[i].count)
            else IsLeast(s.nand, 0, s.Geo().User(), v)
  {
    assert forall i: nat :: InWindow(s.wb, i) <==> WindowStart(s.wb) <= i < s.wb + 1;
  }

  // ---- how the scores order blocks

  /** Multiplication is monotone in both factors. */
  lemma TimesOrders(a: real, b: real, c: real, d: real)
    requires 0.0 <= a <= b && 0.0 <= c <= d
    ensures Product(a, c) <= Product(b, d)
    ensures 0.0 < b && 0.0 < d ==> 0.0 < Product(b, d)
    ensures (a < b && 0.0 < d) || (c < d && 0.0 < b) ==> Product(a, c) < Product(b, d)
  {
    FirstFactor(a, b, c);
    FirstFactor(a, b, d);
    SecondFactor(a, c, d);
    SecondFactor(b, c, d);
    SecondFactor(b, 0.0, d);
  }

  lemma FirstFactor(a: real, b: real, k: real)
    requires a <= b && 0.0 <= k
    ensures a * k <= b * k && (a < b && 0.0 < k ==> a * k < b * k)
  {
    assert b * k - a * k == (b - a) * k;
  }

  lemma SecondFactor(k: real, a: real, b: real)
    requires a <= b && 0.0 <= k
    ensures k * a <= k * b && (a < b && 0.0 < k ==> k * a < k * b)
  {
    assert k * b - k * a == k * (b - a);
  }

  /** A smaller dividend or a larger divisor make a smaller quotient. */
  lemma SmallerQuotient(a: real, b: real, c: real, d: real)
    requires 0.0 <= a <= b && 0.0 < d <= c && 0.0 < b && (a < b || d < c)
    ensures Quotient(a, c) < Quotient(b, d)
  {
    var x, y := a / c, b / d;
    TimesOrders(a, b, d, c);
    assert a * d < b * c;
    if y <= x {
      TimesOrders(y, x, c * d, c * d);
      QuotientTimes(a, c, d);
      QuotientTimes(b, d, c);
    }
  }

  lemma QuotientTimes(a: real, c: real, d: real)
    requires 0.0 < c
    ensures (a / c) * (c * d) == a * d
  {
    assert (a / c) * c == a;
    assert (a / c) * (c * d) == ((a / c) * c) * d;
  }

  /** `b` holds no more valid pages than `a` and has not been erased more often, and is better in one of the two. */
  predicate Better(b: Block, a: Block) {
    b.count <= a.count && b.erases <= a.erases && (b.count < a.count || b.erases < a.erases)
  }

  lemma RatioIs(pages: nat, b: Block)
    requires 0 < pages < TWO32 && b.count <= pages
    ensures InvalidRatio(pages, b) == Quotient((pages - b.count) as real, pages as real)
  {
  }

  lemma RatioOrders(pages: nat, a: Block, b: Block)
    requires 0 < pages < TWO32 && b.count <= a.count <= pages
    ensures InvalidRatio(pages, a) <= InvalidRatio(pages, b)
    ensures b.count < a.count ==> InvalidRatio(pages, a) < InvalidRatio(pages, b)
    ensures b.count < pages ==> 0.0 < InvalidRatio(pages, b)
  {
    hide Quotient, InvalidRatio;
    var p := pages as real;
    RatioIs(pages, a);
    RatioIs(pages, b);
    if b.count < a.count { SmallerQuotient((pages - a.count) as real, (pages - b.count) as real, p, p); }
    if b.count < pages { SmallerQuotient(0.0, (pages - b.count) as real, p, p); }
  }

  /**
   Cost-benefit prefers the better block: with equal erase counts the one with fewer valid pages, with equal valid
   counts the one erased less often, as long as it has a page to gain.
   */
  lemma CostBenefitOrders(pages: nat, a: Block, b: Block)
    requires 0 < pages < TWO32 && a.count <= pages && b.count < pages && Better(b, a)
    ensures CostBenefitScore(pages, a) < CostBenefitScore(pages, b)
  {
    hide InvalidRatio, Quotient;
    RatioOrders(pages, a, b);
    SmallerQuotient(InvalidRatio(pages, a), InvalidRatio(pages, b), (a.erases + 1) as real, (b.erases + 1) as real);
  }

  /** The age factor of CAT. */
  ghost function Age(oldest: nat, erases: nat): (r: real)
    requires erases <= oldest
    ensures 0.0 < r
  {
    QuotientIs((oldest - erases + 100) as real, if 0 < oldest then oldest as real else 1.0);
    SmallerQuotient(0.0, (oldest - erases + 100) as real, if 0 < oldest then oldest as real else 1.0,
                    if 0 < oldest then oldest as real else 1.0);
    if 0 < oldest then (oldest - erases + 100) as real / oldest as real else 1.0
  }

  lemma AgeOrders(oldest: nat, ea: nat, eb: nat)
    requires eb <= ea <= oldest
    ensures Age(oldest, ea) <= Age(oldest, eb)
  {
    if 0 < oldest && eb < ea {
      hide Quotient;
      var o := oldest as real;
      SmallerQuotient((oldest - ea + 100) as real, (oldest - eb + 100) as real, o, o);
      QuotientIs((oldest - ea + 100) as real, o);
      QuotientIs((oldest - eb + 100) as real, o);
    }
  }

  lemma CatIs(pages: nat, oldest: nat, b: Block)
    requires 0 < pages && b.erases <= oldest && oldest + 100 < TWO32
    ensures CatScore(pages, oldest, b) ==
            Quotient(Product(InvalidRatio(pages, b), Age(oldest, b.erases)), (b.erases + 1) as real)
  {
    hide InvalidRatio, Quotient, Product;
  }

  /** And so does CAT, whose age factor only adds to the second. */
  lemma CatOrders(pages: nat, oldest: nat, a: Block, b: Block)
    requires 0 < pages < TWO32 && a.count <= pages && b.count < pages && Better(b, a)
    requires a.erases <= oldest && oldest + 100 < TWO32
    ensures CatScore(pages, oldest, a) < CatScore(pages, oldest, b)
  {
    hide InvalidRatio, Quotient, Product, Age, CatScore;
    RatioOrders(pages, a, b);
    AgeOrders(oldest, a.erases, b.erases);
    CatIs(pages, oldest, a);
    CatIs(pages, oldest, b);
    var ra, rb := InvalidRatio(pages, a), InvalidRatio(pages, b);
    var ga, gb := Age(oldest, a.erases), Age(oldest, b.erases);
    TimesOrders(ra, rb, ga, gb);
    SmallerQuotient(Product(ra, ga), Product(rb, gb), (a.erases + 1) as real, (b.erases + 1) as real);
  }

  lemma QuotientIs(a: real, b: real)
    requires 0.0 <= a && 0.0 < b
    ensures Quotient(a, b) == a / b && 0.0 / b == 0.0
  {
  }

  /** Its score is that of cost-benefit times (100 + what the block lacks to the most erased one) over the latter. */
  lemma CatIsAged(pages: nat, oldest: nat, b: Block)
    requires 0 < pages && b.erases <= oldest && oldest + 100 < TWO32
    ensures 0 < oldest ==>
              CatScore(pages, oldest, b) * oldest as real
              == CostBenefitScore(pages, b) * (oldest - b.erases + 100) as real
    ensures oldest == 0 ==> CatScore(pages, oldest, b) == CostBenefitScore(pages, b)
  {
    hide InvalidRatio, Quotient, Product, CatScore, Age;
    CatIs(pages, oldest, b);
    AgeIs(oldest, b.erases);
    var r, e := InvalidRatio(pages, b), (b.erases + 1) as real;
    if 0 < oldest {
      AgedQuotient(r, (oldest - b.erases + 100) as real, oldest as real, e);
    } else {
      TimesOne(r);
    }
  }

  lemma AgeIs(oldest: nat, erases: nat)
    requires erases <= oldest
    ensures Age(oldest, erases) == if 0 < oldest then (oldest - erases + 100) as real / oldest as real else 1.0
  {
  }

  lemma TimesOne(r: real)
    requires 0.0 <= r
    ensures Product(r, 1.0) == r
  {
  }

  lemma AgedQuotient(r: real, a: real, o: real, e: real)
    requires 0.0 <= r && 0.0 <= a && 0.0 < o && 0.0 < e
    ensures 0.0 <= a / o && Quotient(Product(r, a / o), e) * o == Quotient(r, e) * a
  {
    var x := a / o;
    assert x * o == a;
    var y := (r * x) / e;
    assert y * e == r * x;
    var z := r / e;
    assert z * e == r;
    assert (y * o) * e == (y * e) * o == (r * x) * o == r * a;
    assert (z * a) * e == (z * e) * a == r * a;
    Cancel(y * o, z * a, e);
  }

  lemma Cancel(a: real, b: real, e: real)
    requires 0.0 < e && a * e == b * e
    ensures a == b
  {
    if a < b { FirstFactor(a, b, e); } else if b < a { FirstFactor(b, a, e); }
  }

  /** CAT measures age against the most erased USED block. */
  lemma {:induction false} MostErasedIs(blocks: seq<Block>, k: nat)
    requires k <= |blocks|
    ensures forall i :: 0 <= i < k && blocks[i].state == Used ==> blocks[i].erases <= MostErased(blocks, k)
    ensures MostErased(blocks, k) == 0
            || exists i :: 0 <= i < k && blocks[i].state == Used && blocks[i].erases == MostErased(blocks, k)
  {
    if k != 0 {
      MostErasedIs(blocks, k - 1);
      if i :| 0 <= i < k - 1 && blocks[i].state == Used && blocks[i].erases == MostErased(blocks, k - 1) {
        assert 0 <= i < k && blocks[i].state == Used;
      }
    }
  }

  predicate Ascending(r: seq<nat>) {
    forall i, j :: 0 <= i < j < |r| ==> r[i] < r[j]
  }

  lemma AscendingMore(r: seq<nat>, k: nat)
    requires Ascending(r) && forall i :: 0 <= i < |r| ==> r[i] < k
    ensures Ascending(r + [k])
  {
  }

  lemma {:induction false} UsedListHolds(blocks: seq<Block>, k: nat, b: nat)
    requires k <= |blocks|
    ensures b in UsedList(blocks, k) <==> b < k && blocks[b].state == Used
  {
    if k != 0 { UsedListHolds(blocks, k - 1, b); }
  }

  lemma {:induction false} UsedListAscends(blocks: seq<Block>, k: nat)
    requires k <= |blocks|
    ensures Ascending(UsedList(blocks, k))
  {
    hide Ascending;
    if k == 0 {
      AscendingNone();
    } else {
      UsedListAscends(blocks, k - 1);
      if blocks[k - 1].state == Used { AscendingMore(UsedList(blocks, k - 1), k - 1); }
    }
  }

  lemma AscendingNone()
    ensures Ascending([])
  {
  }

  /** The list of d-choices holds every USED block once, in order. */
  lemma UsedListIs(blocks: seq<Block>, k: nat)
    requires k <= |blocks|
    ensures forall b: nat :: b in UsedList(blocks, k) <==> b < k && blocks[b].state == Used
    ensures Ascending(UsedList(blocks, k))
  {
    hide UsedList, Ascending;
    forall b: nat ensures b in UsedList(blocks, k) <==> b < k && blocks[b].state == Used {
      UsedListHolds(blocks, k, b);
    }
    UsedListAscends(blocks, k);
  }

  /** Its draws start at 7 times the number of passes and are 13 places apart, round the list. */
  lemma CandidateAt(gcCount: nat, used: seq<nat>, i: nat, q: nat, r: nat)
    requires used != [] && 7 * gcCount + 13 * i < TWO32 && 7 * gcCount + 13 * i == q * |used| + r && r < |used|
    ensures Candidate(gcCount, used, i) == used[r]
  {
    DivModUnique(7 * gcCount + 13 * i, |used|, q, r);
  }

  lemma CountsFitFromInv(s: Ftl)
    requires Core(s)
    ensures CountsFit(s.nand)
    ensures forall i :: 0 <= i < |s.nand.blocks| && s.nand.blocks[i].state == Used ==>
              0 < s.nand.blocks[i].count <= s.Geo().pages
  {
    forall i | 0 <= i < |s.nand.blocks| && s.nand.blocks[i].state == Used
      ensures 0 < s.nand.blocks[i].count <= s.Geo().pages
    {
      assert CountOk(s.nand.blocks[i]);
    }
  }

  /** Whatever the selector, its choice is a USED block. */
  lemma ChoiceIsUsed(s: Ftl, a: Algorithm, v: nat)
    requires s.Shape() && MayChoose(s, a, v)
    ensures v < s.Geo().blocks && s.nand.blocks[v].state == Used
    ensures a != Windowed ==> v < s.Geo().User()
  {
    if a == DChoices && CHOICES <= |UsedList(s.nand.blocks, s.Geo().User())| {
      var used := UsedList(s.nand.blocks, s.Geo().User());
      var i :| 0 <= i < CHOICES && v == Candidate(s.stats.gcCount, used, i);
      assert v in used;
    }
  }

  /** There is only one least block. */
  lemma LeastUnique(n: Nand, lo: nat, hi: nat, v: nat, w: nat)
    requires hi <= |n.blocks| && IsLeast(n, lo, hi, v) && IsLeast(n, lo, hi, w)
    ensures v == w
  {
  }

  /** Under the count invariant a USED block holds something, so FRA always picks what greedy picks. */
  lemma FraIsGreedy(s: Ftl, v: nat)
    requires Core(s)
    ensures MayChoose(s, Fra, v) <==> MayChoose(s, Greedy, v)
  {
    CountsFitFromInv(s);
  }
}
