/** Secure erase: overwriting a range several times through ordinary writes, then trimming it. */
module FtlErase {
  import opened Common
  import opened Layout
  import opened NandModel
  import opened WalModel
  import opened FtlModel
  import opened FtlInvariant
  import opened FtlSteps
  import opened FtlCounts

  const PAGE_SIZE: nat := 4096

  /** generate_erase_pattern. */
  function Pattern(pass: nat): Page {
    var b: bv8 := match pass % 4 case 0 => 0x00 case 1 => 0xFF case 2 => 0xAA case _ => 0x55;
    seq(PAGE_SIZE, _ => b)
  }

  /** What one write of the erase takes from outside beside its victims. */
  datatype Outside = Outside(draws: seq<bool>, wrote: bool, draw: bool)

  /** What the writes of a secure erase take from outside, by pass and LPN. */
  type Envs = (nat, nat) -> Env

  ghost predicate VictimsExist(g: Geometry, envs: Envs) {
    forall k, l :: forall i :: 0 <= i < |envs(k, l).passes| ==> envs(k, l).passes[i].victim < g.blocks
  }

  /** The inner loop: pass `pass` over the first `k` pages from `lpn` on; it stops at the first write that fails. */
  ghost function Overwrite(s: Ftl, lpn: nat, k: nat, pass: nat, envs: Envs): (r: (WriteEnd, Ftl))
    requires s.Shape() && VictimsExist(s.Geo(), envs)
    ensures r.1.Shape() && r.1.Geo() == s.Geo()
  {
    if k == 0 then (Done(Ok), s)
    else
      var (code, s1) := Overwrite(s, lpn, k - 1, pass, envs);
      if code != Done(Ok) then (code, s1) else Write(s1, lpn + k - 1, Pattern(pass), envs(pass, lpn + k - 1))
  }

  /** The outer loop: the first `passes` passes over `n` pages. */
  ghost function OverwriteAll(s: Ftl, lpn: nat, n: nat, passes: nat, envs: Envs): (r: (WriteEnd, Ftl))
    requires s.Shape() && VictimsExist(s.Geo(), envs)
    ensures r.1.Shape() && r.1.Geo() == s.Geo()
    decreases passes
  {
    if passes == 0 then (Done(Ok), s)
    else
      var (code, s1) := OverwriteAll(s, lpn, n, passes - 1, envs);
      if code != Done(Ok) then (code, s1) else Overwrite(s1, lpn, n, passes - 1, envs)
  }

  /** ftl_secure_erase; `memory` is whether the buffer can be allocated. */
  ghost function SecureErase(s: Ftl, lpn: nat, count: nat, passes: nat, memory: bool, envs: Envs,
                             wrote: nat -> bool): (r: (WriteEnd, Ftl))
    requires s.Shape() && VictimsExist(s.Geo(), envs)
    requires lpn < s.Geo().lpns && 0 < count ==> lpn + TrimCount(s.Geo(), lpn, count) <= s.Geo().lpns
    ensures r.1.Shape() && r.1.Geo() == s.Geo()
  {
    if count == 0 || passes == 0 || s.Geo().lpns <= lpn then (Done(Param), s)
    else if !memory then (Done(Internal), s)
    else
      var n := TrimCount(s.Geo(), lpn, count);
      var (code, s1) := OverwriteAll(s, lpn, n, passes, envs);
      if code != Done(Ok) then (code, s1)
      else
        ClippedOnce(s.Geo(), lpn, count);
        var (trimmed, s2) := Trim(s1, lpn, n, wrote);
        (Done(trimmed), s2)
  }

  /** Clipping a clipped range again changes nothing. */
  lemma ClippedOnce(g: Geometry, lpn: nat, count: nat)
    requires g.Valid() && lpn < g.lpns && lpn + TrimCount(g, lpn, count) <= g.lpns
    ensures TrimCount(g, lpn, TrimCount(g, lpn, count)) == TrimCount(g, lpn, count)
  {
  }

  // ---- every write of the erase finds the counts right, or opens clean blocks only

  ghost predicate CalmPass(s: Ftl, lpn: nat, k: nat, pass: nat, envs: Envs)
    requires s.Shape() && VictimsExist(s.Geo(), envs)
  {
    k == 0 ||
    (CalmPass(s, lpn, k - 1, pass, envs)
     && var (code, s1) := Overwrite(s, lpn, k - 1, pass, envs);
        code == Done(Ok) ==> Counts(s1.nand) || WriteClean(s1, lpn + k - 1, Pattern(pass), envs(pass, lpn + k - 1)))
  }

  ghost predicate Calm(s: Ftl, lpn: nat, n: nat, passes: nat, envs: Envs)
    requires s.Shape() && VictimsExist(s.Geo(), envs)
    decreases passes
  {
    passes == 0 ||
    (Calm(s, lpn, n, passes - 1, envs)
     && var (code, s1) := OverwriteAll(s, lpn, n, passes - 1, envs);
        code == Done(Ok) ==> CalmPass(s1, lpn, n, passes - 1, envs))
  }

  /** `c'` differs from `c` only inside `lo..hi`, and there only by patterns of passes below `passes`. */
  ghost predicate Smeared(c: Content, c': Content, lo: nat, hi: nat, passes: nat) {
    |c| == |c'| && forall i :: 0 <= i < |c| ==> c'[i] == c[i] || (lo <= i < hi && IsPattern(c'[i], passes))
  }

  ghost predicate IsPattern(p: Option<Page>, passes: nat) {
    exists k :: 0 <= k < passes && p == Some(Pattern(k))
  }

  lemma {:induction false} OverwriteKeeps(s: Ftl, lpn: nat, k: nat, n: nat, pass: nat, envs: Envs, c: Content,
                                          passes: nat)
    requires Safe(s) && VictimsExist(s.Geo(), envs) && k <= n && lpn + n <= s.Geo().lpns && pass < passes
    requires CalmPass(s, lpn, k, pass, envs) && Smeared(c, Logical(s), lpn, lpn + n, passes)
    ensures var s' := Overwrite(s, lpn, k, pass, envs).1;
            Safe(s') && Smeared(c, Logical(s'), lpn, lpn + n, passes)
    decreases k
  {
    hide Safe, Counts, Sane, OpenOk, Write, WriteForges, WriteClean, Pattern, Logical;
    if 0 < k {
      OverwriteKeeps(s, lpn, k - 1, n, pass, envs, c, passes);
      var (code, s1) := Overwrite(s, lpn, k - 1, pass, envs);
      if code == Done(Ok) {
        var env := envs(pass, lpn + k - 1);
        assert forall i :: 0 <= i < |env.passes| ==> env.passes[i].victim < s.Geo().blocks;
        WriteMeetsContent(s1, lpn + k - 1, Pattern(pass), env);
        assert IsPattern(Some(Pattern(pass)), passes);
      }
    }
  }

  lemma {:induction false} OverwriteAllKeeps(s: Ftl, lpn: nat, n: nat, done: nat, passes: nat, envs: Envs)
    requires Safe(s) && VictimsExist(s.Geo(), envs) && lpn + n <= s.Geo().lpns && done <= passes
    requires Calm(s, lpn, n, done, envs)
    ensures var s' := OverwriteAll(s, lpn, n, done, envs).1;
            Safe(s') && Smeared(Logical(s), Logical(s'), lpn, lpn + n, passes)
    decreases done
  {
    hide Safe, Counts, Sane, OpenOk, Overwrite, CalmPass, Logical;
    if 0 < done {
      OverwriteAllKeeps(s, lpn, n, done - 1, passes, envs);
      var (code, s1) := OverwriteAll(s, lpn, n, done - 1, envs);
      if code == Done(Ok) { OverwriteKeeps(s1, lpn, n, n, done - 1, envs, Logical(s), passes); }
    }
  }

  /**
   A successful secure erase unmaps exactly its clipped range and leaves everything else as it was.  However it
   ends, no LPN outside the range changes, and inside it each LPN keeps its page or shows an erase pattern.
   */
  lemma SecureEraseMeetsContent(s: Ftl, lpn: nat, count: nat, passes: nat, memory: bool, envs: Envs, wrote: nat -> bool)
    requires Safe(s) && VictimsExist(s.Geo(), envs) && count < TWO32
    requires lpn < s.Geo().lpns && 0 < count ==>
               && lpn + TrimCount(s.Geo(), lpn, count) <= s.Geo().lpns
               && Calm(s, lpn, TrimCount(s.Geo(), lpn, count), passes, envs)
    ensures var (code, s') := SecureErase(s, lpn, count, passes, memory, envs, wrote);
            && Safe(s')
            && (code == Done(Ok) ==> lpn < s.Geo().lpns)
            && (code == Done(Ok) ==> Logical(s') == Cleared(Logical(s), lpn, TrimEnd(s.Geo(), lpn, count)))
            && (code != Done(Ok) ==> Smeared(Logical(s), Logical(s'), lpn,
                  if lpn < s.Geo().lpns then TrimEnd(s.Geo(), lpn, count) else lpn, passes))
  {
    hide Safe, Counts, Sane, OpenOk, OverwriteAll, Calm, Trim, TrimCount, Pattern, Logical;
    if count != 0 && passes != 0 && lpn < s.Geo().lpns {
      TrimStaysInRange(s.Geo(), lpn, count);
      var n := TrimCount(s.Geo(), lpn, count);
      OverwriteAllKeeps(s, lpn, n, passes, passes, envs);
      var (code, s1) := OverwriteAll(s, lpn, n, passes, envs);
      if code == Done(Ok) && memory {
        ClippedOnce(s.Geo(), lpn, count);
        TrimMeetsContent(s1, lpn, n, wrote);
        ClippedEnd(s.Geo(), lpn, count);
        assert Cleared(Logical(s1), lpn, lpn + n) == Cleared(Logical(s), lpn, lpn + n);
      }
    }
  }

  lemma ClippedEnd(g: Geometry, lpn: nat, count: nat)
    requires g.Valid() && lpn < g.lpns && 0 < count < TWO32 && lpn + TrimCount(g, lpn, count) <= g.lpns
    ensures 0 < TrimCount(g, lpn, count) < TWO32
    ensures TrimEnd(g, lpn, TrimCount(g, lpn, count)) == lpn + TrimCount(g, lpn, count)
  {
  }

  // ---- what each pass leaves

  /** The byte that fills the pages of a pass. */
  function FillByte(pass: nat): bv8 {
    if pass % 4 == 0 then 0x00 else if pass % 4 == 1 then 0xFF else if pass % 4 == 2 then 0xAA else 0x55
  }

  /** Every page of `lo..hi` reads as 4096 bytes of that kind. */
  ghost predicate Filled(c: Content, lo: nat, hi: nat, pass: nat) {
    hi <= |c| && forall i :: lo <= i < hi ==>
      c[i].Some? && |c[i].value| == 4096 && forall j :: 0 <= j < 4096 ==> c[i].value[j] == FillByte(pass)
  }

  lemma FilledMore(c: Content, lo: nat, hi: nat, pass: nat)
    requires lo <= hi < |c| && Filled(c, lo, hi, pass)
    ensures Filled(c[hi := Some(Pattern(pass))], lo, hi + 1, pass)
  {
  }

  lemma WriteHost(s: Ftl, lpn: nat, data: Page, env: Env)
    requires Safe(s) && forall i :: 0 <= i < |env.passes| ==> env.passes[i].victim < s.Geo().blocks
    requires Counts(s.nand) || WriteClean(s, lpn, data, env)
    requires Write(s, lpn, data, env).0 == Done(Ok)
    ensures lpn < s.Geo().lpns && Write(s, lpn, data, env).1.stats.host == s.stats.host + 1
  {
    hide Safe, WriteBody, WearCheck, Periodic, Counts, BodyClean, StaticClean;
    if lpn < s.Geo().lpns {
      WriteBodyHost(s, lpn, data, env);
      var s1 := WriteBody(s, lpn, data, env).1;
      PeriodicHost(s1, env.draw, []);
      PeriodicHost(WearCheck(s1), env.draw, []);
    }
  }

  /** Behind the first `k` writes of a pass, all OK: so many pages are filled, and so many host writes counted. */
  lemma {:induction false} PassFills(s: Ftl, lpn: nat, k: nat, pass: nat, envs: Envs)
    requires Safe(s) && VictimsExist(s.Geo(), envs) && lpn + k <= s.Geo().lpns && CalmPass(s, lpn, k, pass, envs)
    requires Overwrite(s, lpn, k, pass, envs).0 == Done(Ok)
    ensures var s' := Overwrite(s, lpn, k, pass, envs).1;
            Safe(s') && Filled(Logical(s'), lpn, lpn + k, pass) && s'.stats.host == s.stats.host + k
    decreases k
  {
    hide Safe, Counts, Sane, OpenOk, Write, WriteForges, WriteClean, Pattern, Logical, Filled;
    if k == 0 {
      FilledNone(Logical(s), lpn, pass);
    } else {
      PassFills(s, lpn, k - 1, pass, envs);
      var s1 := Overwrite(s, lpn, k - 1, pass, envs).1;
      var env := envs(pass, lpn + k - 1);
      assert forall i :: 0 <= i < |env.passes| ==> env.passes[i].victim < s.Geo().blocks;
      WriteFills(s1, lpn, lpn + k - 1, pass, env);
    }
  }

  lemma WriteFills(s: Ftl, lo: nat, lpn: nat, pass: nat, env: Env)
    requires Safe(s) && forall i :: 0 <= i < |env.passes| ==> env.passes[i].victim < s.Geo().blocks
    requires Counts(s.nand) || WriteClean(s, lpn, Pattern(pass), env)
    requires Write(s, lpn, Pattern(pass), env).0 == Done(Ok) && lo <= lpn && Filled(Logical(s), lo, lpn, pass)
    ensures var s' := Write(s, lpn, Pattern(pass), env).1;
            Safe(s') && Filled(Logical(s'), lo, lpn + 1, pass) && s'.stats.host == s.stats.host + 1
  {
    hide Safe, Counts, Sane, OpenOk, Write, WriteForges, WriteClean, Pattern, Logical, Filled;
    WriteMeetsContent(s, lpn, Pattern(pass), env);
    WriteHost(s, lpn, Pattern(pass), env);
    FilledMore(Logical(s), lo, lpn, pass);
  }

  lemma FilledNone(c: Content, lo: nat, pass: nat)
    requires lo <= |c|
    ensures Filled(c, lo, lo, pass)
  {
  }

  /**
   Behind `done` passes over `n` pages, all OK: every page of the range reads as 4096 bytes of the last pass, which are
   0x00, 0xFF, 0xAA and 0x55 in turn, and each page has been written once in each pass.
   */
  lemma {:induction false} PassesFill(s: Ftl, lpn: nat, n: nat, done: nat, envs: Envs)
    requires Safe(s) && VictimsExist(s.Geo(), envs) && lpn + n <= s.Geo().lpns && Calm(s, lpn, n, done, envs)
    requires OverwriteAll(s, lpn, n, done, envs).0 == Done(Ok)
    ensures var s' := OverwriteAll(s, lpn, n, done, envs).1;
            && Safe(s') && s'.stats.host == s.stats.host + n * done
            && (0 < done ==> Filled(Logical(s'), lpn, lpn + n, done - 1))
    decreases done
  {
    hide Safe, Counts, Sane, OpenOk, Overwrite, CalmPass, Logical, Filled;
    if 0 < done {
      PassesFill(s, lpn, n, done - 1, envs);
      PassFills(OverwriteAll(s, lpn, n, done - 1, envs).1, lpn, n, done - 1, envs);
      assert n * done == n * (done - 1) + n;
    }
  }

  /** So a secure erase that answers OK has written each page of its range once in each pass before it trims it. */
  lemma SecureEraseWrites(s: Ftl, lpn: nat, count: nat, passes: nat, memory: bool, envs: Envs, wrote: nat -> bool)
    requires Safe(s) && VictimsExist(s.Geo(), envs) && count < TWO32 && lpn < s.Geo().lpns && 0 < count
    requires lpn + TrimCount(s.Geo(), lpn, count) <= s.Geo().lpns
    requires Calm(s, lpn, TrimCount(s.Geo(), lpn, count), passes, envs)
    requires SecureErase(s, lpn, count, passes, memory, envs, wrote).0 == Done(Ok)
    ensures var n := TrimEnd(s.Geo(), lpn, count) - lpn;
            var s' := SecureErase(s, lpn, count, passes, memory, envs, wrote).1;
            && 0 < passes && s'.stats.host == s.stats.host + n * passes
            && Filled(Logical(OverwriteAll(s, lpn, n, passes, envs).1), lpn, lpn + n, passes - 1)
  {
    hide Safe, Counts, Sane, OpenOk, OverwriteAll, Calm, TrimCount, Logical, Filled, TrimRange;
    TrimStaysInRange(s.Geo(), lpn, count);
    ClippedEnd(s.Geo(), lpn, count);
    var n := TrimCount(s.Geo(), lpn, count);
    PassesFill(s, lpn, n, passes, envs);
    ClippedOnce(s.Geo(), lpn, count);
    TrimHost(OverwriteAll(s, lpn, n, passes, envs).1, lpn, lpn + n, wrote);
  }

  /** What a secure erase refuses at once. */
  lemma SecureEraseRefuses(s: Ftl, lpn: nat, count: nat, passes: nat, memory: bool, envs: Envs, wrote: nat -> bool)
    requires s.Shape() && VictimsExist(s.Geo(), envs)
    requires lpn < s.Geo().lpns && 0 < count ==> lpn + TrimCount(s.Geo(), lpn, count) <= s.Geo().lpns
    ensures var r := SecureErase(s, lpn, count, passes, memory, envs, wrote);
            && (s.Geo().lpns <= lpn || count == 0 || passes == 0 ==> r == (Done(Param), s))
            && (lpn < s.Geo().lpns && 0 < count && 0 < passes && !memory ==> r == (Done(Internal), s))
  {
    hide OverwriteAll, Trim, TrimCount;
  }

  // ---- what the loops take from outside, one write at a time

  /** Only what the first `k` writes take matters to them. */
  lemma {:induction false} OverwriteLocal(s: Ftl, lpn: nat, k: nat, pass: nat, envs: Envs, envs': Envs)
    requires s.Shape() && VictimsExist(s.Geo(), envs) && VictimsExist(s.Geo(), envs')
    requires forall l :: lpn <= l < lpn + k ==> envs(pass, l) == envs'(pass, l)
    ensures Overwrite(s, lpn, k, pass, envs) == Overwrite(s, lpn, k, pass, envs')
    decreases k
  {
    hide Write, VictimsExist;
    if 0 < k { OverwriteLocal(s, lpn, k - 1, pass, envs, envs'); }
  }

  lemma {:induction false} OverwriteAllLocal(s: Ftl, lpn: nat, n: nat, passes: nat, envs: Envs, envs': Envs)
    requires s.Shape() && VictimsExist(s.Geo(), envs) && VictimsExist(s.Geo(), envs')
    requires forall p, l :: 0 <= p < passes && lpn <= l < lpn + n ==> envs(p, l) == envs'(p, l)
    ensures OverwriteAll(s, lpn, n, passes, envs) == OverwriteAll(s, lpn, n, passes, envs')
    decreases passes
  {
    hide Overwrite;
    if 0 < passes {
      OverwriteAllLocal(s, lpn, n, passes - 1, envs, envs');
      OverwriteLocal(OverwriteAll(s, lpn, n, passes - 1, envs).1, lpn, n, passes - 1, envs, envs');
    }
  }

  lemma OverwriteStarts(s: Ftl, lpn: nat, pass: nat, envs: Envs)
    requires s.Shape() && VictimsExist(s.Geo(), envs)
    ensures Overwrite(s, lpn, 0, pass, envs) == (Done(Ok), s)
  {
  }

  /** A pass that has failed stays as it is. */
  lemma {:induction false} OverwriteStops(s: Ftl, lpn: nat, k: nat, n: nat, pass: nat, envs: Envs)
    requires s.Shape() && VictimsExist(s.Geo(), envs) && k <= n && Overwrite(s, lpn, k, pass, envs).0 != Done(Ok)
    ensures Overwrite(s, lpn, n, pass, envs) == Overwrite(s, lpn, k, pass, envs)
    decreases n
  {
    hide Write;
    if k < n { OverwriteStops(s, lpn, k, n - 1, pass, envs); }
  }

  lemma {:induction false} OverwriteAllStops(s: Ftl, lpn: nat, n: nat, done: nat, passes: nat, envs: Envs)
    requires s.Shape() && VictimsExist(s.Geo(), envs) && done <= passes
    requires OverwriteAll(s, lpn, n, done, envs).0 != Done(Ok)
    ensures OverwriteAll(s, lpn, n, passes, envs) == OverwriteAll(s, lpn, n, done, envs)
    decreases passes
  {
    hide Overwrite;
    if done < passes { OverwriteAllStops(s, lpn, n, done, passes - 1, envs); }
  }

  /** `envs` with the entry for write `l` of pass `p` replaced. */
  ghost function With(envs: Envs, p: nat, l: nat, env: Env): Envs {
    (k: nat, m: nat) => if k == p && m == l then env else envs(k, m)
  }

  /** One more write, and what it took from outside recorded. */
  lemma OverwriteNext(s: Ftl, lpn: nat, k: nat, pass: nat, envs: Envs, s1: Ftl, env: Env)
    requires s.Shape() && VictimsExist(s.Geo(), envs) && Overwrite(s, lpn, k, pass, envs) == (Done(Ok), s1)
    requires forall i :: 0 <= i < |env.passes| ==> env.passes[i].victim < s.Geo().blocks
    ensures var envs' := With(envs, pass, lpn + k, env);
            && VictimsExist(s.Geo(), envs')
            && (forall p, l :: p != pass ==> envs'(p, l) == envs(p, l))
            && Overwrite(s, lpn, k + 1, pass, envs') == Write(s1, lpn + k, Pattern(pass), env)
  {
    hide Write, VictimsExist, With;
    WithVictims(s.Geo(), envs, pass, lpn + k, env);
    OverwriteLocal(s, lpn, k, pass, envs, With(envs, pass, lpn + k, env));
  }

  lemma WithVictims(g: Geometry, envs: Envs, p: nat, l: nat, env: Env)
    requires VictimsExist(g, envs) && forall i :: 0 <= i < |env.passes| ==> env.passes[i].victim < g.blocks
    ensures VictimsExist(g, With(envs, p, l, env))
    ensures With(envs, p, l, env)(p, l) == env
    ensures forall k, m :: (k != p || m != l) ==> With(envs, p, l, env)(k, m) == envs(k, m)
  {
    forall k: nat, m: nat
      ensures forall i :: 0 <= i < |With(envs, p, l, env)(k, m).passes| ==>
                With(envs, p, l, env)(k, m).passes[i].victim < g.blocks
    {
      assert forall i :: 0 <= i < |envs(k, m).passes| ==> envs(k, m).passes[i].victim < g.blocks;
    }
  }
}
