/**
 Whole runs.  Any interleaving of host operations, garbage collection, bad-block replacement and
 read-disturb handling behaves like one plain table from LPN to page.
 */
module FtlRuns {
  import opened Common
  import opened Layout
  import opened NandModel
  import opened WalModel
  import opened FtlModel
  import opened FtlInvariant
  import opened FtlRelocation
  import opened FtlSteps

  /** One call into the FTL, together with everything it takes from outside. */
  datatype Op =
    | DoRead(lpn: nat, buf: Page)
    | DoWrite(lpn: nat, data: Page, env: Env)
    | DoTrim(lpn: nat, count: nat, wrote: nat -> bool)
    | DoGc(victim: nat, draw: bool)
    | DoReplace(block: nat)
    | DoDisturb(draw: bool)

  datatype Reply = Answer(code: RetCode, data: Page) | NoAnswer

  /** Victims exist, and a trim stays inside the table: see TrimStaysInRange. */
  ghost predicate Callable(s: Ftl, op: Op)
    requires s.Shape()
  {
    match op
    case DoWrite(_, _, env) => forall i :: 0 <= i < |env.passes| ==> env.passes[i].victim < s.Geo().blocks
    case DoTrim(lpn, count, _) =>
      && count < TWO32
      && (lpn < s.Geo().lpns && 0 < count ==> lpn + TrimCount(s.Geo(), lpn, count) <= s.Geo().lpns)
    case DoGc(victim, _) => victim < s.Geo().blocks
    case _ => true
  }

  /** With forged counts: every block the call opens or fills is clean at that moment. */
  ghost predicate OpensOnlyClean(s: Ftl, op: Op)
    requires s.Shape() && Callable(s, op)
  {
    match op
    case DoWrite(lpn, data, env) => WriteClean(s, lpn, data, env)
    case DoGc(victim, _) => PassClean(s, victim, [])
    case DoReplace(_) => SpareClean(s)
    case DoDisturb(_) => DisturbClean(s)
    case _ => true
  }

  /** The call moves nothing above the write pointer: see ReplaceBlockKeeps and ReadDisturbKeeps. */
  ghost predicate PointerHarmless(s: Ftl, op: Op)
    requires s.Shape()
  {
    match op
    case DoReplace(b) => b < s.Geo().blocks ==> SpareHarmless(s, b)
    case DoDisturb(_) => DisturbHarmless(s)
    case _ => true
  }

  /** The call is one the invariant allows for: each part is the exact condition of the lemma it comes from. */
  ghost predicate Admissible(s: Ftl, op: Op)
    requires s.Shape()
    ensures Admissible(s, op) ==> Callable(s, op)
  {
    Callable(s, op) && (Counts(s.nand) || OpensOnlyClean(s, op)) && PointerHarmless(s, op)
  }

  ghost function Step(s: Ftl, op: Op): (r: (Reply, Ftl))
    requires s.Shape() && Callable(s, op)
    ensures r.1.Shape() && r.1.Geo() == s.Geo()
  {
    match op
    case DoRead(lpn, buf) =>
      var (code, data, s') := Read(s, lpn, buf); (Answer(code, data), s')
    case DoWrite(lpn, data, env) =>
      var (end, s') := Write(s, lpn, data, env);
      (if end.Done? then Answer(end.code, []) else NoAnswer, s')
    case DoTrim(lpn, count, wrote) =>
      var (code, s') := Trim(s, lpn, count, wrote); (Answer(code, []), s')
    case DoGc(victim, draw) =>
      var (code, s') := GcPass(s, victim, draw, []); (Answer(code, []), s')
    case DoReplace(b) =>
      var (code, s') := ReplaceBlock(s, b, []); (Answer(code, []), s')
    case DoDisturb(draw) =>
      var (code, s') := ReadDisturb(s, draw, []); (Answer(code, []), s')
  }

  // ---- the plain table

  /** What a plain table of pages may answer. */
  predicate PlainReply(c: Content, op: Op, reply: Reply) {
    match op
    case DoRead(lpn, buf) =>
      reply == (if |c| <= lpn then Answer(Param, buf)
                else if c[lpn] == None then Answer(NotMapped, buf)
                else Answer(Ok, c[lpn].value))
    case DoWrite(lpn, _, _) => |c| <= lpn ==> reply == Answer(Param, [])
    case DoTrim(lpn, count, _) => reply == Answer(if lpn < |c| && 0 < count then Ok else Param, [])
    case _ => true
  }

  /** What happens to a plain table: only OK writes and trims change it. */
  function PlainStep(c: Content, op: Op, reply: Reply): (r: Content)
    requires PlainReply(c, op, reply)
    ensures |r| == |c|
  {
    match op
    case DoWrite(lpn, data, _) => if reply == Answer(Ok, []) then c[lpn := Some(data)] else c
    case DoTrim(lpn, count, _) =>
      if lpn < |c| && 0 < count then Cleared(c, lpn, if lpn + count <= |c| then lpn + count else |c|) else c
    case _ => c
  }

  /** The wear check of the call forges a count. */
  ghost predicate ForgesCount(s: Ftl, op: Op)
    requires s.Shape() && Callable(s, op)
  {
    op.DoWrite? && WriteForges(s, op.lpn, op.data, op.env)
  }

  /** One step of the FTL is one step of the plain table; the counts stay right unless the step forges one. */
  lemma StepRefines(s: Ftl, op: Op)
    requires Safe(s) && Admissible(s, op)
    ensures var (reply, s') := Step(s, op);
            && Safe(s') && (Counts(s.nand) && !ForgesCount(s, op) ==> Counts(s'.nand))
            && PlainReply(Logical(s), op, reply)
            && Logical(s') == PlainStep(Logical(s), op, reply)
  {
    hide Sane, Safe, OpenOk, Counts, Read, Write, WriteForges, Trim, GcPass, ReplaceBlock, ReadDisturb, SpareHarmless;
    hide DisturbHarmless, WriteClean, PassClean, SpareClean, DisturbClean;
    match op
    case DoRead(lpn, buf) => ReadMeetsContent(s, lpn, buf);
    case DoWrite(lpn, data, env) => WriteMeetsContent(s, lpn, data, env);
    case DoTrim(lpn, count, wrote) => TrimMeetsContent(s, lpn, count, wrote);
    case DoGc(victim, draw) => GcPassInvisible(s, victim, draw, []);
    case DoReplace(b) => ReplaceBlockKeeps(s, b, []);
    case DoDisturb(draw) => ReadDisturbKeeps(s, draw, []);
  }

  // ---- runs

  ghost predicate AdmissibleRun(s: Ftl, ops: seq<Op>)
    requires s.Shape()
    decreases ops
  {
    ops == [] || (Admissible(s, ops[0]) && AdmissibleRun(Step(s, ops[0]).1, ops[1..]))
  }

  ghost function Run(s: Ftl, ops: seq<Op>): (r: (seq<Reply>, Ftl))
    requires s.Shape() && AdmissibleRun(s, ops)
    ensures |r.0| == |ops| && r.1.Shape() && r.1.Geo() == s.Geo()
    decreases ops
  {
    if ops == [] then ([], s)
    else
      var (reply, s1) := Step(s, ops[0]);
      var (replies, s2) := Run(s1, ops[1..]);
      ([reply] + replies, s2)
  }

  /** The plain table gives these replies to these calls and ends up as the result, if it can. */
  function PlainRun(c: Content, ops: seq<Op>, replies: seq<Reply>): Option<Content>
    requires |ops| == |replies|
    decreases ops
  {
    if ops == [] then Some(c)
    else if !PlainReply(c, ops[0], replies[0]) then None
    else PlainRun(PlainStep(c, ops[0], replies[0]), ops[1..], replies[1..])
  }

  /**
   Every run of the FTL, with all its replies, is a run of a plain table from LPN to page, also after counts have been
   forged.
   */
  lemma {:induction false} RunRefines(s: Ftl, ops: seq<Op>)
    requires Safe(s) && AdmissibleRun(s, ops)
    ensures var (replies, s') := Run(s, ops);
            Safe(s') && PlainRun(Logical(s), ops, replies) == Some(Logical(s'))
    decreases ops
  {
    hide Safe, Admissible, Step, PlainReply, PlainStep, Logical, ForgesCount;
    if ops != [] {
      StepRefines(s, ops[0]);
      var (reply, s1) := Step(s, ops[0]);
      RunRefines(s1, ops[1..]);
      var (replies, s2) := Run(s1, ops[1..]);
      assert ([reply] + replies)[1..] == replies;
    }
  }

  /** No call of the run forges a count. */
  ghost predicate Unforged(s: Ftl, ops: seq<Op>)
    requires s.Shape() && AdmissibleRun(s, ops)
    decreases ops
  {
    ops == [] || (!ForgesCount(s, ops[0]) && Unforged(Step(s, ops[0]).1, ops[1..]))
  }

  /** Such a run keeps the whole invariant, the counts included. */
  lemma {:induction false} RunKeepsCounts(s: Ftl, ops: seq<Op>)
    requires Inv(s) && AdmissibleRun(s, ops) && Unforged(s, ops)
    ensures Inv(Run(s, ops).1)
    decreases ops
  {
    hide Inv, Safe, Counts, Admissible, Step, ForgesCount;
    if ops != [] {
      StepRefines(s, ops[0]);
      RunKeepsCounts(Step(s, ops[0]).1, ops[1..]);
    }
  }

  /** A call that may change what is stored at `lpn`. */
  predicate Touches(op: Op, lpn: nat) {
    match op
    case DoWrite(l, _, _) => l == lpn
    case DoTrim(l, count, _) => l <= lpn < l + count
    case _ => false
  }

  lemma {:induction false} UntouchedStays(c: Content, ops: seq<Op>, replies: seq<Reply>, lpn: nat)
    requires |ops| == |replies| && lpn < |c| && PlainRun(c, ops, replies).Some?
    requires forall i :: 0 <= i < |ops| ==> !Touches(ops[i], lpn)
    ensures var c' := PlainRun(c, ops, replies).value; |c'| == |c| && c'[lpn] == c[lpn]
    decreases ops
  {
    if ops != [] {
      assert !Touches(ops[0], lpn);
      UntouchedStays(PlainStep(c, ops[0], replies[0]), ops[1..], replies[1..], lpn);
    }
  }

  /**
   Read your writes: after an OK write, and then any run whatever that neither writes nor trims
   that LPN, however many relocations it contains, reading returns exactly the data written.
   */
  lemma {:induction false} ReadYourWrite(s: Ftl, lpn: nat, data: Page, env: Env, ops: seq<Op>, buf: Page)
    requires Safe(s) && Admissible(s, DoWrite(lpn, data, env))
    requires Step(s, DoWrite(lpn, data, env)).0 == Answer(Ok, [])
    requires AdmissibleRun(Step(s, DoWrite(lpn, data, env)).1, ops)
    requires forall i :: 0 <= i < |ops| ==> !Touches(ops[i], lpn)
    ensures var s' := Run(Step(s, DoWrite(lpn, data, env)).1, ops).1;
            Read(s', lpn, buf).0 == Ok && Read(s', lpn, buf).1 == data
  {
    hide Safe, Admissible, Read, Step, Run, ForgesCount;
    StepRefines(s, DoWrite(lpn, data, env));
    var s1 := Step(s, DoWrite(lpn, data, env)).1;
    RunRefines(s1, ops);
    var (replies, s2) := Run(s1, ops);
    UntouchedStays(Logical(s1), ops, replies, lpn);
    ReadMeetsContent(s2, lpn, buf);
  }

  // ---- the start

  /** A NAND as nand_init leaves new media: nothing valid, each block FREE or bad from the factory. */
  ghost predicate NewMedia(n: Nand)
    requires n.Shape()
  {
    forall b :: 0 <= b < n.geo.blocks ==>
      && n.blocks[b].state != Used && n.blocks[b].count == 0
      && forall p :: 0 <= p < n.geo.pages ==> !n.blocks[b].valid[p]
  }

  /** Starting on new media establishes the invariant, with nothing stored; it fails only without a free user block. */
  lemma InitEstablishes(n: Nand)
    requires n.Shape() && NewMedia(n)
    ensures Init(n).None? <==> forall b :: 0 <= b < n.geo.User() ==> n.blocks[b].state == Bad
    ensures Init(n).Some? ==> Inv(Init(n).value)
                              && forall i :: 0 <= i < n.geo.lpns ==> Logical(Init(n).value)[i] == None
  {
    forall b | 0 <= b < n.geo.blocks ensures CountOk(n.blocks[b]) {
      CountTrueZero(n.blocks[b].valid);
    }
    if Init(n).None? {
      forall b | 0 <= b < n.geo.User() ensures n.blocks[b].state == Bad {
        assert n.blocks[b].state != Used;
      }
    }
  }
}
