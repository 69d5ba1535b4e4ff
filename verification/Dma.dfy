/**
 One DMA channel: the transfer thread and one controller, interleaved at every lock.  The
 controller pauses, resumes and stops; it does not reconfigure the channel before the thread ends.
 */
module Dma {
  import opened Common

  newtype Byte = x: int | 0 <= x < 256

  const CHUNK: nat := 4096

  datatype State = Ready | Running | Paused | Complete | Error

  /**
   Where the thread is: before its first lock, at the loop head, holding a chunk to copy, with a copied chunk,
   behind the loop, gone.
   */
  datatype Pc = Created | Head | Copying(n: nat) | Copied(n: nat) | Leaving | Gone

  /** Where the controller is: between calls, past the unlocked check of a pause or a resume, waiting to join. */
  datatype Ctl = Idle | Pausing | Resuming | Joining

  /** Everything; `src` and `dst` are separate buffers of the transfer length, and both addresses increment. */
  datatype Dma = Dma(
    src: seq<Byte>, dst: seq<Byte>, state: State, transferred: nat, transfers: nat, errors: nat,
    pc: Pc, offset: nat, remaining: nat, ctl: Ctl)

  datatype Action = Thread | PauseCheck | PauseSet | ResumeCheck | ResumeSet | Stop | Join

  /** dst with the bytes `at..at + n` taken from src. */
  function CopyRange(src: seq<Byte>, dst: seq<Byte>, at: nat, n: nat): (r: seq<Byte>)
    requires |src| == |dst| && at + n <= |src|
    ensures |r| == |dst|
  {
    dst[..at] + src[at..at + n] + dst[at + n..]
  }

  lemma CopyNothing(src: seq<Byte>, dst: seq<Byte>, at: nat)
    requires |src| == |dst| && at <= |src|
    ensures CopyRange(src, dst, at, 0) == dst
  {
  }

  lemma CopyOneMore(src: seq<Byte>, dst: seq<Byte>, at: nat, n: nat)
    requires |src| == |dst| && at + n < |src|
    ensures CopyRange(src, dst, at, n + 1) == CopyRange(src, dst, at, n)[at + n := src[at + n]]
  {
  }

  ghost predicate Shape(d: Dma) {
    && |d.src| == |d.dst|
    && (d.pc.Copying? || d.pc.Copied? ==> d.pc.n <= d.remaining && d.offset + d.remaining == |d.src|)
  }

  /** One step of the transfer thread: one locked section, or one copy. */
  function ThreadStep(d: Dma): (r: Dma)
    requires Shape(d)
  {
    match d.pc
    case Created =>
      if d.state != Ready then d.(pc := Gone)
      else d.(state := Running, transferred := 0, offset := 0, remaining := |d.src|, pc := Head)
    case Head =>
      if d.remaining == 0 then d.(pc := Leaving)
      else if d.state == Paused then d
      else if d.state != Running then d.(pc := Leaving)
      else d.(pc := Copying(if d.remaining < CHUNK then d.remaining else CHUNK))
    case Copying(n) =>
      if d.offset + n <= |d.src| then d.(dst := CopyRange(d.src, d.dst, d.offset, n), pc := Copied(n)) else d
    case Copied(n) =>
      if n <= d.remaining
      then d.(transferred := d.transferred + n, offset := d.offset + n, remaining := d.remaining - n, pc := Head) else d
    case Leaving =>
      if d.state == Running then d.(state := Complete, transfers := d.transfers + 1, pc := Gone)
      else d.(errors := d.errors + 1, pc := Gone)
    case Gone => d
  }

  /** One step of the whole system; a step that is not enabled changes nothing. */
  function Step(d: Dma, a: Action): (r: Dma)
    requires Shape(d)
  {
    match a
    case Thread => ThreadStep(d)
    case PauseCheck => if d.ctl == Idle && d.state == Running then d.(ctl := Pausing) else d
    case PauseSet => if d.ctl == Pausing then d.(state := Paused, ctl := Idle) else d
    case ResumeCheck => if d.ctl == Idle && d.state == Paused then d.(ctl := Resuming) else d
    case ResumeSet => if d.ctl == Resuming then d.(state := Running, ctl := Idle) else d
    case Stop =>
      if d.ctl != Idle then d
      else d.(state := if d.state == Running || d.state == Paused then Error else d.state, ctl := Joining)
    case Join => if d.ctl == Joining && d.pc == Gone then d.(ctl := Idle) else d
  }

  // ---- the invariant

  /** Some thread position inside the loop or behind it. */
  predicate Started(d: Dma) {
    !d.pc.Created?
  }

  ghost predicate Inv(d: Dma) {
    && Shape(d)
    && (d.pc.Created? ==> d.state == Ready && d.offset == 0)
    && (Started(d) ==> d.state != Ready)
    && d.offset + d.remaining == |d.src| && (Started(d) ==> d.transferred == d.offset)
    && d.dst[..d.offset] == d.src[..d.offset]
    && (d.pc.Copied? ==> d.offset + d.pc.n <= |d.src| && d.dst[..d.offset + d.pc.n] == d.src[..d.offset + d.pc.n])
    && (d.pc.Copying? || d.pc.Copied? ==> 0 < d.pc.n)
    && (d.state == Complete ==> d.pc.Gone? && d.remaining == 0)
    && ((d.pc.Leaving? || d.pc.Gone?) && 0 < d.remaining ==> d.state == Error)
    && (d.ctl == Resuming ==> d.state == Paused)
    && (d.ctl == Pausing ==> Started(d))
    && (d.state == Error ==> d.ctl == Joining || (d.ctl == Idle && d.pc.Gone?))
  }

  lemma InvShape(d: Dma)
    requires Inv(d)
    ensures Shape(d) && d.offset + d.remaining == |d.src|
    ensures d.pc.Copied? ==> d.pc.n <= d.remaining
  {
  }

  /** Configured, and the thread created; the count may be that of an earlier transfer. */
  ghost predicate Fresh(d: Dma) {
    && |d.src| == |d.dst| && d.state == Ready && d.pc.Created? && d.ctl == Idle
    && d.offset == 0 && d.remaining == |d.src|
  }

  /** Every step of either side keeps the invariant. */
  lemma StepInv(d: Dma, a: Action)
    requires Inv(d)
    ensures Inv(Step(d, a))
  {
    if a == Thread && d.pc.Copying? {
      var n := d.pc.n;
      var d' := ThreadStep(d);
      assert d'.dst[..d.offset] == d.dst[..d.offset];
      assert d'.dst[..d.offset + n] == d.dst[..d.offset] + d.src[d.offset..d.offset + n];
      assert d.src[..d.offset + n] == d.src[..d.offset] + d.src[d.offset..d.offset + n];
    }
  }

  lemma FreshInv(d: Dma)
    requires Fresh(d)
    ensures Inv(d)
  {
  }

  ghost function Run(d: Dma, actions: seq<Action>): (r: Dma)
    requires Inv(d)
    ensures Inv(r)
    decreases actions
  {
    if actions == [] then d
    else StepInv(d, actions[0]); Run(Step(d, actions[0]), actions[1..])
  }

  lemma {:induction false} RunFixed(d: Dma, actions: seq<Action>)
    requires Inv(d)
    ensures Run(d, actions).src == d.src
    decreases actions
  {
    hide Inv;
    if actions != [] {
      StepInv(d, actions[0]);
      InvShape(d);
      RunFixed(Step(d, actions[0]), actions[1..]);
    }
  }

  /**
   Safety over every interleaving: at each loop head the bytes counted and the bytes remaining make up the
   transfer, what lies below the count has arrived unchanged, and a channel that reports COMPLETE has
   transferred everything and its destination equals its source.
   */
  lemma RunSafe(d: Dma, actions: seq<Action>)
    requires Fresh(d)
    ensures Inv(d)
    ensures var e := Run(d, actions);
            && e.src == d.src && |e.dst| == |d.src|
            && (e.pc.Head? ==>
                  e.transferred + e.remaining == |d.src| && e.dst[..e.transferred] == d.src[..e.transferred])
            && (e.state == Complete ==> e.pc.Gone? && e.transferred == |d.src| && e.dst == d.src)
  {
    FreshInv(d);
    RunFixed(d, actions);
    var e := Run(d, actions);
    if e.state == Complete {
      assert e.dst[..|d.src|] == e.dst && d.src[..|d.src|] == d.src;
    }
  }

  // ---- stopping

  /** Behind its last lock the thread is gone for good, and nothing moves any more. */
  lemma {:induction false} GoneForGood(d: Dma, actions: seq<Action>)
    requires Inv(d) && d.pc.Gone?
    ensures var e := Run(d, actions); e.pc.Gone? && e.dst == d.dst && e.transferred == d.transferred
    decreases actions
  {
    if actions != [] {
      StepInv(d, actions[0]);
      GoneForGood(Step(d, actions[0]), actions[1..]);
    }
  }

  /** While a stop is under way the controller does nothing else, and it comes back only behind the thread. */
  lemma {:induction false} JoiningEnds(d: Dma, actions: seq<Action>)
    requires Inv(d) && (d.ctl == Joining || d.pc.Gone?)
    ensures var e := Run(d, actions); e.ctl == Joining || e.pc.Gone?
    decreases actions
  {
    if actions != [] {
      StepInv(d, actions[0]);
      JoiningEnds(Step(d, actions[0]), actions[1..]);
    }
  }

  /**
   What a stop promises, over every interleaving: once dma_stop_transfer has returned, whatever is called later, not
   one more byte of the destination changes, the count stays, and what lies below the count has arrived unchanged.
   */
  lemma StopIsFinal(d: Dma, during: seq<Action>, later: seq<Action>)
    requires Inv(d) && d.ctl == Idle
    ensures Inv(Step(d, Stop))
    ensures var e := Run(Step(d, Stop), during);
            e.ctl != Joining ==>
              var f := Run(e, later);
              && e.pc.Gone? && f.pc.Gone? && f.dst == e.dst && f.transferred == e.transferred
              && f.transferred <= |f.dst| == |d.src| && f.dst[..f.transferred] == d.src[..f.transferred]
  {
    StepInv(d, Stop);
    JoiningEnds(Step(d, Stop), during);
    var e := Run(Step(d, Stop), during);
    RunFixed(Step(d, Stop), during);
    if e.ctl != Joining {
      GoneForGood(e, later);
      RunFixed(e, later);
    }
  }

  // ---- what can go wrong with a pause

  /** Once the thread is gone without COMPLETE, no call brings COMPLETE about. */
  lemma {:induction false} StrandedForever(d: Dma, actions: seq<Action>)
    requires Inv(d) && d.pc.Gone? && d.state != Complete
    ensures Run(d, actions).state != Complete && Run(d, actions).pc.Gone?
    decreases actions
  {
    if actions != [] {
      StepInv(d, actions[0]);
      StrandedForever(Step(d, actions[0]), actions[1..]);
    }
  }

  function Threads(k: nat): (r: seq<Action>)
    ensures |r| == k && forall i :: 0 <= i < k ==> r[i] == Thread
  {
    seq(k, _ => Thread)
  }

  lemma {:induction false} RunAppend(d: Dma, a: seq<Action>, b: seq<Action>)
    requires Inv(d)
    ensures Run(d, a + b) == Run(Run(d, a), b)
    decreases a
  {
    hide Inv, Step;
    InvShape(d);
    if a == [] {
      assert [] + b == b;
    } else {
      assert (a + b)[1..] == a[1..] + b;
      StepInv(d, a[0]);
      RunAppend(Step(d, a[0]), a[1..], b);
    }
  }

  lemma RunThreads(d: Dma, k: nat)
    requires Inv(d) && 0 < k
    ensures Inv(Step(d, Thread)) && Run(d, Threads(k)) == Run(Step(d, Thread), Threads(k - 1))
  {
    hide Inv, Step;
    InvShape(d);
    StepInv(d, Thread);
    assert Threads(k)[1..] == Threads(k - 1);
  }

  /** Two controller steps. */
  lemma RunTwo(d: Dma, a: Action, b: Action)
    requires Inv(d)
    ensures Inv(Step(d, a)) && Inv(Step(Step(d, a), b)) && Run(d, [a, b]) == Step(Step(d, a), b)
  {
    hide Inv, Step;
    InvShape(d);
    StepInv(d, a);
    StepInv(Step(d, a), b);
    assert [a, b][1..] == [b] && [b][1..] == [];
    assert Run(Step(d, a), [b]) == Run(Step(Step(d, a), b), []);
  }

  /** The thread will not look at the state again before it leaves the loop. */
  predicate PastCheck(d: Dma) {
    match d.pc
    case Created => false
    case Head => d.remaining == 0
    case Copying(n) => n == d.remaining
    case Copied(n) => n == d.remaining
    case Leaving => true
    case Gone => true
  }

  /** How many more steps the thread takes while the channel is paused. */
  function Pending(d: Dma): nat {
    match d.pc
    case Created => 0
    case Head => if d.remaining == 0 then 2 else 0
    case Copying(n) => if n == d.remaining then 4 else 2
    case Copied(n) => if n == d.remaining then 3 else 1
    case Leaving => 1
    case Gone => 0
  }

  /** A step of the thread of a paused channel, in every position. */
  lemma ThreadPaused(d: Dma)
    requires Inv(d) && Started(d) && d.state == Paused
    ensures var e := Step(d, Thread);
            && Inv(e) && Started(e) && e.state == Paused && e.ctl == d.ctl && e.src == d.src
            && PastCheck(e) == PastCheck(d)
            && Pending(e) == (if Pending(d) == 0 then 0 else Pending(d) - 1)
            && e.errors == d.errors + (if d.pc.Leaving? then 1 else 0)
  {
    StepInv(d, Thread);
  }

  /** Left alone, the thread of a paused channel either waits in the loop or, if it is past its last check, is gone. */
  lemma {:induction false} PausedSettles(d: Dma, k: nat)
    requires Inv(d) && Started(d) && d.state == Paused && Pending(d) <= k
    ensures var e := Run(d, Threads(k));
            && e.state == Paused && e.ctl == d.ctl && e.src == d.src
            && (if PastCheck(d) then e.pc.Gone? && e.dst == d.src else e.pc.Head? && 0 < e.remaining)
            && (PastCheck(d) && !d.pc.Gone? ==> e.errors == d.errors + 1)
            && (d.pc.Gone? ==> e.errors == d.errors)
    decreases k
  {
    if k == 0 {
      AllArrived(d);
    } else {
      ThreadPaused(d);
      RunThreads(d, k);
      PausedSettles(Step(d, Thread), k - 1);
    }
  }

  lemma AllArrived(d: Dma)
    requires Inv(d)
    ensures d.pc.Gone? && d.state != Error ==> d.dst == d.src
  {
    if d.pc.Gone? && d.state != Error {
      assert d.dst[..|d.src|] == d.dst && d.src[..|d.src|] == d.src;
    }
  }

  /** Steps the thread of a running channel takes from the loop head to the end of `remaining` bytes. */
  function FromHead(remaining: nat): nat {
    if remaining == 0 then 2 else 3 + FromHead(if remaining < CHUNK then 0 else remaining - CHUNK)
  }

  function ToGo(d: Dma): nat
    requires Shape(d)
  {
    match d.pc
    case Created => 0
    case Head => FromHead(d.remaining)
    case Copying(n) => 2 + FromHead(d.remaining - n)
    case Copied(n) => 1 + FromHead(d.remaining - n)
    case Leaving => 1
    case Gone => 0
  }

  /** Left alone, the thread of a running channel completes the transfer. */
  lemma {:induction false} RunningCompletes(d: Dma)
    requires Inv(d) && Started(d) && !d.pc.Gone? && d.state == Running
    ensures var e := Run(d, Threads(ToGo(d))); e.state == Complete && e.dst == d.src && e.ctl == d.ctl
    decreases ToGo(d)
  {
    var d1 := Step(d, Thread);
    RunThreads(d, ToGo(d));
    if d.pc.Leaving? {
      AllArrived(d1);
    } else {
      RunningCompletes(d1);
    }
  }

  /** A paused channel whose thread has gone on alone for `k` steps: the thread has left exactly if it could. */
  lemma {:induction false} PausedOn(d: Dma, k: nat)
    requires Inv(d) && Started(d) && d.state == Paused
    ensures var e := Run(d, Threads(k));
            && Inv(e) && Started(e) && e.state == Paused && e.ctl == d.ctl && e.src == d.src
            && (e.pc.Gone? <==> PastCheck(d) && Pending(d) <= k)
    decreases k
  {
    if k != 0 {
      ThreadPaused(d);
      RunThreads(d, k);
      PausedOn(Step(d, Thread), k - 1);
    }
  }

  /**
   When a pause can be taken back.  Take the moment at which dma_pause_transfer has set PAUSED, and let the thread go
   on alone for `k` steps.  After that some sequence of calls still leads to COMPLETE exactly as long as the thread has
   not left, which takes it no more than four steps if it was past its last check at that moment, and never happens if
   it was not.  Until then a resume is enough; after that all bytes have arrived nevertheless.
   */
  lemma PauseStrandsIff(d: Dma, k: nat)
    requires Inv(d) && Started(d) && d.state == Paused && d.ctl == Idle
    ensures (exists later :: Run(Run(d, Threads(k)), later).state == Complete) <==> !(PastCheck(d) && Pending(d) <= k)
    ensures Pending(d) <= 4
    ensures PastCheck(d) && Pending(d) <= k ==> Run(d, Threads(k)).dst == d.src
    ensures !(PastCheck(d) && Pending(d) <= k) ==>
              exists n :: var e := Run(Run(d, Threads(k)), Resumed(n)); e.state == Complete && e.dst == d.src
  {
    PausedOn(d, k);
    var e := Run(d, Threads(k));
    if e.pc.Gone? {
      AllArrived(e);
      forall later ensures Run(e, later).state != Complete { StrandedForever(e, later); }
    } else {
      ResumeCompletes(e);
    }
  }

  /** A resume, and then `n` steps of the thread. */
  function Resumed(n: nat): seq<Action> { [ResumeCheck, ResumeSet] + Threads(n) }

  /** What a resume does to a paused channel. */
  lemma ResumeSets(d: Dma)
    requires Inv(d) && Started(d) && !d.pc.Gone? && d.state == Paused && d.ctl == Idle
    ensures var d1 := Run(d, [ResumeCheck, ResumeSet]); Inv(d1) && d1 == d.(state := Running) && ToGo(d1) == ToGo(d)
  {
    hide FromHead;
    RunTwo(d, ResumeCheck, ResumeSet);
  }

  lemma ResumeCompletes(d: Dma)
    requires Inv(d) && Started(d) && !d.pc.Gone? && d.state == Paused && d.ctl == Idle
    ensures var e := Run(d, Resumed(ToGo(d))); e.state == Complete && e.dst == d.src
  {
    hide Inv, ToGo, Run, Threads;
    InvShape(d);
    ResumeSets(d);
    RunAppend(d, [ResumeCheck, ResumeSet], Threads(ToGo(d)));
    RunningCompletes(Run(d, [ResumeCheck, ResumeSet]));
  }

  // ---- what a stop does to a transfer

  /** The bytes of the chunk the thread has taken on and not yet counted. */
  function Held(d: Dma): nat {
    match d.pc
    case Copying(n) => n
    case Copied(n) => n
    case _ => 0
  }

  /** The destination once the thread has copied the chunk it holds. */
  function WithHeld(d: Dma): seq<Byte>
    requires Shape(d)
  {
    if d.pc.Copying? then CopyRange(d.src, d.dst, d.offset, d.pc.n) else d.dst
  }

  /** How many more steps the thread of a stopped channel takes. */
  function ToLeave(d: Dma): nat {
    match d.pc
    case Created => 1
    case Head => 2
    case Copying(_) => 4
    case Copied(_) => 3
    case Leaving => 1
    case Gone => 0
  }

  /** A step of the thread of a channel in the state ERROR, in every position. */
  lemma ThreadStopped(d: Dma)
    requires Inv(d) && Started(d) && d.state == Error && !d.pc.Gone?
    ensures var e := Step(d, Thread);
            && Inv(e) && Started(e) && e.state == Error && e.ctl == d.ctl && e.src == d.src
            && ToLeave(e) == ToLeave(d) - 1 && WithHeld(e) == WithHeld(d)
            && e.transferred + Held(e) == d.transferred + Held(d) && e.transfers == d.transfers
            && e.errors == d.errors + (if d.pc.Leaving? then 1 else 0)
  {
    StepInv(d, Thread);
  }

  /** Left alone, it is gone after so many steps. */
  lemma {:induction false} StoppedSettles(d: Dma, k: nat)
    requires Inv(d) && Started(d) && d.state == Error && ToLeave(d) <= k
    ensures var e := Run(d, Threads(k));
            && e.pc.Gone? && e.state == Error && e.ctl == d.ctl && e.dst == WithHeld(d)
            && e.transferred == d.transferred + Held(d) && e.transfers == d.transfers
            && e.errors == d.errors + (if d.pc.Gone? then 0 else 1)
    decreases k
  {
    if k != 0 {
      RunThreads(d, k);
      if d.pc.Gone? {
        StoppedSettles(d, k - 1);
      } else {
        ThreadStopped(d);
        StoppedSettles(Step(d, Thread), k - 1);
      }
    }
  }

  /**
   A stop ends the transfer, wherever the thread is: with dma_stop_transfer waiting to join, the thread is gone within
   four steps and has moved no more than the chunk it held; the stop can then return, and the state is ERROR.
   */
  lemma StopEnds(d: Dma, k: nat)
    requires Inv(d) && d.ctl == Idle && Started(d) && !d.pc.Gone? && 4 <= k
    ensures Inv(Step(d, Stop))
    ensures var e := Run(Step(d, Stop), Threads(k));
            && e.pc.Gone? && e.state == Error && e.ctl == Joining && Step(e, Join).ctl == Idle
            && e.transferred == d.transferred + Held(d) && e.dst == WithHeld(d)
            && e.transfers == d.transfers && e.errors == d.errors + 1
  {
    StepInv(d, Stop);
    StoppedSettles(Step(d, Stop), k);
  }

  lemma {:induction false} EndsForever(d: Dma, actions: seq<Action>)
    requires Inv(d) && (d.state == Error || d.state == Complete) && (d.ctl == Joining || d.ctl == Idle)
    ensures Run(d, actions).state == d.state
    decreases actions
  {
    if actions != [] {
      StepInv(d, actions[0]);
      EndsForever(Step(d, actions[0]), actions[1..]);
    }
  }

  /**
   After a stop the channel can come to report COMPLETE in exactly two cases: it did so before, or the thread had not
   taken its first step and goes on unhindered, because the stop only looks for RUNNING and PAUSED.
   */
  lemma StopDecides(d: Dma)
    requires Inv(d) && d.ctl == Idle
    ensures Inv(Step(d, Stop))
    ensures (exists later :: Run(Step(d, Stop), later).state == Complete) <==> d.state == Complete || d.state == Ready
    ensures d.state != Ready ==>
              forall later :: Run(Step(d, Stop), later).state == if d.state == Complete then Complete else Error
  {
    StepInv(d, Stop);
    var e := Step(d, Stop);
    if d.state == Ready {
      ReadyCompletes(e);
    } else {
      assert e.state == if d.state == Complete then Complete else Error;
      forall later ensures Run(Step(d, Stop), later).state == e.state { EndsForever(e, later); }
      assert Run(Step(d, Stop), []).state == e.state;
    }
  }

  /** Left alone, a channel whose thread has yet to start completes its transfer. */
  lemma ReadyCompletes(d: Dma)
    requires Inv(d) && d.state == Ready
    ensures var e := Run(d, Threads(1 + FromHead(|d.src|)));
            e.state == Complete && e.dst == d.src && e.transferred == |d.src| && e.ctl == d.ctl
  {
    var d1 := Step(d, Thread);
    RunThreads(d, 1 + FromHead(|d.src|));
    RunningCompletes(d1);
    RunFixed(d1, Threads(FromHead(|d.src|)));
  }

  // ---- what is counted

  /** While the thread runs nothing is counted; when it has gone, the transfer or the error is, once. */
  ghost predicate Counted(d: Dma, transfers: nat, errors: nat) {
    && (!d.pc.Gone? ==> d.transfers == transfers && d.errors == errors && (d.pc.Created? ==> d.state == Ready))
    && (d.pc.Gone? ==> if d.transfers == transfers then d.errors == errors + 1 && d.state != Complete
                       else d.transfers == transfers + 1 && d.errors == errors)
    && (d.state == Complete ==> d.transfers == transfers + 1)
  }

  lemma StepCounted(d: Dma, a: Action, transfers: nat, errors: nat)
    requires Inv(d) && Counted(d, transfers, errors)
    ensures Inv(Step(d, a)) && Counted(Step(d, a), transfers, errors)
  {
    StepInv(d, a);
  }

  lemma {:induction false} RunKeepsCounted(d: Dma, actions: seq<Action>, transfers: nat, errors: nat)
    requires Inv(d) && Counted(d, transfers, errors)
    ensures Counted(Run(d, actions), transfers, errors)
    decreases actions
  {
    hide Inv, Counted, Step;
    InvShape(d);
    if actions != [] {
      StepCounted(d, actions[0], transfers, errors);
      RunKeepsCounted(Step(d, actions[0]), actions[1..], transfers, errors);
    }
  }

  /**
   Over every interleaving: a transfer is counted exactly once, when the thread ends, as a transfer or as an error, and
   one that is reported COMPLETE is counted as a transfer.
   */
  lemma RunCounted(d: Dma, actions: seq<Action>)
    requires Fresh(d)
    ensures Inv(d)
    ensures var e := Run(d, actions);
            && e.transfers + e.errors == d.transfers + d.errors + (if e.pc.Gone? then 1 else 0)
            && d.transfers <= e.transfers && d.errors <= e.errors
            && (e.state == Complete ==> e.transfers == d.transfers + 1)
  {
    FreshInv(d);
    RunKeepsCounted(d, actions, d.transfers, d.errors);
  }

  // ---- both races are real, for transfers of any length

  /** Steps from the loop head to the check of the last chunk. */
  function ToLastChunk(remaining: nat): nat
    requires 0 < remaining
  {
    if remaining <= CHUNK then 1 else 3 + ToLastChunk(remaining - CHUNK)
  }

  lemma {:induction false} LastChunkReached(d: Dma)
    requires Inv(d) && d.pc.Head? && 0 < d.remaining && d.state == Running && d.ctl == Idle
    ensures var e := Run(d, Threads(ToLastChunk(d.remaining)));
            && e.state == Running && e.ctl == Idle && e.pc.Copying? && e.pc.n == e.remaining
            && e.errors == d.errors && e.src == d.src
    decreases d.remaining
  {
    var k := ToLastChunk(d.remaining);
    RunThreads(d, k);
    var d1 := Step(d, Thread);
    if d.remaining <= CHUNK {
      assert Threads(0) == [];
    } else {
      RunThreads(d1, k - 1);
      var d2 := Step(d1, Thread);
      RunThreads(d2, k - 2);
      LastChunkReached(Step(d2, Thread));
    }
  }

  /** A pause between the check of the last chunk and the end: every transfer of at least one byte can be stranded. */
  lemma PauseInLastChunkStrands(d: Dma, k: nat, later: seq<Action>)
    requires Fresh(d) && 0 < |d.src| && 4 <= k
    ensures Inv(d)
    ensures var m := Run(d, [Thread] + Threads(ToLastChunk(|d.src|)) + [PauseCheck, PauseSet]);
            var e := Run(m, Threads(k));
            && m.state == Paused && m.ctl == Idle && PastCheck(m)
            && e.pc.Gone? && e.dst == d.src && e.errors == d.errors + 1
            && Run(e, later).state != Complete
  {
    FreshInv(d);
    var head, last := [Thread], Threads(ToLastChunk(|d.src|));
    FirstStep(d);
    LastChunkReached(Run(d, head));
    RunAppend(d, head, last);
    RunAppend(d, head + last, [PauseCheck, PauseSet]);
    var c := Run(d, head + last);
    RunTwo(c, PauseCheck, PauseSet);
    var m := Run(c, [PauseCheck, PauseSet]);
    PausedSettles(m, k);
    StrandedForever(Run(m, Threads(k)), later);
  }

  lemma FirstStep(d: Dma)
    requires Fresh(d) && Inv(d)
    ensures var e := Run(d, [Thread]);
            && e.pc.Head? && e.state == Running && e.ctl == Idle && e.remaining == |d.src|
            && e.errors == d.errors && e.src == d.src
  {
    assert [Thread] == Threads(1) && Threads(0) == [];
    RunThreads(d, 1);
  }

  /**
   The check of a pause is made without the lock, so the whole transfer can run between it and the assignment: every
   channel can report COMPLETE and then PAUSED, and nothing brings COMPLETE back.
   */
  lemma PauseOverwritesComplete(d: Dma, later: seq<Action>)
    requires Fresh(d)
    ensures Inv(d)
    ensures var c := Run(d, [Thread, PauseCheck] + Threads(FromHead(|d.src|)));
            && c.state == Complete && c.dst == d.src
            && Inv(Step(c, PauseSet)) && Step(c, PauseSet).state == Paused
            && Run(Step(c, PauseSet), later).state != Complete
  {
    FreshInv(d);
    RunTwo(d, Thread, PauseCheck);
    var m := Run(d, [Thread, PauseCheck]);
    RunningCompletes(m);
    RunAppend(d, [Thread, PauseCheck], Threads(FromHead(|d.src|)));
    var c := Run(m, Threads(FromHead(|d.src|)));
    StepInv(c, PauseSet);
    StrandedForever(Step(c, PauseSet), later);
  }

  // ---- the channel in place: one method for each atomic section

  class Channel {
    const src: array<Byte>
    const dst: array<Byte>
    var state: State
    var transferred: nat
    var transfers: nat
    var errors: nat
    var pc: Pc
    var offset: nat
    var remaining: nat
    var ctl: Ctl

    ghost function View(): Dma
      reads this, src, dst
    {
      Dma(src[..], dst[..], state, transferred, transfers, errors, pc, offset, remaining, ctl)
    }

    ghost predicate Valid()
      reads this, src, dst
    {
      src != dst && Inv(View())
    }

    /** dma_config_channel followed by the creation of the thread. */
    constructor (src: array<Byte>, dst: array<Byte>)
      requires src != dst && src.Length == dst.Length
      ensures Valid() && this.src == src && this.dst == dst && Fresh(View())
    {
      this.src, this.dst := src, dst;
      state, transferred, transfers, errors := Ready, 0, 0, 0;
      pc, offset, remaining, ctl := Created, 0, src.Length, Idle;
    }

    /** The thread's next locked section or copy. */
    method RunThread()
      requires Valid()
      modifies this, dst
      ensures Valid() && View() == Step(old(View()), Thread)
    {
      StepInv(View(), Thread);
      InvShape(View());
      hide Inv;
      match pc {
        case Created => Enter();
        case Head => NextChunk();
        case Copying(n) =>
          CopyChunk(n);
          pc := Copied(n);
        case Copied(n) =>
          transferred, offset, remaining := transferred + n, offset + n, remaining - n;
          pc := Head;
        case Leaving => Leave();
        case Gone =>
      }
    }

    /** The locked section before the loop. */
    method Enter()
      requires Shape(View()) && pc == Created
      modifies this
      ensures View() == ThreadStep(old(View()))
    {
      if state != Ready {
        pc := Gone;
      } else {
        state, transferred, offset, remaining, pc := Running, 0, 0, src.Length, Head;
      }
    }

    /** The locked section at the loop head. */
    method NextChunk()
      requires Shape(View()) && pc == Head
      modifies `pc
      ensures View() == ThreadStep(old(View()))
    {
      if remaining == 0 {
        pc := Leaving;
      } else if state == Paused {
      } else if state != Running {
        pc := Leaving;
      } else {
        pc := Copying(if remaining < CHUNK then remaining else CHUNK);
      }
    }

    /** The locked section behind the loop. */
    method Leave()
      requires Shape(View()) && pc == Leaving
      modifies this
      ensures View() == ThreadStep(old(View()))
    {
      if state == Running {
        state, transfers := Complete, transfers + 1;
      } else {
        errors := errors + 1;
      }
      pc := Gone;
    }

    /** The memcpy of one chunk. */
    method CopyChunk(n: nat)
      requires src != dst && src.Length == dst.Length && offset + n <= src.Length
      modifies dst
      ensures dst[..] == CopyRange(src[..], old(dst[..]), offset, n)
    {
      hide CopyRange;
      CopyNothing(src[..], dst[..], offset);
      for i := 0 to n
        invariant dst[..] == CopyRange(src[..], old(dst[..]), offset, i)
      {
        ghost var before := dst[..];
        dst[offset + i] := src[offset + i];
        assert dst[..] == before[offset + i := src[..][offset + i]];
        CopyOneMore(src[..], old(dst[..]), offset, i);
      }
    }

    /** dma_pause_transfer: the check is unlocked, so other steps may come before the locked assignment. */
    method PauseBegin() returns (ok: bool)
      requires Valid() && ctl == Idle
      modifies this
      ensures Valid() && View() == Step(old(View()), PauseCheck) && (ok <==> ctl == Pausing)
    {
      StepInv(View(), PauseCheck);
      ok := state == Running;
      if ok { ctl := Pausing; }
    }

    method PauseEnd()
      requires Valid() && ctl == Pausing
      modifies this
      ensures Valid() && View() == Step(old(View()), PauseSet)
    {
      StepInv(View(), PauseSet);
      state, ctl := Paused, Idle;
    }

    /** dma_resume_transfer, in the same two parts. */
    method ResumeBegin() returns (ok: bool)
      requires Valid() && ctl == Idle
      modifies this
      ensures Valid() && View() == Step(old(View()), ResumeCheck) && (ok <==> ctl == Resuming)
    {
      StepInv(View(), ResumeCheck);
      ok := state == Paused;
      if ok { ctl := Resuming; }
    }

    method ResumeEnd()
      requires Valid() && ctl == Resuming
      modifies this
      ensures Valid() && View() == Step(old(View()), ResumeSet)
    {
      StepInv(View(), ResumeSet);
      state, ctl := Running, Idle;
    }

    /** dma_stop_transfer up to the join. */
    method StopBegin()
      requires Valid() && ctl == Idle
      modifies this
      ensures Valid() && View() == Step(old(View()), Stop)
    {
      StepInv(View(), Stop);
      if state == Running || state == Paused { state := Error; }
      ctl := Joining;
    }
  }
}
