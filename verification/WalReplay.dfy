/**
 Replaying the write-ahead log.  Logs here are those of runs of successful logged writes and
 trims; FtlLog.dfy shows that the FTL writes such logs.
 */
module WalReplay {
  import opened Common
  import opened WalModel

  /** The two tables are mutual inverses. */
  ghost predicate Consistent(t: Tables) {
    && ForwardInRange(t) && |t.l2p| <= INVALID && |t.rmap| <= INVALID
    && (forall lpn :: 0 <= lpn < |t.l2p| && t.l2p[lpn] != INVALID ==> t.rmap[t.l2p[lpn]] == lpn)
    && (forall p :: 0 <= p < |t.rmap| && t.rmap[p] != INVALID ==> t.rmap[p] < |t.l2p| && t.l2p[t.rmap[p]] == p)
  }

  /** `e` is the entry of one successful logged write or trim in state `t`. */
  ghost predicate Honest(t: Tables, e: Entry) {
    && Intact(e) && EntryInRange(e, |t.rmap|)
    && e.lpn < |t.l2p| && e.oldPpn == t.l2p[e.lpn]
    && match e.op
       case OpWrite => e.newPpn < |t.rmap| && e.newPpn < INVALID && t.rmap[e.newPpn] == INVALID
       case OpTrim => e.oldPpn != INVALID
       case _ => false
  }

  /** The log of a run of such operations from `t`. */
  ghost predicate HonestLog(t: Tables, log: seq<Entry>)
    requires ForwardInRange(t)
    decreases log
  {
    log == [] || (Honest(t, log[0]) && HonestLog(ReplayOne(t, log[0]), log[1..]))
  }

  lemma {:induction false} HonestFits(t: Tables, log: seq<Entry>)
    requires ForwardInRange(t) && HonestLog(t, log)
    ensures AllFit(log, |t.l2p|, |t.rmap|)
    decreases log
  {
    if log != [] {
      HonestFits(ReplayOne(t, log[0]), log[1..]);
      assert forall i :: 1 <= i < |log| ==> log[i] == log[1..][i - 1];
    }
  }

  lemma OneConsistent(t: Tables, e: Entry)
    requires Consistent(t) && Honest(t, e)
    ensures Consistent(ReplayOne(t, e))
  {
    hide Intact;
    var r := ReplayOne(t, e);
    var from := t.l2p[e.lpn];
    forall lpn | 0 <= lpn < |r.l2p| && r.l2p[lpn] != INVALID ensures r.rmap[r.l2p[lpn]] == lpn {
      assert lpn != e.lpn ==> t.rmap[t.l2p[lpn]] == lpn;
      if from != INVALID { assert t.rmap[from] == e.lpn; }
    }
    forall p | 0 <= p < |r.rmap| && r.rmap[p] != INVALID ensures r.rmap[p] < |r.l2p| && r.l2p[r.rmap[p]] == p {
      if t.rmap[p] != INVALID { assert t.l2p[t.rmap[p]] == p; }
    }
  }

  lemma {:induction false} ReplayAppend(t: Tables, a: seq<Entry>, b: seq<Entry>)
    requires ForwardInRange(t)
    requires AllFit(a, |t.l2p|, |t.rmap|)
    requires AllFit(b, |t.l2p|, |t.rmap|)
    ensures AllFit(a + b, |t.l2p|, |t.rmap|)
    ensures Replay(t, a + b) == Replay(Replay(t, a), b)
    decreases a
  {
    if a == [] {
      assert a + b == b;
    } else {
      assert (a + b)[1..] == a[1..] + b;
      ReplayAppend(ReplayOne(t, a[0]), a[1..], b);
    }
  }

  lemma {:induction false} HonestAppend(t: Tables, a: seq<Entry>, b: seq<Entry>)
    requires ForwardInRange(t) && HonestLog(t, a)
    requires (HonestFits(t, a); HonestLog(Replay(t, a), b))
    ensures HonestLog(t, a + b)
    decreases a
  {
    HonestFits(t, a);
    if a == [] {
      assert a + b == b;
    } else {
      assert (a + b)[1..] == a[1..] + b;
      HonestFits(ReplayOne(t, a[0]), a[1..]);
      HonestAppend(ReplayOne(t, a[0]), a[1..], b);
    }
  }

  /** Dropping a suffix keeps a log honest; consistency holds all along it. */
  lemma {:induction false} HonestPrefix(t: Tables, a: seq<Entry>, b: seq<Entry>)
    requires Consistent(t) && HonestLog(t, a + b)
    ensures HonestLog(t, a)
    ensures (HonestFits(t, a); Consistent(Replay(t, a)) && HonestLog(Replay(t, a), b))
    decreases a
  {
    if a == [] {
      assert a + b == b;
    } else {
      assert (a + b)[0] == a[0] && (a + b)[1..] == a[1..] + b;
      OneConsistent(t, a[0]);
      HonestPrefix(ReplayOne(t, a[0]), a[1..], b);
      HonestFits(ReplayOne(t, a[0]), a[1..]);
    }
    HonestFits(t, a);
  }

  predicate TouchesLpn(log: seq<Entry>, lpn: nat) {
    exists i :: 0 <= i < |log| && log[i].lpn == lpn
  }

  predicate Programs(log: seq<Entry>, p: nat) {
    exists i :: 0 <= i < |log| && log[i].op == OpWrite && log[i].newPpn == p
  }

  lemma TailMentions(log: seq<Entry>)
    requires log != []
    ensures forall lpn :: TouchesLpn(log[1..], lpn) ==> TouchesLpn(log, lpn)
    ensures forall p :: Programs(log[1..], p) ==> Programs(log, p)
  {
    assert forall i :: 0 <= i < |log[1..]| ==> log[1..][i] == log[i + 1];
  }

  /** A page no later entry programs keeps its owner or loses it. */
  lemma {:induction false} OwnerKeptOrLost(t: Tables, log: seq<Entry>, p: nat)
    requires Consistent(t) && HonestLog(t, log) && p < |t.rmap| && !Programs(log, p)
    ensures (HonestFits(t, log); Replay(t, log).rmap[p] == t.rmap[p] || Replay(t, log).rmap[p] == INVALID)
    decreases log
  {
    HonestFits(t, log);
    if log != [] {
      assert !(log[0].op == OpWrite && log[0].newPpn == p);
      TailMentions(log);
      OneConsistent(t, log[0]);
      OwnerKeptOrLost(ReplayOne(t, log[0]), log[1..], p);
      HonestFits(ReplayOne(t, log[0]), log[1..]);
    }
  }

  /**
   How far the replay `r` over the end tables `k` has caught up with the original run, which is at
   `t` after entries `done` with `todo` still to come.
   */
  ghost predicate CatchingUp(r: Tables, t: Tables, k: Tables, done: seq<Entry>, todo: seq<Entry>) {
    && |r.l2p| == |t.l2p| == |k.l2p| && |r.rmap| == |t.rmap| == |k.rmap|
    && ForwardCaught(r, t, k, done) && InverseCaught(r, t, k, todo) && OwnersCaught(r, k, done)
  }

  /** LPNs that the log has touched are where the run has them, the others where they end up. */
  ghost predicate ForwardCaught(r: Tables, t: Tables, k: Tables, done: seq<Entry>)
    requires |r.l2p| == |t.l2p| == |k.l2p|
  {
    forall lpn :: 0 <= lpn < |r.l2p| ==> r.l2p[lpn] == if TouchesLpn(done, lpn) then t.l2p[lpn] else k.l2p[lpn]
  }

  /** Pages that the log will not program any more have the owner of the run or the final one. */
  ghost predicate InverseCaught(r: Tables, t: Tables, k: Tables, todo: seq<Entry>)
    requires |r.rmap| == |t.rmap| == |k.rmap|
  {
    forall p :: 0 <= p < |r.rmap| && !Programs(todo, p) ==> r.rmap[p] == t.rmap[p] || r.rmap[p] == k.rmap[p]
  }

  /** An owner that the log has not touched is a final one. */
  ghost predicate OwnersCaught(r: Tables, k: Tables, done: seq<Entry>)
    requires |r.rmap| == |k.rmap|
  {
    forall p :: 0 <= p < |r.rmap| && r.rmap[p] < |r.l2p| && !TouchesLpn(done, r.rmap[p]) ==> k.rmap[p] == r.rmap[p]
  }

  lemma TouchesNext(done: seq<Entry>, e: Entry, todo: seq<Entry>)
    ensures forall lpn :: TouchesLpn(done + [e], lpn) <==> TouchesLpn(done, lpn) || lpn == e.lpn
    ensures forall p :: Programs([e] + todo, p) <==> Programs(todo, p) || (e.op == OpWrite && e.newPpn == p)
  {
    forall lpn ensures TouchesLpn(done + [e], lpn) <==> TouchesLpn(done, lpn) || lpn == e.lpn {
      if TouchesLpn(done, lpn) {
        var i :| 0 <= i < |done| && done[i].lpn == lpn;
        assert (done + [e])[i].lpn == lpn;
      }
      if lpn == e.lpn { assert (done + [e])[|done|].lpn == lpn; }
    }
    forall p ensures Programs([e] + todo, p) <==> Programs(todo, p) || (e.op == OpWrite && e.newPpn == p) {
      if Programs(todo, p) {
        var i :| 0 <= i < |todo| && todo[i].op == OpWrite && todo[i].newPpn == p;
        assert ([e] + todo)[i + 1] == todo[i];
      }
      if e.op == OpWrite && e.newPpn == p { assert ([e] + todo)[0] == e; }
    }
  }

  lemma ForwardNext(r: Tables, t: Tables, k: Tables, done: seq<Entry>, e: Entry)
    requires |r.l2p| == |t.l2p| == |k.l2p| && |r.rmap| == |t.rmap|
    requires ForwardInRange(t) && ForwardInRange(r) && Honest(t, e) && ForwardCaught(r, t, k, done)
    ensures ForwardCaught(ReplayOne(r, e), ReplayOne(t, e), k, done + [e])
  {
    hide TouchesLpn, Intact;
    TouchesNext(done, e, []);
    IntactHonest(t, e);
  }

  lemma OwnersNext(r: Tables, k: Tables, done: seq<Entry>, e: Entry)
    requires |r.rmap| == |k.rmap| && ForwardInRange(r) && Intact(e) && Fits(e, |r.l2p|, |r.rmap|)
    requires OwnersCaught(r, k, done) && |r.l2p| <= INVALID
    ensures OwnersCaught(ReplayOne(r, e), k, done + [e])
  {
    hide TouchesLpn;
    TouchesNext(done, e, []);
  }

  lemma IntactHonest(t: Tables, e: Entry)
    requires Honest(t, e)
    ensures Intact(e)
  {
  }

  lemma InverseWrite(r: Tables, t: Tables, k: Tables, e: Entry, todo: seq<Entry>)
    requires |r.l2p| == |t.l2p| && |r.rmap| == |t.rmap| == |k.rmap|
    requires ForwardInRange(t) && ForwardInRange(r) && Honest(t, e) && e.op == OpWrite
    requires InverseCaught(r, t, k, [e] + todo)
    ensures InverseCaught(ReplayOne(r, e), ReplayOne(t, e), k, todo)
  {
    hide Programs, Intact;
    TouchesNext([], e, todo);
    IntactHonest(t, e);
  }

  /** A trim clears the page where `r` has the LPN; that page is cleared in the run, or later, or programmed again. */
  lemma InverseTrim(r: Tables, t: Tables, k: Tables, done: seq<Entry>, e: Entry, todo: seq<Entry>)
    requires CatchingUp(r, t, k, done, [e] + todo) && Consistent(t) && Consistent(k) && ForwardInRange(r)
    requires Honest(t, e) && e.op == OpTrim
    requires HonestLog(ReplayOne(t, e), todo)
    requires (HonestFits(ReplayOne(t, e), todo); Replay(ReplayOne(t, e), todo) == k)
    ensures InverseCaught(ReplayOne(r, e), ReplayOne(t, e), k, todo)
  {
    hide Programs, TouchesLpn, Intact;
    TouchesNext(done, e, todo);
    IntactHonest(t, e);
    OneConsistent(t, e);
    var t', q := ReplayOne(t, e), r.l2p[e.lpn];
    if q != INVALID && !Programs(todo, q) { OwnerKeptOrLost(t', todo, q); }
    hide HonestLog, Replay;
    assert t.rmap[e.oldPpn] == e.lpn;
    if !TouchesLpn(done, e.lpn) && r.rmap[e.oldPpn] == e.lpn { assert k.rmap[e.oldPpn] == e.lpn; }
  }

  lemma CatchUpOne(r: Tables, t: Tables, k: Tables, done: seq<Entry>, e: Entry, todo: seq<Entry>)
    requires Consistent(t) && Consistent(k) && ForwardInRange(r)
    requires HonestLog(t, [e] + todo) && (HonestFits(t, [e] + todo); Replay(t, [e] + todo) == k)
    requires CatchingUp(r, t, k, done, [e] + todo)
    ensures Honest(t, e)
    ensures CatchingUp(ReplayOne(r, e), ReplayOne(t, e), k, done + [e], todo)
  {
    hide Intact, Programs, TouchesLpn, ForwardCaught, InverseCaught, OwnersCaught;
    assert ([e] + todo)[0] == e && ([e] + todo)[1..] == todo;
    HonestFits(ReplayOne(t, e), todo);
    IntactHonest(t, e);
    ForwardNext(r, t, k, done, e);
    OwnersNext(r, k, done, e);
    if e.op == OpWrite { InverseWrite(r, t, k, e, todo); } else { InverseTrim(r, t, k, done, e, todo); }
  }

  lemma {:induction false} CatchUp(r: Tables, t: Tables, k: Tables, done: seq<Entry>, todo: seq<Entry>)
    requires Consistent(t) && Consistent(k) && ForwardInRange(r)
    requires HonestLog(t, todo) && (HonestFits(t, todo); Replay(t, todo) == k)
    requires CatchingUp(r, t, k, done, todo)
    requires forall lpn :: 0 <= lpn < |k.l2p| && !TouchesLpn(done + todo, lpn) ==> t.l2p[lpn] == k.l2p[lpn]
    ensures (HonestFits(t, todo); Replay(r, todo) == k)
    decreases todo
  {
    HonestFits(t, todo);
    if todo == [] {
      assert r.l2p == k.l2p && r.rmap == k.rmap;
    } else {
      var e, rest := todo[0], todo[1..];
      assert [e] + rest == todo;
      CatchUpOne(r, t, k, done, e, rest);
      OneConsistent(t, e);
      HonestFits(ReplayOne(t, e), rest);
      assert (done + [e]) + rest == done + todo;
      forall lpn | 0 <= lpn < |k.l2p| && !TouchesLpn(done + todo, lpn)
        ensures ReplayOne(t, e).l2p[lpn] == k.l2p[lpn]
      {
        assert (done + todo)[|done|] == e;
      }
      CatchUp(ReplayOne(r, e), ReplayOne(t, e), k, done + [e], rest);
    }
  }

  lemma {:induction false} UntouchedForward(t: Tables, log: seq<Entry>, lpn: nat)
    requires Consistent(t) && HonestLog(t, log) && lpn < |t.l2p| && !TouchesLpn(log, lpn)
    ensures (HonestFits(t, log); Replay(t, log).l2p[lpn] == t.l2p[lpn])
    decreases log
  {
    HonestFits(t, log);
    if log != [] {
      assert log[0].lpn != lpn;
      TailMentions(log);
      OneConsistent(t, log[0]);
      UntouchedForward(ReplayOne(t, log[0]), log[1..], lpn);
      HonestFits(ReplayOne(t, log[0]), log[1..]);
    }
  }

  /** Replaying a log over the very tables it led to changes nothing. */
  lemma ReplayIdempotent(t: Tables, log: seq<Entry>)
    requires Consistent(t) && HonestLog(t, log)
    ensures (HonestFits(t, log); var k := Replay(t, log); Replay(k, log) == k)
  {
    HonestFits(t, log);
    var k := Replay(t, log);
    assert log + [] == log;
    HonestPrefix(t, log, []);
    forall lpn | 0 <= lpn < |k.l2p| && !TouchesLpn([] + log, lpn) ensures t.l2p[lpn] == k.l2p[lpn] {
      assert [] + log == log;
      UntouchedForward(t, log, lpn);
    }
    CatchUp(k, t, k, [], log);
  }

  /**
   Recovery from any checkpoint of a run: replaying the whole log over both tables as they stood
   after any prefix of it ends at exactly the final tables, forward and inverse.
   */
  lemma ReplayOverCheckpoint(t: Tables, before: seq<Entry>, after: seq<Entry>)
    requires Consistent(t) && HonestLog(t, before + after)
    ensures (HonestFits(t, before + after); HonestPrefix(t, before, after); HonestFits(t, before);
             Replay(Replay(t, before), before + after) == Replay(t, before + after))
  {
    HonestFits(t, before + after);
    HonestPrefix(t, before, after);
    HonestFits(t, before);
    var k := Replay(t, before);
    HonestFits(k, after);
    ReplayIdempotent(t, before);
    ReplayAppend(t, before, after);
    ReplayAppend(k, before, after);
  }

  /** An appended entry is one replay acts on. */
  lemma AppendIntact(w: Wal, op: WalOp, lpn: nat, oldPpn: nat, newPpn: nat)
    ensures var w' := Append(w, op, lpn, oldPpn, newPpn, true).1;
            && |w'.entries| == |w.entries| + 1 && w'.entries[..|w.entries|] == w.entries
            && var e := w'.entries[|w.entries|];
               Intact(e) && e.op == op && e.lpn == lpn && e.oldPpn == oldPpn && e.newPpn == newPpn
  {
  }

  /** The entries replay acts on. */
  function IntactOnly(log: seq<Entry>): (r: seq<Entry>)
    ensures forall i :: 0 <= i < |r| ==> r[i] in log && Intact(r[i])
  {
    if log == [] then []
    else if Intact(log[0]) then [log[0]] + IntactOnly(log[1..])
    else IntactOnly(log[1..])
  }

  /** Torn or foreign entries anywhere in the file make no difference. */
  lemma {:induction false} TornEntriesIgnored(t: Tables, log: seq<Entry>)
    requires ForwardInRange(t) && AllFit(log, |t.l2p|, |t.rmap|)
    ensures Replay(t, log) == Replay(t, IntactOnly(log))
    decreases log
  {
    if log != [] {
      TornEntriesIgnored(ReplayOne(t, log[0]), log[1..]);
      if Intact(log[0]) { assert IntactOnly(log)[1..] == IntactOnly(log[1..]); }
    }
  }

  // ---- torn entries are recognised

  /** The words of an entry, as they stand in the file. */
  function Words(e: Entry): (w: seq<nat>)
    ensures |w| == 7
  {
    [e.magic, e.op.Code(), e.lpn, e.oldPpn, e.newPpn, e.sequence, e.checksum]
  }

  /** Byte `k` of a 32-bit word. */
  function ByteOf(w: nat, k: nat): nat {
    match k
    case 0 => w % 0x100
    case 1 => (w / 0x100) % 0x100
    case 2 => (w / 0x1_0000) % 0x100
    case _ => (w / 0x100_0000) % 0x100
  }

  /** The words differ in exactly one byte. */
  ghost predicate OneByteOff(a: nat, b: nat) {
    exists k :: 0 <= k < 4 && ByteOf(a, k) != ByteOf(b, k)
                && forall j :: 0 <= j < 4 && j != k ==> ByteOf(a, j) == ByteOf(b, j)
  }

  lemma OneByteSums(a: nat, b: nat)
    requires OneByteOff(a, b)
    ensures ByteSum(a) != ByteSum(b) && a != b
  {
    hide ByteOf;
    ByteSumIs(a);
    ByteSumIs(b);
    assert ByteOf(a, 0) != ByteOf(b, 0) || ByteOf(a, 1) != ByteOf(b, 1)
        || ByteOf(a, 2) != ByteOf(b, 2) || ByteOf(a, 3) != ByteOf(b, 3);
  }

  lemma ByteSumIs(w: nat)
    ensures ByteSum(w) == ByteOf(w, 0) + ByteOf(w, 1) + ByteOf(w, 2) + ByteOf(w, 3)
  {
  }

  lemma SumOfWords(e: Entry)
    ensures EntrySum(e) == ByteSum(Words(e)[0]) + ByteSum(Words(e)[1]) + ByteSum(Words(e)[2]) + ByteSum(Words(e)[3])
                           + ByteSum(Words(e)[4]) + ByteSum(Words(e)[5])
  {
  }

  /** An entry written whole, of which one byte of one field has changed since, is refused. */
  lemma TornByte(e: Entry, e': Entry, i: nat)
    requires Intact(e) && i < 7 && OneByteOff(Words(e)[i], Words(e')[i])
    requires forall j :: 0 <= j < 7 && j != i ==> Words(e')[j] == Words(e)[j]
    ensures !Intact(e')
  {
    hide ByteSum, EntrySum, OneByteOff;
    OneByteSums(Words(e)[i], Words(e')[i]);
    SumOfWords(e);
    SumOfWords(e');
    assert Words(e)[0] == e.magic && Words(e')[0] == e'.magic;
    assert Words(e)[6] == e.checksum && Words(e')[6] == e'.checksum;
  }

  /** The sum does not see the order: an entry with LPN and new page exchanged passes as intact. */
  lemma ExchangedPasses(e: Entry)
    requires Intact(e)
    ensures Intact(e.(lpn := e.newPpn, newPpn := e.lpn))
  {
    hide ByteSum;
  }

  /** What appending leaves: an intact entry with the next number, or none; the number is used up either way. */
  lemma AppendStamps(w: Wal, op: WalOp, lpn: nat, oldPpn: nat, newPpn: nat, wrote: bool)
    ensures var (code, w') := Append(w, op, lpn, oldPpn, newPpn, wrote);
            && w'.sequence == (w.sequence + 1) % 0x1_0000_0000
            && (if wrote then
                  && code == Ok && |w'.entries| == |w.entries| + 1 && w'.entries[..|w.entries|] == w.entries
                  && var e := w'.entries[|w.entries|];
                     && Intact(e) && e.magic == 0x57414C31 && e.op == op && e.lpn == lpn
                     && e.oldPpn == oldPpn && e.newPpn == newPpn && e.sequence == w.sequence
                else code == Internal && w'.entries == w.entries)
  {
    hide ByteSum;
  }
}
