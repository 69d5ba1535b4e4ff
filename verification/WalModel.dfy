/** The write-ahead log: entries with magic, sequence and checksum, appending and replaying. */
module WalModel {
  import opened Common

  const WAL_MAGIC: nat := 0x57414C31

  datatype WalOp = OpWrite | OpErase | OpTrim | OpOther(code: nat) {
    function Code(): nat {
      match this case OpWrite => 0 case OpErase => 1 case OpTrim => 2 case OpOther(c) => c
    }
  }

  datatype Entry = Entry(magic: nat, op: WalOp, lpn: nat, oldPpn: nat, newPpn: nat, sequence: nat, checksum: nat)

  /** Sum of the four bytes of a 32-bit word. */
  function ByteSum(w: nat): nat {
    w % 256 + (w / 256) % 256 + (w / 65536) % 256 + (w / 16777216) % 256
  }

  /** Byte sum of the fields in front of the checksum. */
  function EntrySum(e: Entry): nat {
    (ByteSum(e.magic) + ByteSum(e.op.Code()) + ByteSum(e.lpn) + ByteSum(e.oldPpn)
     + ByteSum(e.newPpn) + ByteSum(e.sequence)) % TWO32
  }

  /** The open log file and the next sequence number. */
  datatype Wal = Wal(entries: seq<Entry>, sequence: nat)

  /** ftl_wal_append: stamps magic, sequence and checksum.  `wrote` is whether fwrite succeeded. */
  function Append(w: Wal, op: WalOp, lpn: nat, oldPpn: nat, newPpn: nat, wrote: bool): (r: (RetCode, Wal)) {
    var bare := Entry(WAL_MAGIC, op, lpn, oldPpn, newPpn, w.sequence, 0);
    var e := bare.(checksum := EntrySum(bare));
    var next := (w.sequence + 1) % TWO32;
    if wrote then (Ok, Wal(w.entries + [e], next)) else (Internal, w.(sequence := next))
  }

  /** The pair of mapping tables. */
  datatype Tables = Tables(l2p: seq<nat>, rmap: seq<nat>)

  /** An entry replay will act on. */
  predicate Intact(e: Entry) {
    e.magic == WAL_MAGIC && e.checksum == EntrySum(e)
  }

  /** The forward table only names physical pages that exist. */
  ghost predicate ForwardInRange(t: Tables) {
    forall i :: 0 <= i < |t.l2p| ==> t.l2p[i] == INVALID || t.l2p[i] < |t.rmap|
  }

  /** The physical pages an entry names exist. */
  predicate EntryInRange(e: Entry, total: nat) {
    && (e.oldPpn == INVALID || e.oldPpn < total)
    && (e.newPpn == INVALID || e.newPpn < total)
  }

  /** Replay indexes its tables with the pages of an intact write entry, and never looks at those of any other entry. */
  predicate Fits(e: Entry, lpns: nat, total: nat) {
    Intact(e) && e.op == OpWrite && e.lpn < lpns && e.newPpn != INVALID ==> EntryInRange(e, total)
  }

  predicate AllFit(log: seq<Entry>, lpns: nat, total: nat) {
    forall i :: 0 <= i < |log| ==> Fits(log[i], lpns, total)
  }

  /** One turn of the replay loop. */
  function ReplayOne(t: Tables, e: Entry): (r: Tables)
    requires ForwardInRange(t) && Fits(e, |t.l2p|, |t.rmap|)
    ensures |r.l2p| == |t.l2p| && |r.rmap| == |t.rmap| && ForwardInRange(r)
  {
    if !Intact(e) then t
    else
      match e.op
      case OpWrite =>
        if e.lpn < |t.l2p| && e.newPpn != INVALID then
          var cleared := if e.oldPpn != INVALID then t.rmap[e.oldPpn := INVALID] else t.rmap;
          Tables(t.l2p[e.lpn := e.newPpn], cleared[e.newPpn := e.lpn])
        else t
      case OpTrim =>
        if e.lpn < |t.l2p| && t.l2p[e.lpn] != INVALID then
          Tables(t.l2p[e.lpn := INVALID], t.rmap[t.l2p[e.lpn] := INVALID])
        else t
      case _ => t
  }

  /** The replay loop. */
  function Replay(t: Tables, log: seq<Entry>): (r: Tables)
    requires ForwardInRange(t) && AllFit(log, |t.l2p|, |t.rmap|)
    ensures |r.l2p| == |t.l2p| && |r.rmap| == |t.rmap| && ForwardInRange(r)
    decreases log
  {
    if log == [] then t else Replay(ReplayOne(t, log[0]), log[1..])
  }
}
