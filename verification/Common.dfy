/** Return codes, the constants of 32-bit words, and counting, shared by all modules. */
module Common {

  /** The error codes of include/common/common.h that the modelled operations return. */
  datatype RetCode =
    | Ok | Param | NoSpace | BadBlock | Overwrite | NotMapped | NotInit
    | Internal | Checksum | Busy | NotSupport

  datatype Option<+T> = None | Some(value: T)

  const TWO32: nat := 0x1_0000_0000

  /** The all-ones word that marks an unmapped page, in either table. */
  const INVALID: nat := 0xFFFF_FFFF

  /** How many entries of a bit map are set. */
  function CountTrue(v: seq<bool>): (n: nat)
    ensures n <= |v|
  {
    if v == [] then 0 else (if v[0] then 1 else 0) + CountTrue(v[1..])
  }

  lemma {:induction false} CountTrueUpdate(v: seq<bool>, i: nat, b: bool)
    requires i < |v|
    ensures CountTrue(v[i := b]) == CountTrue(v) - (if v[i] then 1 else 0) + (if b then 1 else 0)
  {
    if i == 0 {
      assert v[0 := b][1..] == v[1..];
    } else {
      CountTrueUpdate(v[1..], i - 1, b);
      assert v[i := b][1..] == v[1..][i - 1 := b];
    }
  }

  lemma {:induction false} CountTrueZero(v: seq<bool>)
    ensures CountTrue(v) == 0 <==> forall i :: 0 <= i < |v| ==> !v[i]
  {
    if v != [] {
      CountTrueZero(v[1..]);
      assert forall i :: 1 <= i < |v| ==> v[i] == v[1..][i - 1];
      if forall i :: 0 <= i < |v| ==> !v[i] {
        assert forall i :: 0 <= i < |v[1..]| ==> !v[1..][i];
      }
    }
  }
}
