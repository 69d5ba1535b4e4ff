/**
 The whole-page Hamming check of the NAND module: the encoder folds a (7,4) codeword of every
 nibble into one word by exclusive or, and the decoder looks for a single bit whose flip makes
 the words agree.  `DecodeCharacterised` says exactly what that decoder can do.
 */
module Ecc {

  type Word = bv32

  datatype EccResult = Clean | Corrected | Uncorrectable

  /** The (7,4) codeword of the low nibble of `data`, laid out p1 p2 d0 p4 d1 d2 d3. */
  function EncodeNibble(data: bv8): bv8 {
    var d0 := data & 1;
    var d1 := (data >> 1) & 1;
    var d2 := (data >> 2) & 1;
    var d3 := (data >> 3) & 1;
    var p1 := d0 ^ d1 ^ d3;
    var p2 := d0 ^ d2 ^ d3;
    var p4 := d1 ^ d2 ^ d3;
    p1 | (p2 << 1) | (d0 << 2) | (p4 << 3) | (d1 << 4) | (d2 << 5) | (d3 << 6)
  }

  function Xor(a: bv8, b: bv8): bv8 { a ^ b }

  function XorWord(a: Word, b: Word): Word { a ^ b }

  function LowWord(b: bv8): Word { EncodeNibble(b & 0x0F) as Word }

  function HighWord(b: bv8): Word { (EncodeNibble((b >> 4) & 0x0F) as Word) << 7 }

  /** What one byte contributes to the page word. */
  function ByteWord(b: bv8): Word { XorWord(LowWord(b), HighWord(b)) }

  /** The page word: the exclusive or of the contributions of all bytes. */
  function Encode(data: seq<bv8>): Word {
    if data == [] then 0 else XorWord(Encode(data[..|data| - 1]), ByteWord(data[|data| - 1]))
  }

  /** The exclusive or of all bytes. */
  function XorAll(data: seq<bv8>): bv8 {
    if data == [] then 0 else Xor(XorAll(data[..|data| - 1]), data[|data| - 1])
  }

  function Bit(bit: nat): (m: bv8)
    requires bit < 8
  {
    match bit
    case 0 => 0x01 case 1 => 0x02 case 2 => 0x04 case 3 => 0x08
    case 4 => 0x10 case 5 => 0x20 case 6 => 0x40 case _ => 0x80
  }

  predicate SingleBit(x: bv8) {
    exists bit | 0 <= bit < 8 :: x == Bit(bit)
  }

  /** `data` with bit `k % 8` of byte `k / 8` inverted. */
  function Flip(data: seq<bv8>, k: nat): (r: seq<bv8>)
    requires k < 8 * |data|
    ensures |r| == |data|
  {
    data[k / 8 := Xor(data[k / 8], Bit(k % 8))]
  }

  /** The decoder's search, bit by bit in page order from bit `k`. */
  function Search(data: seq<bv8>, ecc: Word, k: nat): (EccResult, seq<bv8>)
    requires k <= 8 * |data|
    decreases 8 * |data| - k
  {
    if k == 8 * |data| then (Uncorrectable, data)
    else if Encode(Flip(data, k)) == ecc then (Corrected, Flip(data, k))
    else Search(data, ecc, k + 1)
  }

  /** The decoder: result and corrected buffer. */
  function Decode(data: seq<bv8>, ecc: Word): (EccResult, seq<bv8>) {
    if data == [] then (Uncorrectable, data)
    else if Encode(data) == ecc then (Clean, data)
    else Search(data, ecc, 0)
  }

  // ---- laws of exclusive or, and of the code: it is linear and loses nothing about one byte

  lemma LowLinear(a: bv8, b: bv8)
    ensures LowWord(Xor(a, b)) == XorWord(LowWord(a), LowWord(b))
  {
  }

  lemma HighLinear(a: bv8, b: bv8)
    ensures HighWord(Xor(a, b)) == XorWord(HighWord(a), HighWord(b))
  {
  }

  lemma XorWordAssoc(a: Word, b: Word, c: Word)
    ensures XorWord(XorWord(a, b), c) == XorWord(a, XorWord(b, c))
    ensures XorWord(b, c) == XorWord(c, b)
  {
  }

  lemma XorWordSwap(a: Word, b: Word, c: Word, d: Word)
    ensures XorWord(XorWord(a, b), XorWord(c, d)) == XorWord(XorWord(a, c), XorWord(b, d))
  {
    hide XorWord;
    XorWordAssoc(XorWord(a, b), c, d);
    XorWordAssoc(a, b, c);
    XorWordAssoc(a, c, b);
    XorWordAssoc(XorWord(a, c), b, d);
  }

  lemma WordLinear(a: bv8, b: bv8)
    ensures ByteWord(Xor(a, b)) == XorWord(ByteWord(a), ByteWord(b))
  {
    hide Xor, XorWord, LowWord, HighWord;
    LowLinear(a, b);
    HighLinear(a, b);
    XorWordSwap(LowWord(a), LowWord(b), HighWord(a), HighWord(b));
  }

  lemma ZeroWord()
    ensures ByteWord(0) == 0
  {
  }

  lemma WordInjective(a: bv8, b: bv8)
    ensures ByteWord(a) == ByteWord(b) <==> a == b
  {
  }

  /** The bit at position 1 to 7 of a codeword. */
  function At(c: bv8, position: nat): bv8
    requires 1 <= position <= 7
  {
    match position
    case 1 => c & 1 case 2 => (c >> 1) & 1 case 3 => (c >> 2) & 1 case 4 => (c >> 3) & 1
    case 5 => (c >> 4) & 1 case 6 => (c >> 5) & 1 case _ => (c >> 6) & 1
  }

  /**
   The codeword of a nibble: its bits at positions 3, 5, 6 and 7, and even parity over the positions with bit 0, bit 1
   and bit 2 in their number.
   */
  lemma ParityEquations(data: bv8)
    ensures var c := EncodeNibble(data);
            && c < 0x80
            && At(c, 3) == data & 1 && At(c, 5) == (data >> 1) & 1
            && At(c, 6) == (data >> 2) & 1 && At(c, 7) == (data >> 3) & 1
            && At(c, 1) ^ At(c, 3) ^ At(c, 5) ^ At(c, 7) == 0
            && At(c, 2) ^ At(c, 3) ^ At(c, 6) ^ At(c, 7) == 0
            && At(c, 4) ^ At(c, 5) ^ At(c, 6) ^ At(c, 7) == 0
  {
  }

  /** Without the lowest bit that is set. */
  function Lower(x: bv8): bv8 { x & (x - 1) }

  /** The codewords of different nibbles differ in at least three bits. */
  lemma DistanceThree(a: bv8, b: bv8)
    requires a & 0x0F != b & 0x0F
    ensures var d := Xor(EncodeNibble(a), EncodeNibble(b)); d != 0 && Lower(d) != 0 && Lower(Lower(d)) != 0
  {
  }

  lemma XorAssoc(a: bv8, b: bv8, c: bv8)
    ensures Xor(a, Xor(b, c)) == Xor(Xor(a, b), c)
    ensures Xor(Xor(a, b), c) == Xor(Xor(a, c), b)
  {
  }

  lemma XorUndo(a: bv8, b: bv8)
    ensures Xor(a, Xor(a, b)) == b
    ensures Xor(a, 0) == a
  {
  }

  lemma XorCancel(a: bv8, b: bv8, c: bv8)
    ensures Xor(a, b) == c <==> Xor(a, c) == b
    ensures Xor(a, 0) == a
  {
    hide Xor;
    XorUndo(a, b);
    XorUndo(a, c);
  }

  lemma BitsDiffer(i: nat, j: nat)
    requires i < 8 && j < 8
    ensures Bit(i) == Bit(j) <==> i == j
    ensures Bit(i) != 0
  {
  }

  /** The page word depends on the page only through the exclusive or of its bytes. */
  lemma {:induction false} EncodeIsWordOfXor(data: seq<bv8>)
    ensures Encode(data) == ByteWord(XorAll(data))
  {
    hide Xor, XorWord, ByteWord;
    if data == [] {
      ZeroWord();
    } else {
      EncodeIsWordOfXor(data[..|data| - 1]);
      WordLinear(XorAll(data[..|data| - 1]), data[|data| - 1]);
    }
  }

  lemma {:induction false} XorAllUpdate(data: seq<bv8>, i: nat, m: bv8)
    requires i < |data|
    ensures XorAll(data[i := Xor(data[i], m)]) == Xor(XorAll(data), m)
  {
    hide Xor;
    var n := |data| - 1;
    var d := data[i := Xor(data[i], m)];
    if i == n {
      assert d[..n] == data[..n];
      XorAssoc(XorAll(data[..n]), data[n], m);
    } else {
      assert d[..n] == data[..n][i := Xor(data[..n][i], m)];
      XorAllUpdate(data[..n], i, m);
      XorAssoc(XorAll(data[..n]), m, data[n]);
    }
  }

  /** The exclusive or of all error bytes of `data`, read where `stored` was written. */
  function Syndrome(data: seq<bv8>, stored: seq<bv8>): bv8 {
    Xor(XorAll(data), XorAll(stored))
  }

  lemma FlipMatches(data: seq<bv8>, stored: seq<bv8>, k: nat)
    requires k < 8 * |data|
    ensures Encode(Flip(data, k)) == Encode(stored) <==> Syndrome(data, stored) == Bit(k % 8)
  {
    hide Xor, XorWord, ByteWord, Bit, Encode, XorAll;
    EncodeIsWordOfXor(Flip(data, k));
    EncodeIsWordOfXor(stored);
    XorAllUpdate(data, k / 8, Bit(k % 8));
    WordInjective(Xor(XorAll(data), Bit(k % 8)), XorAll(stored));
    XorCancel(XorAll(data), Bit(k % 8), XorAll(stored));
  }

  /** If no single bit equals the syndrome, the search runs to the end and restores every byte. */
  lemma {:induction false} SearchFails(data: seq<bv8>, stored: seq<bv8>, k: nat)
    requires k <= 8 * |data|
    requires !SingleBit(Syndrome(data, stored))
    ensures Search(data, Encode(stored), k) == (Uncorrectable, data)
    decreases 8 * |data| - k
  {
    hide Xor, Bit, Encode, XorAll, Flip, Syndrome;
    if k < 8 * |data| {
      FlipMatches(data, stored, k);
      SearchFails(data, stored, k + 1);
    }
  }

  /** If bit `bit` equals the syndrome, the search stops inside byte 0, at that bit. */
  lemma {:induction false} SearchStops(data: seq<bv8>, stored: seq<bv8>, k: nat, bit: nat)
    requires data != [] && k <= bit < 8
    requires Syndrome(data, stored) == Bit(bit)
    ensures Search(data, Encode(stored), k) == (Corrected, data[0 := Xor(data[0], Bit(bit))])
    decreases bit - k
  {
    hide Xor, Bit, Encode, XorAll, Syndrome;
    FlipMatches(data, stored, k);
    BitsDiffer(k, bit);
    if k < bit {
      SearchStops(data, stored, k + 1, bit);
    }
  }

  /**
   Complete behaviour of the decoder on a page `data` read back against the word stored for
   `stored`, whatever the two pages and whatever their length: with x the exclusive or of all
   error bytes, the answer is Clean iff x is zero, Corrected iff x is a single bit, and the
   only byte that can change is byte 0.  An empty page is always Uncorrectable.
   */
  lemma DecodeCharacterised(data: seq<bv8>, stored: seq<bv8>)
    ensures var x := Syndrome(data, stored);
            var (res, out) := Decode(data, Encode(stored));
            && (res == Clean <==> data != [] && x == 0)
            && (res == Corrected <==> data != [] && SingleBit(x))
            && (res == Uncorrectable <==> data == [] || (x != 0 && !SingleBit(x)))
            && out == (if res == Corrected then data[0 := Xor(data[0], x)] else data)
  {
    if data != [] { DecodeNonEmpty(data, stored); }
  }

  lemma DecodeNonEmpty(data: seq<bv8>, stored: seq<bv8>)
    requires data != []
    ensures var x := Syndrome(data, stored);
            var (res, out) := Decode(data, Encode(stored));
            && (res == Clean <==> x == 0)
            && (res == Corrected <==> SingleBit(x))
            && (res == Uncorrectable <==> x != 0 && !SingleBit(x))
            && out == (if res == Corrected then data[0 := Xor(data[0], x)] else data)
  {
    hide Xor, XorWord, ByteWord, Bit, Encode, XorAll, Search;
    var x := Syndrome(data, stored);
    EncodeIsWordOfXor(data);
    EncodeIsWordOfXor(stored);
    WordInjective(XorAll(data), XorAll(stored));
    XorCancel(XorAll(data), 0, XorAll(stored));
    if SingleBit(x) {
      var bit :| 0 <= bit < 8 && x == Bit(bit);
      BitsDiffer(bit, bit);
      SearchStops(data, stored, 0, bit);
    } else {
      SearchFails(data, stored, 0);
    }
  }

  /** Nothing is lost on the round trip of an undamaged page. */
  lemma DecodeUndamaged(data: seq<bv8>)
    ensures Decode(data, Encode(data)).1 == data
  {
    hide Encode, Search;
  }

  /**
   A page damaged in one bit is always reported as Corrected, and it is really restored
   exactly when the damaged bit lies in byte 0.
   */
  lemma SingleFlip(stored: seq<bv8>, k: nat)
    requires k < 8 * |stored|
    ensures Decode(Flip(stored, k), Encode(stored)).0 == Corrected
    ensures Decode(Flip(stored, k), Encode(stored)).1 == stored <==> k < 8
  {
    hide Xor, Bit, Encode, XorAll, Decode;
    var data := Flip(stored, k);
    var m := Bit(k % 8);
    SyndromeOfFlip(stored, k);
    assert SingleBit(m) by { assert 0 <= k % 8 < 8 && m == Bit(k % 8); }
    DecodeCharacterised(data, stored);
    var out := data[0 := Xor(data[0], m)];
    BitsDiffer(k % 8, 0);
    XorTwice(stored[0], m);
    if k < 8 {
      assert out == stored;
    } else {
      assert out[0] == Xor(stored[0], m);
    }
  }

  lemma XorTwice(a: bv8, m: bv8)
    ensures Xor(Xor(a, m), m) == a
    ensures Xor(Xor(a, m), a) == m
    ensures Xor(a, m) == a <==> m == 0
  {
  }

  lemma SyndromeOfFlip(stored: seq<bv8>, k: nat)
    requires k < 8 * |stored|
    ensures Syndrome(Flip(stored, k), stored) == Bit(k % 8)
  {
    hide Xor, Bit, XorAll;
    XorAllUpdate(stored, k / 8, Bit(k % 8));
    XorTwice(XorAll(stored), Bit(k % 8));
  }

  // ---- the loops

  lemma WordOfParts(acc: Word, b: bv8)
    ensures XorWord(XorWord(acc, LowWord(b)), HighWord(b)) == XorWord(acc, ByteWord(b))
  {
    hide XorWord, LowWord, HighWord;
    XorWordAssoc(acc, LowWord(b), HighWord(b));
  }

  /** The encoder loop; an empty page is refused and leaves the word as it was. */
  method EncodePage(data: array<bv8>, ecc0: Word) returns (ok: bool, ecc: Word)
    ensures ok <==> data.Length > 0
    ensures ecc == if ok then Encode(data[..]) else ecc0
  {
    hide XorWord, ByteWord, LowWord, HighWord;
    if data.Length == 0 {
      return false, ecc0;
    }
    ok, ecc := true, 0;
    for i := 0 to data.Length
      invariant ecc == Encode(data[..i])
    {
      WordOfParts(ecc, data[i]);
      assert data[..i + 1][..i] == data[..i];
      ecc := XorWord(ecc, LowWord(data[i]));
      ecc := XorWord(ecc, HighWord(data[i]));
    }
    assert data[..] == data[..data.Length];
  }

  /** The decoder: flips bits in place, re-encodes, and puts every byte back that did not help. */
  method DecodePage(data: array<bv8>, ecc: Word) returns (res: EccResult)
    modifies data
    ensures (res, data[..]) == Decode(old(data[..]), ecc)
  {
    hide Xor, Encode, Bit;
    if data.Length == 0 {
      return Uncorrectable;
    }
    var ok, calculated := EncodePage(data, 0);
    if calculated == ecc {
      return Clean;
    }
    ghost var orig := data[..];
    for i := 0 to data.Length
      invariant data[..] == orig
      invariant Search(orig, ecc, 0) == Search(orig, ecc, 8 * i)
    {
      var original := data[i];
      for bit := 0 to 8
        invariant data[..] == orig && original == orig[i]
        invariant Search(orig, ecc, 0) == Search(orig, ecc, 8 * i + bit)
      {
        data[i] := Xor(data[i], Bit(bit));
        assert (8 * i + bit) / 8 == i && (8 * i + bit) % 8 == bit;
        assert data[..] == Flip(orig, 8 * i + bit);
        ok, calculated := EncodePage(data, 0);
        if calculated == ecc {
          return Corrected;
        }
        data[i] := original;
        assert data[..] == orig;
      }
    }
    return Uncorrectable;
  }
}
