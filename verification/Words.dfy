/** Bit sets stored in 64-bit words. */
module Words {
  function Mask(b: bv6): bv64 {
    (1 as bv64) << b
  }

  predicate On(word: bv64, mask: bv64) {
    word & mask != 0
  }

  function Raise(word: bv64, mask: bv64): bv64 {
    word | mask
  }

  function Lower(word: bv64, mask: bv64): bv64 {
    word & !mask
  }

  lemma SameMask(w: bv64, m: bv64)
    requires m != 0
    ensures On(Raise(w, m), m) && !On(Lower(w, m), m)
  {
  }

  lemma StaysOn(w: bv64, a: bv64, b: bv64)
    requires a & b == 0 && On(w, b)
    ensures On(Raise(w, a), b) && On(Lower(w, a), b)
  {
  }

  lemma StaysOff(w: bv64, a: bv64, b: bv64)
    requires a & b == 0 && !On(w, b)
    ensures !On(Raise(w, a), b) && !On(Lower(w, a), b)
  {
  }

  lemma MaskBits(k: bv6, j: bv6)
    ensures Mask(k) != 0
    ensures k != j ==> Mask(k) & Mask(j) == 0
  {
  }

  lemma BitPosition(k: nat)
    requires k < 64
    ensures (k as bv6) as int == k
  {
  }

  /** The mask of position `k` within its word. */
  function Bit(k: nat): bv64 {
    Mask((k % 64) as bv6)
  }

  lemma BitsApart(k: nat, j: nat)
    ensures Bit(k) != 0
    ensures k % 64 != j % 64 ==> Bit(k) & Bit(j) == 0
  {
    BitPosition(k % 64);
    BitPosition(j % 64);
    MaskBits((k % 64) as bv6, (j % 64) as bv6);
  }

  predicate TestBit(words: seq<bv64>, k: nat)
    requires k / 64 < |words|
  {
    On(words[k / 64], Bit(k))
  }

  function SetBit(words: seq<bv64>, k: nat): (r: seq<bv64>)
    requires k / 64 < |words|
    ensures |r| == |words|
  {
    words[k / 64 := Raise(words[k / 64], Bit(k))]
  }

  function ClearBit(words: seq<bv64>, k: nat): (r: seq<bv64>)
    requires k / 64 < |words|
    ensures |r| == |words|
  {
    words[k / 64 := Lower(words[k / 64], Bit(k))]
  }

  lemma WordsMasks(words: seq<bv64>, i: nat, a: bv64, j: nat, b: bv64)
    requires i < |words| && j < |words| && a != 0
    requires i == j ==> a == b || a & b == 0
    ensures On(words[i := Raise(words[i], a)][j], b) <==> (i == j && a == b) || On(words[j], b)
    ensures On(words[i := Lower(words[i], a)][j], b) <==> !(i == j && a == b) && On(words[j], b)
  {
    if i == j {
      if a == b {
        SameMask(words[i], a);
      } else if On(words[i], b) {
        StaysOn(words[i], a, b);
      } else {
        StaysOff(words[i], a, b);
      }
    }
  }

  /** Bit sets stored in words behave as sets of numbers. */
  lemma WordsBits(words: seq<bv64>, k: nat, j: nat)
    requires k / 64 < |words| && j / 64 < |words|
    ensures TestBit(SetBit(words, k), j) <==> j == k || TestBit(words, j)
    ensures TestBit(ClearBit(words, k), j) <==> j != k && TestBit(words, j)
  {
    BitsApart(k, j);
    WordsMasks(words, k / 64, Bit(k), j / 64, Bit(j));
    assert k == j <==> k / 64 == j / 64 && k % 64 == j % 64;
  }

  lemma ZeroWord(words: seq<bv64>, k: nat)
    requires k / 64 < |words| && words[k / 64] == 0
    ensures !TestBit(words, k)
  {
  }
}
