/** The bits of one 32-bit word, as the masks of src/utils/bitmap.c read and write them. */
module WordBits {
  const WORD_BITS := 32
  const ALL_ONES: bv32 := 0xFFFF_FFFF

  function Mask(off: nat): bv32
    requires off < WORD_BITS
  {
    (1 as bv32) << off
  }

  /** The words have a one bit in common. */
  predicate Meets(w: bv32, m: bv32) {
    w & m != 0
  }

  function Join(w: bv32, m: bv32): bv32 {
    w | m
  }

  function Cut(w: bv32, m: bv32): bv32 {
    w & !m
  }

  predicate Bit(w: bv32, off: nat)
    requires off < WORD_BITS
  {
    Meets(w, Mask(off))
  }

  /** `w` with bit `off` set. */
  function WithBit(w: bv32, off: nat): bv32
    requires off < WORD_BITS
  {
    Join(w, Mask(off))
  }

  /** `w` with bit `off` clear. */
  function WithoutBit(w: bv32, off: nat): bv32
    requires off < WORD_BITS
  {
    Cut(w, Mask(off))
  }

  lemma MasksApart(off: nat, j: nat)
    requires off < WORD_BITS && j < WORD_BITS
    ensures Meets(Mask(off), Mask(j)) <==> off == j
  {
  }

  lemma OrHits(w: bv32, m: bv32)
    ensures m != 0 ==> (w | m) & m != 0
  {
  }

  lemma OrMisses(w: bv32, m: bv32, n: bv32)
    ensures m & n == 0 ==> (w | m) & n == w & n
  {
  }

  lemma JoinMeets(w: bv32, m: bv32, n: bv32)
    ensures Meets(m, m) ==> Meets(Join(w, m), m)
    ensures !Meets(m, n) ==> (Meets(Join(w, m), n) <==> Meets(w, n))
  {
    OrHits(w, m);
    OrMisses(w, m, n);
    AndSelf(m);
  }

  lemma AndSelf(m: bv32)
    ensures m & m == m
  {
  }

  lemma CutMeets(w: bv32, m: bv32, n: bv32)
    ensures !Meets(Cut(w, m), m)
    ensures !Meets(m, n) ==> (Meets(Cut(w, m), n) <==> Meets(w, n))
  {
  }

  lemma SetOneBit(w: bv32, off: nat, j: nat)
    requires off < WORD_BITS && j < WORD_BITS
    ensures Bit(WithBit(w, off), j) <==> j == off || Bit(w, j)
  {
    hide Meets, Mask, Join;
    MasksApart(off, j);
    JoinMeets(w, Mask(off), Mask(j));
  }

  lemma ClearOneBit(w: bv32, off: nat, j: nat)
    requires off < WORD_BITS && j < WORD_BITS
    ensures Bit(WithoutBit(w, off), j) <==> j != off && Bit(w, j)
  {
    hide Meets, Mask, Cut;
    MasksApart(off, j);
    CutMeets(w, Mask(off), Mask(j));
  }

  lemma AllOnes(j: nat)
    requires j < WORD_BITS
    ensures Bit(ALL_ONES, j)
  {
  }

  lemma NoBits(j: nat)
    requires j < WORD_BITS
    ensures !Bit(0, j)
  {
  }
}

/** A set of small numbers as the bits of 32-bit words (src/utils/bitmap.c). */
module Bitmaps {
  import opened WordBits

  /** The numbers whose bits are set in the words `ws`. */
  ghost function BitsOf(ws: seq<bv32>): set<nat> {
    set i | 0 <= i < WORD_BITS * |ws| && Bit(ws[i / WORD_BITS], i % WORD_BITS)
  }

  /** `b` is the least number below `limit` outside `s`. */
  ghost predicate IsFirstFree(s: set<nat>, limit: nat, b: nat) {
    b < limit && b !in s && forall c: nat :: c < b ==> c in s
  }

  ghost predicate IsFull(s: set<nat>, limit: nat) {
    forall c: nat :: c < limit ==> c in s
  }

  class Bitmap {
    var words: array<bv32>
    var totalBits: nat

    ghost predicate Valid()
      reads this
    {
      words.Length == totalBits / WORD_BITS
    }

    /** How many bits the words hold: `totalBits` rounded down to whole words. */
    ghost function Capacity(): nat
      reads this
    {
      WORD_BITS * words.Length
    }

    ghost function Bits(): (s: set<nat>)
      reads this, words
      ensures forall b :: b in s ==> b < Capacity()
    {
      BitsOf(words[..])
    }

    /** `bitmap_init` without an array of the caller's. */
    constructor (total: nat)
      ensures Valid() && fresh(words) && totalBits == total && Bits() == {}
    {
      totalBits := total;
      words := new bv32[total / WORD_BITS](_ => 0);
    }

    method SetBit(bit: nat)
      requires bit < Capacity()
      modifies words
      ensures Bits() == old(Bits()) + {bit}
    {
      hide Bit, WithBit, WithoutBit;
      var idx, off := bit / WORD_BITS, bit % WORD_BITS;
      ghost var ws := words[..];
      words[idx] := WithBit(words[idx], off);
      forall i: nat | i < Capacity() ensures i in Bits() <==> i in BitsOf(ws) || i == bit {
        SetOneBit(ws[idx], off, i % WORD_BITS);
        assert words[i / WORD_BITS] == words[..][i / WORD_BITS];
      }
    }

    method ClearBit(bit: nat)
      requires bit < Capacity()
      modifies words
      ensures Bits() == old(Bits()) - {bit}
    {
      hide Bit, WithBit, WithoutBit;
      var idx, off := bit / WORD_BITS, bit % WORD_BITS;
      ghost var ws := words[..];
      words[idx] := WithoutBit(words[idx], off);
      forall i: nat | i < Capacity() ensures i in Bits() <==> i in BitsOf(ws) && i != bit {
        ClearOneBit(ws[idx], off, i % WORD_BITS);
        assert words[i / WORD_BITS] == words[..][i / WORD_BITS];
      }
    }

    method TestBit(bit: nat) returns (r: bool)
      requires bit < Capacity()
      ensures r <==> bit in Bits()
    {
      r := Bit(words[bit / WORD_BITS], bit % WORD_BITS);
    }

    /** The least clear bit, or failure exactly when every bit is set. */
    method FindFirstFree() returns (success: bool, bit: nat)
      ensures success ==> IsFirstFree(Bits(), Capacity(), bit)
      ensures !success ==> IsFull(Bits(), Capacity())
    {
      hide Bit;
      bit := 0;
      var i := 0;
      while i < words.Length
        invariant 0 <= i <= words.Length
        invariant forall c: nat :: c < WORD_BITS * i ==> c in Bits()
      {
        var ele := words[i];
        if ele != ALL_ONES {
          var j := 0;
          while j < WORD_BITS
            invariant 0 <= j <= WORD_BITS
            invariant forall c: nat :: c < WORD_BITS * i + j ==> c in Bits()
          {
            assert (WORD_BITS * i + j) / WORD_BITS == i && (WORD_BITS * i + j) % WORD_BITS == j;
            assert ele == words[..][i];
            if !Bit(ele, j) {
              return true, i * WORD_BITS + j;
            }
            j := j + 1;
          }
        } else {
          forall c: nat | WORD_BITS * i <= c < WORD_BITS * (i + 1) ensures c in Bits() {
            AllOnes(c % WORD_BITS);
            assert c / WORD_BITS == i && words[..][i] == ALL_ONES;
          }
        }
        i := i + 1;
      }
      return false, 0;
    }

    method AllocateFirstFree() returns (success: bool, bit: nat)
      modifies words
      ensures success ==> IsFirstFree(old(Bits()), Capacity(), bit) && Bits() == old(Bits()) + {bit}
      ensures !success ==> IsFull(old(Bits()), Capacity()) && Bits() == old(Bits())
    {
      success, bit := FindFirstFree();
      if success {
        SetBit(bit);
      }
    }

    /** A larger word array that keeps every bit; only the words of the old array are copied. */
    method Expand(newSize: nat)
      requires Valid() && words.Length <= newSize / WORD_BITS
      modifies this
      ensures Valid() && totalBits == newSize && fresh(words)
      ensures Bits() == old(Bits())
    {
      hide Bit;
      var newArray := new bv32[newSize / WORD_BITS](_ => 0);
      ghost var ws := words[..];
      for i := 0 to words.Length
        invariant words[..] == ws && newArray[..i] == ws[..i]
        invariant forall j :: i <= j < newArray.Length ==> newArray[j] == 0
      {
        newArray[i] := words[i];
      }
      totalBits := newSize;
      words := newArray;
      assert words[..|ws|] == ws;
      forall i: nat ensures i in Bits() <==> i in BitsOf(ws) {
        NoBits(i % WORD_BITS);
        if i < WORD_BITS * |ws| {
          assert words[i / WORD_BITS] == words[..|ws|][i / WORD_BITS];
        } else if i < Capacity() {
          assert words[..][i / WORD_BITS] == 0;
        }
      }
    }
  }
}
