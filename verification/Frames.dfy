/** The physical frame bitmap: one bit per frame in an array of 32-bit words. */
module Frames {
  const WORD := 32

  /** The mask `1 << j`; it is zero once the bit has left the word. */
  function Bit(j: nat): bv32 { if j == 0 then 1 else Bit(j - 1) << 1 }

  predicate Hit(w: bv32, b: bv32) { w & b != 0 }

  function Or(w: bv32, b: bv32): bv32 { w | b }

  function AndNot(w: bv32, b: bv32): bv32 { w & !b }

  predicate Has(w: bv32, j: nat) { Hit(w, Bit(j)) }

  // ---- Single bits ----

  lemma BitNonZero(j: nat)
    requires j < WORD
    ensures Bit(j) != 0
  {
    assert Bit(4) == 0x10 && Bit(8) == 0x100 && Bit(12) == 0x1000 && Bit(16) == 0x1_0000;
    assert Bit(20) == 0x10_0000 && Bit(24) == 0x100_0000 && Bit(28) == 0x1000_0000 && Bit(31) == 0x8000_0000;
    BitZeroUp(j, 31);
  }

  /** A mask that has left the word stays zero. */
  lemma {:induction false} BitZeroUp(j: nat, k: nat)
    requires j <= k
    ensures Bit(j) == 0 ==> Bit(k) == 0
    decreases k - j
  {
    if j < k {
      BitZeroUp(j, k - 1);
    }
  }

  lemma ShiftsApart(a: bv32, b: bv32)
    requires !Hit(a, b)
    ensures !Hit(a << 1, b << 1)
  {
  }

  lemma ShiftIsEven(a: bv32)
    ensures !Hit(a << 1, 1)
  {
  }

  lemma {:induction false} BitsApart(j: nat, k: nat)
    requires k < j
    ensures !Hit(Bit(j), Bit(k))
  {
    hide Hit;
    if k > 0 {
      BitsApart(j - 1, k - 1);
      ShiftsApart(Bit(j - 1), Bit(k - 1));
    } else {
      ShiftIsEven(Bit(j - 1));
    }
  }

  lemma HitSymmetric(b: bv32, c: bv32)
    ensures Hit(b, c) == Hit(c, b)
  {
  }

  lemma OrHitsThis(w: bv32, b: bv32)
    requires b != 0
    ensures Hit(Or(w, b), b)
  {
    assert (w | b) & b == b;
  }

  lemma AndNotMissesThis(w: bv32, b: bv32)
    ensures !Hit(AndNot(w, b), b)
  {
  }

  lemma OrDistributes(w: bv32, b: bv32, c: bv32)
    ensures (w | b) & c == (w & c) | (b & c)
  {
  }

  lemma AndReorders(w: bv32, b: bv32, c: bv32)
    ensures (w & b) & c == w & (c & b)
  {
  }

  lemma ApartUntouched(b: bv32, c: bv32)
    requires b & c == 0
    ensures c & !b == c
  {
  }

  lemma OrZero(x: bv32, y: bv32)
    requires y == 0
    ensures x | y == x
  {
  }

  lemma OrKeepsOther(w: bv32, b: bv32, c: bv32)
    requires !Hit(b, c)
    ensures Hit(Or(w, b), c) == Hit(w, c)
  {
    OrDistributes(w, b, c);
    OrZero(w & c, b & c);
  }

  lemma AndNotKeepsOther(w: bv32, b: bv32, c: bv32)
    requires !Hit(b, c)
    ensures Hit(AndNot(w, b), c) == Hit(w, c)
  {
    calc {
      AndNot(w, b) & c;
      { AndReorders(w, !b, c); }
      w & (c & !b);
      { ApartUntouched(b, c); }
      w & c;
    }
  }

  /** Setting a bit sets exactly it. */
  lemma SetBit(w: bv32, j: nat, k: nat)
    requires j < WORD
    ensures Has(Or(w, Bit(j)), k) == (k == j || Has(w, k))
  {
    hide Hit, Or, Bit;
    if k == j {
      BitNonZero(j);
      OrHitsThis(w, Bit(j));
    } else {
      if k < j { BitsApart(j, k); } else { BitsApart(k, j); }
      HitSymmetric(Bit(j), Bit(k));
      OrKeepsOther(w, Bit(j), Bit(k));
    }
  }

  /** Clearing a bit clears exactly it. */
  lemma ClearBit(w: bv32, j: nat, k: nat)
    ensures Has(AndNot(w, Bit(j)), k) == (k != j && Has(w, k))
  {
    hide Hit, AndNot, Bit;
    if k == j {
      AndNotMissesThis(w, Bit(j));
    } else {
      if k < j { BitsApart(j, k); } else { BitsApart(k, j); }
      HitSymmetric(Bit(j), Bit(k));
      AndNotKeepsOther(w, Bit(j), Bit(k));
    }
  }

  lemma AllSet(j: nat)
    requires j < WORD
    ensures Has(0xffff_ffff, j)
  {
    BitNonZero(j);
    AllOnes(Bit(j));
  }

  lemma AllOnes(b: bv32)
    requires b != 0
    ensures Hit(0xffff_ffff, b)
  {
    assert 0xffff_ffff & b == b;
  }

  // ---- The bitmap ----

  predicate BitAt(words: seq<bv32>, f: nat)
    requires f / WORD < |words|
  {
    Has(words[f / WORD], f % WORD)
  }

  /** The frames whose bit is set. */
  ghost function TakenIn(words: seq<bv32>): set<nat> {
    set f: nat | f < |words| * WORD && BitAt(words, f)
  }

  /** A change of one word that shows in one bit changes membership of one frame. */
  lemma WordsUpdate(words: seq<bv32>, f: nat, v: bv32, on: bool)
    requires f < |words| * WORD
    requires forall k :: 0 <= k < WORD ==> Has(v, k) == (if k == f % WORD then on else Has(words[f / WORD], k))
    ensures TakenIn(words[f / WORD := v]) == if on then TakenIn(words) + {f} else TakenIn(words) - {f}
  {
    hide Has;
    var words' := words[f / WORD := v];
    forall g: nat | g < |words| * WORD
      ensures BitAt(words', g) == (if g == f then on else BitAt(words, g))
    {
    }
  }

  lemma SetInWords(words: seq<bv32>, f: nat)
    requires f < |words| * WORD
    ensures TakenIn(words[f / WORD := Or(words[f / WORD], Bit(f % WORD))]) == TakenIn(words) + {f}
  {
    hide Has, Or, TakenIn;
    var w, j := words[f / WORD], f % WORD;
    forall k | 0 <= k < WORD
      ensures Has(Or(w, Bit(j)), k) == (if k == j then true else Has(w, k))
    {
      SetBit(w, j, k);
    }
    WordsUpdate(words, f, Or(w, Bit(j)), true);
  }

  lemma ClearInWords(words: seq<bv32>, f: nat)
    requires f < |words| * WORD
    ensures TakenIn(words[f / WORD := AndNot(words[f / WORD], Bit(f % WORD))]) == TakenIn(words) - {f}
  {
    hide Has, AndNot, TakenIn;
    var w, j := words[f / WORD], f % WORD;
    forall k | 0 <= k < WORD
      ensures Has(AndNot(w, Bit(j)), k) == (if k == j then false else Has(w, k))
    {
      ClearBit(w, j, k);
    }
    WordsUpdate(words, f, AndNot(w, Bit(j)), false);
  }

  class FrameMap {
    const words: array<bv32>
    const maxFrames: nat
    var used: int

    constructor (n: nat)
      ensures Valid() && fresh(words) && Taken() == {} && used == 0 && maxFrames == n
    {
      words := new bv32[n / WORD](_ => 0);
      maxFrames := n;
      used := 0;
      new;
      forall f: nat | f < n / WORD * WORD
        ensures !BitAt(words[..], f)
      {
        NoBits(f % WORD);
      }
    }

    /** The bitmap covers only real frames. */
    predicate Valid() { words.Length * WORD <= maxFrames }

    function Capacity(): nat { words.Length * WORD }

    ghost function Taken(): set<nat>
      reads words
    {
      TakenIn(words[..])
    }

    lemma TakenBelow(f: nat)
      requires f in Taken()
      ensures f < Capacity()
    {
    }

    method BitmapSet(bit: nat)
      requires bit < Capacity()
      modifies words
      ensures Taken() == old(Taken()) + {bit}
    {
      hide TakenIn, Or, AndNot, Bit;
      SetInWords(words[..], bit);
      words[bit / WORD] := Or(words[bit / WORD], Bit(bit % WORD));
      assert words[..] == old(words[..])[bit / WORD := Or(old(words[..])[bit / WORD], Bit(bit % WORD))];
    }

    method BitmapUnset(bit: nat)
      requires bit < Capacity()
      modifies words
      ensures Taken() == old(Taken()) - {bit}
    {
      hide TakenIn, Or, AndNot, Bit;
      ClearInWords(words[..], bit);
      words[bit / WORD] := AndNot(words[bit / WORD], Bit(bit % WORD));
      assert words[..] == old(words[..])[bit / WORD := AndNot(old(words[..])[bit / WORD], Bit(bit % WORD))];
    }

    /** The inner loop: the first clear bit of a word, or 32. */
    static method FirstClear(w: bv32) returns (j: nat)
      ensures j <= WORD && (j < WORD ==> !Has(w, j))
      ensures forall k :: 0 <= k < j ==> Has(w, k)
    {
      j := 0;
      while j < WORD
        invariant j <= WORD && forall k :: 0 <= k < j ==> Has(w, k)
      {
        if !Has(w, j) {
          return;
        }
        j := j + 1;
      }
    }

    /** Scans words, then bits, for the lowest free frame. The source's bound counts frames, not
        words, so it relies on a free frame being there. */
    method GetFirstFrame() returns (frame: nat)
      requires Valid() && exists f: nat :: f < Capacity() && f !in Taken()
      ensures frame < Capacity() && frame !in Taken()
      ensures forall g: nat :: g < frame ==> g in Taken()
    {
      hide Has;
      frame := 0;
      var i := 0;
      ghost var f: nat :| f < Capacity() && f !in Taken();
      while i < maxFrames
        invariant 0 <= i * WORD <= f
        invariant forall g: nat :: g < i * WORD ==> g in Taken()
        decreases maxFrames - i
      {
        if words[i] != 0xffff_ffff {
          var j := FirstClear(words[i]);
          LowBits(words[..], i, j);
          if j < WORD {
            frame := i * WORD + j;
            assert !BitAt(words[..], frame);
            return;
          }
        } else {
          FullWord(words[i]);
          LowBits(words[..], i, WORD);
        }
        i := i + 1;
      }
    }

    method AllocFrame() returns (frame: nat)
      requires Valid() && |Taken()| < Capacity()
      modifies words, `used
      ensures frame < Capacity() && frame !in old(Taken())
      ensures forall g: nat :: g < frame ==> g in old(Taken())
      ensures Taken() == old(Taken()) + {frame} && used == old(used) + 1
    {
      FreeFrameExists(Taken(), Capacity());
      frame := GetFirstFrame();
      BitmapSet(frame);
      used := used + 1;
    }

    method FreeFrame(frame: nat)
      requires frame < Capacity()
      modifies words, `used
      ensures Taken() == old(Taken()) - {frame} && used == old(used) - 1
    {
      BitmapUnset(frame);
      used := used - 1;
    }
  }

  lemma NoBits(j: nat)
    requires j < WORD
    ensures !Has(0, j)
  {
    Zeros(Bit(j));
  }

  lemma Zeros(b: bv32)
    ensures 0 & b == 0
  {
  }

  lemma FullWord(w: bv32)
    requires w == 0xffff_ffff
    ensures forall k :: 0 <= k < WORD ==> Has(w, k)
  {
    forall k | 0 <= k < WORD
      ensures Has(w, k)
    {
      AllSet(k);
    }
  }

  lemma LowBits(words: seq<bv32>, i: nat, n: nat)
    requires i < |words| && n <= WORD && forall k :: 0 <= k < n ==> Has(words[i], k)
    ensures forall g: nat :: i * WORD <= g < i * WORD + n ==> g in TakenIn(words)
  {
    hide Has;
    forall g: nat | i * WORD <= g < i * WORD + n
      ensures g in TakenIn(words)
    {
      assert g / WORD == i && g % WORD == g - i * WORD;
    }
  }

  lemma {:induction false} FreeFrameExists(s: set<nat>, n: nat)
    requires |s| < n
    ensures exists f: nat :: f < n && f !in s
  {
    if n - 1 in s {
      FreeFrameExists(s - {n - 1}, n - 1);
      var f: nat :| f < n - 1 && f !in s - {n - 1};
      assert f !in s;
    } else {
      var f: nat := n - 1;
      assert f < n && f !in s;
    }
  }
}
