/** The bits of machine words, first bit first, so that word arithmetic can be read as polynomials. */
module WordBits {
  import opened PolynomialDivision

  // ----- Word operations, and the few facts about them that are proved bit by bit

  function Left(x: bv32): bv32 {
    x << 1
  }

  predicate First(x: bv32) {
    x & 0x8000_0000 != 0
  }

  /** The sum of two words as polynomials. */
  function Plus(x: bv32, y: bv32): bv32 {
    x ^ y
  }

  function LeftByte(x: bv32): bv32 {
    x << 8
  }

  /** The byte as the first byte of a word. */
  function Head(b: bv8): bv32 {
    (b as bv32) << 24
  }

  function FirstByte(x: bv32): bv8 {
    ((x >> 24) & 0xFF) as bv8
  }

  function OtherBytes(x: bv32): bv32 {
    x & 0x00FF_FFFF
  }

  lemma LeftOfPlus(x: bv32, y: bv32)
    ensures Left(Plus(x, y)) == Plus(Left(x), Left(y))
  {
  }

  lemma FirstOfPlus(x: bv32, y: bv32)
    ensures First(Plus(x, y)) == (First(x) != First(y))
  {
  }

  lemma EightLefts(x: bv32)
    ensures Left(Left(Left(Left(Left(Left(Left(Left(x)))))))) == LeftByte(x)
  {
  }

  lemma FourBytesOut(x: bv32)
    ensures LeftByte(LeftByte(LeftByte(LeftByte(x)))) == 0
  {
  }

  lemma HeadShiftsOut(b: bv8)
    ensures LeftByte(Head(b)) == 0
  {
  }

  lemma HeadIsOneToOne(a: bv8, b: bv8)
    requires Head(a) == Head(b)
    ensures a == b
  {
  }

  lemma WordIsHeadAndRest(x: bv32)
    ensures x == Plus(Head(FirstByte(x)), OtherBytes(x)) && OtherBytes(x) & 0xFF00_0000 == 0
  {
  }

  lemma MaskShifts(x: bv32, mask: bv32)
    requires x & mask == 0
    ensures Left(x) & Left(mask) == 0
    ensures First(mask) ==> !First(x)
  {
  }

  lemma NothingLeft(x: bv32)
    requires !First(x) && Left(x) == 0
    ensures x == 0
  {
  }

  lemma PlusIsZero(x: bv32, y: bv32)
    requires Plus(x, y) == 0
    ensures x == y
  {
  }

  lemma PlusOfZeros()
    ensures Left(0) == 0 && !First(0) && Plus(0, 0) == 0
  {
  }

  // ----- The bits of a word

  /** The first `n` bits of a word, the most significant one first. */
  function Top(x: bv32, n: nat): (r: Bits)
    ensures |r| == n
    decreases n
  {
    if n == 0 then [] else [First(x)] + Top(Left(x), n - 1)
  }

  /** `n` single shifts to the left. */
  function Shift(x: bv32, n: nat): bv32
    decreases n
  {
    if n == 0 then x else Shift(Left(x), n - 1)
  }

  lemma {:induction false} TopOfPlus(x: bv32, y: bv32, n: nat)
    ensures Top(Plus(x, y), n) == Xor(Top(x, n), Top(y, n))
    decreases n
  {
    hide Left, First, Plus, Xor;
    if n > 0 {
      LeftOfPlus(x, y);
      FirstOfPlus(x, y);
      TopOfPlus(Left(x), Left(y), n - 1);
      XorOfCons(First(x), Top(Left(x), n - 1), First(y), Top(Left(y), n - 1));
    }
  }

  lemma {:induction false} TopOfZero(n: nat)
    ensures Top(0, n) == Zeros(n)
  {
    hide Left, First;
    if n > 0 {
      TopOfZero(n - 1);
      PlusOfZeros();
    }
  }

  lemma {:induction false} TopSplits(x: bv32, a: nat, b: nat)
    ensures Top(x, a + b) == Top(x, a) + Top(Shift(x, a), b)
    decreases a
  {
    hide Left, First;
    if a > 0 {
      TopSplits(Left(x), a - 1, b);
    }
  }

  lemma {:induction false} ShiftAdds(x: bv32, a: nat, b: nat)
    ensures Shift(x, a + b) == Shift(Shift(x, a), b)
    decreases a
  {
    hide Left;
    if a > 0 {
      ShiftAdds(Left(x), a - 1, b);
    }
  }

  lemma Shift4(x: bv32)
    ensures Shift(x, 4) == Left(Left(Left(Left(x))))
  {
    hide Left;
    ShiftAdds(x, 2, 2);
  }

  lemma Shift8(x: bv32)
    ensures Shift(x, 8) == LeftByte(x)
  {
    hide Left, LeftByte, Shift;
    EightLefts(x);
    Shift4(x);
    Shift4(Left(Left(Left(Left(x)))));
    ShiftAdds(x, 4, 4);
  }

  lemma ShiftBytes(x: bv32)
    ensures Shift(x, 16) == LeftByte(LeftByte(x))
    ensures Shift(x, 24) == LeftByte(LeftByte(LeftByte(x)))
    ensures Shift(x, 32) == 0
  {
    hide Shift, LeftByte;
    ShiftAdds(x, 8, 8);
    ShiftAdds(x, 16, 8);
    ShiftAdds(x, 24, 8);
    Shift8(x);
    Shift8(LeftByte(x));
    Shift8(LeftByte(LeftByte(x)));
    Shift8(LeftByte(LeftByte(LeftByte(x))));
    FourBytesOut(x);
  }

  /** Shifting a word of `n` bits drops its first bit and brings in a zero. */
  lemma TopOfShift(x: bv32, n: nat)
    requires n > 0 && Shift(x, n) == 0
    ensures Top(Left(x), n) == Top(x, n)[1..] + [false]
  {
    hide Left, First;
    TopSplits(Left(x), n - 1, 1);
    assert Shift(Left(x), n - 1) == 0;
    TopOfZero(1);
    assert Zeros(1) == [false];
  }

  /** One division step on a word is one step of the shift register on its bits. */
  lemma DivisionStep(x: bv32, poly: bv32, n: nat)
    requires n > 0 && Shift(x, n) == 0
    ensures Top(if First(x) then Plus(Left(x), poly) else Left(x), n) == Step(Top(poly, n), Top(x, n), false)
  {
    hide Left, First, Plus;
    TopOfShift(x, n);
    TopOfPlus(Left(x), poly, n);
  }

  /** A word with nothing below its first `n` bits, none of which is set, is zero. */
  lemma {:induction false} NoBitsNoWord(x: bv32, n: nat)
    requires Top(x, n) == Zeros(n) && Shift(x, n) == 0
    ensures x == 0
    decreases n
  {
    hide First, Left;
    if n > 0 {
      assert Top(x, n)[0] == First(x) && Top(x, n)[1..] == Top(Left(x), n - 1);
      assert Zeros(n)[1..] == Zeros(n - 1);
      NoBitsNoWord(Left(x), n - 1);
      NothingLeft(x);
    }
  }

  /** Bits of a mask are not bits of a word that avoids the mask. */
  lemma {:induction false} TopAvoids(x: bv32, mask: bv32, n: nat)
    requires x & mask == 0
    ensures forall i :: 0 <= i < n && Top(mask, n)[i] ==> !Top(x, n)[i]
    decreases n
  {
    hide Left, First;
    if n > 0 {
      MaskShifts(x, mask);
      TopAvoids(Left(x), Left(mask), n - 1);
    }
  }

  lemma NoFirstByte(x: bv32)
    requires x & 0xFF00_0000 == 0
    ensures Top(x, 8) == Zeros(8)
  {
    TopAvoids(x, 0xFF00_0000, 8);
    assert Top(0xFF00_0000, 8) == [true, true, true, true, true, true, true, true];
    assert forall i :: 0 <= i < 8 ==> [true, true, true, true, true, true, true, true][i];
  }

  // ----- The bits of bytes and buffers

  function ByteBits(b: bv8): (r: Bits)
    ensures |r| == 8
  {
    Top(Head(b), 8)
  }

  function BitsOf(buffer: seq<bv8>): (r: Bits)
    ensures |r| == 8 * |buffer|
  {
    if buffer == [] then [] else ByteBits(buffer[0]) + BitsOf(buffer[1..])
  }

  lemma {:induction false} BitsOfConcat(a: seq<bv8>, b: seq<bv8>)
    ensures BitsOf(a + b) == BitsOf(a) + BitsOf(b)
  {
    hide ByteBits;
    if a == [] {
      assert a + b == b;
    } else {
      assert (a + b)[1..] == a[1..] + b;
      BitsOfConcat(a[1..], b);
    }
  }

  lemma BitsOfOne(b: bv8)
    ensures BitsOf([b]) == ByteBits(b)
  {
    hide ByteBits;
    assert [b][1..] == [];
    assert ByteBits(b) + [] == ByteBits(b);
  }

  lemma SplitAround(buffer: seq<bv8>, k: nat)
    requires k < |buffer|
    ensures buffer == buffer[..k] + [buffer[k]] + buffer[k + 1..]
  {
  }

  /** The bits of one byte of a buffer, between the bits before and the bits after it. */
  lemma BitsAround(buffer: seq<bv8>, k: nat)
    requires k < |buffer|
    ensures BitsOf(buffer) == BitsOf(buffer[..k]) + ByteBits(buffer[k]) + BitsOf(buffer[k + 1..])
  {
    hide *;
    var before, at, after := buffer[..k], [buffer[k]], buffer[k + 1..];
    SplitAround(buffer, k);
    BitsOfConcat(before + at, after);
    BitsOfConcat(before, at);
    BitsOfOne(buffer[k]);
  }

  /** A byte added at the head of a word adds its bits to the first eight. */
  lemma TopWithByte(x: bv32, b: bv8, n: nat)
    requires n >= 8
    ensures Top(Plus(x, Head(b)), n) == XorPrefix(Top(x, n), ByteBits(b))
  {
    hide Top, Shift, Plus, Head, LeftByte, Xor, XorPrefix;
    TopOfPlus(x, Head(b), n);
    TopSplits(Head(b), 8, n - 8);
    Shift8(Head(b));
    HeadShiftsOut(b);
    TopOfZero(n - 8);
    XorOfPadded(Top(x, n), ByteBits(b));
  }

  /** The first eight bits of a word are those of its first byte. */
  lemma TopByte(x: bv32)
    ensures Top(x, 8) == ByteBits(FirstByte(x))
  {
    hide Top, Plus, Head, FirstByte, OtherBytes, Xor;
    var b, rest := FirstByte(x), OtherBytes(x);
    WordIsHeadAndRest(x);
    TopOfPlus(Head(b), rest, 8);
    NoFirstByte(rest);
    XorOfZeros(ByteBits(b));
  }

  /** Different bytes have different bits. */
  lemma ByteBitsDiffer(a: bv8, b: bv8)
    requires a != b
    ensures ByteBits(a) != ByteBits(b)
  {
    hide Top, Shift, Xor, Plus, Head, LeftByte;
    if ByteBits(a) == ByteBits(b) {
      var z := Plus(Head(a), Head(b));
      TopOfPlus(Head(a), Head(b), 8);
      XorSelf(ByteBits(a));
      Shift8(z);
      HeadsShiftOut(a, b);
      NoBitsNoWord(z, 8);
      PlusIsZero(Head(a), Head(b));
      HeadIsOneToOne(a, b);
    }
  }

  lemma HeadsShiftOut(a: bv8, b: bv8)
    ensures LeftByte(Plus(Head(a), Head(b))) == 0
  {
  }
}
