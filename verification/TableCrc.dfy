/**
 What the table-driven CRC loops of lib/dtv-util/src/functions.cpp have in common, for any table
 and a degree of 16 or 32: one round of the loop is eight steps of the polynomial division, and what
 follows from that.

 A word of 16 bits is held in the upper half of a `bv32`.
 */
module TableCrc {
  import opened PolynomialDivision
  import opened WordBits

  // ----- Words of the degree

  /** The last bit of a word, and the bits below it, which are not used. */
  function Unit(degree: nat): bv32 {
    if degree == 16 then 0x1_0000 else 1
  }

  predicate Fits(x: bv32, degree: nat) {
    (degree == 16 || degree == 32) && (degree == 16 ==> x & 0xFFFF == 0)
  }

  predicate Last(x: bv32, degree: nat) {
    x & Unit(degree) != 0
  }

  lemma FitsMeansNoMore(x: bv32, degree: nat)
    requires Fits(x, degree)
    ensures Shift(x, degree) == 0
  {
    hide Shift;
    ShiftBytes(x);
  }

  lemma LeftFits(x: bv32, degree: nat)
    requires Fits(x, degree)
    ensures Fits(Left(x), degree) && Fits(LeftByte(x), degree)
  {
  }

  lemma PlusFits(x: bv32, y: bv32, degree: nat)
    requires Fits(x, degree) && Fits(y, degree)
    ensures Fits(Plus(x, y), degree)
  {
  }

  lemma HeadFits(b: bv8, degree: nat)
    requires degree == 16 || degree == 32
    ensures Fits(Head(b), degree)
  {
  }

  lemma Shift7(x: bv32)
    ensures Shift(x, 7) == Left(Left(Left(Left(Left(Left(Left(x)))))))
  {
    hide Left;
    ShiftAdds(x, 4, 3);
    Shift4(x);
    ShiftAdds(Left(Left(Left(Left(x)))), 2, 1);
  }

  lemma LastMovesToFirst(x: bv32)
    ensures First(Left(Left(Left(Left(Left(Left(Left(LeftByte(x))))))))) == Last(x, 16)
    ensures First(Left(Left(Left(Left(Left(Left(Left(LeftByte(LeftByte(LeftByte(x))))))))))) == Last(x, 32)
  {
  }

  /** The last of a word's bits. */
  lemma LastOfTop(x: bv32, degree: nat)
    requires degree == 16 || degree == 32
    ensures |Top(x, degree)| == degree && Top(x, degree)[degree - 1] == Last(x, degree)
  {
    hide Left, First, LeftByte, Shift, Last, Top;
    ShiftBytes(x);
    Shift8(x);
    LastMovesToFirst(x);
    if degree == 16 {
      FirstAfter7(x, 8, LeftByte(x));
    } else {
      FirstAfter7(x, 24, LeftByte(LeftByte(LeftByte(x))));
    }
  }

  lemma FirstAfter7(x: bv32, n: nat, y: bv32)
    requires y == Shift(x, n)
    ensures Top(x, n + 8)[n + 7] == First(Left(Left(Left(Left(Left(Left(Left(y))))))))
  {
    hide Left, First, Shift;
    TopSplits(x, n + 7, 1);
    ShiftAdds(x, n, 7);
    Shift7(y);
    FirstOfTop(Shift(x, n + 7));
  }

  lemma FirstOfTop(x: bv32)
    ensures Top(x, 1) == [First(x)]
  {
    hide First, Left;
    assert Top(Left(x), 0) == [];
  }

  // ----- Division steps

  /** One step of the division of a word that is shifted out to the left. */
  function Divide(x: bv32, poly: bv32): bv32 {
    if First(x) then Plus(Left(x), poly) else Left(x)
  }

  function Divide8(x: bv32, poly: bv32): bv32 {
    Divide(Divide(Divide(Divide(Divide(Divide(Divide(Divide(x, poly), poly), poly), poly), poly), poly), poly), poly)
  }

  lemma PlusCommutes(x: bv32, y: bv32)
    ensures Plus(x, y) == Plus(y, x)
  {
  }

  lemma PlusAssociates(x: bv32, y: bv32, z: bv32)
    ensures Plus(Plus(x, y), z) == Plus(x, Plus(y, z))
  {
  }

  lemma PlusCancels(x: bv32, y: bv32)
    ensures Plus(Plus(x, y), y) == x
  {
  }

  lemma DivideOfPlus(x: bv32, y: bv32, poly: bv32)
    ensures Divide(Plus(x, y), poly) == Plus(Divide(x, poly), Divide(y, poly))
  {
    hide First, Left, Plus;
    var a, b := Left(x), Left(y);
    LeftOfPlus(x, y);
    FirstOfPlus(x, y);
    PlusAssociates(a, b, poly);
    PlusAssociates(a, poly, b);
    PlusCommutes(poly, b);
    PlusAssociates(a, poly, Plus(b, poly));
    PlusCommutes(poly, Plus(b, poly));
    PlusCancels(b, poly);
  }

  lemma Divide8OfPlus(x: bv32, y: bv32, poly: bv32)
    ensures Divide8(Plus(x, y), poly) == Plus(Divide8(x, poly), Divide8(y, poly))
  {
    hide Divide, Plus;
    var x1, y1 := Divide(x, poly), Divide(y, poly);
    var x2, y2 := Divide(x1, poly), Divide(y1, poly);
    var x3, y3 := Divide(x2, poly), Divide(y2, poly);
    var x4, y4 := Divide(x3, poly), Divide(y3, poly);
    var x5, y5 := Divide(x4, poly), Divide(y4, poly);
    var x6, y6 := Divide(x5, poly), Divide(y5, poly);
    var x7, y7 := Divide(x6, poly), Divide(y6, poly);
    DivideOfPlus(x, y, poly);
    DivideOfPlus(x1, y1, poly);
    DivideOfPlus(x2, y2, poly);
    DivideOfPlus(x3, y3, poly);
    DivideOfPlus(x4, y4, poly);
    DivideOfPlus(x5, y5, poly);
    DivideOfPlus(x6, y6, poly);
    DivideOfPlus(x7, y7, poly);
  }

  lemma DivideFits(x: bv32, poly: bv32, degree: nat)
    requires Fits(x, degree) && Fits(poly, degree)
    ensures Fits(Divide(x, poly), degree)
  {
    hide Fits, First, Left, Plus;
    LeftFits(x, degree);
    PlusFits(Left(x), poly, degree);
  }

  // ----- Tables

  /** Sixteen rows of sixteen words, one after another. */
  predicate IsGrid<T>(rows: seq<seq<T>>) {
    |rows| == 16 && forall k :: 0 <= k < 16 ==> |rows[k]| == 16
  }

  function Flatten<T>(rows: seq<seq<T>>): seq<T> {
    if rows == [] then [] else rows[0] + Flatten(rows[1..])
  }

  lemma {:induction false} FlattenAt<T>(rows: seq<seq<T>>, k: nat, j: nat)
    requires k < |rows| && j < 16 && forall i :: 0 <= i < |rows| ==> |rows[i]| == 16
    ensures |Flatten(rows)| == 16 * |rows| && Flatten(rows)[16 * k + j] == rows[k][j]
  {
    if |rows| > 1 {
      FlattenAt(rows[1..], if k == 0 then 0 else k - 1, j);
    }
  }

  /** Every entry of a row is its first one plus the entry of the first row above it. */
  predicate RowFits(row: seq<bv32>, first: seq<bv32>) {
    && |row| == |first| == 16
    && row[1] == Plus(row[0], first[1]) && row[2] == Plus(row[0], first[2]) && row[3] == Plus(row[0], first[3])
    && row[4] == Plus(row[0], first[4]) && row[5] == Plus(row[0], first[5]) && row[6] == Plus(row[0], first[6])
    && row[7] == Plus(row[0], first[7]) && row[8] == Plus(row[0], first[8]) && row[9] == Plus(row[0], first[9])
    && row[10] == Plus(row[0], first[10]) && row[11] == Plus(row[0], first[11])
    && row[12] == Plus(row[0], first[12]) && row[13] == Plus(row[0], first[13])
    && row[14] == Plus(row[0], first[14]) && row[15] == Plus(row[0], first[15])
  }

  predicate RowsFit(rows: seq<seq<bv32>>)
    requires IsGrid(rows)
  {
    forall k :: 1 <= k < 16 ==> RowFits(rows[k], rows[0])
  }

  /** Every entry is the sum of those at the powers of two in its index. */
  predicate Sums(e: seq<bv32>) {
    && |e| == 16 && e[0] == 0 && e[3] == Plus(e[2], e[1])
    && e[5] == Plus(e[4], e[1]) && e[6] == Plus(e[4], e[2]) && e[7] == Plus(e[4], e[3])
    && e[9] == Plus(e[8], e[1]) && e[10] == Plus(e[8], e[2]) && e[11] == Plus(e[8], e[3])
    && e[12] == Plus(e[8], e[4]) && e[13] == Plus(e[8], e[5]) && e[14] == Plus(e[8], e[6])
    && e[15] == Plus(e[8], e[7])
  }

  /** At the powers of two the entries are eight division steps of the heads. */
  predicate PowersDivide(e: seq<bv32>, heads: seq<bv32>, poly: bv32) {
    && |e| == |heads| == 16
    && e[1] == Divide8(heads[1], poly) && e[2] == Divide8(heads[2], poly)
    && e[4] == Divide8(heads[4], poly) && e[8] == Divide8(heads[8], poly)
  }

  lemma ZeroDivides(poly: bv32)
    ensures Divide8(0, poly) == 0
  {
    hide First, Left;
    PlusOfZeros();
  }

  lemma SumAt(e: seq<bv32>, i: nat)
    requires Sums(e) && i < 16
    ensures 4 < i < 8 ==> e[i] == Plus(e[4], e[i - 4])
    ensures 8 < i < 16 ==> e[i] == Plus(e[8], e[i - 8])
  {
    hide Plus;
    match i { case 5 => case 6 => case 7 => case 9 => case 10 => case 11 => case 12 => case 13 => case 14 =>
      case 15 => case _ => }
  }

  lemma {:induction false} SumsDivide(e: seq<bv32>, heads: seq<bv32>, poly: bv32, i: nat)
    requires Sums(e) && Sums(heads) && PowersDivide(e, heads, poly) && i < 16
    ensures e[i] == Divide8(heads[i], poly)
  {
    hide Sums, Plus, Divide8;
    if i > 8 {
      SumsDivide(e, heads, poly, i - 8);
      SumIsDivided(e, heads, poly, i, 8);
    } else if 4 < i < 8 {
      SumsDivide(e, heads, poly, i - 4);
      SumIsDivided(e, heads, poly, i, 4);
    } else {
      SmallSums(e, heads, poly);
    }
  }

  lemma SmallSums(e: seq<bv32>, heads: seq<bv32>, poly: bv32)
    requires Sums(e) && Sums(heads) && PowersDivide(e, heads, poly)
    ensures e[0] == Divide8(heads[0], poly) && e[3] == Divide8(heads[3], poly)
  {
    hide Plus, Divide8;
    ZeroDivides(poly);
    Divide8OfPlus(heads[2], heads[1], poly);
  }

  lemma SumIsDivided(e: seq<bv32>, heads: seq<bv32>, poly: bv32, i: nat, m: nat)
    requires Sums(e) && Sums(heads) && PowersDivide(e, heads, poly) && (m == 4 || m == 8) && m < i < 2 * m
    requires e[i - m] == Divide8(heads[i - m], poly)
    ensures e[i] == Divide8(heads[i], poly)
  {
    hide Plus, Divide8, Sums;
    SumAt(e, i);
    SumAt(heads, i);
    Divide8OfPlus(heads[m], heads[i - m], poly);
  }

  /** The half byte as the first half byte of a word. */
  function HalfHead(k: bv8): bv32 {
    Head(k << 4)
  }

  function Heads(): (r: seq<bv32>)
    ensures |r| == 16 && forall i :: 0 <= i < 16 ==> r[i] == Head(i as bv8)
  {
    seq(16, i requires 0 <= i < 16 => Head(i as bv8))
  }

  function HalfHeads(): (r: seq<bv32>)
    ensures |r| == 16 && forall i :: 0 <= i < 16 ==> r[i] == HalfHead(i as bv8)
  {
    seq(16, i requires 0 <= i < 16 => HalfHead(i as bv8))
  }

  lemma HeadsAdd()
    ensures Sums(Heads()) && Sums(HalfHeads())
  {
  }

  /** The first entries of the rows. */
  function Column(rows: seq<seq<bv32>>): (r: seq<bv32>)
    requires IsGrid(rows)
    ensures |r| == 16 && forall k :: 0 <= k < 16 ==> r[k] == rows[k][0]
  {
    seq(16, k requires 0 <= k < 16 => rows[k][0])
  }

  /** The first row and the first column are eight division steps of their indices. */
  predicate EdgesDivide(rows: seq<seq<bv32>>, poly: bv32)
    requires IsGrid(rows)
  {
    && Sums(rows[0]) && PowersDivide(rows[0], Heads(), poly)
    && Sums(Column(rows)) && PowersDivide(Column(rows), HalfHeads(), poly)
  }

  lemma EdgeEntries(rows: seq<seq<bv32>>, poly: bv32, i: nat)
    requires IsGrid(rows) && EdgesDivide(rows, poly) && i < 16
    ensures rows[0][i] == Divide8(Head(i as bv8), poly) && rows[i][0] == Divide8(HalfHead(i as bv8), poly)
  {
    hide Divide8, Head, HalfHead, Sums, PowersDivide, Heads, HalfHeads;
    HeadsAdd();
    SumsDivide(rows[0], Heads(), poly, i);
    SumsDivide(Column(rows), HalfHeads(), poly, i);
    assert Column(rows)[i] == rows[i][0];
  }

  ghost predicate IsTable(table: seq<bv32>, poly: bv32) {
    |table| == 256 && forall b: bv8 :: b as int < 256 && table[b as int] == Divide8(Head(b), poly)
  }

  lemma IndexSplits(b: bv8)
    ensures b as int == 16 * ((b >> 4) as int) + ((b & 15) as int)
    ensures (b >> 4) as int < 16 && (b & 15) as int < 16
  {
  }

  lemma HeadSplits(b: bv8)
    ensures Head(b) == Plus(Head((b >> 4) << 4), Head(b & 15))
    ensures b >> 4 == 0 ==> b & 15 == b
    ensures b & 15 == 0 ==> (b >> 4) << 4 == b
    ensures b >> 4 < 16 && b & 15 < 16
  {
  }

  lemma RowEntry(row: seq<bv32>, first: seq<bv32>, j: nat)
    requires RowFits(row, first) && 0 < j < 16
    ensures row[j] == Plus(row[0], first[j])
  {
    hide Plus;
    match j { case 1 => case 2 => case 3 => case 4 => case 5 => case 6 => case 7 => case 8 =>
      case 9 => case 10 => case 11 => case 12 => case 13 => case 14 => case 15 => }
  }

  /** With the edges and the sums right, every entry is eight division steps of its index. */
  lemma RowsMakeTable(rows: seq<seq<bv32>>, poly: bv32)
    requires IsGrid(rows) && RowsFit(rows) && EdgesDivide(rows, poly)
    ensures IsTable(Flatten(rows), poly)
  {
    hide Divide8, Head, Plus, Flatten, RowFits, RowsFit, EdgesDivide;
    FlattenAt(rows, 0, 0);
    forall b: bv8
      ensures b as int < 256 && Flatten(rows)[b as int] == Divide8(Head(b), poly)
    {
      var high, low := b >> 4, b & 15;
      IndexSplits(b);
      FlattenAt(rows, high as int, low as int);
      EntryDivides(rows, poly, b);
    }
  }

  lemma SameByte(b: bv8)
    ensures (b as int) as bv8 == b
  {
  }

  lemma EntryDivides(rows: seq<seq<bv32>>, poly: bv32, b: bv8)
    requires IsGrid(rows) && RowsFit(rows) && EdgesDivide(rows, poly)
    requires (b >> 4) as int < 16 && (b & 15) as int < 16
    ensures rows[(b >> 4) as int][(b & 15) as int] == Divide8(Head(b), poly)
  {
    hide Divide8, Head, Plus, RowFits, EdgesDivide;
    var high, low := b >> 4, b & 15;
    HeadSplits(b);
    SameByte(high);
    SameByte(low);
    EdgeEntries(rows, poly, high as int);
    EdgeEntries(rows, poly, low as int);
    if high as int > 0 && low as int > 0 {
      RowEntry(rows[high as int], rows[0], low as int);
      Divide8OfPlus(Head(high << 4), Head(low), poly);
    }
  }

  // ----- The loop

  /** A generator, below its leading power, and the table for it. */
  datatype Format = Format(degree: nat, poly: bv32, table: seq<bv32>) {

    ghost predicate Valid() {
      && (degree == 16 || degree == 32) && |table| == 256
      && Fits(poly, degree) && Last(poly, degree) && IsTable(table, poly)
    }

    /** The generator's bits. */
    ghost function Generator(): (r: Bits)
      ensures |r| == degree
    {
      Top(poly, degree)
    }

    /** One round of the loop. */
    function Next(crc: bv32, b: bv8): bv32
      requires |table| == 256
    {
      Plus(LeftByte(crc), table[(FirstByte(crc) ^ b) as int])
    }

    function Calc(crc: bv32, buffer: seq<bv8>): bv32
      requires |table| == 256
      decreases |buffer|
    {
      if buffer == [] then crc else Calc(Next(crc, buffer[0]), buffer[1..])
    }

    /** The initial value that leads to a CRC. */
    function Rewound(crc: bv32, buffer: seq<bv8>): bv32
      decreases |buffer|
    {
      if buffer == [] then crc else Enter(Undivide8(Rewound(crc, buffer[1..]), this), buffer[0])
    }
  }

  /** The byte added to the head of the word. */
  function Enter(crc: bv32, b: bv8): bv32 {
    Plus(crc, Head(b))
  }

  lemma HeadOfSum(a: bv8, b: bv8)
    ensures Head(a ^ b) == Plus(Head(a), Head(b))
  {
  }

  lemma EnterSplits(crc: bv32, b: bv8)
    ensures Enter(crc, b) == Plus(Head(FirstByte(crc) ^ b), OtherBytes(crc))
  {
    hide Plus, Head, FirstByte, OtherBytes;
    var h, t, e := Head(FirstByte(crc)), OtherBytes(crc), Head(b);
    WordIsHeadAndRest(crc);
    HeadOfSum(FirstByte(crc), b);
    PlusAssociates(h, t, e);
    PlusCommutes(t, e);
    PlusAssociates(h, e, t);
  }

  lemma OtherBytesMoveUp(x: bv32, poly: bv32)
    ensures Divide8(OtherBytes(x), poly) == LeftByte(x)
  {
  }

  /** One round of the loop is eight division steps of the word with the byte added to its head. */
  lemma NextIsDivide8(f: Format, crc: bv32, b: bv8)
    requires f.Valid()
    ensures f.Next(crc, b) == Divide8(Enter(crc, b), f.poly)
  {
    hide Divide8, Plus, Enter, Head, FirstByte, OtherBytes, LeftByte, Fits, Last;
    var slot := FirstByte(crc) ^ b;
    EnterSplits(crc, b);
    OtherBytesMoveUp(crc, f.poly);
    Divide8OfPlus(Head(slot), OtherBytes(crc), f.poly);
    PlusCommutes(Divide8(Head(slot), f.poly), LeftByte(crc));
  }

  // ----- The word as a polynomial

  lemma GeneratorIsOdd(f: Format)
    requires f.Valid()
    ensures |f.Generator()| == f.degree >= 16 && Odd(f.Generator())
  {
    hide Top, IsTable;
    LastOfTop(f.poly, f.degree);
  }

  lemma DivideIsStep(f: Format, x: bv32)
    requires f.Valid() && Fits(x, f.degree)
    ensures Fits(Divide(x, f.poly), f.degree)
    ensures Top(Divide(x, f.poly), f.degree) == Step(f.Generator(), Top(x, f.degree), false)
  {
    hide Top, Shift, Step, First, Left, Plus, IsTable, Last;
    FitsMeansNoMore(x, f.degree);
    DivideFits(x, f.poly, f.degree);
    DivisionStep(x, f.poly, f.degree);
  }

  function DivideTimes(x: bv32, poly: bv32, n: nat): bv32
    decreases n
  {
    if n == 0 then x else DivideTimes(Divide(x, poly), poly, n - 1)
  }

  lemma {:induction false} DivideTimesIsRun(f: Format, x: bv32, n: nat)
    requires f.Valid() && Fits(x, f.degree)
    ensures Fits(DivideTimes(x, f.poly, n), f.degree) && f.degree > 0
    ensures Top(DivideTimes(x, f.poly, n), f.degree) == Run(f.Generator(), Top(x, f.degree), Zeros(n))
    decreases n
  {
    hide Divide, Top, Step, Fits, Last, IsTable;
    GeneratorIsOdd(f);
    if n > 0 {
      DivideIsStep(f, x);
      DivideTimesIsRun(f, Divide(x, f.poly), n - 1);
      assert Zeros(n)[1..] == Zeros(n - 1);
    }
  }

  lemma Divide8IsTimes(x: bv32, poly: bv32)
    ensures DivideTimes(x, poly, 8) == Divide8(x, poly)
  {
    hide Divide;
    var y := Divide(Divide(Divide(Divide(x, poly), poly), poly), poly);
    assert DivideTimes(x, poly, 8) == DivideTimes(y, poly, 4);
  }

  lemma NextIsRun(f: Format, crc: bv32, b: bv8)
    requires f.Valid() && Fits(crc, f.degree)
    ensures Fits(f.Next(crc, b), f.degree) && f.degree > 0
    ensures Top(f.Next(crc, b), f.degree) == Run(f.Generator(), Top(crc, f.degree), ByteBits(b))
  {
    hide f.Next, Divide8, Top, Run, Head, ByteBits, XorPrefix, Plus, Fits, IsTable, Last;
    GeneratorIsOdd(f);
    NextIsDivide8(f, crc, b);
    HeadFits(b, f.degree);
    PlusFits(crc, Head(b), f.degree);
    TopWithByte(crc, b, f.degree);
    Divide8IsTimes(Enter(crc, b), f.poly);
    DivideTimesIsRun(f, Enter(crc, b), 8);
    Absorb(f.Generator(), Top(crc, f.degree), ByteBits(b));
  }

  lemma {:induction false} CalcIsRun(f: Format, crc: bv32, buffer: seq<bv8>)
    requires f.Valid() && Fits(crc, f.degree)
    ensures Fits(f.Calc(crc, buffer), f.degree) && f.degree > 0
    ensures Top(f.Calc(crc, buffer), f.degree) == Run(f.Generator(), Top(crc, f.degree), BitsOf(buffer))
    decreases |buffer|
  {
    hide f.Next, Top, ByteBits, Fits, Last, IsTable;
    GeneratorIsOdd(f);
    if buffer != [] {
      NextIsRun(f, crc, buffer[0]);
      CalcIsRun(f, f.Next(crc, buffer[0]), buffer[1..]);
      RunConcat(f.Generator(), Top(crc, f.degree), ByteBits(buffer[0]), BitsOf(buffer[1..]));
    }
  }

  /**
   The table-driven loop is the long division: its bits are the remainder of the buffer followed
   by as many zeros as the degree, with the initial value added to the first bits.
   */
  lemma CalcIsLongDivision(f: Format, crc: bv32, buffer: seq<bv8>)
    requires f.Valid() && Fits(crc, f.degree)
    ensures Top(f.Calc(crc, buffer), f.degree) ==
            LongDivide(f.Generator(), XorPrefix(BitsOf(buffer) + Zeros(f.degree), Top(crc, f.degree)))
  {
    hide f.Calc, Top, LongDivide, Run, BitsOf, Fits, Last, IsTable;
    CalcIsRun(f, crc, buffer);
    RunIsLongDivision(f.Generator(), Top(crc, f.degree), BitsOf(buffer));
  }

  lemma {:induction false} CalcOfConcat(f: Format, crc: bv32, a: seq<bv8>, b: seq<bv8>)
    requires |f.table| == 256
    ensures f.Calc(crc, a + b) == f.Calc(f.Calc(crc, a), b)
    decreases |a|
  {
    hide f.Next;
    if a == [] {
      assert a + b == b;
    } else {
      assert (a + b)[1..] == a[1..] + b;
      CalcOfConcat(f, f.Next(crc, a[0]), a[1..], b);
    }
  }

  // ----- Nothing is lost: the loop can be run backwards

  function Right(x: bv32): bv32 {
    x >> 1
  }

  function SetFirst(x: bv32): bv32 {
    x | 0x8000_0000
  }

  function Undivide(x: bv32, f: Format): bv32 {
    if Last(x, f.degree) then SetFirst(Right(Plus(x, f.poly))) else Right(x)
  }

  function Undivide8(x: bv32, f: Format): bv32 {
    Undivide(Undivide(Undivide(Undivide(Undivide(Undivide(Undivide(Undivide(x, f), f), f), f), f), f), f), f)
  }

  lemma LeftLeavesLastClear(x: bv32, degree: nat)
    requires Fits(x, degree)
    ensures !Last(Left(x), degree)
  {
  }

  lemma RightUndoesLeft(x: bv32)
    ensures if First(x) then SetFirst(Right(Left(x))) == x else Right(Left(x)) == x
  {
  }

  lemma LeftUndoesRight(x: bv32, degree: nat)
    requires Fits(x, degree) && !Last(x, degree)
    ensures Fits(Right(x), degree) && !First(Right(x)) && Left(Right(x)) == x
    ensures Fits(SetFirst(Right(x)), degree) && First(SetFirst(Right(x))) && Left(SetFirst(Right(x))) == x
  {
    hide First, Left, Right, SetFirst;
    if degree == 16 {
      RightStaysUp(x);
    }
    HalvesOfEven(x);
  }

  lemma HalvesOfEven(x: bv32)
    requires x & 1 == 0
    ensures !First(Right(x)) && Left(Right(x)) == x
    ensures First(SetFirst(Right(x))) && Left(SetFirst(Right(x))) == x
  {
    hide First, Left, Right, SetFirst;
    LeftOfHalf(x);
    LeftDropsFirst(Right(x));
  }

  lemma LeftOfHalf(x: bv32)
    requires x & 1 == 0
    ensures !First(Right(x)) && Left(Right(x)) == x
  {
  }

  lemma LeftDropsFirst(x: bv32)
    ensures First(SetFirst(x)) && Left(SetFirst(x)) == Left(x)
  {
  }

  lemma RightStaysUp(x: bv32)
    requires x & 0xFFFF == 0 && x & 0x1_0000 == 0
    ensures Right(x) & 0xFFFF == 0 && SetFirst(Right(x)) & 0xFFFF == 0 && x & 1 == 0
  {
  }

  lemma PolyTurnsLast(x: bv32, poly: bv32, degree: nat)
    requires Last(poly, degree)
    ensures Last(Plus(x, poly), degree) == !Last(x, degree)
  {
  }

  lemma DivideUndoes(f: Format, x: bv32)
    requires f.Valid() && Fits(x, f.degree)
    ensures Fits(Undivide(x, f), f.degree) && Divide(Undivide(x, f), f.poly) == x
  {
    hide First, Left, Right, Last, SetFirst, Plus, Fits, IsTable;
    var y := Plus(x, f.poly);
    PolyTurnsLast(x, f.poly, f.degree);
    PlusFits(x, f.poly, f.degree);
    if Last(x, f.degree) {
      LeftUndoesRight(y, f.degree);
      PlusCancels(x, f.poly);
    } else {
      LeftUndoesRight(x, f.degree);
    }
  }

  lemma UndivideUndoes(f: Format, x: bv32)
    requires f.Valid() && Fits(x, f.degree)
    ensures Fits(Divide(x, f.poly), f.degree) && Undivide(Divide(x, f.poly), f) == x
  {
    hide First, Left, Right, Last, SetFirst, Plus, Fits, IsTable;
    DivideFits(x, f.poly, f.degree);
    LeftLeavesLastClear(x, f.degree);
    RightUndoesLeft(x);
    PolyTurnsLast(Left(x), f.poly, f.degree);
    PlusCancels(Left(x), f.poly);
  }

  lemma Undivide8Inverts(f: Format, x: bv32)
    requires f.Valid() && Fits(x, f.degree)
    ensures Fits(Undivide8(x, f), f.degree) && Divide8(Undivide8(x, f), f.poly) == x
    ensures Fits(Divide8(x, f.poly), f.degree) && Undivide8(Divide8(x, f.poly), f) == x
  {
    hide Divide, Undivide, Fits, IsTable, Last;
    forall y: bv32 | Fits(y, f.degree)
      ensures Fits(Undivide(y, f), f.degree) && Divide(Undivide(y, f), f.poly) == y
      ensures Fits(Divide(y, f.poly), f.degree) && Undivide(Divide(y, f.poly), f) == y
    {
      DivideUndoes(f, y);
      UndivideUndoes(f, y);
    }
  }

  lemma EnterTwice(crc: bv32, b: bv8, degree: nat)
    requires Fits(crc, degree)
    ensures Fits(Enter(crc, b), degree) && Enter(Enter(crc, b), b) == crc
  {
    hide Plus, Head;
    HeadFits(b, degree);
    PlusFits(crc, Head(b), degree);
    PlusCancels(crc, Head(b));
  }

  /** For a fixed buffer the CRC is a bijection of the initial value. */
  lemma {:induction false} CalcIsBijective(f: Format, crc: bv32, buffer: seq<bv8>)
    requires f.Valid() && Fits(crc, f.degree)
    ensures Fits(f.Rewound(crc, buffer), f.degree) && f.Calc(f.Rewound(crc, buffer), buffer) == crc
    ensures Fits(f.Calc(crc, buffer), f.degree) && f.Rewound(f.Calc(crc, buffer), buffer) == crc
    decreases |buffer|
  {
    hide f.Next, Divide8, Undivide8, Enter, Fits, Last, IsTable;
    if buffer != [] {
      var b, later := buffer[0], f.Rewound(crc, buffer[1..]);
      CalcIsBijective(f, crc, buffer[1..]);
      Undivide8Inverts(f, later);
      EnterTwice(Undivide8(later, f), b, f.degree);
      NextIsDivide8(f, f.Rewound(crc, buffer), b);
      NextIsDivide8(f, crc, b);
      EnterTwice(crc, b, f.degree);
      Undivide8Inverts(f, Enter(crc, b));
      CalcIsBijective(f, f.Next(crc, b), buffer[1..]);
    }
  }

  // ----- What the CRC detects

  /** No error burst of up to as many bits as the degree goes unnoticed, wherever it starts. */
  lemma BurstIsNoticed(f: Format, crc: bv32, a: seq<bv8>, b: seq<bv8>)
    requires f.Valid() && Fits(crc, f.degree) && IsBurst(BitsOf(a), BitsOf(b), f.degree)
    ensures f.Calc(crc, a) != f.Calc(crc, b)
  {
    hide Top, f.Calc, Run, BitsOf, IsBurst, Odd, Fits, Last, IsTable;
    GeneratorIsOdd(f);
    CalcIsRun(f, crc, a);
    CalcIsRun(f, crc, b);
    BurstIsDetected(f.Generator(), Top(crc, f.degree), BitsOf(a), BitsOf(b));
  }

  /** A change of one byte of a buffer is a burst of at most eight bits. */
  lemma OneByteIsBurst(a: seq<bv8>, b: seq<bv8>, k: nat, degree: nat)
    requires |a| == |b| && k < |a| && a[k] != b[k] && degree >= 8
    requires forall i :: 0 <= i < |a| && i != k ==> a[i] == b[i]
    ensures IsBurst(BitsOf(a), BitsOf(b), degree)
  {
    hide ByteBits, BitsOf, IsBurst;
    assert a[..k] == b[..k] && a[k + 1..] == b[k + 1..];
    BitsAround(a, k);
    BitsAround(b, k);
    ByteBitsDiffer(a[k], b[k]);
    BurstInside(BitsOf(a[..k]), ByteBits(a[k]), ByteBits(b[k]), BitsOf(a[k + 1..]), degree);
  }

  // ----- Appending the CRC

  /** The bytes of a word, most significant byte first. */
  function BigEndian(x: bv32, degree: nat): seq<bv8> {
    var upper := [FirstByte(x), FirstByte(LeftByte(x))];
    if degree == 16 then upper
    else upper + [FirstByte(LeftByte(LeftByte(x))), FirstByte(LeftByte(LeftByte(LeftByte(x))))]
  }

  lemma TwoBytesBits(x: bv32)
    ensures BitsOf([FirstByte(x), FirstByte(LeftByte(x))]) == Top(x, 16)
  {
    hide Top, Shift, FirstByte, LeftByte, BitsOf, ByteBits;
    var b0, b1 := FirstByte(x), FirstByte(LeftByte(x));
    assert [b0, b1] == [b0] + [b1];
    BitsOfConcat([b0], [b1]);
    BitsOfOne(b0);
    BitsOfOne(b1);
    TopSplits(x, 8, 8);
    Shift8(x);
    TopByte(x);
    TopByte(LeftByte(x));
  }

  lemma BigEndianBits(x: bv32, degree: nat)
    requires degree == 16 || degree == 32
    ensures BitsOf(BigEndian(x, degree)) == Top(x, degree)
  {
    hide Top, Shift, FirstByte, LeftByte, BitsOf;
    TwoBytesBits(x);
    if degree == 32 {
      var lower := LeftByte(LeftByte(x));
      TwoBytesBits(lower);
      BitsOfConcat([FirstByte(x), FirstByte(LeftByte(x))], [FirstByte(lower), FirstByte(LeftByte(lower))]);
      TopSplits(x, 16, 16);
      ShiftBytes(x);
    }
  }

  /** A buffer followed by its own CRC, most significant byte first, has CRC zero. */
  lemma AppendedCrcVanishes(f: Format, crc: bv32, buffer: seq<bv8>)
    requires f.Valid() && Fits(crc, f.degree)
    ensures f.Calc(crc, buffer + BigEndian(f.Calc(crc, buffer), f.degree)) == 0
  {
    hide f.Calc, BigEndian, BitsOf, Run, Top, Shift, Last, IsTable;
    var r := f.Calc(crc, buffer);
    var all := buffer + BigEndian(r, f.degree);
    CalcIsRun(f, crc, buffer);
    CalcIsRun(f, crc, all);
    BitsOfConcat(buffer, BigEndian(r, f.degree));
    BigEndianBits(r, f.degree);
    AppendedRemainderVanishes(f.Generator(), Top(crc, f.degree), BitsOf(buffer));
    FitsMeansNoMore(f.Calc(crc, all), f.degree);
    NoBitsNoWord(f.Calc(crc, all), f.degree);
  }
}
