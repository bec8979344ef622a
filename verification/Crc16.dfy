/**
 The 16-bit CRC, after `crc16_calc` in lib/dtv-util/src/functions.cpp: a loop over the bytes of a
 buffer with a table of 256 words, for the generator 0x1021.
 */
module Crc16 {
  import opened PolynomialDivision
  import opened WordBits
  import opened TableCrc

  type Word = bv16

  const POLY: Word := 0x1021

  // ----- The constant table, sixteen entries a row

  const ROW_0: seq<Word> := [
    0x0000, 0x1021, 0x2042, 0x3063, 0x4084, 0x50a5, 0x60c6, 0x70e7,
    0x8108, 0x9129, 0xa14a, 0xb16b, 0xc18c, 0xd1ad, 0xe1ce, 0xf1ef]
  const ROW_1: seq<Word> := [
    0x1231, 0x0210, 0x3273, 0x2252, 0x52b5, 0x4294, 0x72f7, 0x62d6,
    0x9339, 0x8318, 0xb37b, 0xa35a, 0xd3bd, 0xc39c, 0xf3ff, 0xe3de]
  const ROW_2: seq<Word> := [
    0x2462, 0x3443, 0x0420, 0x1401, 0x64e6, 0x74c7, 0x44a4, 0x5485,
    0xa56a, 0xb54b, 0x8528, 0x9509, 0xe5ee, 0xf5cf, 0xc5ac, 0xd58d]
  const ROW_3: seq<Word> := [
    0x3653, 0x2672, 0x1611, 0x0630, 0x76d7, 0x66f6, 0x5695, 0x46b4,
    0xb75b, 0xa77a, 0x9719, 0x8738, 0xf7df, 0xe7fe, 0xd79d, 0xc7bc]
  const ROW_4: seq<Word> := [
    0x48c4, 0x58e5, 0x6886, 0x78a7, 0x0840, 0x1861, 0x2802, 0x3823,
    0xc9cc, 0xd9ed, 0xe98e, 0xf9af, 0x8948, 0x9969, 0xa90a, 0xb92b]
  const ROW_5: seq<Word> := [
    0x5af5, 0x4ad4, 0x7ab7, 0x6a96, 0x1a71, 0x0a50, 0x3a33, 0x2a12,
    0xdbfd, 0xcbdc, 0xfbbf, 0xeb9e, 0x9b79, 0x8b58, 0xbb3b, 0xab1a]
  const ROW_6: seq<Word> := [
    0x6ca6, 0x7c87, 0x4ce4, 0x5cc5, 0x2c22, 0x3c03, 0x0c60, 0x1c41,
    0xedae, 0xfd8f, 0xcdec, 0xddcd, 0xad2a, 0xbd0b, 0x8d68, 0x9d49]
  const ROW_7: seq<Word> := [
    0x7e97, 0x6eb6, 0x5ed5, 0x4ef4, 0x3e13, 0x2e32, 0x1e51, 0x0e70,
    0xff9f, 0xefbe, 0xdfdd, 0xcffc, 0xbf1b, 0xaf3a, 0x9f59, 0x8f78]
  const ROW_8: seq<Word> := [
    0x9188, 0x81a9, 0xb1ca, 0xa1eb, 0xd10c, 0xc12d, 0xf14e, 0xe16f,
    0x1080, 0x00a1, 0x30c2, 0x20e3, 0x5004, 0x4025, 0x7046, 0x6067]
  const ROW_9: seq<Word> := [
    0x83b9, 0x9398, 0xa3fb, 0xb3da, 0xc33d, 0xd31c, 0xe37f, 0xf35e,
    0x02b1, 0x1290, 0x22f3, 0x32d2, 0x4235, 0x5214, 0x6277, 0x7256]
  const ROW_A: seq<Word> := [
    0xb5ea, 0xa5cb, 0x95a8, 0x8589, 0xf56e, 0xe54f, 0xd52c, 0xc50d,
    0x34e2, 0x24c3, 0x14a0, 0x0481, 0x7466, 0x6447, 0x5424, 0x4405]
  const ROW_B: seq<Word> := [
    0xa7db, 0xb7fa, 0x8799, 0x97b8, 0xe75f, 0xf77e, 0xc71d, 0xd73c,
    0x26d3, 0x36f2, 0x0691, 0x16b0, 0x6657, 0x7676, 0x4615, 0x5634]
  const ROW_C: seq<Word> := [
    0xd94c, 0xc96d, 0xf90e, 0xe92f, 0x99c8, 0x89e9, 0xb98a, 0xa9ab,
    0x5844, 0x4865, 0x7806, 0x6827, 0x18c0, 0x08e1, 0x3882, 0x28a3]
  const ROW_D: seq<Word> := [
    0xcb7d, 0xdb5c, 0xeb3f, 0xfb1e, 0x8bf9, 0x9bd8, 0xabbb, 0xbb9a,
    0x4a75, 0x5a54, 0x6a37, 0x7a16, 0x0af1, 0x1ad0, 0x2ab3, 0x3a92]
  const ROW_E: seq<Word> := [
    0xfd2e, 0xed0f, 0xdd6c, 0xcd4d, 0xbdaa, 0xad8b, 0x9de8, 0x8dc9,
    0x7c26, 0x6c07, 0x5c64, 0x4c45, 0x3ca2, 0x2c83, 0x1ce0, 0x0cc1]
  const ROW_F: seq<Word> := [
    0xef1f, 0xff3e, 0xcf5d, 0xdf7c, 0xaf9b, 0xbfba, 0x8fd9, 0x9ff8,
    0x6e17, 0x7e36, 0x4e55, 0x5e74, 0x2e93, 0x3eb2, 0x0ed1, 0x1ef0]

  function Rows(): (r: seq<seq<Word>>)
    ensures IsGrid(r)
  {
    [ROW_0, ROW_1, ROW_2, ROW_3, ROW_4, ROW_5, ROW_6, ROW_7,
     ROW_8, ROW_9, ROW_A, ROW_B, ROW_C, ROW_D, ROW_E, ROW_F]
  }

  /** The table, row after row. */
  function Table(): (r: seq<Word>)
    ensures |r| == 256
  {
    FlattenAt(Rows(), 0, 0);
    Flatten(Rows())
  }

  // ----- A word in the upper half of 32 bits

  function Lift(x: Word): bv32 {
    (x as bv32) << 16
  }

  function Lower(x: bv32): Word {
    (x >> 16) as Word
  }

  lemma LiftFits(x: Word)
    ensures Fits(Lift(x), 16) && Lower(Lift(x)) == x
  {
  }

  lemma LowerLifts(x: bv32)
    requires Fits(x, 16)
    ensures Lift(Lower(x)) == x
  {
  }

  function LiftedRow(row: seq<Word>): (r: seq<bv32>)
    ensures |r| == |row| && forall j :: 0 <= j < |r| ==> r[j] == Lift(row[j])
  {
    seq(|row|, j requires 0 <= j < |row| => Lift(row[j]))
  }

  function LiftedRows(): (r: seq<seq<bv32>>)
    ensures IsGrid(r) && forall k :: 0 <= k < 16 ==> r[k] == LiftedRow(Rows()[k])
  {
    seq(16, k requires 0 <= k < 16 => LiftedRow(Rows()[k]))
  }

  lemma LiftedEntry(b: bv8)
    ensures |Flatten(LiftedRows())| == 256 && Flatten(LiftedRows())[b as int] == Lift(Table()[b as int])
  {
    hide Rows, Lift;
    IndexSplits(b);
    FlattenAt(Rows(), (b >> 4) as int, (b & 15) as int);
    FlattenAt(LiftedRows(), (b >> 4) as int, (b & 15) as int);
  }

  // ----- What the entries are

  lemma Rows1To3()
    ensures RowFits(LiftedRow(ROW_1), LiftedRow(ROW_0))
    ensures RowFits(LiftedRow(ROW_2), LiftedRow(ROW_0))
    ensures RowFits(LiftedRow(ROW_3), LiftedRow(ROW_0))
  {
  }

  lemma Rows4To6()
    ensures RowFits(LiftedRow(ROW_4), LiftedRow(ROW_0))
    ensures RowFits(LiftedRow(ROW_5), LiftedRow(ROW_0))
    ensures RowFits(LiftedRow(ROW_6), LiftedRow(ROW_0))
  {
  }

  lemma Rows7To9()
    ensures RowFits(LiftedRow(ROW_7), LiftedRow(ROW_0))
    ensures RowFits(LiftedRow(ROW_8), LiftedRow(ROW_0))
    ensures RowFits(LiftedRow(ROW_9), LiftedRow(ROW_0))
  {
  }

  lemma RowsAToC()
    ensures RowFits(LiftedRow(ROW_A), LiftedRow(ROW_0))
    ensures RowFits(LiftedRow(ROW_B), LiftedRow(ROW_0))
    ensures RowFits(LiftedRow(ROW_C), LiftedRow(ROW_0))
  {
  }

  lemma RowsDToF()
    ensures RowFits(LiftedRow(ROW_D), LiftedRow(ROW_0))
    ensures RowFits(LiftedRow(ROW_E), LiftedRow(ROW_0))
    ensures RowFits(LiftedRow(ROW_F), LiftedRow(ROW_0))
  {
  }

  lemma FirstRow()
    ensures Sums(LiftedRow(ROW_0)) && PowersDivide(LiftedRow(ROW_0), Heads(), Lift(POLY))
  {
  }

  /** The first entries of the rows. */
  function FirstEntries(): seq<Word> {
    [ROW_0[0], ROW_1[0], ROW_2[0], ROW_3[0], ROW_4[0], ROW_5[0], ROW_6[0], ROW_7[0],
     ROW_8[0], ROW_9[0], ROW_A[0], ROW_B[0], ROW_C[0], ROW_D[0], ROW_E[0], ROW_F[0]]
  }

  lemma FirstEntriesAre()
    ensures |FirstEntries()| == 16 && forall k :: 0 <= k < 16 ==> Rows()[k][0] == FirstEntries()[k]
  {
  }

  lemma FirstEntriesAreColumn()
    ensures Column(LiftedRows()) == LiftedRow(FirstEntries())
  {
    hide FirstEntries, Rows, Lift;
    FirstEntriesAre();
  }

  lemma FirstColumnAdds()
    ensures Sums(LiftedRow(FirstEntries()))
  {
  }

  lemma FirstColumnDivides()
    ensures PowersDivide(LiftedRow(FirstEntries()), HalfHeads(), Lift(POLY))
  {
  }

  /** The loop's generator and table, in the upper half of 32 bits. */
  function Division(): Format {
    Format(16, Lift(POLY), Flatten(LiftedRows()))
  }

  /** Every entry is eight division steps of its index. */
  lemma EntryIsEightSteps(b: bv8)
    ensures b as int < 256 && Lift(Table()[b as int]) == Divide8(Head(b), Lift(POLY))
  {
    hide Divide8, Head, RowFits, Flatten;
    DivisionIsValid();
    LiftedEntry(b);
  }

  lemma AllRowsFit()
    ensures RowsFit(LiftedRows()) && LiftedRows()[0] == LiftedRow(ROW_0)
  {
    hide RowFits;
    Rows1To3();
    Rows4To6();
    Rows7To9();
    RowsAToC();
    RowsDToF();
  }

  lemma DivisionIsValid()
    ensures Division().Valid()
  {
    hide Divide8, RowFits, RowsFit, Sums, PowersDivide, Heads, HalfHeads, Column, FirstEntries, Flatten, LiftedRow;
    AllRowsFit();
    FirstRow();
    FirstEntriesAreColumn();
    FirstColumnAdds();
    FirstColumnDivides();
    RowsMakeTable(LiftedRows(), Lift(POLY));
  }

  // ----- The loop

  function Slot(crc: Word, b: bv8): (i: nat)
    ensures i < 256
  {
    (((crc >> 8) ^ (b as Word)) & 0xFF) as int
  }

  /** The word without its first byte, and the entry of the table added. */
  function Round(crc: Word, entry: Word): Word {
    (crc << 8) ^ entry
  }

  function Next(crc: Word, b: bv8): Word {
    Round(crc, Table()[Slot(crc, b)])
  }

  function Calc(crc: Word, buffer: seq<bv8>): Word
    decreases |buffer|
  {
    if buffer == [] then crc else Calc(Next(crc, buffer[0]), buffer[1..])
  }

  method Calculate(crc: Word, buffer: seq<bv8>) returns (r: Word)
    ensures r == Calc(crc, buffer)
  {
    hide Table, Slot;
    r := crc;
    var i := 0;
    while i < |buffer|
      invariant i <= |buffer|
      invariant Calc(r, buffer[i..]) == Calc(crc, buffer)
    {
      assert buffer[i..][0] == buffer[i] && buffer[i..][1..] == buffer[i + 1..];
      r := (r << 8) ^ Table()[Slot(r, buffer[i])];
      i := i + 1;
    }
  }

  lemma SlotIsByte(crc: Word, b: bv8)
    ensures Slot(crc, b) == (FirstByte(Lift(crc)) ^ b) as int
  {
    ByteOfSlot(crc, b);
  }

  lemma ByteOfSlot(crc: Word, b: bv8)
    ensures ((crc >> 8) ^ (b as Word)) & 0xFF == (FirstByte(Lift(crc)) ^ b) as Word
  {
  }

  lemma LiftOfRound(crc: Word, entry: Word)
    ensures Lift(Round(crc, entry)) == Plus(LeftByte(Lift(crc)), Lift(entry))
  {
  }

  /** One round of the loop is eight division steps of the word with the byte added to its head. */
  lemma NextIsDivide8(crc: Word, b: bv8)
    ensures Lift(Next(crc, b)) == Divide8(Enter(Lift(crc), b), Lift(POLY))
  {
    hide Divide8, Enter, FirstByte, Table, Slot, Plus, LeftByte, RowFits, Lift;
    DivisionIsValid();
    NextIsRound(crc, b);
    TableCrc.NextIsDivide8(Division(), Lift(crc), b);
  }

  lemma NextIsRound(crc: Word, b: bv8)
    ensures |Division().table| == 256 && Lift(Next(crc, b)) == Division().Next(Lift(crc), b)
  {
    hide FirstByte, Slot, Table, Round, Lift, Plus, LeftByte, Flatten;
    SlotIsByte(crc, b);
    LiftedEntry(FirstByte(Lift(crc)) ^ b);
    LiftOfRound(crc, Table()[Slot(crc, b)]);
  }

  /** The loop does what `TableCrc` is about. */
  lemma {:induction false} CalcIsDivision(crc: Word, buffer: seq<bv8>)
    ensures |Division().table| == 256 && Lift(Calc(crc, buffer)) == Division().Calc(Lift(crc), buffer)
    decreases |buffer|
  {
    hide Next, Division().Next, Division, Lift;
    NextIsRound(crc, 0);
    if buffer != [] {
      NextIsRound(crc, buffer[0]);
      CalcIsDivision(Next(crc, buffer[0]), buffer[1..]);
    }
  }

  // ----- What follows

  /**
   The table-driven loop is the long division: its bits are the remainder of the buffer followed
   by 16 zeros, with the initial value added to the first bits.
   */
  lemma CalcIsLongDivision(crc: Word, buffer: seq<bv8>)
    ensures Top(Lift(Calc(crc, buffer)), 16) ==
            LongDivide(Top(Lift(POLY), 16), XorPrefix(BitsOf(buffer) + Zeros(16), Top(Lift(crc), 16)))
  {
    hide Top, Calc, LongDivide, Flatten, Lift, Fits;
    DivisionIsValid();
    CalcIsDivision(crc, buffer);
    LiftFits(crc);
    TableCrc.CalcIsLongDivision(Division(), Lift(crc), buffer);
  }

  /** The initial value that leads to a CRC. */
  function Rewound(crc: Word, buffer: seq<bv8>): Word {
    Lower(Division().Rewound(Lift(crc), buffer))
  }

  /** For a fixed buffer the CRC is a bijection of the initial value. */
  lemma CalcIsBijective(crc: Word, buffer: seq<bv8>)
    ensures Calc(Rewound(crc, buffer), buffer) == crc && Rewound(Calc(crc, buffer), buffer) == crc
  {
    hide Calc, Flatten, Division().Calc, Division().Rewound, Lift, Lower, Fits;
    DivisionIsValid();
    CalcIsDivision(crc, buffer);
    CalcIsDivision(Rewound(crc, buffer), buffer);
    LiftFits(crc);
    TableCrc.CalcIsBijective(Division(), Lift(crc), buffer);
    LiftFits(Calc(Rewound(crc, buffer), buffer));
    LowerLifts(Division().Rewound(Lift(crc), buffer));
  }

  /** No error burst of up to 16 bits goes unnoticed, wherever it starts. */
  lemma BurstIsNoticed(crc: Word, a: seq<bv8>, b: seq<bv8>)
    requires IsBurst(BitsOf(a), BitsOf(b), 16)
    ensures Calc(crc, a) != Calc(crc, b)
  {
    hide Calc, BitsOf, IsBurst, Flatten, Lift, Fits;
    DivisionIsValid();
    CalcIsDivision(crc, a);
    CalcIsDivision(crc, b);
    LiftFits(crc);
    TableCrc.BurstIsNoticed(Division(), Lift(crc), a, b);
  }

  /** Two buffers of one length that differ in exactly one byte have different CRCs. */
  lemma OneByteIsNoticed(crc: Word, a: seq<bv8>, b: seq<bv8>, k: nat)
    requires |a| == |b| && k < |a| && a[k] != b[k]
    requires forall i :: 0 <= i < |a| && i != k ==> a[i] == b[i]
    ensures Calc(crc, a) != Calc(crc, b)
  {
    hide Calc, BitsOf, IsBurst;
    OneByteIsBurst(a, b, k, 16);
    BurstIsNoticed(crc, a, b);
  }

  /** A buffer followed by its own CRC, most significant byte first, has CRC zero. */
  lemma AppendedCrcVanishes(crc: Word, buffer: seq<bv8>)
    ensures Calc(crc, buffer + BigEndian(Lift(Calc(crc, buffer)), 16)) == 0
  {
    hide Calc, Flatten, BigEndian, Lift, Fits;
    DivisionIsValid();
    CalcIsDivision(crc, buffer);
    CalcIsDivision(crc, buffer + BigEndian(Lift(Calc(crc, buffer)), 16));
    LiftFits(crc);
    TableCrc.AppendedCrcVanishes(Division(), Lift(crc), buffer);
    LiftFits(Calc(crc, buffer + BigEndian(Lift(Calc(crc, buffer)), 16)));
    LiftFits(0);
    LiftOfZero();
  }

  lemma LiftOfZero()
    ensures Lift(0) == 0
  {
  }
}
