/**
 The 32-bit CRC, after `crc_calc` in lib/dtv-util/src/functions.cpp: a loop over the bytes of a
 buffer with a table of 256 words.  The generator is the CRC_32 of Annex A of ISO/IEC 13818-1.
 */
module Crc32 {
  import opened PolynomialDivision
  import opened WordBits
  import opened TableCrc

  type Word = bv32

  const POLY: Word := 0x04c11db7

  // ----- The constant table, sixteen entries a row

  const ROW_0: seq<Word> := [
    0x00000000, 0x04c11db7, 0x09823b6e, 0x0d4326d9, 0x130476dc, 0x17c56b6b, 0x1a864db2, 0x1e475005,
    0x2608edb8, 0x22c9f00f, 0x2f8ad6d6, 0x2b4bcb61, 0x350c9b64, 0x31cd86d3, 0x3c8ea00a, 0x384fbdbd]
  const ROW_1: seq<Word> := [
    0x4c11db70, 0x48d0c6c7, 0x4593e01e, 0x4152fda9, 0x5f15adac, 0x5bd4b01b, 0x569796c2, 0x52568b75,
    0x6a1936c8, 0x6ed82b7f, 0x639b0da6, 0x675a1011, 0x791d4014, 0x7ddc5da3, 0x709f7b7a, 0x745e66cd]
  const ROW_2: seq<Word> := [
    0x9823b6e0, 0x9ce2ab57, 0x91a18d8e, 0x95609039, 0x8b27c03c, 0x8fe6dd8b, 0x82a5fb52, 0x8664e6e5,
    0xbe2b5b58, 0xbaea46ef, 0xb7a96036, 0xb3687d81, 0xad2f2d84, 0xa9ee3033, 0xa4ad16ea, 0xa06c0b5d]
  const ROW_3: seq<Word> := [
    0xd4326d90, 0xd0f37027, 0xddb056fe, 0xd9714b49, 0xc7361b4c, 0xc3f706fb, 0xceb42022, 0xca753d95,
    0xf23a8028, 0xf6fb9d9f, 0xfbb8bb46, 0xff79a6f1, 0xe13ef6f4, 0xe5ffeb43, 0xe8bccd9a, 0xec7dd02d]
  const ROW_4: seq<Word> := [
    0x34867077, 0x30476dc0, 0x3d044b19, 0x39c556ae, 0x278206ab, 0x23431b1c, 0x2e003dc5, 0x2ac12072,
    0x128e9dcf, 0x164f8078, 0x1b0ca6a1, 0x1fcdbb16, 0x018aeb13, 0x054bf6a4, 0x0808d07d, 0x0cc9cdca]
  const ROW_5: seq<Word> := [
    0x7897ab07, 0x7c56b6b0, 0x71159069, 0x75d48dde, 0x6b93dddb, 0x6f52c06c, 0x6211e6b5, 0x66d0fb02,
    0x5e9f46bf, 0x5a5e5b08, 0x571d7dd1, 0x53dc6066, 0x4d9b3063, 0x495a2dd4, 0x44190b0d, 0x40d816ba]
  const ROW_6: seq<Word> := [
    0xaca5c697, 0xa864db20, 0xa527fdf9, 0xa1e6e04e, 0xbfa1b04b, 0xbb60adfc, 0xb6238b25, 0xb2e29692,
    0x8aad2b2f, 0x8e6c3698, 0x832f1041, 0x87ee0df6, 0x99a95df3, 0x9d684044, 0x902b669d, 0x94ea7b2a]
  const ROW_7: seq<Word> := [
    0xe0b41de7, 0xe4750050, 0xe9362689, 0xedf73b3e, 0xf3b06b3b, 0xf771768c, 0xfa325055, 0xfef34de2,
    0xc6bcf05f, 0xc27dede8, 0xcf3ecb31, 0xcbffd686, 0xd5b88683, 0xd1799b34, 0xdc3abded, 0xd8fba05a]
  const ROW_8: seq<Word> := [
    0x690ce0ee, 0x6dcdfd59, 0x608edb80, 0x644fc637, 0x7a089632, 0x7ec98b85, 0x738aad5c, 0x774bb0eb,
    0x4f040d56, 0x4bc510e1, 0x46863638, 0x42472b8f, 0x5c007b8a, 0x58c1663d, 0x558240e4, 0x51435d53]
  const ROW_9: seq<Word> := [
    0x251d3b9e, 0x21dc2629, 0x2c9f00f0, 0x285e1d47, 0x36194d42, 0x32d850f5, 0x3f9b762c, 0x3b5a6b9b,
    0x0315d626, 0x07d4cb91, 0x0a97ed48, 0x0e56f0ff, 0x1011a0fa, 0x14d0bd4d, 0x19939b94, 0x1d528623]
  const ROW_A: seq<Word> := [
    0xf12f560e, 0xf5ee4bb9, 0xf8ad6d60, 0xfc6c70d7, 0xe22b20d2, 0xe6ea3d65, 0xeba91bbc, 0xef68060b,
    0xd727bbb6, 0xd3e6a601, 0xdea580d8, 0xda649d6f, 0xc423cd6a, 0xc0e2d0dd, 0xcda1f604, 0xc960ebb3]
  const ROW_B: seq<Word> := [
    0xbd3e8d7e, 0xb9ff90c9, 0xb4bcb610, 0xb07daba7, 0xae3afba2, 0xaafbe615, 0xa7b8c0cc, 0xa379dd7b,
    0x9b3660c6, 0x9ff77d71, 0x92b45ba8, 0x9675461f, 0x8832161a, 0x8cf30bad, 0x81b02d74, 0x857130c3]
  const ROW_C: seq<Word> := [
    0x5d8a9099, 0x594b8d2e, 0x5408abf7, 0x50c9b640, 0x4e8ee645, 0x4a4ffbf2, 0x470cdd2b, 0x43cdc09c,
    0x7b827d21, 0x7f436096, 0x7200464f, 0x76c15bf8, 0x68860bfd, 0x6c47164a, 0x61043093, 0x65c52d24]
  const ROW_D: seq<Word> := [
    0x119b4be9, 0x155a565e, 0x18197087, 0x1cd86d30, 0x029f3d35, 0x065e2082, 0x0b1d065b, 0x0fdc1bec,
    0x3793a651, 0x3352bbe6, 0x3e119d3f, 0x3ad08088, 0x2497d08d, 0x2056cd3a, 0x2d15ebe3, 0x29d4f654]
  const ROW_E: seq<Word> := [
    0xc5a92679, 0xc1683bce, 0xcc2b1d17, 0xc8ea00a0, 0xd6ad50a5, 0xd26c4d12, 0xdf2f6bcb, 0xdbee767c,
    0xe3a1cbc1, 0xe760d676, 0xea23f0af, 0xeee2ed18, 0xf0a5bd1d, 0xf464a0aa, 0xf9278673, 0xfde69bc4]
  const ROW_F: seq<Word> := [
    0x89b8fd09, 0x8d79e0be, 0x803ac667, 0x84fbdbd0, 0x9abc8bd5, 0x9e7d9662, 0x933eb0bb, 0x97ffad0c,
    0xafb010b1, 0xab710d06, 0xa6322bdf, 0xa2f33668, 0xbcb4666d, 0xb8757bda, 0xb5365d03, 0xb1f740b4]

  function Rows(): (r: seq<seq<Word>>)
    ensures IsGrid(r)
  {
    [ROW_0, ROW_1, ROW_2, ROW_3, ROW_4, ROW_5, ROW_6, ROW_7,
     ROW_8, ROW_9, ROW_A, ROW_B, ROW_C, ROW_D, ROW_E, ROW_F]
  }

  /** The table, row after row. */
  function Table(): (r: seq<Word>)
    ensures |r| == 256
  {
    FlattenAt(Rows(), 0, 0);
    Flatten(Rows())
  }

  // ----- What the entries are

  lemma Rows1To3()
    ensures RowFits(ROW_1, ROW_0)
    ensures RowFits(ROW_2, ROW_0)
    ensures RowFits(ROW_3, ROW_0)
  {
  }

  lemma Rows4To6()
    ensures RowFits(ROW_4, ROW_0)
    ensures RowFits(ROW_5, ROW_0)
    ensures RowFits(ROW_6, ROW_0)
  {
  }

  lemma Rows7To9()
    ensures RowFits(ROW_7, ROW_0)
    ensures RowFits(ROW_8, ROW_0)
    ensures RowFits(ROW_9, ROW_0)
  {
  }

  lemma RowsAToC()
    ensures RowFits(ROW_A, ROW_0)
    ensures RowFits(ROW_B, ROW_0)
    ensures RowFits(ROW_C, ROW_0)
  {
  }

  lemma RowsDToF()
    ensures RowFits(ROW_D, ROW_0)
    ensures RowFits(ROW_E, ROW_0)
    ensures RowFits(ROW_F, ROW_0)
  {
  }

  lemma FirstRow()
    ensures Sums(ROW_0) && PowersDivide(ROW_0, Heads(), POLY)
  {
  }

  /** The first entries of the rows. */
  function FirstEntries(): seq<Word> {
    [ROW_0[0], ROW_1[0], ROW_2[0], ROW_3[0], ROW_4[0], ROW_5[0], ROW_6[0], ROW_7[0],
     ROW_8[0], ROW_9[0], ROW_A[0], ROW_B[0], ROW_C[0], ROW_D[0], ROW_E[0], ROW_F[0]]
  }

  lemma FirstEntriesAre()
    ensures |FirstEntries()| == 16 && forall k :: 0 <= k < 16 ==> Rows()[k][0] == FirstEntries()[k]
  {
  }

  lemma FirstEntriesAreColumn()
    ensures Column(Rows()) == FirstEntries()
  {
    hide FirstEntries, Rows;
    FirstEntriesAre();
  }

  lemma FirstColumnAdds()
    ensures Sums(FirstEntries())
  {
  }

  lemma FirstColumnDivides()
    ensures PowersDivide(FirstEntries(), HalfHeads(), POLY)
  {
  }

  /** The loop's generator and table. */
  function Division(): Format {
    Format(32, POLY, Table())
  }

  /** Every entry is eight division steps of its index. */
  lemma EntryIsEightSteps(b: bv8)
    ensures b as int < 256 && Table()[b as int] == Divide8(Head(b), POLY)
  {
    hide Divide8, Head, RowFits, Flatten;
    DivisionIsValid();
  }

  lemma AllRowsFit()
    ensures RowsFit(Rows()) && Rows()[0] == ROW_0
  {
    hide RowFits;
    Rows1To3();
    Rows4To6();
    Rows7To9();
    RowsAToC();
    RowsDToF();
  }

  lemma DivisionIsValid()
    ensures Division().Valid()
  {
    hide Divide8, RowFits, RowsFit, Sums, PowersDivide, Heads, HalfHeads, Column, FirstEntries, Flatten;
    AllRowsFit();
    FirstRow();
    FirstEntriesAreColumn();
    FirstColumnAdds();
    FirstColumnDivides();
    RowsMakeTable(Rows(), POLY);
  }

  // ----- The loop

  function Slot(crc: Word, b: bv8): (i: nat)
    ensures i < 256
  {
    (((crc >> 24) ^ (b as Word)) & 0xFF) as int
  }

  /** The word without its first byte, and the entry of the table added. */
  function Round(crc: Word, entry: Word): Word {
    (crc << 8) ^ entry
  }

  function Next(crc: Word, b: bv8): Word {
    Round(crc, Table()[Slot(crc, b)])
  }

  function Calc(crc: Word, buffer: seq<bv8>): Word
    decreases |buffer|
  {
    if buffer == [] then crc else Calc(Next(crc, buffer[0]), buffer[1..])
  }

  method Calculate(crc: Word, buffer: seq<bv8>) returns (r: Word)
    ensures r == Calc(crc, buffer)
  {
    hide Table, Slot;
    r := crc;
    var i := 0;
    while i < |buffer|
      invariant i <= |buffer|
      invariant Calc(r, buffer[i..]) == Calc(crc, buffer)
    {
      assert buffer[i..][0] == buffer[i] && buffer[i..][1..] == buffer[i + 1..];
      r := (r << 8) ^ Table()[Slot(r, buffer[i])];
      i := i + 1;
    }
  }

  lemma SlotIsByte(crc: Word, b: bv8)
    ensures Slot(crc, b) == (FirstByte(crc) ^ b) as int
  {
    ByteOfSlot(crc, b);
  }

  lemma ByteOfSlot(crc: Word, b: bv8)
    ensures ((crc >> 24) ^ (b as Word)) & 0xFF == (FirstByte(crc) ^ b) as Word
  {
  }

  /** One round of the loop is eight division steps of the word with the byte added to its head. */
  lemma NextIsDivide8(crc: Word, b: bv8)
    ensures Next(crc, b) == Divide8(Enter(crc, b), POLY)
  {
    hide Divide8, Enter, FirstByte, Table, Slot, Plus, LeftByte, RowFits;
    DivisionIsValid();
    NextIsRound(crc, b);
    TableCrc.NextIsDivide8(Division(), crc, b);
  }

  lemma NextIsRound(crc: Word, b: bv8)
    ensures |Division().table| == 256 && Next(crc, b) == Division().Next(crc, b)
  {
    hide FirstByte, Slot, Table;
    SlotIsByte(crc, b);
  }

  /** The loop does what `TableCrc` is about. */
  lemma {:induction false} CalcIsDivision(crc: Word, buffer: seq<bv8>)
    ensures |Division().table| == 256 && Calc(crc, buffer) == Division().Calc(crc, buffer)
    decreases |buffer|
  {
    hide Next, Division().Next, Division;
    NextIsRound(crc, 0);
    if buffer != [] {
      NextIsRound(crc, buffer[0]);
      CalcIsDivision(Next(crc, buffer[0]), buffer[1..]);
    }
  }

  // ----- What follows

  /**
   The table-driven loop is the long division: its bits are the remainder of the buffer followed
   by 32 zeros, with the initial value added to the first bits.
   */
  lemma CalcIsLongDivision(crc: Word, buffer: seq<bv8>)
    ensures Top(Calc(crc, buffer), 32) ==
            LongDivide(Top(POLY, 32), XorPrefix(BitsOf(buffer) + Zeros(32), Top(crc, 32)))
  {
    hide Top, Calc, LongDivide, Flatten;
    DivisionIsValid();
    CalcIsDivision(crc, buffer);
    TableCrc.CalcIsLongDivision(Division(), crc, buffer);
  }

  /** The initial value that leads to a CRC. */
  function Rewound(crc: Word, buffer: seq<bv8>): Word {
    Division().Rewound(crc, buffer)
  }

  /** For a fixed buffer the CRC is a bijection of the initial value. */
  lemma CalcIsBijective(crc: Word, buffer: seq<bv8>)
    ensures Calc(Rewound(crc, buffer), buffer) == crc && Rewound(Calc(crc, buffer), buffer) == crc
  {
    hide Calc, Flatten, Division().Calc, Division().Rewound;
    DivisionIsValid();
    CalcIsDivision(crc, buffer);
    CalcIsDivision(Rewound(crc, buffer), buffer);
    TableCrc.CalcIsBijective(Division(), crc, buffer);
  }

  /** No error burst of up to 32 bits goes unnoticed, wherever it starts. */
  lemma BurstIsNoticed(crc: Word, a: seq<bv8>, b: seq<bv8>)
    requires IsBurst(BitsOf(a), BitsOf(b), 32)
    ensures Calc(crc, a) != Calc(crc, b)
  {
    hide Calc, BitsOf, IsBurst, Flatten;
    DivisionIsValid();
    CalcIsDivision(crc, a);
    CalcIsDivision(crc, b);
    TableCrc.BurstIsNoticed(Division(), crc, a, b);
  }

  /** Two buffers of one length that differ in exactly one byte have different CRCs. */
  lemma OneByteIsNoticed(crc: Word, a: seq<bv8>, b: seq<bv8>, k: nat)
    requires |a| == |b| && k < |a| && a[k] != b[k]
    requires forall i :: 0 <= i < |a| && i != k ==> a[i] == b[i]
    ensures Calc(crc, a) != Calc(crc, b)
  {
    hide Calc, BitsOf, IsBurst;
    OneByteIsBurst(a, b, k, 32);
    BurstIsNoticed(crc, a, b);
  }

  /** A buffer followed by its own CRC, most significant byte first, has CRC zero. */
  lemma AppendedCrcVanishes(crc: Word, buffer: seq<bv8>)
    ensures Calc(crc, buffer + BigEndian(Calc(crc, buffer), 32)) == 0
  {
    hide Calc, Flatten, BigEndian;
    DivisionIsValid();
    CalcIsDivision(crc, buffer);
    CalcIsDivision(crc, buffer + BigEndian(Calc(crc, buffer), 32));
    TableCrc.AppendedCrcVanishes(Division(), crc, buffer);
  }
}
