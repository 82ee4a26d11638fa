/**
 * The IDX helpers of src/examples/mnist.c: the byte swap reverse_int, the
 * `from`/`to` record range of read_labels and read_imgs, and the loops that
 * fill the label and image matrices. The file is an input byte sequence;
 * opening, seeking and reading it are not modelled as I/O.
 */
module Mnist {
  import opened MatrixSpec
  import opened Mat
  import opened Faults

  /** LBL_MN and IMG_MN (src/examples/mnist.c:20-21). */
  const LabelMagic: int := 2049
  const ImageMagic: int := 2051
  /** IMG_SIDE and IMG_SIZE (src/examples/mnist.c:16-17). */
  const ImageSide: nat := 28
  const ImageSize: nat := 784
  /** The width of a one-hot label row (the 10 of src/examples/mnist.c:58). */
  const Classes: nat := 10

  /** The asserts of read_labels and read_imgs, returned as values. */
  datatype IdxFault =
    | BadRange          // from >= 1 and (from <= to or to == -1)
    | ShortRead         // the file ends before the bytes the reader consumes
    | BadMagic          // the first word is not the file kind's magic number
    | RecordOutOfRange  // from not below the header's record count (as written), or above it (as intended)
    | BadShape          // an image file whose rows and cols are not both 28
    | LabelPastBuffer   // a label byte that makes the fill loop write past the matrix buffer
    | LabelOutOfRange   // a label byte that names no column of a one-hot row (intended reader only)

  // ---------------------------------------------------------------------
  // reverse_int and the header words
  // ---------------------------------------------------------------------

  /** An unsigned char of the file. */
  type Byte = x: int | 0 <= x < 0x100

  /**
   * The bit pattern of a 32-bit C `int`, read as an unsigned number. On
   * such a pattern `(i >> 8k) & 0xFF` is i / 256^k % 256, and `<<` and `|`
   * of bytes that do not overlap are multiplication and addition.
   */
  type Word32 = x: int | 0 <= x < 0x1_0000_0000

  /** Byte k of a word, byte 0 being the least significant: `(i >> 8k) & 0xFF`. */
  function ByteOf(v: Word32, k: nat): Byte
    requires k < 4
  {
    (if k == 0 then v else if k == 1 then v / 0x100 else if k == 2 then v / 0x100 / 0x100
     else v / 0x100 / 0x100 / 0x100) % 0x100
  }

  /** The word whose bytes, least significant first, are b0, b1, b2, b3. */
  function FromBytes(b0: Byte, b1: Byte, b2: Byte, b3: Byte): (v: Word32)
    ensures ByteOf(v, 0) == b0 && ByteOf(v, 1) == b1 && ByteOf(v, 2) == b2 && ByteOf(v, 3) == b3
  {
    var v := b0 + b1 * 0x100 + b2 * 0x1_0000 + b3 * 0x100_0000;
    assert v / 0x100 == b1 + b2 * 0x100 + b3 * 0x1_0000;
    assert v / 0x100 / 0x100 == b2 + b3 * 0x100;
    assert v / 0x100 / 0x100 / 0x100 == b3;
    v
  }

  /** A word is determined by its four bytes. */
  lemma FromByteOf(v: Word32)
    ensures v == FromBytes(ByteOf(v, 0), ByteOf(v, 1), ByteOf(v, 2), ByteOf(v, 3))
  {
    var q1 := v / 0x100;
    var q2 := q1 / 0x100;
    var q3 := q2 / 0x100;
    assert v == q1 * 0x100 + ByteOf(v, 0);
    assert q1 == q2 * 0x100 + ByteOf(v, 1);
    assert q2 == q3 * 0x100 + ByteOf(v, 2);
    assert q3 == ByteOf(v, 3);
  }

  /**
   * reverse_int (src/examples/mnist.c:24-32): the four bytes c1 .. c4 of
   * the word, reassembled in the opposite order.
   */
  function ReverseInt(i: Word32): (r: Word32)
    ensures ByteOf(r, 3) == ByteOf(i, 0) && ByteOf(r, 2) == ByteOf(i, 1)
    ensures ByteOf(r, 1) == ByteOf(i, 2) && ByteOf(r, 0) == ByteOf(i, 3)
  {
    var c1, c2, c3, c4 := ByteOf(i, 0), ByteOf(i, 1), ByteOf(i, 2), ByteOf(i, 3);
    FromBytes(c4, c3, c2, c1)
  }

  /** Swapping the word built from four bytes builds it from the bytes reversed. */
  lemma ReverseFromBytes(b0: Byte, b1: Byte, b2: Byte, b3: Byte)
    ensures ReverseInt(FromBytes(b0, b1, b2, b3)) == FromBytes(b3, b2, b1, b0)
  {
  }

  /** Swapping twice gives back the word. */
  lemma ReverseIntInvolution(i: Word32)
    ensures ReverseInt(ReverseInt(i)) == i
  {
    FromByteOf(i);
  }

  /** The value of a 32-bit pattern as a C `int` (two's complement). */
  function Int32(v: Word32): (x: int)
    ensures -0x8000_0000 <= x < 0x8000_0000
    ensures x >= 0 <==> v < 0x8000_0000
  {
    if v < 0x8000_0000 then v else v - 0x1_0000_0000
  }

  /**
   * The int a header field of the IDX format holds: four bytes, most
   * significant first, as a C `int`. It is negative exactly when the
   * first byte has its top bit set.
   */
  function Field(file: seq<Byte>, at: nat): (x: int)
    requires at + 4 <= |file|
    ensures -0x8000_0000 <= x < 0x8000_0000
    ensures x >= 0 <==> file[at] < 0x80
  {
    var v := FromBytes(file[at + 3], file[at + 2], file[at + 1], file[at]);
    assert v / 0x100 / 0x100 / 0x100 == file[at];
    Int32(v)
  }

  /**
   * What the readers do with a header field: read() stores the four bytes
   * into an int on a little-endian host (the first byte least
   * significant), reverse_int swaps them, and the int is the field.
   */
  lemma SwappedReadIsField(file: seq<Byte>, at: nat)
    requires at + 4 <= |file|
    ensures Int32(ReverseInt(FromBytes(file[at], file[at + 1], file[at + 2], file[at + 3]))) == Field(file, at)
  {
    ReverseFromBytes(file[at], file[at + 1], file[at + 2], file[at + 3]);
  }

  /** The four bytes, most significant first, that an IDX file stores for x. */
  function IntBytes(x: Word32): (b: seq<Byte>)
    ensures |b| == 4
  {
    [ByteOf(x, 3), ByteOf(x, 2), ByteOf(x, 1), ByteOf(x, 0)]
  }

  /** A header field written with IntBytes reads back as the same int. */
  lemma FieldRoundTrip(x: Word32, before: seq<Byte>, after: seq<Byte>)
    requires x < 0x8000_0000
    ensures Field(before + IntBytes(x) + after, |before|) == x
  {
    var file := before + IntBytes(x) + after;
    var at := |before|;
    assert file[at..at + 4] == IntBytes(x);
    FromByteOf(x);
  }

  /**
   * The label and image magic numbers, read as little-endian ints, are
   * 0x01080000 and 0x03080000; reverse_int turns them into LBL_MN and
   * IMG_MN, which an IDX file stores as 00 00 08 01 and 00 00 08 03.
   */
  lemma MagicNumbers()
    ensures ReverseInt(0x0108_0000) == LabelMagic
    ensures ReverseInt(0x0308_0000) == ImageMagic
    ensures IntBytes(LabelMagic) == [0x00, 0x00, 0x08, 0x01]
    ensures IntBytes(ImageMagic) == [0x00, 0x00, 0x08, 0x03]
  {
    assert FromBytes(0x00, 0x00, 0x08, 0x01) == 0x0108_0000 && FromBytes(0x01, 0x08, 0x00, 0x00) == LabelMagic;
    assert FromBytes(0x00, 0x00, 0x08, 0x03) == 0x0308_0000 && FromBytes(0x03, 0x08, 0x00, 0x00) == ImageMagic;
    ReverseFromBytes(0x00, 0x00, 0x08, 0x01);
    ReverseFromBytes(0x00, 0x00, 0x08, 0x03);
  }

  // ---------------------------------------------------------------------
  // The record range
  // ---------------------------------------------------------------------

  /** The assert at src/examples/mnist.c:40 and :79, checked before the file is read. */
  predicate RangeRequested(from: int, to: int)
  {
    (from <= to || to == -1) && from >= 1
  }

  /**
   * The whole range check as written: the first assert together with
   * `from < n` (src/examples/mnist.c:52 and :91), n being the header's
   * record count.
   */
  predicate RangeAsWritten(from: int, to: int, n: int)
  {
    RangeRequested(from, to) && from < n
  }

  /** The range check the readers evidently intend: `from` may be the last record. */
  predicate RangeOk(from: int, to: int, n: int)
  {
    RangeRequested(from, to) && from <= n
  }

  /**
   * The last record read (src/examples/mnist.c:54-56 and :100-103): to,
   * with -1 standing for n, and never past n.
   */
  function LastRecord(to: int, n: int): (r: int)
    ensures r <= n && (to != -1 ==> r <= to)
    ensures r == n || r == to
  {
    var t := if to == -1 then n else to;
    if t >= n then n else t
  }

  /** The number of records read: to - from + 1 after the clamp. */
  function RecordCount(from: int, to: int, n: int): (c: nat)
    requires RangeOk(from, to, n)
    ensures c >= 1
  {
    LastRecord(to, n) - from + 1
  }

  /**
   * An accepted range reads records from .. LastRecord, all of which
   * exist, and these are exactly the existing records the caller asked
   * for (both ends inclusive, counting from 1, -1 meaning "to the end").
   */
  lemma RangeSelectsRequested(from: int, to: int, n: int, r: int)
    requires RangeOk(from, to, n)
    ensures 1 <= from <= LastRecord(to, n) <= n
    ensures RecordCount(from, to, n) == LastRecord(to, n) - from + 1
    ensures 1 <= r <= n ==> (from <= r <= LastRecord(to, n) <==> from <= r && (to == -1 || r <= to))
  {
  }

  /**
   * Every non-empty range of existing records is accepted by RangeOk,
   * and the only ones the code as written refuses start at the last
   * record: there `from < n` fails although the record exists.
   */
  lemma RangeAsWrittenMissesLast(from: int, to: int, n: int)
    ensures RangeAsWritten(from, to, n) <==> RangeOk(from, to, n) && from != n
    ensures 1 <= from <= to <= n ==> RangeOk(from, to, n) && RecordCount(from, to, n) == to - from + 1
    ensures n >= 1 ==> !RangeAsWritten(n, n, n) && !RangeAsWritten(n, -1, n)
    ensures n >= 1 ==> RangeOk(n, -1, n) && RecordCount(n, -1, n) == 1
  {
  }

  // ---------------------------------------------------------------------
  // The matrices the readers return
  // ---------------------------------------------------------------------

  /** Every label names a column of a one-hot row. */
  predicate LabelsInRange(labels: seq<Byte>)
  {
    forall i :: 0 <= i < |labels| ==> labels[i] < Classes
  }

  /** One row per label, 1.0 in the label's column and 0.0 elsewhere. */
  function OneHot(labels: seq<Byte>): (m: Matrix)
    requires LabelsInRange(labels)
    ensures m.rows == |labels| && m.cols == Classes
  {
    MatrixData(|labels|, Classes, seq(|labels| * Classes, p requires 0 <= p < |labels| * Classes =>
      if p % Classes == labels[p / Classes] then 1.0 else 0.0))
  }

  /**
   * Row i of the one-hot matrix is 1.0 exactly in column labels[i] and
   * 0.0 in the nine others, so the label is recovered from the row.
   */
  lemma OneHotGet(labels: seq<Byte>, i: nat, j: nat)
    requires LabelsInRange(labels) && i < |labels| && j < Classes
    ensures Get(OneHot(labels), i, j) == 1.0 <==> j == labels[i]
    ensures Get(OneHot(labels), i, j) == (if j == labels[i] then 1.0 else 0.0)
  {
    IndexInBounds(|labels|, Classes, i, j);
    IndexDivMod(Classes, i, j);
  }

  /** One row per image, the 784 pixel bytes of each as reals, in file order. */
  function Pixels(count: nat, bytes: seq<Byte>): (m: Matrix)
    requires |bytes| == count * ImageSize
    ensures m.rows == count && m.cols == ImageSize
  {
    MatrixData(count, ImageSize, seq(|bytes|, p requires 0 <= p < |bytes| => bytes[p] as real))
  }

  /**
   * Pixel (j, k) of image i sits in column j·28 + k of row i
   * (src/examples/mnist.c:113) and holds the byte that image's record
   * stores at offset j·28 + k.
   */
  lemma PixelsGet(count: nat, bytes: seq<Byte>, i: nat, j: nat, k: nat)
    requires |bytes| == count * ImageSize && i < count && j < ImageSide && k < ImageSide
    ensures Index(ImageSide, j, k) < ImageSize
    ensures Get(Pixels(count, bytes), i, Index(ImageSide, j, k))
         == bytes[i * ImageSize + j * ImageSide + k] as real
  {
    IndexInBounds(ImageSide, ImageSide, j, k);
    IndexInBounds(count, ImageSize, i, Index(ImageSide, j, k));
  }

  /**
   * The column map (j, k) ↦ j·28 + k is a bijection from 28 × 28 pixel
   * positions onto the columns 0 .. 783.
   */
  lemma PixelColumnBijection(j1: nat, k1: nat, j2: nat, k2: nat, c: nat)
    requires j1 < ImageSide && k1 < ImageSide && j2 < ImageSide && k2 < ImageSide
    ensures Index(ImageSide, j1, k1) < ImageSize
    ensures Index(ImageSide, j1, k1) == Index(ImageSide, j2, k2) ==> j1 == j2 && k1 == k2
    ensures c < ImageSize ==>
      c / ImageSide < ImageSide && c % ImageSide < ImageSide && Index(ImageSide, c / ImageSide, c % ImageSide) == c
  {
    IndexInBounds(ImageSide, ImageSide, j1, k1);
    if Index(ImageSide, j1, k1) == Index(ImageSide, j2, k2) {
      IndexInjective(ImageSide, j1, k1, j2, k2);
    }
    if c < ImageSize {
      IndexSurjective(ImageSide, ImageSide, c);
    }
  }

  // ---------------------------------------------------------------------
  // The unchecked label byte
  // ---------------------------------------------------------------------

  /**
   * The buffer position that MAT2D_GET(m, i, temp) = 1.0 writes in
   * read_labels (src/examples/mnist.c:66), with no check that temp < 10:
   * it lies in row i + temp / 10, at column temp % 10.
   */
  function LabelSlotAsWritten(i: nat, b: Byte): (p: nat)
    ensures p / Classes == i + b / Classes && p % Classes == b % Classes
  {
    var q, c := b / Classes, b % Classes;
    assert Index(Classes, i, b) == Index(Classes, i + q, c);
    IndexDivMod(Classes, i + q, c);
    Index(Classes, i, b)
  }

  /**
   * A label byte of 10 or more makes that write leave its row: it lands
   * in a later record's row, and for the last record past the end of the
   * count × 10 buffer. With two records, a first label of 10 sets the
   * second row's column 0; with one record, it writes position 10 of a
   * 10-cell buffer.
   */
  lemma LabelSlotEscapesRow(count: nat, i: nat, b: Byte)
    requires i < count && b >= Classes
    ensures LabelSlotAsWritten(i, b) >= Index(Classes, i + 1, 0)
    ensures i + 1 == count ==> LabelSlotAsWritten(i, b) >= count * Classes
    ensures LabelSlotAsWritten(0, 10) == Index(Classes, 1, 0)
  {
  }

  /** Every write of the label loop stays inside the count × 10 buffer. */
  predicate SlotsInBuffer(labels: seq<Byte>)
  {
    forall i :: 0 <= i < |labels| ==> LabelSlotAsWritten(i, labels[i]) < |labels| * Classes
  }

  /** Buffer position p is written by one of the first k records. */
  predicate Marked(labels: seq<Byte>, k: nat, p: int)
    requires k <= |labels|
  {
    exists i :: 0 <= i < k && LabelSlotAsWritten(i, labels[i]) == p
  }

  /**
   * The matrix the label loop leaves in the zeroed buffer: 1.0 at every
   * position some record writes, 0.0 elsewhere.
   */
  function LabelMarks(labels: seq<Byte>): (m: Matrix)
    ensures m.rows == |labels| && m.cols == Classes
  {
    MatrixData(|labels|, Classes, seq(|labels| * Classes, p => if Marked(labels, |labels|, p) then 1.0 else 0.0))
  }

  /**
   * When every label names a column, the loop's writes stay in the buffer
   * and the matrix it leaves is the one-hot matrix of the labels.
   */
  lemma LabelMarksOneHot(labels: seq<Byte>)
    requires LabelsInRange(labels)
    ensures SlotsInBuffer(labels) && LabelMarks(labels) == OneHot(labels)
  {
    forall i | 0 <= i < |labels|
      ensures LabelSlotAsWritten(i, labels[i]) == Index(Classes, i, labels[i]) < |labels| * Classes
    {
      IndexInBounds(|labels|, Classes, i, labels[i]);
    }
    forall p | 0 <= p < |labels| * Classes
      ensures LabelMarks(labels).elems[p] == OneHot(labels).elems[p]
    {
      var i := p / Classes;
      if p % Classes == labels[i] {
        assert LabelSlotAsWritten(i, labels[i]) == p;
      }
      if Marked(labels, |labels|, p) {
        var k :| 0 <= k < |labels| && LabelSlotAsWritten(k, labels[k]) == p;
        assert k == i;
      }
    }
  }

  /** Cell (i, j) of the loop's matrix is 1.0 exactly when some record writes position i·10 + j. */
  lemma LabelMarksGet(labels: seq<Byte>, i: nat, j: nat)
    requires i < |labels| && j < Classes
    ensures Get(LabelMarks(labels), i, j) == if Marked(labels, |labels|, Index(Classes, i, j)) then 1.0 else 0.0
  {
    IndexInBounds(|labels|, Classes, i, j);
  }

  /** The labels 10 and 3 write positions 10 and 13 of a 20-cell buffer, and nothing else. */
  lemma ExampleSlots(labels: seq<Byte>)
    requires |labels| == 2 && labels[0] == 10 && labels[1] == 3
    ensures SlotsInBuffer(labels)
    ensures forall p :: Marked(labels, 2, p) <==> p == 10 || p == 13
  {
    forall i | 0 <= i < 2
      ensures LabelSlotAsWritten(i, labels[i]) < 20
    {
      if i == 0 {
        assert LabelSlotAsWritten(0, labels[0]) == 10;
      } else {
        assert LabelSlotAsWritten(1, labels[1]) == 13;
      }
    }
    forall p
      ensures Marked(labels, 2, p) <==> p == 10 || p == 13
    {
      if Marked(labels, 2, p) {
        var i :| 0 <= i < 2 && LabelSlotAsWritten(i, labels[i]) == p;
        if i == 0 {
          assert LabelSlotAsWritten(0, labels[0]) == 10;
        } else {
          assert LabelSlotAsWritten(1, labels[1]) == 13;
        }
      }
      if p == 10 {
        assert LabelSlotAsWritten(0, labels[0]) == 10;
      }
      if p == 13 {
        assert LabelSlotAsWritten(1, labels[1]) == 13;
      }
    }
  }

  /**
   * Two records whose first label is 10: the first row stays all zero and
   * the second row gets two ones, so neither row is one-hot.
   */
  lemma LabelMarksExample(labels: seq<Byte>)
    requires |labels| == 2 && labels[0] == 10 && labels[1] == 3
    ensures SlotsInBuffer(labels)
    ensures forall j :: 0 <= j < Classes ==> Get(LabelMarks(labels), 0, j) == 0.0
    ensures Get(LabelMarks(labels), 1, 0) == 1.0 && Get(LabelMarks(labels), 1, 3) == 1.0
  {
    ExampleSlots(labels);
    forall j | 0 <= j < Classes
      ensures Get(LabelMarks(labels), 0, j) == 0.0
    {
      LabelMarksGet(labels, 0, j);
      assert Index(Classes, 0, j) == j && !Marked(labels, 2, j);
    }
    LabelMarksGet(labels, 1, 0);
    LabelMarksGet(labels, 1, 3);
  }

  // ---------------------------------------------------------------------
  // The two readers on a byte sequence
  // ---------------------------------------------------------------------

  /**
   * The header checks both readers share (src/examples/mnist.c:40-51 and
   * :79-90), in the source's order: the requested range, the magic number
   * and the record count, which is returned.
   */
  function Header(file: seq<Byte>, from: int, to: int, magic: int): (r: Result<int, IdxFault>)
    ensures r.Success? <==> RangeRequested(from, to) && |file| >= 8 && Field(file, 0) == magic
    ensures r.Success? ==> r.value == Field(file, 4)
    ensures r.Failure? ==> r.error in {BadRange, ShortRead, BadMagic}
  {
    if !RangeRequested(from, to) then Failure(BadRange)
    else if |file| < 4 then Failure(ShortRead)
    else if Field(file, 0) != magic then Failure(BadMagic)
    else if |file| < 8 then Failure(ShortRead)
    else Success(Field(file, 4))
  }

  /**
   * The label bytes of records from .. LastRecord(to, n): from - 1 labels
   * are skipped after the 8-byte header (src/examples/mnist.c:61-67).
   */
  function LabelBody(file: seq<Byte>, from: int, to: int, n: int): (r: Result<seq<Byte>, IdxFault>)
    requires |file| >= 8 && RangeOk(from, to, n)
    ensures r.Success? <==> |file| >= 8 + LastRecord(to, n)
    ensures r.Success? ==> |r.value| == RecordCount(from, to, n)
    ensures r.Success? ==> forall k :: 0 <= k < |r.value| ==> r.value[k] == file[8 + from - 1 + k]
  {
    if |file| < 8 + LastRecord(to, n) then Failure(ShortRead)
    else Success(file[8 + from - 1 .. 8 + LastRecord(to, n)])
  }

  /**
   * The label bytes read_labels consumes (src/examples/mnist.c:39-67), as
   * written: the header, then `from < n`, then RecordCount labels, none
   * of which is checked.
   */
  function LabelRecords(file: seq<Byte>, from: int, to: int): (r: Result<seq<Byte>, IdxFault>)
    ensures r.Success? ==> |file| >= 8 && RangeAsWritten(from, to, Field(file, 4))
    ensures r.Success? ==> |r.value| == RecordCount(from, to, Field(file, 4))
  {
    match Header(file, from, to, LabelMagic)
    case Failure(e) => Failure(e)
    case Success(n) =>
      if !RangeAsWritten(from, to, n) then Failure(RecordOutOfRange)
      else LabelBody(file, from, to, n)
  }

  /**
   * The label reader as evidently intended: the last record may be read,
   * and a label that names no column is refused.
   */
  function IntendedLabelRecords(file: seq<Byte>, from: int, to: int): (r: Result<seq<Byte>, IdxFault>)
    ensures r.Success? ==> |file| >= 8 && RangeOk(from, to, Field(file, 4))
    ensures r.Success? ==> |r.value| == RecordCount(from, to, Field(file, 4)) && LabelsInRange(r.value)
  {
    match Header(file, from, to, LabelMagic)
    case Failure(e) => Failure(e)
    case Success(n) =>
      if !RangeOk(from, to, n) then Failure(RecordOutOfRange)
      else
        match LabelBody(file, from, to, n)
        case Failure(e) => Failure(e)
        case Success(labels) =>
          if !LabelsInRange(labels) then Failure(LabelOutOfRange) else Success(labels)
  }

  /** The header of a file whose record count is `from`: the as-written check refuses it. */
  predicate FromIsLast(file: seq<Byte>, from: int, to: int, magic: int)
  {
    Header(file, from, to, magic).Success? && from == Header(file, from, to, magic).value
  }

  /**
   * The two label readers differ in exactly two ways: the as-written one
   * refuses a range starting at the last record, and the intended one
   * refuses labels that name no column.
   */
  lemma LabelReadersAgree(file: seq<Byte>, from: int, to: int)
    ensures LabelRecords(file, from, to).Failure? ==>
      (IntendedLabelRecords(file, from, to) == LabelRecords(file, from, to) <==> !FromIsLast(file, from, to, LabelMagic))
    ensures FromIsLast(file, from, to, LabelMagic) ==> LabelRecords(file, from, to) == Failure(RecordOutOfRange)
    ensures LabelRecords(file, from, to).Success? ==>
      (IntendedLabelRecords(file, from, to) == LabelRecords(file, from, to) <==> LabelsInRange(LabelRecords(file, from, to).value))
    ensures LabelRecords(file, from, to).Success? && !LabelsInRange(LabelRecords(file, from, to).value) ==>
      IntendedLabelRecords(file, from, to) == Failure(LabelOutOfRange)
  {
  }

  /**
   * The matrix read_labels returns, as written, or the fault that stops
   * it: the label loop's writes, or a write past the buffer.
   */
  function ParseLabels(file: seq<Byte>, from: int, to: int): (r: Result<Matrix, IdxFault>)
    ensures r.Success? <==> LabelRecords(file, from, to).Success? && SlotsInBuffer(LabelRecords(file, from, to).value)
    ensures r.Success? ==> r.value.rows == |LabelRecords(file, from, to).value| && r.value.cols == Classes
  {
    match LabelRecords(file, from, to)
    case Success(labels) =>
      if !SlotsInBuffer(labels) then Failure(LabelPastBuffer) else Success(LabelMarks(labels))
    case Failure(e) => Failure(e)
  }

  /** The label matrix as evidently intended: one one-hot row per record. */
  function IntendedParseLabels(file: seq<Byte>, from: int, to: int): (r: Result<Matrix, IdxFault>)
    ensures r.Success? <==> IntendedLabelRecords(file, from, to).Success?
    ensures r.Success? ==> r.value.rows == |IntendedLabelRecords(file, from, to).value| && r.value.cols == Classes
  {
    match IntendedLabelRecords(file, from, to)
    case Success(labels) => Success(OneHot(labels))
    case Failure(e) => Failure(e)
  }

  /**
   * The pixel bytes of records from .. LastRecord(to, n): the 28 × 28
   * shape is checked, then (from - 1)·784 bytes are skipped after the
   * 16-byte header (src/examples/mnist.c:93-116).
   */
  function ImageBody(file: seq<Byte>, from: int, to: int, n: int): (r: Result<seq<Byte>, IdxFault>)
    requires |file| >= 8 && RangeOk(from, to, n)
    ensures r.Success? <==> |file| >= 16 + LastRecord(to, n) * ImageSize && Field(file, 8) == Field(file, 12) == ImageSide
    ensures r.Success? ==> |r.value| == RecordCount(from, to, n) * ImageSize
    ensures r.Failure? ==> r.error in {ShortRead, BadShape}
  {
    if |file| < 16 then Failure(ShortRead)
    else if !(Field(file, 8) == Field(file, 12) == ImageSide) then Failure(BadShape)
    else if |file| < 16 + LastRecord(to, n) * ImageSize then Failure(ShortRead)
    else Success(file[16 + (from - 1) * ImageSize .. 16 + LastRecord(to, n) * ImageSize])
  }

  /**
   * The pixel bytes read_imgs consumes (src/examples/mnist.c:78-116), as
   * written: the header, then `from < n`, then the shape and RecordCount
   * images of 784 bytes.
   */
  function ImageRecords(file: seq<Byte>, from: int, to: int): (r: Result<seq<Byte>, IdxFault>)
    ensures r.Success? ==> |file| >= 16 && RangeAsWritten(from, to, Field(file, 4))
    ensures r.Success? ==> |r.value| == RecordCount(from, to, Field(file, 4)) * ImageSize
  {
    match Header(file, from, to, ImageMagic)
    case Failure(e) => Failure(e)
    case Success(n) =>
      if !RangeAsWritten(from, to, n) then Failure(RecordOutOfRange)
      else ImageBody(file, from, to, n)
  }

  /** The image reader as evidently intended: the last record may be read. */
  function IntendedImageRecords(file: seq<Byte>, from: int, to: int): (r: Result<seq<Byte>, IdxFault>)
    ensures r.Success? ==> |file| >= 16 && RangeOk(from, to, Field(file, 4))
    ensures r.Success? ==> |r.value| == RecordCount(from, to, Field(file, 4)) * ImageSize
  {
    match Header(file, from, to, ImageMagic)
    case Failure(e) => Failure(e)
    case Success(n) =>
      if !RangeOk(from, to, n) then Failure(RecordOutOfRange)
      else ImageBody(file, from, to, n)
  }

  /** The two image readers differ only on a range starting at the last record. */
  lemma ImageReadersAgree(file: seq<Byte>, from: int, to: int)
    ensures !FromIsLast(file, from, to, ImageMagic) ==> IntendedImageRecords(file, from, to) == ImageRecords(file, from, to)
    ensures FromIsLast(file, from, to, ImageMagic) ==>
      ImageRecords(file, from, to) == Failure(RecordOutOfRange) != IntendedImageRecords(file, from, to)
  {
  }

  /** The matrix read_imgs returns, or the assert that stops it. */
  function ParseImages(file: seq<Byte>, from: int, to: int): (r: Result<Matrix, IdxFault>)
    ensures r.Success? <==> ImageRecords(file, from, to).Success?
    ensures r.Success? ==> r.value.rows == RecordCount(from, to, Field(file, 4)) && r.value.cols == ImageSize
  {
    match ImageRecords(file, from, to)
    case Success(bytes) => Success(Pixels(RecordCount(from, to, Field(file, 4)), bytes))
    case Failure(e) => Failure(e)
  }

  /** The image matrix as evidently intended. */
  function IntendedParseImages(file: seq<Byte>, from: int, to: int): (r: Result<Matrix, IdxFault>)
    ensures r.Success? <==> IntendedImageRecords(file, from, to).Success?
    ensures r.Success? ==> r.value.rows == RecordCount(from, to, Field(file, 4)) && r.value.cols == ImageSize
  {
    match IntendedImageRecords(file, from, to)
    case Success(bytes) => Success(Pixels(RecordCount(from, to, Field(file, 4)), bytes))
    case Failure(e) => Failure(e)
  }

  // ---------------------------------------------------------------------
  // Files in the IDX format, and reading them back
  // ---------------------------------------------------------------------

  /** An IDX label file: magic number, label count, one byte per label. */
  function LabelFile(labels: seq<Byte>): (file: seq<Byte>)
    requires |labels| < 0x8000_0000
    ensures |file| == 8 + |labels|
  {
    IntBytes(LabelMagic) + IntBytes(|labels|) + labels
  }

  /** The header of a label file holds the label magic number and the label count. */
  lemma LabelFileHeader(labels: seq<Byte>)
    requires |labels| < 0x8000_0000
    ensures Field(LabelFile(labels), 0) == LabelMagic && Field(LabelFile(labels), 4) == |labels|
    ensures forall k :: 0 <= k < |labels| ==> LabelFile(labels)[8 + k] == labels[k]
  {
    var file := LabelFile(labels);
    FieldRoundTrip(LabelMagic, [], IntBytes(|labels|) + labels);
    assert [] + IntBytes(LabelMagic) + (IntBytes(|labels|) + labels) == file;
    FieldRoundTrip(|labels|, IntBytes(LabelMagic), labels);
  }

  /**
   * Reading a well-formed label file. As written, a range starting at or
   * after the last label is refused, and the others yield the loop's
   * marks for the labels they name; as intended, only a range past the
   * last label is refused, and a label that names no column is an error.
   * On labels that all name a column, the two agree wherever the
   * as-written reader accepts the range, with the one-hot rows.
   */
  lemma ParseLabelFile(labels: seq<Byte>, from: int, to: int)
    requires |labels| < 0x8000_0000
    ensures ParseLabels(LabelFile(labels), from, to) ==
      if !RangeRequested(from, to) then Failure(BadRange)
      else if from >= |labels| then Failure(RecordOutOfRange)
      else if !SlotsInBuffer(labels[from - 1 .. LastRecord(to, |labels|)]) then Failure(LabelPastBuffer)
      else Success(LabelMarks(labels[from - 1 .. LastRecord(to, |labels|)]))
    ensures IntendedParseLabels(LabelFile(labels), from, to) ==
      if !RangeRequested(from, to) then Failure(BadRange)
      else if from > |labels| then Failure(RecordOutOfRange)
      else if !LabelsInRange(labels[from - 1 .. LastRecord(to, |labels|)]) then Failure(LabelOutOfRange)
      else Success(OneHot(labels[from - 1 .. LastRecord(to, |labels|)]))
    ensures LabelsInRange(labels) && RangeRequested(from, to) && from < |labels| ==>
      ParseLabels(LabelFile(labels), from, to) == IntendedParseLabels(LabelFile(labels), from, to)
  {
    var file := LabelFile(labels);
    LabelFileHeader(labels);
    if RangeOk(from, to, |labels|) {
      var sel := labels[from - 1 .. LastRecord(to, |labels|)];
      assert file[8 + from - 1 .. 8 + LastRecord(to, |labels|)] == sel;
      if LabelsInRange(labels) {
        assert LabelsInRange(sel);
        LabelMarksOneHot(sel);
      }
    }
  }

  /** An IDX image file: magic number, image count, 28, 28, then the pixels image by image. */
  function ImageFile(count: nat, pixels: seq<Byte>): (file: seq<Byte>)
    requires count < 0x8000_0000 && |pixels| == count * ImageSize
    ensures |file| == 16 + |pixels|
  {
    IntBytes(ImageMagic) + IntBytes(count) + IntBytes(ImageSide) + IntBytes(ImageSide) + pixels
  }

  /**
   * Reading a well-formed image file: as written, a range starting at or
   * after the last image is refused; as intended, only one past the last
   * image. Any other range yields exactly the images it names, 784
   * pixels per row.
   */
  lemma ParseImageFile(count: nat, pixels: seq<Byte>, from: int, to: int)
    requires count < 0x8000_0000 && |pixels| == count * ImageSize
    ensures ParseImages(ImageFile(count, pixels), from, to) ==
      if !RangeRequested(from, to) then Failure(BadRange)
      else if from >= count then Failure(RecordOutOfRange)
      else Success(Pixels(LastRecord(to, count) - from + 1,
        pixels[(from - 1) * ImageSize .. LastRecord(to, count) * ImageSize]))
    ensures IntendedParseImages(ImageFile(count, pixels), from, to) ==
      if !RangeRequested(from, to) then Failure(BadRange)
      else if from > count then Failure(RecordOutOfRange)
      else Success(Pixels(LastRecord(to, count) - from + 1,
        pixels[(from - 1) * ImageSize .. LastRecord(to, count) * ImageSize]))
  {
    var file := ImageFile(count, pixels);
    var side := IntBytes(ImageSide);
    FieldRoundTrip(ImageMagic, [], IntBytes(count) + side + side + pixels);
    assert [] + IntBytes(ImageMagic) + (IntBytes(count) + side + side + pixels) == file;
    FieldRoundTrip(count, IntBytes(ImageMagic), side + side + pixels);
    assert IntBytes(ImageMagic) + IntBytes(count) + (side + side + pixels) == file;
    FieldRoundTrip(ImageSide, IntBytes(ImageMagic) + IntBytes(count), side + pixels);
    assert IntBytes(ImageMagic) + IntBytes(count) + side + (side + pixels) == file;
    FieldRoundTrip(ImageSide, IntBytes(ImageMagic) + IntBytes(count) + side, pixels);
    if RangeOk(from, to, count) {
      var last := LastRecord(to, count);
      assert file[16 + (from - 1) * ImageSize .. 16 + last * ImageSize]
          == pixels[(from - 1) * ImageSize .. last * ImageSize];
    }
  }

  // ---------------------------------------------------------------------
  // The fill loops and the two readers
  // ---------------------------------------------------------------------

  /**
   * The loop of read_labels (src/examples/mnist.c:63-67) over the zeroed
   * matrix: record i sets buffer position i·10 + label to 1.0. It reports
   * whether every write stayed in the buffer; it stops at the first that
   * would not, which in C writes past the allocation.
   */
  method FillLabels(m: Mat2D, labels: seq<Byte>) returns (inBuffer: bool)
    requires m.Valid() && m.rows == |labels| && m.cols == Classes
    requires m.Value() == Filled(m.rows, Classes, 0.0)
    modifies m.elems
    ensures m.Valid() && inBuffer == SlotsInBuffer(labels)
    ensures inBuffer ==> m.Value() == LabelMarks(labels)
  {
    assert m.elems.Length == |labels| * Classes;
    for i := 0 to |labels|
      invariant forall k :: 0 <= k < i ==> LabelSlotAsWritten(k, labels[k]) < m.elems.Length
      invariant forall p :: 0 <= p < m.elems.Length ==> m.elems[p] == if Marked(labels, i, p) then 1.0 else 0.0
    {
      var slot := Index(Classes, i, labels[i]);  // MAT2D_GET(m, i, temp)
      if slot >= m.elems.Length {
        return false;
      }
      m.elems[slot] := 1.0;
      forall p | 0 <= p < m.elems.Length
        ensures m.elems[p] == if Marked(labels, i + 1, p) then 1.0 else 0.0
      {
        if Marked(labels, i, p) {
          var k :| 0 <= k < i && LabelSlotAsWritten(k, labels[k]) == p;
          assert 0 <= k < i + 1 && LabelSlotAsWritten(k, labels[k]) == p;
        }
        if p == slot {
          assert LabelSlotAsWritten(i, labels[i]) == p;
        }
      }
    }
    assert m.elems[..] == LabelMarks(labels).elems;
    return true;
  }

  /**
   * The three nested loops of read_imgs (src/examples/mnist.c:108-116):
   * the bytes are consumed in file order, and byte (j, k) of image i goes
   * to the cell (i, j·28 + k).
   */
  method FillImages(m: Mat2D, pixels: seq<Byte>)
    requires m.Valid() && m.cols == ImageSize && |pixels| == m.rows * ImageSize
    modifies m.elems
    ensures m.Valid() && m.Value() == Pixels(m.rows, pixels)
  {
    var pos := 0;  // bytes consumed since the first record read
    for i := 0 to m.rows
      invariant pos == i * ImageSize
      invariant forall p :: 0 <= p < pos ==> m.elems[p] == pixels[p] as real
    {
      for j := 0 to ImageSide
        invariant pos == i * ImageSize + j * ImageSide
        invariant forall p :: 0 <= p < pos ==> m.elems[p] == pixels[p] as real
      {
        for k := 0 to ImageSide
          invariant pos == i * ImageSize + j * ImageSide + k
          invariant forall p :: 0 <= p < pos ==> m.elems[p] == pixels[p] as real
        {
          m.elems[Index(ImageSize, i, Index(ImageSide, j, k))] := pixels[pos] as real;
          pos := pos + 1;
        }
      }
    }
    assert m.elems[..] == Pixels(m.rows, pixels).elems;
  }

  /**
   * read_labels: the checks of LabelRecords, then a fresh
   * RecordCount × 10 matrix, zeroed and filled by the label loop.
   */
  method ReadLabels(file: seq<Byte>, from: int, to: int) returns (r: Result<Mat2D, IdxFault>)
    ensures r.Failure? <==> ParseLabels(file, from, to).Failure?
    ensures r.Failure? ==> r.error == ParseLabels(file, from, to).error
    ensures r.Success? ==> fresh(r.value) && fresh(r.value.elems) && r.value.Valid()
    ensures r.Success? ==> r.value.Value() == ParseLabels(file, from, to).value
  {
    var records := LabelRecords(file, from, to);
    if records.Failure? {
      return Failure(records.error);
    }
    var labels := records.value;
    var m := new Mat2D(|labels|, Classes);
    m.ZeroInit();
    var inBuffer := FillLabels(m, labels);
    if !inBuffer {
      return Failure(LabelPastBuffer);
    }
    return Success(m);
  }

  /**
   * read_imgs: the checks of ImageRecords, then a fresh RecordCount × 784
   * matrix filled image by image.
   */
  method ReadImages(file: seq<Byte>, from: int, to: int) returns (r: Result<Mat2D, IdxFault>)
    ensures r.Failure? <==> ParseImages(file, from, to).Failure?
    ensures r.Failure? ==> r.error == ParseImages(file, from, to).error
    ensures r.Success? ==> fresh(r.value) && fresh(r.value.elems) && r.value.Valid()
    ensures r.Success? ==> r.value.Value() == ParseImages(file, from, to).value
  {
    var records := ImageRecords(file, from, to);
    if records.Failure? {
      return Failure(records.error);
    }
    var m := new Mat2D(RecordCount(from, to, Field(file, 4)), ImageSize);
    FillImages(m, records.value);
    return Success(m);
  }
}
