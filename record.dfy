/** One 36-byte quote record, where record `i` of an instrument sits in the
    file, and the columns of it that reach the output. */
module Records {
  import opened Faults
  import opened Bytes

  /** Packed size of the record layout: one 32-bit counter, three 32-bit
      floats, six 16-bit volumes, six 8-bit prices and a 16-bit reserved word. */
  const BYTES_OF_RECORD: nat := 36

  /** A record as `struct` unpacks it. The three floats stay raw 32-bit
      words: their numeric value only matters to the text rendering. */
  datatype QuoteRecord = QuoteRecord(
    secondsFrom1970: u32,
    lastPrice: u32, totalVolumeToday: u32, totalTradeMoneyToday: u32,
    buy1Volume: u16, buy2Volume: u16, buy3Volume: u16,
    sell1Volume: u16, sell2Volume: u16, sell3Volume: u16,
    buy1: byte, buy2: byte, buy3: byte, sell1: byte, sell2: byte, sell3: byte,
    reserved: u16)

  /** The part of a record that becomes an output row. */
  datatype Row = Row(
    seconds: u32,
    lastPrice: u32, totalVolumeToday: u32, totalTradeMoneyToday: u32,
    buy1Volume: u16, sell1Volume: u16, buy1: byte, sell1: byte)

  /** `struct.unpack_from("LfffHHHHHHBBBBBBH", buf)`: fails unless the
      buffer holds the whole 36-byte record; bytes after it are ignored. */
  function UnpackRecord(buf: seq<byte>): (r: Result<QuoteRecord>)
    ensures r.Ok? <==> |buf| >= BYTES_OF_RECORD
    ensures r.Err? ==> r.error == StructError(BYTES_OF_RECORD, |buf|)
  {
    if |buf| < BYTES_OF_RECORD then Err(StructError(BYTES_OF_RECORD, |buf|))
    else
      Ok(QuoteRecord(
        U32At(buf, 0), U32At(buf, 4), U32At(buf, 8), U32At(buf, 12),
        U16At(buf, 16), U16At(buf, 18), U16At(buf, 20), U16At(buf, 22), U16At(buf, 24), U16At(buf, 26),
        buf[28], buf[29], buf[30], buf[31], buf[32], buf[33],
        U16At(buf, 34)))
  }

  /** The 36 bytes `struct.pack` would write for a record. */
  function EncodeRecord(rec: QuoteRecord): (bs: seq<byte>)
    ensures |bs| == BYTES_OF_RECORD
  {
    LeU32(rec.secondsFrom1970) + LeU32(rec.lastPrice) + LeU32(rec.totalVolumeToday) + LeU32(rec.totalTradeMoneyToday)
      + LeU16(rec.buy1Volume) + LeU16(rec.buy2Volume) + LeU16(rec.buy3Volume)
      + LeU16(rec.sell1Volume) + LeU16(rec.sell2Volume) + LeU16(rec.sell3Volume)
      + [rec.buy1, rec.buy2, rec.buy3, rec.sell1, rec.sell2, rec.sell3]
      + LeU16(rec.reserved)
  }

  /** Unpacking a packed record gives it back, whatever follows it. */
  lemma RecordRoundTrip(rec: QuoteRecord, rest: seq<byte>)
    ensures UnpackRecord(EncodeRecord(rec) + rest) == Ok(rec)
  {
    var buf := EncodeRecord(rec) + rest;
    assert buf[.. BYTES_OF_RECORD] == EncodeRecord(rec);
    RecordEncodingComplete(buf);
    EncodeRecordInjective(UnpackRecord(buf).value, rec);
  }

  lemma SplitEqual(a1: seq<byte>, a2: seq<byte>, b1: seq<byte>, b2: seq<byte>)
    requires |a1| == |b1| && a1 + a2 == b1 + b2
    ensures a1 == b1 && a2 == b2
  {
    assert a1 == (a1 + a2)[.. |a1|];
    assert a2 == (a1 + a2)[|a1| ..];
  }

  /** Different records pack to different bytes. */
  lemma EncodeRecordInjective(a: QuoteRecord, b: QuoteRecord)
    requires EncodeRecord(a) == EncodeRecord(b)
    ensures a == b
  {
    var a4 := LeU32(a.secondsFrom1970) + LeU32(a.lastPrice) + LeU32(a.totalVolumeToday) + LeU32(a.totalTradeMoneyToday);
    var b4 := LeU32(b.secondsFrom1970) + LeU32(b.lastPrice) + LeU32(b.totalVolumeToday) + LeU32(b.totalTradeMoneyToday);
    var a7 := a4 + LeU16(a.buy1Volume) + LeU16(a.buy2Volume) + LeU16(a.buy3Volume);
    var b7 := b4 + LeU16(b.buy1Volume) + LeU16(b.buy2Volume) + LeU16(b.buy3Volume);
    var a10 := a7 + LeU16(a.sell1Volume) + LeU16(a.sell2Volume) + LeU16(a.sell3Volume);
    var b10 := b7 + LeU16(b.sell1Volume) + LeU16(b.sell2Volume) + LeU16(b.sell3Volume);
    var a11 := a10 + [a.buy1, a.buy2, a.buy3, a.sell1, a.sell2, a.sell3];
    var b11 := b10 + [b.buy1, b.buy2, b.buy3, b.sell1, b.sell2, b.sell3];
    SplitEqual(a11, LeU16(a.reserved), b11, LeU16(b.reserved));
    SplitEqual(a10, [a.buy1, a.buy2, a.buy3, a.sell1, a.sell2, a.sell3], b10, [b.buy1, b.buy2, b.buy3, b.sell1, b.sell2, b.sell3]);
    SplitEqual(a7 + LeU16(a.sell1Volume) + LeU16(a.sell2Volume), LeU16(a.sell3Volume),
               b7 + LeU16(b.sell1Volume) + LeU16(b.sell2Volume), LeU16(b.sell3Volume));
    SplitEqual(a7 + LeU16(a.sell1Volume), LeU16(a.sell2Volume), b7 + LeU16(b.sell1Volume), LeU16(b.sell2Volume));
    SplitEqual(a7, LeU16(a.sell1Volume), b7, LeU16(b.sell1Volume));
    SplitEqual(a4 + LeU16(a.buy1Volume) + LeU16(a.buy2Volume), LeU16(a.buy3Volume),
               b4 + LeU16(b.buy1Volume) + LeU16(b.buy2Volume), LeU16(b.buy3Volume));
    SplitEqual(a4 + LeU16(a.buy1Volume), LeU16(a.buy2Volume), b4 + LeU16(b.buy1Volume), LeU16(b.buy2Volume));
    SplitEqual(a4, LeU16(a.buy1Volume), b4, LeU16(b.buy1Volume));
    SplitEqual(LeU32(a.secondsFrom1970) + LeU32(a.lastPrice) + LeU32(a.totalVolumeToday), LeU32(a.totalTradeMoneyToday),
               LeU32(b.secondsFrom1970) + LeU32(b.lastPrice) + LeU32(b.totalVolumeToday), LeU32(b.totalTradeMoneyToday));
    SplitEqual(LeU32(a.secondsFrom1970) + LeU32(a.lastPrice), LeU32(a.totalVolumeToday),
               LeU32(b.secondsFrom1970) + LeU32(b.lastPrice), LeU32(b.totalVolumeToday));
    SplitEqual(LeU32(a.secondsFrom1970), LeU32(a.lastPrice), LeU32(b.secondsFrom1970), LeU32(b.lastPrice));
    LeU32Injective(a.secondsFrom1970, b.secondsFrom1970);
    LeU32Injective(a.lastPrice, b.lastPrice);
    LeU32Injective(a.totalVolumeToday, b.totalVolumeToday);
    LeU32Injective(a.totalTradeMoneyToday, b.totalTradeMoneyToday);
    LeU16Injective(a.buy1Volume, b.buy1Volume);
    LeU16Injective(a.buy2Volume, b.buy2Volume);
    LeU16Injective(a.buy3Volume, b.buy3Volume);
    LeU16Injective(a.sell1Volume, b.sell1Volume);
    LeU16Injective(a.sell2Volume, b.sell2Volume);
    LeU16Injective(a.sell3Volume, b.sell3Volume);
    LeU16Injective(a.reserved, b.reserved);
  }

  /** Every 36 bytes are the packing of the record they unpack to: the
      layout has no padding and no byte the unpacker skips. */
  lemma RecordEncodingComplete(buf: seq<byte>)
    requires |buf| >= BYTES_OF_RECORD
    ensures EncodeRecord(UnpackRecord(buf).value) == buf[.. BYTES_OF_RECORD]
  {
    var enc := EncodeRecord(UnpackRecord(buf).value);
    U32AtInverse(buf, 0);
    U32AtInverse(buf, 4);
    U32AtInverse(buf, 8);
    U32AtInverse(buf, 12);
    U16AtInverse(buf, 16);
    U16AtInverse(buf, 18);
    U16AtInverse(buf, 20);
    U16AtInverse(buf, 22);
    U16AtInverse(buf, 24);
    U16AtInverse(buf, 26);
    U16AtInverse(buf, 34);
    forall k | 0 <= k < BYTES_OF_RECORD
      ensures enc[k] == buf[k]
    {
    }
  }

  /** The columns `_parse_one_record` formats: the timestamp, the three
      float words and the first level of the book. */
  function OneRecord(rec: QuoteRecord): Row {
    Row(rec.secondsFrom1970, rec.lastPrice, rec.totalVolumeToday, rec.totalTradeMoneyToday,
        rec.buy1Volume, rec.sell1Volume, rec.buy1, rec.sell1)
  }

  /** `_parse_one_record(pos, 36)`: read 36 bytes at `pos` and unpack them.
      It succeeds exactly when the 36 bytes are there, and the row holds the
      little-endian fields at 0, 4, 8, 12, 16 and 22 and the bytes at 28 and
      31 of the record. */
  function ParseOneRecord(file: seq<byte>, pos: nat): (r: Result<Row>)
    ensures r.Ok? <==> pos + BYTES_OF_RECORD <= |file|
    ensures r.Err? ==> r.error == StructError(BYTES_OF_RECORD, |Read(file, pos, BYTES_OF_RECORD)|)
    ensures r.Ok? ==>
      && r.value.seconds == U32At(file, pos) && r.value.lastPrice == U32At(file, pos + 4)
      && r.value.totalVolumeToday == U32At(file, pos + 8) && r.value.totalTradeMoneyToday == U32At(file, pos + 12)
      && r.value.buy1Volume == U16At(file, pos + 16) && r.value.sell1Volume == U16At(file, pos + 22)
      && r.value.buy1 == file[pos + 28] && r.value.sell1 == file[pos + 31]
  {
    var rec :- UnpackRecord(Read(file, pos, BYTES_OF_RECORD));
    Ok(OneRecord(rec))
  }

  /** Only the bytes of the emitted columns matter: depth levels two and
      three and the reserved word never reach the row. */
  lemma ParseOneRecordReadsOnlyItsColumns(f1: seq<byte>, f2: seq<byte>, pos: nat)
    requires pos + BYTES_OF_RECORD <= |f1| && pos + BYTES_OF_RECORD <= |f2|
    requires f1[pos .. pos + 18] == f2[pos .. pos + 18]
    requires f1[pos + 22 .. pos + 24] == f2[pos + 22 .. pos + 24]
    requires f1[pos + 28] == f2[pos + 28] && f1[pos + 31] == f2[pos + 31]
    ensures ParseOneRecord(f1, pos) == ParseOneRecord(f2, pos)
  {
    assert forall k :: pos <= k < pos + 18 ==> f1[k] == f2[k] by {
      forall k | pos <= k < pos + 18 ensures f1[k] == f2[k] {
        assert f1[pos .. pos + 18][k - pos] == f2[pos .. pos + 18][k - pos];
      }
    }
    assert f1[pos + 22] == f2[pos + 22] by {
      assert f1[pos + 22 .. pos + 24][0] == f2[pos + 22 .. pos + 24][0];
    }
    assert f1[pos + 23] == f2[pos + 23] by {
      assert f1[pos + 22 .. pos + 24][1] == f2[pos + 22 .. pos + 24][1];
    }
  }

  /** Where record `i` of an instrument lies: the page `i / rs` is looked up
      in the position table, pages are `rs` records of 36 bytes from
      `recordBeginPosition`, and the record is slot `i % rs` of its page.
      The division comes first, so a zero page size fails before the
      table lookup. */
  function CodePos(positions: seq<u16>, recordSize: nat, recordBeginPosition: nat, i: nat): Result<nat> {
    if recordSize == 0 then Err(ZeroDivision)
    else
      var page := i / recordSize;
      if page >= |positions| then Err(IndexError(page))
      else
        var baseAddress := positions[page] * recordSize * BYTES_OF_RECORD + recordBeginPosition;
        Ok(baseAddress + (i % recordSize) * BYTES_OF_RECORD)
  }

  /** The offset computation fails exactly for a zero page size or a page
      past the table, and otherwise lands a whole number of records past
      the start of the record area. */
  lemma CodePosSpec(positions: seq<u16>, recordSize: nat, recordBeginPosition: nat, i: nat)
    ensures CodePos(positions, recordSize, recordBeginPosition, i).Err? <==>
      recordSize == 0 || i / recordSize >= |positions|
    ensures recordSize == 0 ==> CodePos(positions, recordSize, recordBeginPosition, i) == Err(ZeroDivision)
    ensures recordSize > 0 && i / recordSize >= |positions| ==>
      CodePos(positions, recordSize, recordBeginPosition, i) == Err(IndexError(i / recordSize))
    ensures CodePos(positions, recordSize, recordBeginPosition, i).Ok? ==>
      var off := CodePos(positions, recordSize, recordBeginPosition, i).value;
      && off >= recordBeginPosition
      && (off - recordBeginPosition) % BYTES_OF_RECORD == 0
      && (off - recordBeginPosition) / BYTES_OF_RECORD == positions[i / recordSize] * recordSize + i % recordSize
  {
    if recordSize > 0 && i / recordSize < |positions| {
      var slot := positions[i / recordSize] * recordSize + i % recordSize;
      assert positions[i / recordSize] * recordSize * BYTES_OF_RECORD + (i % recordSize) * BYTES_OF_RECORD
        == slot * BYTES_OF_RECORD;
    }
  }

  /** Consecutive records of one page are consecutive 36-byte blocks. */
  lemma CodePosStride(positions: seq<u16>, recordSize: nat, recordBeginPosition: nat, i: nat)
    requires recordSize > 0 && i / recordSize == (i + 1) / recordSize < |positions|
    ensures CodePos(positions, recordSize, recordBeginPosition, i).Ok?
    ensures CodePos(positions, recordSize, recordBeginPosition, i + 1)
      == Ok(CodePos(positions, recordSize, recordBeginPosition, i).value + BYTES_OF_RECORD)
  {
    assert (i + 1) % recordSize == i % recordSize + 1 by {
      assert i == (i / recordSize) * recordSize + i % recordSize;
      assert i + 1 == ((i + 1) / recordSize) * recordSize + (i + 1) % recordSize;
    }
  }

  /** Two records land on the same offset only when they are the same slot
      of pages that the table maps to the same position. */
  lemma CodePosCollision(positions: seq<u16>, recordSize: nat, recordBeginPosition: nat, i: nat, j: nat)
    requires CodePos(positions, recordSize, recordBeginPosition, i).Ok?
    requires CodePos(positions, recordSize, recordBeginPosition, i) == CodePos(positions, recordSize, recordBeginPosition, j)
    ensures i % recordSize == j % recordSize
    ensures positions[i / recordSize] == positions[j / recordSize]
  {
    CodePosSpec(positions, recordSize, recordBeginPosition, i);
    CodePosSpec(positions, recordSize, recordBeginPosition, j);
    DivModUnique(positions[i / recordSize], i % recordSize, positions[j / recordSize], j % recordSize, recordSize);
  }
}
