/** The text of an output line: the columns of a row joined by commas, the
    way `_parse_one_record` builds its return value, and the inverse
    `str.split(',')` that reads the columns back. */
module RowText {
  import opened Bytes
  import opened Calendar
  import opened Timestamp
  import opened Records

  /** `"%<width>.<precision>f" % x` for the 32-bit float whose bits are
      given. Floating-point formatting is not modelled: callers supply it. */
  type FloatFormat = (u32, nat, nat) -> string

  /** The column names of the first line of every CSV file. */
  const HEADER_COLUMNS: seq<string> :=
    ["time", "new_price", "vol_today", "ammount", "buy_vol", "sell_vol", "buy_price(relative)", "sell_price(relative)"]

  predicate NoComma(s: string) {
    forall i :: 0 <= i < |s| ==> s[i] != ','
  }

  /** `",".join(parts)`. */
  function Join(parts: seq<string>): string
    requires |parts| >= 1
    decreases |parts|
  {
    if |parts| == 1 then parts[0] else parts[0] + "," + Join(parts[1..])
  }

  /** `s.split(',')`: the pieces between commas, empty ones included. */
  function Split(s: string): (parts: seq<string>)
    ensures |parts| >= 1
    decreases |s|
  {
    if s == [] then [[]]
    else
      var rest := Split(s[1..]);
      if s[0] == ',' then [[]] + rest else [[s[0]] + rest[0]] + rest[1..]
  }

  /** A piece with no comma splits to itself. */
  lemma {:induction false} SplitNoComma(p: string)
    requires NoComma(p)
    ensures Split(p) == [p]
    decreases |p|
  {
    if p != [] {
      SplitNoComma(p[1..]);
      assert [p[0]] + p[1..] == p;
    }
  }

  /** Splitting stops at the first comma. */
  lemma {:induction false} SplitAtComma(p: string, t: string)
    requires NoComma(p)
    ensures Split(p + "," + t) == [p] + Split(t)
    decreases |p|
  {
    var s := p + "," + t;
    if p == [] {
      assert s == [','] + t;
      assert s[1..] == t;
    } else {
      assert s[1..] == p[1..] + "," + t;
      SplitAtComma(p[1..], t);
      assert [p[0]] + p[1..] == p;
    }
  }

  /** Splitting undoes joining when no piece holds a comma. */
  lemma {:induction false} SplitJoin(parts: seq<string>)
    requires |parts| >= 1
    requires forall i :: 0 <= i < |parts| ==> NoComma(parts[i])
    ensures Split(Join(parts)) == parts
    decreases |parts|
  {
    if |parts| == 1 {
      SplitNoComma(parts[0]);
    } else {
      SplitAtComma(parts[0], Join(parts[1..]));
      SplitJoin(parts[1..]);
    }
  }

  lemma DigitsHaveNoComma(s: string)
    requires IsDigits(s)
    ensures NoComma(s)
  {
    forall i | 0 <= i < |s| ensures s[i] != ',' {
      assert '0' <= s[i] <= '9';
    }
  }

  lemma TimeLayoutHasNoComma(s: string)
    requires IsTimeLayout(s)
    ensures NoComma(s)
  {
    forall i | 0 <= i < |s| ensures s[i] != ',' {
      if i < 4 {
        assert s[0 .. 4][i] == s[i];
      } else if 4 < i < 7 {
        assert s[5 .. 7][i - 5] == s[i];
      } else if 7 < i < 10 {
        assert s[8 .. 10][i - 8] == s[i];
      } else if 10 < i < 13 {
        assert s[11 .. 13][i - 11] == s[i];
      } else if 13 < i < 16 {
        assert s[14 .. 16][i - 14] == s[i];
      } else if 16 < i {
        assert s[17 .. 19][i - 17] == s[i];
      }
    }
  }

  /** The eight columns of a row, as text. */
  function Columns(row: Row, format: FloatFormat): (cols: seq<string>)
    ensures |cols| == |HEADER_COLUMNS|
  {
    [TimeString(row.seconds),
     format(row.lastPrice, 8, 1), format(row.totalVolumeToday, 4, 0), format(row.totalTradeMoneyToday, 8, 0),
     Decimal(row.buy1Volume), Decimal(row.sell1Volume), Decimal(row.buy1), Decimal(row.sell1)]
  }

  /** The line `_parse_one_record` returns for a row. */
  function RecordLine(row: Row, format: FloatFormat): string {
    Join(Columns(row, format))
  }

  /** The lines written for an instrument's rows: one `_parse_one_record`
      line per row, in row order, each followed by a newline in the file. */
  function Lines(rows: seq<Row>, format: FloatFormat): (lines: seq<string>)
    ensures |lines| == |rows|
  {
    seq(|rows|, i requires 0 <= i < |rows| => RecordLine(rows[i], format))
  }

  /** Line i is the line of row i and splits back into its columns, whose
      time and integer columns read back as that row's fields
      (`ColumnsReadBack`). */
  lemma LineSplits(rows: seq<Row>, format: FloatFormat, i: nat)
    requires i < |rows|
    requires NoComma(format(rows[i].lastPrice, 8, 1))
    requires NoComma(format(rows[i].totalVolumeToday, 4, 0))
    requires NoComma(format(rows[i].totalTradeMoneyToday, 8, 0))
    ensures Lines(rows, format)[i] == RecordLine(rows[i], format)
    ensures Split(Lines(rows, format)[i]) == Columns(rows[i], format)
  {
    RecordLineSplits(rows[i], format);
  }

  /** As long as the float rendering holds no comma (Python's `%f` never
      writes one), a line splits back into exactly its eight columns, as
      many as the header names. */
  lemma RecordLineSplits(row: Row, format: FloatFormat)
    requires NoComma(format(row.lastPrice, 8, 1))
    requires NoComma(format(row.totalVolumeToday, 4, 0))
    requires NoComma(format(row.totalTradeMoneyToday, 8, 0))
    ensures Split(RecordLine(row, format)) == Columns(row, format)
  {
    ColumnsHaveNoComma(row, format);
    SplitJoin(Columns(row, format));
  }

  lemma TimeColumnHasNoComma(seconds: u32)
    ensures NoComma(TimeString(seconds))
  {
    TimeStringOfU32(seconds);
    TimeLayoutHasNoComma(TimeString(seconds));
  }

  lemma ColumnsHaveNoComma(row: Row, format: FloatFormat)
    requires NoComma(format(row.lastPrice, 8, 1))
    requires NoComma(format(row.totalVolumeToday, 4, 0))
    requires NoComma(format(row.totalTradeMoneyToday, 8, 0))
    ensures forall i :: 0 <= i < |Columns(row, format)| ==> NoComma(Columns(row, format)[i])
  {
    var cols := Columns(row, format);
    TimeColumnHasNoComma(row.seconds);
    DigitsHaveNoComma(Decimal(row.buy1Volume));
    DigitsHaveNoComma(Decimal(row.sell1Volume));
    DigitsHaveNoComma(Decimal(row.buy1));
    DigitsHaveNoComma(Decimal(row.sell1));
    NoCommaEight(TimeString(row.seconds), format(row.lastPrice, 8, 1), format(row.totalVolumeToday, 4, 0),
                 format(row.totalTradeMoneyToday, 8, 0), Decimal(row.buy1Volume), Decimal(row.sell1Volume),
                 Decimal(row.buy1), Decimal(row.sell1));
  }

  lemma NoCommaEight(c0: string, c1: string, c2: string, c3: string, c4: string, c5: string, c6: string, c7: string)
    requires NoComma(c0) && NoComma(c1) && NoComma(c2) && NoComma(c3)
    requires NoComma(c4) && NoComma(c5) && NoComma(c6) && NoComma(c7)
    ensures var cols := [c0, c1, c2, c3, c4, c5, c6, c7];
      forall i :: 0 <= i < |cols| ==> NoComma(cols[i])
  {
  }

  /** The first column reads back as the record's time and the last four as
      its integer fields. */
  lemma ColumnsReadBack(row: Row, format: FloatFormat)
    ensures var cols := Columns(row, format);
      && IsTimeLayout(cols[0]) && ParseTimeString(cols[0]) == Gmtime(row.seconds)
      && EpochSeconds(ParseTimeString(cols[0])) == row.seconds
      && IsDigits(cols[4]) && DigitsValue(cols[4]) == row.buy1Volume
      && IsDigits(cols[5]) && DigitsValue(cols[5]) == row.sell1Volume
      && IsDigits(cols[6]) && DigitsValue(cols[6]) == row.buy1
      && IsDigits(cols[7]) && DigitsValue(cols[7]) == row.sell1
  {
    var cols := Columns(row, format);
    assert cols[0] == TimeString(row.seconds) && cols[4] == Decimal(row.buy1Volume)
      && cols[5] == Decimal(row.sell1Volume) && cols[6] == Decimal(row.buy1) && cols[7] == Decimal(row.sell1);
    TimeStringOfU32(row.seconds);
    DecimalValue(row.buy1Volume);
    DecimalValue(row.sell1Volume);
    DecimalValue(row.buy1);
    DecimalValue(row.sell1);
  }

  /** Two rows whose lines are equal agree on the time and on the four
      integer columns. */
  lemma RecordLineDeterminesIntegers(r1: Row, r2: Row, format: FloatFormat)
    requires NoComma(format(r1.lastPrice, 8, 1)) && NoComma(format(r2.lastPrice, 8, 1))
    requires NoComma(format(r1.totalVolumeToday, 4, 0)) && NoComma(format(r2.totalVolumeToday, 4, 0))
    requires NoComma(format(r1.totalTradeMoneyToday, 8, 0)) && NoComma(format(r2.totalTradeMoneyToday, 8, 0))
    requires RecordLine(r1, format) == RecordLine(r2, format)
    ensures r1.seconds == r2.seconds
    ensures r1.buy1Volume == r2.buy1Volume && r1.sell1Volume == r2.sell1Volume
    ensures r1.buy1 == r2.buy1 && r1.sell1 == r2.sell1
  {
    RecordLineSplits(r1, format);
    RecordLineSplits(r2, format);
    ColumnsReadBack(r1, format);
    ColumnsReadBack(r2, format);
  }

  /** The header line has as many columns as a record line. */
  lemma HeaderColumnsSplit()
    ensures Split(Join(HEADER_COLUMNS)) == HEADER_COLUMNS
  {
    forall i | 0 <= i < |HEADER_COLUMNS| ensures NoComma(HEADER_COLUMNS[i]) {
    }
    SplitJoin(HEADER_COLUMNS);
  }
}
