/** `_parse_all` and `write_all`: decode the instrument directory, turn every
    instrument that has records into one CSV file of rows, and, when that
    fails, try once more under the other descriptor size. */
module Driver {
  import opened Faults
  import opened Bytes
  import opened Header
  import opened FutureMaps
  import opened Records

  /** The rows one attempt appends to `<out_dir>/<futureName>.csv`. */
  datatype CsvFile = CsvFile(futureName: seq<byte>, rows: seq<Row>)

  /** One call of `_parse_all`: the alignment it assumed and what it produced. */
  datatype Attempt = Attempt(alignment: bool, outcome: Result<seq<CsvFile>>)

  /** One call of `write_all`: the attempts made, in order, and how it ended. */
  datatype Session = Session(attempts: seq<Attempt>, result: Result<seq<CsvFile>>)

  /** Descriptor `i` under the given alignment. */
  function DescriptorAt(file: seq<byte>, i: nat, alignment: bool): Result<FutureMap> {
    DecodeFutureMap(Read(file, FutureMapPosition(i, alignment), BytesOfFuture(alignment)))
  }

  /** Runs a sequence of steps that may fail, in order: all the values when
      every step succeeds, otherwise the error of the first step that fails.
      This is how a Python loop or comprehension behaves when a round raises. */
  function Collect<T>(steps: seq<Result<T>>): Result<seq<T>>
    decreases |steps|
  {
    if steps == [] then Ok([])
    else
      var prefix :- Collect(steps[.. |steps| - 1]);
      var last :- steps[|steps| - 1];
      Ok(prefix + [last])
  }

  /** The descriptor decodes of the comprehension building `future_maps`. */
  function Descriptors(file: seq<byte>, alignment: bool, n: nat): seq<Result<FutureMap>> {
    seq(n, i requires 0 <= i < n => DescriptorAt(file, i, alignment))
  }

  /** `future_maps`: descriptors 0 to n-1 in order; the first that fails
      ends the comprehension. */
  function Directory(file: seq<byte>, alignment: bool, n: nat): Result<seq<FutureMap>> {
    Collect(Descriptors(file, alignment, n))
  }

  /** Record `i` of an instrument whose page table is `positions`. */
  function RecordAt(file: seq<byte>, h: FileHeader, positions: seq<u16>, i: nat): Result<Row> {
    var codePos :- CodePos(positions, h.recordSize, h.recordBeginPosition, i);
    ParseOneRecord(file, codePos)
  }

  /** The record reads of `for i in range(records_number)`. */
  function RecordReads(file: seq<byte>, h: FileHeader, positions: seq<u16>, n: nat): seq<Result<Row>> {
    seq(n, i requires 0 <= i < n => RecordAt(file, h, positions, i))
  }

  /** The rows of one instrument: one per index, in index order; the first
      failure ends the loop. */
  function RecordRows(file: seq<byte>, h: FileHeader, positions: seq<u16>, n: nat): Result<seq<Row>> {
    Collect(RecordReads(file, h, positions, n))
  }

  /** The instruments `_parse_all` writes a file for: those with records,
      in directory order. */
  function WithRecords(maps: seq<FutureMap>): seq<FutureMap>
    decreases |maps|
  {
    if maps == [] then []
    else
      var prefix := WithRecords(maps[.. |maps| - 1]);
      if maps[|maps| - 1].recordsNumber == 0 then prefix else prefix + [maps[|maps| - 1]]
  }

  /** The file one instrument gets: its name and all its rows. */
  function FileOf(file: seq<byte>, h: FileHeader, future: FutureMap): Result<CsvFile> {
    var rows :- RecordRows(file, h, future.stockPositions, future.recordsNumber);
    Ok(CsvFile(future.futureName, rows))
  }

  function FileReads(file: seq<byte>, h: FileHeader, futures: seq<FutureMap>): seq<Result<CsvFile>> {
    seq(|futures|, k requires 0 <= k < |futures| => FileOf(file, h, futures[k]))
  }

  /** The `for future in future_maps` loop: instruments without records are
      skipped, every other one gets its file, in order. */
  function Output(file: seq<byte>, h: FileHeader, maps: seq<FutureMap>): Result<seq<CsvFile>> {
    Collect(FileReads(file, h, WithRecords(maps)))
  }

  /** `_parse_all`: any failure inside is re-raised as a runtime error. */
  function ParseAllResult(file: seq<byte>, h: FileHeader, alignment: bool): (r: Result<seq<CsvFile>>)
    ensures r.Err? ==> r.error.RuntimeError?
  {
    match Directory(file, alignment, h.codeNumber)
    case Err(e) => Err(RuntimeError(e))
    case Ok(maps) =>
      match Output(file, h, maps)
      case Err(e) => Err(RuntimeError(e))
      case Ok(out) => Ok(out)
  }

  /** `write_all`: the header is read once, outside the retry; the first
      attempt uses the given alignment and, only if it fails, a second one
      uses the other. */
  function WriteAllResult(file: seq<byte>, alignment: bool): Session {
    var header := ParseHeader(file);
    if header.Err? then Session([], Err(header.error))
    else
      var first := Attempt(alignment, ParseAllResult(file, header.value, alignment));
      if first.outcome.Ok? then Session([first], first.outcome)
      else
        var second := Attempt(!alignment, ParseAllResult(file, header.value, !alignment));
        Session([first, second], second.outcome)
  }

  // ---------------------------------------------------------------------
  // The imperative driver, proved against the functions above.
  // ---------------------------------------------------------------------

  /** `future_maps = [self._parse_future_map(0x20+i*bytes_of_future, ...) for i in range(code_number)]`. */
  method ParseDirectory(file: seq<byte>, alignment: bool, codeNumber: nat) returns (r: Result<seq<FutureMap>>)
    ensures r == Directory(file, alignment, codeNumber)
  {
    var bytesOfFuture := BytesOfFuture(alignment);
    ghost var steps := Descriptors(file, alignment, codeNumber);
    var futureMaps: seq<FutureMap> := [];
    for i := 0 to codeNumber
      invariant Collect(steps[..i]) == Ok(futureMaps)
    {
      assert 0x20 + i * bytesOfFuture == FutureMapPosition(i, alignment);
      var m := ParseFutureMap(file, 0x20 + i * bytesOfFuture, bytesOfFuture);
      assert steps[i] == DescriptorAt(file, i, alignment);
      CollectStep(steps, i);
      if m.Err? {
        CollectFailureSticks(steps, i + 1, codeNumber);
        assert steps[..codeNumber] == steps;
        return Err(m.error);
      }
      futureMaps := futureMaps + [m.value];
    }
    assert steps[..codeNumber] == steps;
    return Ok(futureMaps);
  }

  /** The inner `for i in range(future['records_number'])` loop: locate
      each record through the page table and read it. */
  method ParseRecords(file: seq<byte>, h: FileHeader, future: FutureMap) returns (r: Result<seq<Row>>)
    ensures r == RecordRows(file, h, future.stockPositions, future.recordsNumber)
  {
    var recordSize, recordBeginPosition := h.recordSize, h.recordBeginPosition;
    ghost var steps := RecordReads(file, h, future.stockPositions, future.recordsNumber);
    var rows: seq<Row> := [];
    for i := 0 to future.recordsNumber
      invariant Collect(steps[..i]) == Ok(rows)
    {
      var codePos := CodePos(future.stockPositions, recordSize, recordBeginPosition, i);
      var oneRecord := if codePos.Err? then Err(codePos.error) else ParseOneRecord(file, codePos.value);
      assert steps[i] == RecordAt(file, h, future.stockPositions, i);
      assert oneRecord == steps[i];
      CollectStep(steps, i);
      if oneRecord.Err? {
        CollectFailureSticks(steps, i + 1, future.recordsNumber);
        assert steps[..future.recordsNumber] == steps;
        return Err(oneRecord.error);
      }
      rows := rows + [oneRecord.value];
    }
    assert steps[..future.recordsNumber] == steps;
    return Ok(rows);
  }

  /** The body of `_parse_all`. */
  method ParseAll(file: seq<byte>, h: FileHeader, alignment: bool) returns (r: Result<seq<CsvFile>>)
    ensures r == ParseAllResult(file, h, alignment)
  {
    var futureMaps := ParseDirectory(file, alignment, h.codeNumber);
    if futureMaps.Err? {
      return Err(RuntimeError(futureMaps.error));
    }
    var maps := futureMaps.value;
    ghost var steps := FileReads(file, h, WithRecords(maps));
    ghost var j := 0;
    var out: seq<CsvFile> := [];
    for k := 0 to |maps|
      invariant j == |WithRecords(maps[..k])| <= |steps|
      invariant WithRecords(maps)[..j] == WithRecords(maps[..k])
      invariant Collect(steps[..j]) == Ok(out)
    {
      var future := maps[k];
      if future.recordsNumber == 0 {
        WithRecordsStep(maps, k);
        continue;
      }
      WithRecordsKeep(maps, k, j);
      var rows := ParseRecords(file, h, future);
      assert steps[j] == FileOf(file, h, future);
      CollectStep(steps, j);
      if rows.Err? {
        CollectFailureSticks(steps, j + 1, |steps|);
        assert steps[..|steps|] == steps;
        return Err(RuntimeError(rows.error));
      }
      out := out + [CsvFile(future.futureName, rows.value)];
      j := j + 1;
    }
    assert maps[..|maps|] == maps;
    assert steps[..|steps|] == steps;
    return Ok(out);
  }

  /** `write_all`: read the header, try once, and on failure flip the
      alignment and try once more. */
  method WriteAll(file: seq<byte>, alignment: bool) returns (s: Session)
    ensures s == WriteAllResult(file, alignment)
  {
    var header := ParseHeader(file);
    if header.Err? {
      return Session([], Err(header.error));
    }
    var align := alignment;
    var outcome := ParseAll(file, header.value, align);
    var attempts := [Attempt(align, outcome)];
    if outcome.Err? {
      align := !align;
      outcome := ParseAll(file, header.value, align);
      attempts := attempts + [Attempt(align, outcome)];
    }
    return Session(attempts, outcome);
  }

  // ---------------------------------------------------------------------
  // Collect, one round at a time.
  // ---------------------------------------------------------------------

  /** One more round of a loop. */
  lemma CollectStep<T>(steps: seq<Result<T>>, i: nat)
    requires i < |steps|
    ensures var prefix := Collect(steps[..i]);
      Collect(steps[.. i + 1]) ==
        if prefix.Err? then prefix
        else if steps[i].Err? then Err(steps[i].error)
        else Ok(prefix.value + [steps[i].value])
  {
    assert steps[.. i + 1][.. i] == steps[..i];
  }

  /** Once a round fails, the loop ends with that failure. */
  lemma {:induction false} CollectFailureSticks<T>(steps: seq<Result<T>>, m: nat, n: nat)
    requires m <= n <= |steps| && Collect(steps[..m]).Err?
    ensures Collect(steps[..n]) == Collect(steps[..m])
    decreases n - m
  {
    if m < n {
      CollectFailureSticks(steps, m, n - 1);
      assert steps[..n][.. n - 1] == steps[.. n - 1];
    }
  }

  /** The instruments with records among the first k + 1. */
  lemma WithRecordsStep(maps: seq<FutureMap>, k: nat)
    requires k < |maps|
    ensures WithRecords(maps[.. k + 1]) ==
      if maps[k].recordsNumber == 0 then WithRecords(maps[..k]) else WithRecords(maps[..k]) + [maps[k]]
  {
    assert maps[.. k + 1][.. k] == maps[..k];
  }

  /** An instrument with records is the next one kept. */
  lemma WithRecordsKeep(maps: seq<FutureMap>, k: nat, j: nat)
    requires k < |maps| && maps[k].recordsNumber != 0
    requires j == |WithRecords(maps[..k])| <= |WithRecords(maps)| && WithRecords(maps)[..j] == WithRecords(maps[..k])
    ensures j < |WithRecords(maps)| && WithRecords(maps)[j] == maps[k]
    ensures j + 1 == |WithRecords(maps[.. k + 1])| && WithRecords(maps)[.. j + 1] == WithRecords(maps[.. k + 1])
  {
    WithRecordsStep(maps, k);
    WithRecordsPrefix(maps, k + 1);
    assert WithRecords(maps)[.. j + 1][j] == WithRecords(maps[.. k + 1])[j];
  }

  /** Filtering a prefix gives a prefix of the filtered list. */
  lemma {:induction false} WithRecordsPrefix(maps: seq<FutureMap>, k: nat)
    requires k <= |maps|
    ensures |WithRecords(maps[..k])| <= |WithRecords(maps)|
    ensures WithRecords(maps)[.. |WithRecords(maps[..k])|] == WithRecords(maps[..k])
    decreases |maps| - k
  {
    if k == |maps| {
      assert maps[..k] == maps;
    } else {
      WithRecordsPrefix(maps, k + 1);
      WithRecordsStep(maps, k);
    }
  }

  // ---------------------------------------------------------------------
  // What the driver promises.
  // ---------------------------------------------------------------------

  /** A run of steps succeeds exactly when every step does, and then yields
      one value per step, in order; otherwise it fails with the error of the
      first failing step. */
  lemma {:induction false} CollectSpec<T>(steps: seq<Result<T>>)
    ensures Collect(steps).Ok? <==> forall i :: 0 <= i < |steps| ==> steps[i].Ok?
    ensures Collect(steps).Ok? ==>
      |Collect(steps).value| == |steps| && forall i :: 0 <= i < |steps| ==> steps[i] == Ok(Collect(steps).value[i])
    ensures Collect(steps).Err? ==>
      exists i :: 0 <= i < |steps| && steps[i].Err? && Collect(steps).error == steps[i].error
        && forall k :: 0 <= k < i ==> steps[k].Ok?
    decreases |steps|
  {
    if steps != [] {
      var n := |steps| - 1;
      var prefix := steps[..n];
      CollectSpec(prefix);
      assert forall i :: 0 <= i < n ==> prefix[i] == steps[i];
      if Collect(prefix).Err? {
        var i :| 0 <= i < |prefix| && prefix[i].Err? && Collect(prefix).error == prefix[i].error
          && forall k :: 0 <= k < i ==> prefix[k].Ok?;
        assert steps[i].Err?;
      } else if steps[n].Err? {
        assert forall k :: 0 <= k < n ==> steps[k].Ok?;
      }
    }
  }

  /** A descriptor decodes exactly when its first 80 bytes lie inside the
      file; the descriptor size itself does not have to fit. */
  lemma DescriptorAtSpec(file: seq<byte>, i: nat, alignment: bool)
    ensures DescriptorAt(file, i, alignment).Ok? <==> FutureMapPosition(i, alignment) + DECODED_LENGTH <= |file|
  {
    var pos, size := FutureMapPosition(i, alignment), BytesOfFuture(alignment);
    DecodeFutureMapSpec(Read(file, pos, size));
  }

  /** The directory has one descriptor per index below `code_number`, the
      i-th decoded at 0x20 + i * 254 (or 252 with the alignment flag); it
      decodes exactly when the first 80 bytes of the last descriptor are in
      the file. */
  lemma DirectorySpec(file: seq<byte>, alignment: bool, n: nat)
    ensures Directory(file, alignment, n).Ok? <==>
      n == 0 || FutureMapPosition(n - 1, alignment) + DECODED_LENGTH <= |file|
    ensures Directory(file, alignment, n).Ok? ==>
      var maps := Directory(file, alignment, n).value;
      |maps| == n && forall i :: 0 <= i < n ==> DescriptorAt(file, i, alignment) == Ok(maps[i])
  {
    var steps := Descriptors(file, alignment, n);
    CollectSpec(steps);
    if n > 0 {
      DescriptorAtSpec(file, n - 1, alignment);
      assert steps[n - 1] == DescriptorAt(file, n - 1, alignment);
      if FutureMapPosition(n - 1, alignment) + DECODED_LENGTH <= |file| {
        forall i | 0 <= i < n ensures steps[i].Ok? {
          if i < n - 1 {
            FutureMapsDisjoint(i, n - 1, alignment);
          }
          DescriptorAtSpec(file, i, alignment);
        }
      }
    }
  }

  /** A directory that decodes with 254-byte descriptors also decodes with
      252-byte ones: the narrower layout never reaches further. */
  lemma DirectoryAlignmentMonotone(file: seq<byte>, n: nat)
    requires Directory(file, false, n).Ok?
    ensures Directory(file, true, n).Ok?
  {
    DirectorySpec(file, false, n);
    DirectorySpec(file, true, n);
    if n > 0 {
      assert (n - 1) * 252 <= (n - 1) * 254;
    }
  }

  /** Record `i` reads: it fails on a zero page size, on a page past the
      table, or when the 36 bytes at its offset are not all in the file. */
  lemma RecordAtSpec(file: seq<byte>, h: FileHeader, positions: seq<u16>, i: nat)
    ensures h.recordSize == 0 ==> RecordAt(file, h, positions, i) == Err(ZeroDivision)
    ensures h.recordSize > 0 && i / h.recordSize >= |positions| ==>
      RecordAt(file, h, positions, i) == Err(IndexError(i / h.recordSize))
    ensures h.recordSize > 0 && i / h.recordSize < |positions| ==>
      var codePos := CodePos(positions, h.recordSize, h.recordBeginPosition, i).value;
      RecordAt(file, h, positions, i) == ParseOneRecord(file, codePos)
      && (RecordAt(file, h, positions, i).Ok? <==> codePos + BYTES_OF_RECORD <= |file|)
  {
    CodePosSpec(positions, h.recordSize, h.recordBeginPosition, i);
  }

  /** An instrument's rows: exactly `records_number` of them, the i-th being
      record i, so no record is ever skipped; the loop succeeds exactly when
      every record reads. */
  lemma RecordRowsSpec(file: seq<byte>, h: FileHeader, positions: seq<u16>, n: nat)
    ensures RecordRows(file, h, positions, n).Ok? <==>
      forall i :: 0 <= i < n ==> RecordAt(file, h, positions, i).Ok?
    ensures RecordRows(file, h, positions, n).Ok? ==>
      var rows := RecordRows(file, h, positions, n).value;
      |rows| == n && forall i :: 0 <= i < n ==> RecordAt(file, h, positions, i) == Ok(rows[i])
  {
    var steps := RecordReads(file, h, positions, n);
    CollectSpec(steps);
    assert forall i :: 0 <= i < n ==> steps[i] == RecordAt(file, h, positions, i);
  }

  /** With a zero page size, the first record already fails. */
  lemma RecordRowsZeroRecordSize(file: seq<byte>, h: FileHeader, positions: seq<u16>, n: nat)
    requires h.recordSize == 0 && n > 0
    ensures RecordRows(file, h, positions, n) == Err(ZeroDivision)
  {
    var steps := RecordReads(file, h, positions, n);
    CollectSpec(steps);
    forall i | 0 <= i < n ensures steps[i] == Err(ZeroDivision) {
      RecordAtSpec(file, h, positions, i);
    }
  }

  /** An instrument claiming more records than its pages hold (33 pages of
      `record_size`) fails. */
  lemma RecordRowsPageOverflow(file: seq<byte>, h: FileHeader, positions: seq<u16>, n: nat)
    requires h.recordSize > 0 && n > |positions| * h.recordSize
    ensures RecordRows(file, h, positions, n).Err?
  {
    var i := |positions| * h.recordSize;
    DivModUnique(i / h.recordSize, i % h.recordSize, |positions|, 0, h.recordSize);
    RecordAtSpec(file, h, positions, i);
    var steps := RecordReads(file, h, positions, n);
    assert steps[i].Err?;
    CollectSpec(steps);
  }

  /** The instruments kept are the directory's slots with records, each
      kept once and in slot order: `idx` lists those slots, increasing, and
      the k-th instrument kept is the one in slot `idx[k]`. So the kept
      instruments are exactly those with records. */
  lemma WithRecordsSpec(maps: seq<FutureMap>) returns (idx: seq<nat>)
    ensures forall j :: 0 <= j < |idx| ==> idx[j] < |maps|
    ensures forall j, k :: 0 <= j < k < |idx| ==> idx[j] < idx[k]
    ensures forall s :: 0 <= s < |maps| ==> (maps[s].recordsNumber != 0 <==> s in idx)
    ensures |WithRecords(maps)| == |idx|
    ensures forall j :: 0 <= j < |idx| ==> WithRecords(maps)[j] == maps[idx[j]]
    ensures forall m :: m in WithRecords(maps) <==> m in maps && m.recordsNumber != 0
  {
    idx := WithRecordsSlots(maps);
    var kept := WithRecords(maps);
    forall m | m in maps && m.recordsNumber != 0 ensures m in kept {
      var s :| 0 <= s < |maps| && maps[s] == m;
      var j :| 0 <= j < |idx| && idx[j] == s;
      assert kept[j] == m;
    }
    forall m | m in kept ensures m in maps && m.recordsNumber != 0 {
      var j :| 0 <= j < |kept| && kept[j] == m;
      assert maps[idx[j]] == m;
    }
  }

  /** The slots WithRecords keeps, by induction on the directory. */
  lemma {:induction false} WithRecordsSlots(maps: seq<FutureMap>) returns (idx: seq<nat>)
    ensures forall j :: 0 <= j < |idx| ==> idx[j] < |maps|
    ensures forall j, k :: 0 <= j < k < |idx| ==> idx[j] < idx[k]
    ensures forall s :: 0 <= s < |maps| ==> (maps[s].recordsNumber != 0 <==> s in idx)
    ensures |WithRecords(maps)| == |idx|
    ensures forall j :: 0 <= j < |idx| ==> WithRecords(maps)[j] == maps[idx[j]]
    decreases |maps|
  {
    if maps == [] {
      idx := [];
    } else {
      var n := |maps| - 1;
      var init := maps[..n];
      var prefix := WithRecordsSlots(init);
      var kept := WithRecords(init);
      assert forall s :: 0 <= s < n ==> init[s] == maps[s];
      assert n !in prefix;
      if maps[n].recordsNumber == 0 {
        assert WithRecords(maps) == kept;
        idx := prefix;
      } else {
        assert WithRecords(maps) == kept + [maps[n]];
        idx := prefix + [n];
        assert forall j :: 0 <= j < |prefix| ==> idx[j] == prefix[j];
        assert forall s :: s in idx <==> s in prefix || s == n;
      }
    }
  }

  /** An instrument's file carries its name and reads exactly when all its
      records do. */
  lemma FileOfSpec(file: seq<byte>, h: FileHeader, future: FutureMap)
    ensures FileOf(file, h, future).Ok? <==>
      RecordRows(file, h, future.stockPositions, future.recordsNumber).Ok?
    ensures FileOf(file, h, future).Ok? ==>
      && FileOf(file, h, future).value.futureName == future.futureName
      && Ok(FileOf(file, h, future).value.rows) == RecordRows(file, h, future.stockPositions, future.recordsNumber)
  {
  }

  /** One file per instrument with records, in directory order; the loop
      succeeds exactly when every such instrument's file reads. */
  lemma OutputSpec(file: seq<byte>, h: FileHeader, maps: seq<FutureMap>)
    ensures Output(file, h, maps).Ok? <==> AllFilesRead(file, h, WithRecords(maps))
    ensures Output(file, h, maps).Ok? ==>
      var kept, out := WithRecords(maps), Output(file, h, maps).value;
      |out| == |kept| && forall j :: 0 <= j < |out| ==> FileOf(file, h, kept[j]) == Ok(out[j])
  {
    var kept := WithRecords(maps);
    assert Output(file, h, maps) == Collect(FileReads(file, h, kept));
    if Output(file, h, maps).Ok? {
      OutputFiles(file, h, kept);
    } else if AllFilesRead(file, h, kept) {
      OutputReads(file, h, kept);
    }
  }

  /** Every instrument's file reads. */
  predicate AllFilesRead(file: seq<byte>, h: FileHeader, futures: seq<FutureMap>) {
    forall j :: 0 <= j < |futures| ==> FileOf(file, h, futures[j]).Ok?
  }

  /** The files of a run that succeeds: one per instrument, in order. */
  lemma OutputFiles(file: seq<byte>, h: FileHeader, futures: seq<FutureMap>)
    requires Collect(FileReads(file, h, futures)).Ok?
    ensures var out := Collect(FileReads(file, h, futures)).value;
      |out| == |futures| && forall j :: 0 <= j < |out| ==> FileOf(file, h, futures[j]) == Ok(out[j])
  {
    var steps := FileReads(file, h, futures);
    CollectSpec(steps);
    forall j | 0 <= j < |futures| ensures steps[j] == FileOf(file, h, futures[j]) {
    }
  }

  /** A run in which every instrument's file reads succeeds. */
  lemma OutputReads(file: seq<byte>, h: FileHeader, futures: seq<FutureMap>)
    requires AllFilesRead(file, h, futures)
    ensures Collect(FileReads(file, h, futures)).Ok?
  {
    var steps := FileReads(file, h, futures);
    CollectSpec(steps);
    forall j | 0 <= j < |futures| ensures steps[j].Ok? {
      assert steps[j] == FileOf(file, h, futures[j]);
    }
  }

  /** The j-th file written is named after the j-th instrument with records
      and holds exactly its `records_number` rows, record i as row i. */
  lemma OutputFile(file: seq<byte>, h: FileHeader, maps: seq<FutureMap>, j: nat)
    requires Output(file, h, maps).Ok? && j < |WithRecords(maps)|
    ensures var future, out := WithRecords(maps)[j], Output(file, h, maps).value;
      && j < |out|
      && out[j].futureName == future.futureName
      && |out[j].rows| == future.recordsNumber
      && forall i :: 0 <= i < future.recordsNumber ==>
           RecordAt(file, h, future.stockPositions, i) == Ok(out[j].rows[i])
  {
    var future := WithRecords(maps)[j];
    OutputSpec(file, h, maps);
    FileOfSpec(file, h, future);
    RecordRowsSpec(file, h, future.stockPositions, future.recordsNumber);
  }

  /** When no instrument has records, nothing is written. */
  lemma {:induction false} NoRecordsNoFiles(file: seq<byte>, h: FileHeader, maps: seq<FutureMap>)
    requires forall k :: 0 <= k < |maps| ==> maps[k].recordsNumber == 0
    ensures Output(file, h, maps) == Ok([])
    decreases |maps|
  {
    if maps != [] {
      NoRecordsNoFiles(file, h, maps[.. |maps| - 1]);
    }
  }

  /** `write_all`'s retry: a header failure propagates with no attempt made;
      otherwise the first attempt uses the caller's alignment, a second is
      made exactly when the first fails, with the other alignment, there is
      never a third, and the session ends as its last attempt did. */
  lemma WriteAllRetry(file: seq<byte>, alignment: bool)
    ensures var s, header := WriteAllResult(file, alignment), ParseHeader(file);
      && (header.Err? ==> s.attempts == [] && s.result == Err(header.error))
      && (header.Ok? ==>
        && 1 <= |s.attempts| <= 2
        && s.attempts[0].alignment == alignment
        && (|s.attempts| == 2 <==> s.attempts[0].outcome.Err?)
        && (|s.attempts| == 2 ==> s.attempts[1].alignment == !alignment)
        && s.result == s.attempts[|s.attempts| - 1].outcome
        && forall k :: 0 <= k < |s.attempts| ==>
             s.attempts[k].outcome == ParseAllResult(file, header.value, s.attempts[k].alignment))
  {
  }

  /** Once the header reads, the session succeeds exactly when one of the
      two alignments works, and a failure is always the re-raised runtime
      error. */
  lemma WriteAllSucceeds(file: seq<byte>, alignment: bool)
    requires ParseHeader(file).Ok?
    ensures var s, h := WriteAllResult(file, alignment), ParseHeader(file).value;
      && (s.result.Ok? <==> ParseAllResult(file, h, alignment).Ok? || ParseAllResult(file, h, !alignment).Ok?)
      && (s.result.Err? ==> s.result.error.RuntimeError?)
  {
  }

  /** A file that holds the header but not the first 80 bytes of the first
      descriptor fails both attempts, whatever the alignment. */
  lemma ShortFileFailsBothAttempts(file: seq<byte>, alignment: bool)
    requires PREAMBLE_SIZE <= |file| < TABLE_START + DECODED_LENGTH
    requires ParseHeader(file).value.codeNumber > 0
    ensures |WriteAllResult(file, alignment).attempts| == 2
    ensures WriteAllResult(file, alignment).result.Err?
  {
    var h := ParseHeader(file).value;
    DirectorySpec(file, alignment, h.codeNumber);
    DirectorySpec(file, !alignment, h.codeNumber);
    assert (h.codeNumber - 1) * BytesOfFuture(alignment) >= 0;
    assert (h.codeNumber - 1) * BytesOfFuture(!alignment) >= 0;
  }
}
