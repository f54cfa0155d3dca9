/** The 32-byte preamble of a QRT file and the three counters it carries. */
module Header {
  import opened Faults
  import opened Bytes

  const PREAMBLE_SIZE: nat := 0x20

  /** Records per page, where the record area starts, and how many
      instrument descriptors follow the preamble. */
  datatype FileHeader = FileHeader(recordSize: u32, recordBeginPosition: u32, codeNumber: u32)

  /** `_parse_header`: read 32 bytes at the start of the file and unpack the
      unsigned 32-bit fields that begin at 12, 20 and 28 of them. */
  function ParseHeader(file: seq<byte>): (r: Result<FileHeader>)
    ensures r.Ok? <==> |file| >= PREAMBLE_SIZE
    ensures r.Err? ==> r.error.StructError? && r.error.needed == 4 && r.error.got < 4
    ensures r.Ok? ==> LeU32(r.value.recordSize) == file[12 .. 16]
    ensures r.Ok? ==> LeU32(r.value.recordBeginPosition) == file[20 .. 24]
    ensures r.Ok? ==> LeU32(r.value.codeNumber) == file[28 .. 32]
  {
    var buf := Read(file, 0, PREAMBLE_SIZE);
    var recordSize :- UnpackU32(SliceFrom(buf, 12));
    var recordBeginPosition :- UnpackU32(SliceFrom(buf, 20));
    var codeNumber :- UnpackU32(SliceFrom(buf, 28));
    assert SliceFrom(buf, 12)[..4] == file[12 .. 16];
    assert SliceFrom(buf, 20)[..4] == file[20 .. 24];
    assert SliceFrom(buf, 28)[..4] == file[28 .. 32];
    Ok(FileHeader(recordSize, recordBeginPosition, codeNumber))
  }

  /** A preamble holding `h`, with every byte outside the three fields taken
      from `noise`. */
  function EncodeHeader(h: FileHeader, noise: seq<byte>): (bs: seq<byte>)
    requires |noise| == PREAMBLE_SIZE
    ensures |bs| == PREAMBLE_SIZE
  {
    noise[..12] + LeU32(h.recordSize) + noise[16 .. 20] + LeU32(h.recordBeginPosition)
      + noise[24 .. 28] + LeU32(h.codeNumber)
  }

  /** The decoder recovers exactly the encoded counters, whatever the other
      preamble bytes and whatever follows the preamble. */
  lemma HeaderRoundTrip(h: FileHeader, noise: seq<byte>, rest: seq<byte>)
    requires |noise| == PREAMBLE_SIZE
    ensures ParseHeader(EncodeHeader(h, noise) + rest) == Ok(h)
  {
    var file := EncodeHeader(h, noise) + rest;
    var r := ParseHeader(file);
    assert file[12 .. 16] == LeU32(h.recordSize);
    assert file[20 .. 24] == LeU32(h.recordBeginPosition);
    assert file[28 .. 32] == LeU32(h.codeNumber);
    LeU32Injective(r.value.recordSize, h.recordSize);
    LeU32Injective(r.value.recordBeginPosition, h.recordBeginPosition);
    LeU32Injective(r.value.codeNumber, h.codeNumber);
  }

  /** No byte outside 12..15, 20..23 and 28..31 affects the decoded header. */
  lemma HeaderReadsOnlyItsFields(f1: seq<byte>, f2: seq<byte>)
    requires |f1| >= PREAMBLE_SIZE && |f2| >= PREAMBLE_SIZE
    requires f1[12 .. 16] == f2[12 .. 16] && f1[20 .. 24] == f2[20 .. 24] && f1[28 .. 32] == f2[28 .. 32]
    ensures ParseHeader(f1) == ParseHeader(f2)
  {
    var r1, r2 := ParseHeader(f1), ParseHeader(f2);
    LeU32Injective(r1.value.recordSize, r2.value.recordSize);
    LeU32Injective(r1.value.recordBeginPosition, r2.value.recordBeginPosition);
    LeU32Injective(r1.value.codeNumber, r2.value.codeNumber);
  }
}
