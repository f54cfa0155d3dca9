/** The instrument directory: one fixed-size descriptor ("future map") per
    instrument, right after the preamble. */
module FutureMaps {
  import opened Faults
  import opened Bytes

  const TABLE_START: nat := 0x20
  const NAME_LENGTH: nat := 7
  const POSITION_COUNT: nat := 33
  /** Bytes of a descriptor the decoder looks at: the name, three unused
      bytes, the record count and the 33 page positions. */
  const DECODED_LENGTH: nat := 14 + 2 * POSITION_COUNT

  /** The instrument's NUL-trimmed name, how many records it has, and for
      each page of records the page's position in the record area. */
  datatype FutureMap = FutureMap(futureName: seq<byte>, recordsNumber: u32, stockPositions: seq<u16>)

  /** Descriptor size under each alignment hypothesis: 254 bytes packed,
      252 bytes when the alignment flag is set. */
  function BytesOfFuture(alignment: bool): (n: nat)
    ensures n >= DECODED_LENGTH
  {
    if alignment == false then 254 else 252
  }

  /** Where descriptor `i` starts. */
  function FutureMapPosition(i: nat, alignment: bool): nat {
    TABLE_START + i * BytesOfFuture(alignment)
  }

  /** Descriptors sit end to end: each starts one descriptor size after the
      previous one and no two overlap. */
  lemma FutureMapsDisjoint(i: nat, j: nat, alignment: bool)
    requires i < j
    ensures FutureMapPosition(i, alignment) + BytesOfFuture(alignment) <= FutureMapPosition(j, alignment)
    ensures FutureMapPosition(i + 1, alignment) == FutureMapPosition(i, alignment) + BytesOfFuture(alignment)
  {
    var size := BytesOfFuture(alignment);
    assert j * size == i * size + (j - i) * size;
  }

  predicate AllNul(s: seq<byte>) {
    forall k :: 0 <= k < |s| ==> s[k] == 0
  }

  /** `s.lstrip('\x00')`. */
  function StripLeadingNul(s: seq<byte>): seq<byte>
    decreases |s|
  {
    if |s| > 0 && s[0] == 0 then StripLeadingNul(s[1..]) else s
  }

  /** `s.rstrip('\x00')`. */
  function StripTrailingNul(s: seq<byte>): seq<byte>
    decreases |s|
  {
    if |s| > 0 && s[|s| - 1] == 0 then StripTrailingNul(s[.. |s| - 1]) else s
  }

  /** lstrip keeps the longest suffix of `s` that does not start with NUL;
      everything before it is NUL. */
  lemma {:induction false} StripLeadingNulSpec(s: seq<byte>)
    ensures var r := StripLeadingNul(s);
      |r| <= |s| && r == s[|s| - |r| ..] && AllNul(s[.. |s| - |r|]) && (r == [] || r[0] != 0)
    decreases |s|
  {
    if |s| > 0 && s[0] == 0 {
      StripLeadingNulSpec(s[1..]);
      var r := StripLeadingNul(s[1..]);
      assert s[1..][.. |s| - 1 - |r|] == s[1 .. |s| - |r|];
    }
  }

  /** rstrip keeps the longest prefix of `s` that does not end with NUL;
      everything after it is NUL. */
  lemma {:induction false} StripTrailingNulSpec(s: seq<byte>)
    ensures var r := StripTrailingNul(s);
      |r| <= |s| && r == s[.. |r|] && AllNul(s[|r| ..]) && (r == [] || r[|r| - 1] != 0)
    decreases |s|
  {
    if |s| > 0 && s[|s| - 1] == 0 {
      StripTrailingNulSpec(s[.. |s| - 1]);
      var r := StripTrailingNul(s[.. |s| - 1]);
      assert s[.. |s| - 1][|r| ..] == s[|r| .. |s| - 1];
      assert s[|r| ..] == s[|r| .. |s| - 1] + [s[|s| - 1]];
    }
  }

  /** `s.strip('\x00')`: NULs go from both ends, embedded ones stay. */
  function StripNul(s: seq<byte>): seq<byte> {
    StripTrailingNul(StripLeadingNul(s))
  }

  /** What strip returns: the part `s[lo..hi]` of `s` that neither starts
      nor ends with NUL, with only NULs cut away on either side. */
  lemma StripNulIsTrimmedSlice(s: seq<byte>) returns (lo: nat, hi: nat)
    ensures lo <= hi <= |s| && StripNul(s) == s[lo .. hi]
    ensures AllNul(s[..lo]) && AllNul(s[hi..])
    ensures StripNul(s) == [] || (StripNul(s)[0] != 0 && StripNul(s)[hi - lo - 1] != 0)
  {
    var l := StripLeadingNul(s);
    var r := StripTrailingNul(l);
    StripLeadingNulSpec(s);
    StripTrailingNulSpec(l);
    lo, hi := |s| - |l|, |s| - |l| + |r|;
    assert s[hi..] == l[|r| ..];
    assert r != [] ==> r[0] == l[0];
  }

  /** A name that is stored as itself: at most 7 bytes, and neither starting
      nor ending with NUL. */
  predicate StorableName(name: seq<byte>) {
    |name| <= NAME_LENGTH && (name == [] || (name[0] != 0 && name[|name| - 1] != 0))
  }

  function Nuls(n: nat): (s: seq<byte>)
    ensures |s| == n && AllNul(s)
  {
    seq(n, _ => 0)
  }

  lemma {:induction false} StripTrailingPadding(name: seq<byte>, pad: nat)
    requires name == [] || name[|name| - 1] != 0
    ensures StripTrailingNul(name + Nuls(pad)) == name
  {
    if pad > 0 {
      var s := name + Nuls(pad);
      assert s[.. |s| - 1] == name + Nuls(pad - 1);
      StripTrailingPadding(name, pad - 1);
    } else {
      assert name + Nuls(pad) == name;
    }
  }

  lemma {:induction false} StripLeadingPadding(pad: nat)
    ensures StripLeadingNul(Nuls(pad)) == []
  {
    if pad > 0 {
      assert Nuls(pad)[1..] == Nuls(pad - 1);
      StripLeadingPadding(pad - 1);
    }
  }

  /** Padding a storable name with NULs on the right and stripping gives
      the name back. */
  lemma StripPaddedName(name: seq<byte>, pad: nat)
    requires StorableName(name)
    ensures StripNul(name + Nuls(pad)) == name
  {
    if name == [] {
      assert [] + Nuls(pad) == Nuls(pad);
      StripLeadingPadding(pad);
    } else {
      StripTrailingPadding(name, pad);
    }
  }

  /** `struct.unpack_from("H", buf[14+2j:16+2j])`: page position j. */
  function StockPosition(buf: seq<byte>, j: nat): Result<u16> {
    UnpackU16(Slice(buf, 14 + 2 * j, 16 + 2 * j))
  }

  /** The first `n` rounds of the `for j in range(33)` loop that builds
      `stock_positions`; stops at the first position that cannot be read. */
  function StockPositions(buf: seq<byte>, n: nat): Result<seq<u16>>
    decreases n
  {
    if n == 0 then Ok([])
    else
      var prefix :- StockPositions(buf, n - 1);
      var p :- StockPosition(buf, n - 1);
      Ok(prefix + [p])
  }

  /** `_parse_future_map` on the bytes read for one descriptor: the stripped
      name from the first 7 bytes, the record count at 10, then the
      positions. */
  function DecodeFutureMap(buf: seq<byte>): Result<FutureMap> {
    var futureName := StripNul(Slice(buf, 0, NAME_LENGTH));
    var recordsNumber :- UnpackU32(Slice(buf, 10, 14));
    var stockPositions :- StockPositions(buf, POSITION_COUNT);
    Ok(FutureMap(futureName, recordsNumber, stockPositions))
  }

  /** The position table read so far: j entries, the k-th being the 16-bit
      value at 14 + 2k; the read fails exactly when the buffer ends before
      the j-th entry does. */
  lemma {:induction false} StockPositionsSpec(buf: seq<byte>, n: nat)
    ensures StockPositions(buf, n).Ok? <==> (n == 0 || 14 + 2 * n <= |buf|)
    ensures StockPositions(buf, n).Ok? ==>
      var ps := StockPositions(buf, n).value;
      |ps| == n && forall k :: 0 <= k < n ==> LeU16(ps[k]) == buf[14 + 2 * k .. 16 + 2 * k]
  {
    if n > 0 {
      StockPositionsSpec(buf, n - 1);
      var last := Slice(buf, 14 + 2 * (n - 1), 16 + 2 * (n - 1));
      if 14 + 2 * n <= |buf| {
        assert last[..2] == buf[14 + 2 * (n - 1) .. 16 + 2 * (n - 1)];
      }
    }
  }

  /** A descriptor decodes exactly when at least 80 bytes were read, not
      the full 254 or 252; it then holds the stripped 7-byte name, the
      32-bit count at 10 and 33 positions, the j-th at 14 + 2j. */
  lemma DecodeFutureMapSpec(buf: seq<byte>)
    ensures DecodeFutureMap(buf).Ok? <==> |buf| >= DECODED_LENGTH
    ensures DecodeFutureMap(buf).Ok? ==>
      var m := DecodeFutureMap(buf).value;
      && m.futureName == StripNul(buf[..NAME_LENGTH])
      && LeU32(m.recordsNumber) == buf[10 .. 14]
      && |m.stockPositions| == POSITION_COUNT
      && forall j :: 0 <= j < POSITION_COUNT ==> LeU16(m.stockPositions[j]) == buf[14 + 2 * j .. 16 + 2 * j]
  {
    StockPositionsSpec(buf, POSITION_COUNT);
    if |buf| >= DECODED_LENGTH {
      assert Slice(buf, 0, NAME_LENGTH) == buf[..NAME_LENGTH];
      assert Slice(buf, 10, 14)[..4] == buf[10 .. 14];
    }
  }

  /** Only the name, the count and the position table matter: bytes 7..9
      and everything from 80 on never affect the decoded descriptor. */
  lemma DecodeFutureMapReadsOnlyItsFields(b1: seq<byte>, b2: seq<byte>)
    requires |b1| >= DECODED_LENGTH && |b2| >= DECODED_LENGTH
    requires b1[..NAME_LENGTH] == b2[..NAME_LENGTH] && b1[10 .. DECODED_LENGTH] == b2[10 .. DECODED_LENGTH]
    ensures DecodeFutureMap(b1) == DecodeFutureMap(b2)
  {
    assert Slice(b1, 0, NAME_LENGTH) == Slice(b2, 0, NAME_LENGTH);
    SameSubSlice(b1, b2, 10, DECODED_LENGTH, 10, 14);
    SamePositions(b1, b2, POSITION_COUNT);
  }

  lemma SameSubSlice(b1: seq<byte>, b2: seq<byte>, lo: nat, hi: nat, a: nat, c: nat)
    requires lo <= a <= c <= hi <= |b1| && hi <= |b2| && b1[lo .. hi] == b2[lo .. hi]
    ensures Slice(b1, a, c) == Slice(b2, a, c)
  {
    SliceOfSlice(b1, lo, hi, a - lo, c - lo);
    SliceOfSlice(b2, lo, hi, a - lo, c - lo);
  }

  lemma {:induction false} SamePositions(b1: seq<byte>, b2: seq<byte>, n: nat)
    requires n <= POSITION_COUNT
    requires |b1| >= DECODED_LENGTH && |b2| >= DECODED_LENGTH && b1[10 .. DECODED_LENGTH] == b2[10 .. DECODED_LENGTH]
    ensures StockPositions(b1, n) == StockPositions(b2, n)
  {
    if n > 0 {
      SamePositions(b1, b2, n - 1);
      SameSubSlice(b1, b2, 10, DECODED_LENGTH, 14 + 2 * (n - 1), 16 + 2 * (n - 1));
    }
  }

  /** The little-endian encoding of a position table, entry after entry. */
  function EncodePositions(ps: seq<u16>): (bs: seq<byte>)
    ensures |bs| == 2 * |ps|
  {
    if ps == [] then [] else EncodePositions(ps[.. |ps| - 1]) + LeU16(ps[|ps| - 1])
  }

  lemma {:induction false} EncodePositionsAt(ps: seq<u16>, k: nat)
    requires k < |ps|
    ensures U16At(EncodePositions(ps), 2 * k) == ps[k]
  {
    var init := ps[.. |ps| - 1];
    var last := LeU16(ps[|ps| - 1]);
    if k < |ps| - 1 {
      EncodePositionsAt(init, k);
      assert EncodePositions(ps)[2 * k] == EncodePositions(init)[2 * k];
      assert EncodePositions(ps)[2 * k + 1] == EncodePositions(init)[2 * k + 1];
    } else {
      assert EncodePositions(ps)[2 * k] == last[0];
      assert EncodePositions(ps)[2 * k + 1] == last[1];
    }
  }

  /** The 80 decoded bytes of a descriptor for `m`: the name padded with
      NULs to 7 bytes, three bytes of `gap`, the count and the positions. */
  function EncodeFutureMap(m: FutureMap, gap: seq<byte>): (bs: seq<byte>)
    requires StorableName(m.futureName) && |m.stockPositions| == POSITION_COUNT && |gap| == 3
    ensures |bs| == DECODED_LENGTH
  {
    m.futureName + Nuls(NAME_LENGTH - |m.futureName|) + gap + LeU32(m.recordsNumber)
      + EncodePositions(m.stockPositions)
  }

  /** Decoding an encoded descriptor, followed by anything (the rest of the
      254 or 252 bytes, or the end of the file), gives it back. */
  lemma FutureMapRoundTrip(m: FutureMap, gap: seq<byte>, rest: seq<byte>)
    requires StorableName(m.futureName) && |m.stockPositions| == POSITION_COUNT && |gap| == 3
    ensures DecodeFutureMap(EncodeFutureMap(m, gap) + rest) == Ok(m)
  {
    var buf := EncodeFutureMap(m, gap) + rest;
    EncodedNameRead(m, gap, rest);
    EncodedCountRead(m, gap, rest);
    EncodedPositionsRead(m, gap, rest);
    assert DecodeFutureMap(buf) == Ok(FutureMap(m.futureName, m.recordsNumber, m.stockPositions));
  }

  /** The three parts of an encoded descriptor, before the rest of its
      bytes. */
  lemma EncodedParts(m: FutureMap, gap: seq<byte>, rest: seq<byte>)
    requires StorableName(m.futureName) && |m.stockPositions| == POSITION_COUNT && |gap| == 3
    ensures var buf := EncodeFutureMap(m, gap) + rest;
      && buf[..NAME_LENGTH] == m.futureName + Nuls(NAME_LENGTH - |m.futureName|)
      && buf[10 .. 14] == LeU32(m.recordsNumber)
      && buf[14 .. DECODED_LENGTH] == EncodePositions(m.stockPositions)
  {
    var padded := m.futureName + Nuls(NAME_LENGTH - |m.futureName|);
    var head := padded + gap + LeU32(m.recordsNumber);
    var enc := EncodePositions(m.stockPositions);
    assert EncodeFutureMap(m, gap) + rest == head + enc + rest;
  }

  lemma EncodedNameRead(m: FutureMap, gap: seq<byte>, rest: seq<byte>)
    requires StorableName(m.futureName) && |m.stockPositions| == POSITION_COUNT && |gap| == 3
    ensures StripNul(Slice(EncodeFutureMap(m, gap) + rest, 0, NAME_LENGTH)) == m.futureName
  {
    EncodedParts(m, gap, rest);
    StripPaddedName(m.futureName, NAME_LENGTH - |m.futureName|);
  }

  lemma EncodedCountRead(m: FutureMap, gap: seq<byte>, rest: seq<byte>)
    requires StorableName(m.futureName) && |m.stockPositions| == POSITION_COUNT && |gap| == 3
    ensures UnpackU32(Slice(EncodeFutureMap(m, gap) + rest, 10, 14)) == Ok(m.recordsNumber)
  {
    var buf := EncodeFutureMap(m, gap) + rest;
    EncodedParts(m, gap, rest);
    var r := UnpackU32(Slice(buf, 10, 14));
    LeU32Injective(r.value, m.recordsNumber);
  }

  lemma EncodedPositionsRead(m: FutureMap, gap: seq<byte>, rest: seq<byte>)
    requires StorableName(m.futureName) && |m.stockPositions| == POSITION_COUNT && |gap| == 3
    ensures StockPositions(EncodeFutureMap(m, gap) + rest, POSITION_COUNT) == Ok(m.stockPositions)
  {
    var buf := EncodeFutureMap(m, gap) + rest;
    var enc := EncodePositions(m.stockPositions);
    EncodedParts(m, gap, rest);
    forall j | 0 <= j < POSITION_COUNT
      ensures U16At(buf, 14 + 2 * j) == m.stockPositions[j]
    {
      EncodePositionsAt(m.stockPositions, j);
      assert buf[14 + 2 * j] == enc[2 * j] && buf[15 + 2 * j] == enc[2 * j + 1];
    }
    EncodedPositions(buf, m.stockPositions, POSITION_COUNT);
    assert m.stockPositions[..POSITION_COUNT] == m.stockPositions;
  }

  /** Reading back the first `n` entries of an encoded position table. */
  lemma {:induction false} EncodedPositions(buf: seq<byte>, ps: seq<u16>, n: nat)
    requires n <= |ps| && 14 + 2 * |ps| <= |buf|
    requires forall j :: 0 <= j < |ps| ==> U16At(buf, 14 + 2 * j) == ps[j]
    ensures StockPositions(buf, n) == Ok(ps[..n])
  {
    if n > 0 {
      EncodedPositions(buf, ps, n - 1);
      UnpackU16At(buf, 14 + 2 * (n - 1));
      assert ps[..n] == ps[..n - 1] + [ps[n - 1]];
    }
  }

  /** `_parse_future_map(pos, bytes_of_future)`: seek, read, and decode one
      descriptor. */
  method ParseFutureMap(file: seq<byte>, pos: nat, bytesOfFuture: nat) returns (r: Result<FutureMap>)
    ensures r == DecodeFutureMap(Read(file, pos, bytesOfFuture))
  {
    var buf := Read(file, pos, bytesOfFuture);
    DecodeFutureMapSteps(buf);
    var futureName := StripNul(Slice(buf, 0, NAME_LENGTH));
    var recordsNumber := UnpackU32(Slice(buf, 10, 14));
    if recordsNumber.Err? {
      return Err(recordsNumber.error);
    }
    var stockPositions := ParseStockPositions(buf);
    if stockPositions.Err? {
      return Err(stockPositions.error);
    }
    return Ok(FutureMap(futureName, recordsNumber.value, stockPositions.value));
  }

  /** The `for j in range(33)` loop of `_parse_future_map`, appending one
      unpacked position per round. */
  method ParseStockPositions(buf: seq<byte>) returns (r: Result<seq<u16>>)
    ensures r == StockPositions(buf, POSITION_COUNT)
  {
    var stockPositions: seq<u16> := [];
    for j := 0 to POSITION_COUNT
      invariant StockPositions(buf, j) == Ok(stockPositions)
    {
      var stockPosition := UnpackU16(Slice(buf, 14 + 2 * j, 16 + 2 * j));
      StockPositionsStep(buf, j);
      if stockPosition.Err? {
        StockPositionsFailureSticks(buf, j + 1, POSITION_COUNT);
        return Err(stockPosition.error);
      }
      stockPositions := stockPositions + [stockPosition.value];
    }
    return Ok(stockPositions);
  }

  /** One more round of the position loop. */
  lemma StockPositionsStep(buf: seq<byte>, j: nat)
    ensures var prefix, p := StockPositions(buf, j), UnpackU16(Slice(buf, 14 + 2 * j, 16 + 2 * j));
      StockPositions(buf, j + 1) ==
        if prefix.Err? then prefix else if p.Err? then Err(p.error) else Ok(prefix.value + [p.value])
  {
  }

  /** DecodeFutureMap unfolded into its three outcomes. */
  lemma DecodeFutureMapSteps(buf: seq<byte>)
    ensures var count, table := UnpackU32(Slice(buf, 10, 14)), StockPositions(buf, POSITION_COUNT);
      DecodeFutureMap(buf) ==
        if count.Err? then Err(count.error)
        else if table.Err? then Err(table.error)
        else Ok(FutureMap(StripNul(Slice(buf, 0, NAME_LENGTH)), count.value, table.value))
  {
  }

  /** Once a round of the loop fails, every longer run fails the same way. */
  lemma {:induction false} StockPositionsFailureSticks(buf: seq<byte>, m: nat, n: nat)
    requires m <= n && StockPositions(buf, m).Err?
    ensures StockPositions(buf, n) == StockPositions(buf, m)
    decreases n - m
  {
    if m < n {
      StockPositionsFailureSticks(buf, m, n - 1);
    }
  }
}
