/** The DSP program blob: the host tool that packs it and the firmware that parses it. */
module DspBlob {
  import opened Base

  const MAGIC: seq<Byte> := [0x44, 0x52, 0x41, 0x44]  // "DRAD"
  const VERSION := 1
  const HEADER_SIZE := 12
  const MAX_BLOB_SIZE := 204800
  const MAX_WRITE_COUNT := 32
  const MAX_WRITE_PAYLOAD := 16384

  /** A checksum: CRC-32 in the repository; nothing here depends on which. */
  type Checksum = seq<Byte> -> nat

  /** One register block of a DSP program. */
  datatype Write = Write(address: nat, data: seq<Byte>)

  /** An entry of the tool's JSON input: any integers. */
  datatype Entry = Entry(address: int, data: seq<int>)

  datatype Packed = Packed(blob: seq<Byte>) | EmptyData(address: int) | OutOfRange

  datatype ProgramError = Empty | Truncated | InvalidMagic | UnsupportedVersion | BadCrc | TooLarge

  datatype Parsed = Program(writes: seq<Write>) | Rejected(error: ProgramError)

  // ---- Little-endian fields -------------------------------------------------

  function Le16(n: nat): (b: seq<Byte>)
    requires n < 0x1_0000
    ensures |b| == 2
  {
    [n % 256, n / 256]
  }

  function Le32(n: nat): (b: seq<Byte>)
    requires n < 0x1_0000_0000
    ensures |b| == 4
  {
    Le16(n % 0x1_0000) + Le16(n / 0x1_0000)
  }

  function ReadLe16(b: seq<Byte>, at: nat): (n: nat)
    requires at + 2 <= |b|
    ensures n < 0x1_0000
  {
    var lo: int, hi: int := b[at], b[at + 1];
    lo + 256 * hi
  }

  function ReadLe32(b: seq<Byte>, at: nat): (n: nat)
    requires at + 4 <= |b|
  {
    ReadLe16(b, at) + 0x1_0000 * ReadLe16(b, at + 2)
  }

  // ---- The format -----------------------------------------------------------

  predicate Packable(w: Write) {
    w.address < 0x1_0000 && 0 < |w.data| < 0x1_0000
  }

  function Block(w: Write): seq<Byte>
    requires Packable(w)
  {
    Le16(w.address) + Le16(|w.data|) + w.data
  }

  function Payload(writes: seq<Write>): seq<Byte>
    requires forall w :: w in writes ==> Packable(w)
  {
    if writes == [] then [] else Block(writes[0]) + Payload(writes[1..])
  }

  function Blob(writes: seq<Write>, crc: Checksum): seq<Byte>
    requires |writes| < 0x1_0000 && forall w :: w in writes ==> Packable(w)
  {
    MAGIC + Le16(VERSION) + Le16(|writes|) + Le32(crc(Payload(writes)) % 0x1_0000_0000) + Payload(writes)
  }

  /** Total bytes of the blocks. */
  function BlockBytes(writes: seq<Write>): nat {
    if writes == [] then 0 else 4 + |writes[0].data| + BlockBytes(writes[1..])
  }

  lemma {:induction false} PayloadSize(writes: seq<Write>)
    requires forall w :: w in writes ==> Packable(w)
    ensures |Payload(writes)| == BlockBytes(writes)
  {
    if writes != [] {
      PayloadSize(writes[1..]);
    }
  }

  lemma {:induction false} PayloadAppend(writes: seq<Write>, w: Write)
    requires Packable(w) && forall v :: v in writes ==> Packable(v)
    ensures Payload(writes + [w]) == Payload(writes) + Block(w)
  {
    if writes == [] {
      assert [w][1..] == [];
    } else {
      PayloadAppend(writes[1..], w);
      assert (writes + [w])[1..] == writes[1..] + [w];
    }
  }

  // ---- The tool -------------------------------------------------------------

  function Masked(data: seq<int>): (bytes: seq<Byte>)
    ensures |bytes| == |data|
  {
    seq(|data|, i requires 0 <= i < |data| => data[i] % 256)
  }

  /** The write an entry stands for, when its address fits. */
  function WriteOf(e: Entry): Write
    requires e.address >= 0
  {
    Write(e.address, Masked(e.data))
  }

  predicate PackableEntry(e: Entry) {
    0 <= e.address < 0x1_0000 && 0 < |e.data| < 0x1_0000
  }

  predicate AllPackable(entries: seq<Entry>) {
    forall i: nat :: i < |entries| ==> PackableEntry(entries[i])
  }

  function WritesOf(entries: seq<Entry>): (writes: seq<Write>)
    requires AllPackable(entries)
    ensures |writes| == |entries|
    ensures forall w :: w in writes ==> Packable(w)
  {
    assert forall i: nat :: i < |entries| ==> PackableEntry(entries[i]);
    seq(|entries|, i requires 0 <= i < |entries| => WriteOf(entries[i]))
  }

  lemma PayloadOfOneMore(entries: seq<Entry>, i: nat)
    requires i < |entries| && AllPackable(entries[..i]) && PackableEntry(entries[i])
    ensures AllPackable(entries[..i + 1])
    ensures Payload(WritesOf(entries[..i + 1])) == Payload(WritesOf(entries[..i])) + Block(WriteOf(entries[i]))
  {
    assert entries[..i + 1] == entries[..i] + [entries[i]];
    PayloadAppend(WritesOf(entries[..i]), WriteOf(entries[i]));
    assert WritesOf(entries[..i + 1]) == WritesOf(entries[..i]) + [WriteOf(entries[i])];
  }

  /** Entry `i` is the first that does not fit, and it has no data. */
  predicate EmptyFirst(entries: seq<Entry>, i: nat) {
    i < |entries| && entries[i].data == [] && AllPackable(entries[..i])
  }

  /** Packs exactly the entries that fit; otherwise the first that does not says which error it is. */
  method PackWrites(entries: seq<Entry>, crc: Checksum) returns (r: Packed)
    ensures r.Packed? <==> |entries| < 0x1_0000 && AllPackable(entries)
    ensures r.Packed? ==> r.blob == Blob(WritesOf(entries), crc)
    ensures forall i: nat :: EmptyFirst(entries, i) ==> r == EmptyData(entries[i].address)
    ensures r.EmptyData? ==> exists i: nat :: EmptyFirst(entries, i)
  {
    var payload: seq<Byte> := [];
    var i := 0;
    while i < |entries|
      invariant i <= |entries|
      invariant AllPackable(entries[..i])
      invariant payload == Payload(WritesOf(entries[..i]))
    {
      var data := Masked(entries[i].data);
      if data == [] {
        assert EmptyFirst(entries, i);
        return EmptyData(entries[i].address);
      }
      if !(0 <= entries[i].address < 0x1_0000) || |data| >= 0x1_0000 {
        assert !PackableEntry(entries[i]);
        return OutOfRange;
      }
      PayloadOfOneMore(entries, i);
      payload := payload + Le16(entries[i].address) + Le16(|data|);
      payload := payload + data;
      i := i + 1;
    }
    if |entries| >= 0x1_0000 {
      return OutOfRange;
    }
    assert entries[..i] == entries;
    var header := MAGIC + Le16(VERSION) + Le16(|entries|);
    header := header + Le32(crc(payload) % 0x1_0000_0000);
    return Packed(header + payload);
  }

  // ---- The parser -----------------------------------------------------------

  /** The `count` blocks from `offset` on, none longer than `maxData`, that fill the payload exactly. */
  function ParsedBlocks(payload: seq<Byte>, offset: nat, count: nat, maxData: nat): Option<seq<Write>>
    requires offset <= |payload|
    decreases count
  {
    if count == 0 then (if offset == |payload| then Some([]) else None)
    else if offset + 4 > |payload| then None
    else
      var length := ReadLe16(payload, offset + 2);
      var end := offset + 4 + length;
      if length == 0 || length > maxData || end > |payload| then None
      else Joined([Write(ReadLe16(payload, offset), payload[offset + 4..end])],
                  ParsedBlocks(payload, end, count - 1, maxData))
  }

  function Joined(writes: seq<Write>, rest: Option<seq<Write>>): Option<seq<Write>> {
    if rest.None? then None else Some(writes + rest.value)
  }

  lemma JoinedNothing(rest: Option<seq<Write>>)
    ensures Joined([], rest) == rest
  {
    assert rest.Some? ==> [] + rest.value == rest.value;
  }

  lemma JoinedStep(writes: seq<Write>, w: Write, rest: Option<seq<Write>>)
    ensures Joined(writes, Joined([w], rest)) == Joined(writes + [w], rest)
  {
    assert rest.Some? ==> writes + ([w] + rest.value) == writes + [w] + rest.value;
  }

  function ParsedBlob(blob: seq<Byte>, crc: Checksum): Parsed {
    if blob == [] then Rejected(Empty)
    else if |blob| > MAX_BLOB_SIZE then Rejected(TooLarge)
    else if |blob| < HEADER_SIZE then Rejected(Truncated)
    else if blob[..4] != MAGIC then Rejected(InvalidMagic)
    else if ReadLe16(blob, 4) != VERSION then Rejected(UnsupportedVersion)
    else
      var count := ReadLe16(blob, 6);
      if count == 0 || count > MAX_WRITE_COUNT then Rejected(Truncated)
      else if crc(blob[HEADER_SIZE..]) % 0x1_0000_0000 != ReadLe32(blob, 8) then Rejected(BadCrc)
      else
        match ParsedBlocks(blob[HEADER_SIZE..], 0, count, MAX_WRITE_PAYLOAD)
        case None => Rejected(Truncated)
        case Some(writes) => Program(writes)
  }

  method ParseBlocks(payload: seq<Byte>, count: nat) returns (r: Option<seq<Write>>)
    ensures r == ParsedBlocks(payload, 0, count, MAX_WRITE_PAYLOAD)
  {
    var writes: seq<Write> := [];
    var offset: nat := 0;
    var index := 0;
    JoinedNothing(ParsedBlocks(payload, 0, count, MAX_WRITE_PAYLOAD));
    while index < count
      invariant index <= count && offset <= |payload|
      invariant ParsedBlocks(payload, 0, count, MAX_WRITE_PAYLOAD)
                == Joined(writes, ParsedBlocks(payload, offset, count - index, MAX_WRITE_PAYLOAD))
    {
      if offset + 4 > |payload| {
        return None;
      }
      var address := ReadLe16(payload, offset);
      var length := ReadLe16(payload, offset + 2);
      offset := offset + 4;
      if length == 0 || length > MAX_WRITE_PAYLOAD || offset + length > |payload| {
        return None;
      }
      var write := Write(address, payload[offset..offset + length]);
      offset := offset + length;
      index := index + 1;
      JoinedStep(writes, write, ParsedBlocks(payload, offset, count - index, MAX_WRITE_PAYLOAD));
      writes := writes + [write];
    }
    assert writes + [] == writes;
    if offset != |payload| {
      return None;
    }
    return Some(writes);
  }

  method ParseDspProgramBlob(blob: seq<Byte>, crc: Checksum) returns (r: Parsed)
    ensures r == ParsedBlob(blob, crc)
  {
    if blob == [] {
      return Rejected(Empty);
    }
    if |blob| > MAX_BLOB_SIZE {
      return Rejected(TooLarge);
    }
    if |blob| < HEADER_SIZE {
      return Rejected(Truncated);
    }
    if blob[..4] != MAGIC {
      return Rejected(InvalidMagic);
    }
    if ReadLe16(blob, 4) != VERSION {
      return Rejected(UnsupportedVersion);
    }
    var count := ReadLe16(blob, 6);
    var expectedCrc := ReadLe32(blob, 8);
    var payload := blob[HEADER_SIZE..];
    if count == 0 || count > MAX_WRITE_COUNT {
      return Rejected(Truncated);
    }
    if crc(payload) % 0x1_0000_0000 != expectedCrc {
      return Rejected(BadCrc);
    }
    var writes := ParseBlocks(payload, count);
    if writes.None? {
      return Rejected(Truncated);
    }
    return Program(writes.value);
  }

  // ---- Round trips ----------------------------------------------------------

  predicate NoneLonger(writes: seq<Write>, maxData: nat) {
    forall w :: w in writes ==> |w.data| <= maxData
  }

  /** What parsing packed writes should give. */
  function WithinLimit(writes: seq<Write>, maxData: nat): Option<seq<Write>> {
    if NoneLonger(writes, maxData) then Some(writes) else None
  }

  /** Parsing packed blocks recovers them exactly when none is over-long, wherever they start. */
  lemma {:induction false} BlocksRoundTrip(payload: seq<Byte>, at: nat, writes: seq<Write>, maxData: nat)
    requires forall w :: w in writes ==> Packable(w)
    requires at <= |payload| && payload[at..] == Payload(writes)
    ensures ParsedBlocks(payload, at, |writes|, maxData) == WithinLimit(writes, maxData)
    decreases |writes|
  {
    if writes != [] {
      var next := at + 4 + |writes[0].data|;
      BlockFields(payload, at, writes[0], Payload(writes[1..]));
      BlocksRoundTrip(payload, next, writes[1..], maxData);
      BlockRoundTrip(payload, at, writes, next, ParsedBlocks(payload, next, |writes[1..]|, maxData), maxData);
    }
  }

  /** One block in front of blocks that round-trip. */
  lemma BlockRoundTrip(payload: seq<Byte>, at: nat, writes: seq<Write>, next: nat,
                       parsedRest: Option<seq<Write>>, maxData: nat)
    requires writes != [] && Packable(writes[0]) && next == at + 4 + |writes[0].data| <= |payload|
    requires ReadLe16(payload, at) == writes[0].address && ReadLe16(payload, at + 2) == |writes[0].data|
    requires payload[at + 4..next] == writes[0].data
    requires parsedRest == ParsedBlocks(payload, next, |writes| - 1, maxData)
    requires parsedRest == WithinLimit(writes[1..], maxData)
    ensures ParsedBlocks(payload, at, |writes|, maxData) == WithinLimit(writes, maxData)
  {
    JoinedRoundTrip(writes, maxData);
  }

  lemma JoinedRoundTrip(writes: seq<Write>, maxData: nat)
    requires writes != []
    ensures WithinLimit(writes, maxData)
            == if |writes[0].data| > maxData then None else Joined([writes[0]], WithinLimit(writes[1..], maxData))
  {
    NoneLongerSplits(writes, maxData);
    assert writes == [writes[0]] + writes[1..];
  }

  lemma NoneLongerSplits(writes: seq<Write>, maxData: nat)
    requires writes != []
    ensures NoneLonger(writes, maxData) <==> |writes[0].data| <= maxData && NoneLonger(writes[1..], maxData)
  {
  }

  lemma BlockFields(payload: seq<Byte>, at: nat, w: Write, rest: seq<Byte>)
    requires Packable(w) && at <= |payload| && payload[at..] == Block(w) + rest
    ensures at + 4 + |w.data| <= |payload| && payload[at + 4 + |w.data|..] == rest
    ensures ReadLe16(payload, at) == w.address && ReadLe16(payload, at + 2) == |w.data|
    ensures payload[at + 4..at + 4 + |w.data|] == w.data
  {
  }

  lemma BlobFields(writes: seq<Write>, crc: Checksum)
    requires |writes| < 0x1_0000 && forall w :: w in writes ==> Packable(w)
    ensures var b := Blob(writes, crc);
            && |b| == HEADER_SIZE + BlockBytes(writes) && b[..4] == MAGIC
            && ReadLe16(b, 4) == VERSION && ReadLe16(b, 6) == |writes|
            && ReadLe32(b, 8) == crc(Payload(writes)) % 0x1_0000_0000
            && b[HEADER_SIZE..] == Payload(writes)
  {
  }

  /** A blob with a valid header is judged by its size, its count and its blocks. */
  lemma ParsedByFields(b: seq<Byte>, crc: Checksum, count: nat, payload: seq<Byte>)
    requires |b| == HEADER_SIZE + |payload| && b[HEADER_SIZE..] == payload
    requires b[..4] == MAGIC && ReadLe16(b, 4) == VERSION && ReadLe16(b, 6) == count
    requires ReadLe32(b, 8) == crc(payload) % 0x1_0000_0000
    ensures ParsedBlob(b, crc)
            == if |b| > MAX_BLOB_SIZE then Rejected(TooLarge)
               else if count == 0 || count > MAX_WRITE_COUNT then Rejected(Truncated)
               else match ParsedBlocks(payload, 0, count, MAX_WRITE_PAYLOAD)
                 case None => Rejected(Truncated)
                 case Some(writes) => Program(writes)
  {
  }

  /** What the firmware can take. */
  predicate Acceptable(writes: seq<Write>) {
    && 0 < |writes| <= MAX_WRITE_COUNT
    && HEADER_SIZE + BlockBytes(writes) <= MAX_BLOB_SIZE
    && NoneLonger(writes, MAX_WRITE_PAYLOAD)
  }

  lemma EntryInFigures(e: Entry)
    ensures PackableEntry(e) <==> 0 <= e.address <= 65535 && 1 <= |e.data| <= 65535
  {
  }

  lemma LimitsInFigures(writes: seq<Write>)
    ensures Acceptable(writes) <==>
              && 1 <= |writes| <= 32 && 12 + BlockBytes(writes) <= 200 * 1024
              && forall w :: w in writes ==> |w.data| <= 16 * 1024
  {
  }

  lemma BlobIsJudged(writes: seq<Write>, crc: Checksum)
    requires |writes| < 0x1_0000 && forall w :: w in writes ==> Packable(w)
    ensures ParsedBlob(Blob(writes, crc), crc)
            == if HEADER_SIZE + BlockBytes(writes) > MAX_BLOB_SIZE then Rejected(TooLarge)
               else if writes == [] || |writes| > MAX_WRITE_COUNT then Rejected(Truncated)
               else match ParsedBlocks(Payload(writes), 0, |writes|, MAX_WRITE_PAYLOAD)
                 case None => Rejected(Truncated)
                 case Some(parsed) => Program(parsed)
  {
    BlobFields(writes, crc);
    PayloadSize(writes);
    ParsedByFields(Blob(writes, crc), crc, |writes|, Payload(writes));
  }

  /** The firmware parses a packed program back exactly when it is within its limits. */
  lemma FirmwareRecoversProgramIff(writes: seq<Write>, crc: Checksum)
    requires |writes| < 0x1_0000 && forall w :: w in writes ==> Packable(w)
    ensures var r := ParsedBlob(Blob(writes, crc), crc);
            && (r == Program(writes) <==> Acceptable(writes))
            && (!Acceptable(writes) ==>
                  r == Rejected(if HEADER_SIZE + BlockBytes(writes) > MAX_BLOB_SIZE then TooLarge else Truncated))
  {
    BlobIsJudged(writes, crc);
    assert Payload(writes)[0..] == Payload(writes);
    BlocksRoundTrip(Payload(writes), 0, writes, MAX_WRITE_PAYLOAD);
  }

  /** Two programs never pack to the same blob, whatever the checksum. */
  lemma PackingIsInjective(a: seq<Write>, b: seq<Write>, crc: Checksum)
    requires |a| < 0x1_0000 && forall w :: w in a ==> Packable(w)
    requires |b| < 0x1_0000 && forall w :: w in b ==> Packable(w)
    requires Blob(a, crc) == Blob(b, crc)
    ensures a == b
  {
    BlobFields(a, crc);
    BlobFields(b, crc);
    assert Payload(a)[0..] == Payload(a) == Payload(b);
    BlocksRoundTrip(Payload(a), 0, a, 0xFFFF);
    BlocksRoundTrip(Payload(b), 0, b, 0xFFFF);
  }

  // ---- Nothing else is accepted ---------------------------------------------

  lemma WriteBack16(b: seq<Byte>, at: nat)
    requires at + 2 <= |b|
    ensures Le16(ReadLe16(b, at)) == b[at..at + 2]
  {
    var lo: int, hi: int := b[at], b[at + 1];
    assert (lo + 256 * hi) % 256 == lo && (lo + 256 * hi) / 256 == hi;
  }

  lemma WriteBack32(b: seq<Byte>, at: nat)
    requires at + 4 <= |b|
    ensures ReadLe32(b, at) < 0x1_0000_0000 && Le32(ReadLe32(b, at)) == b[at..at + 4]
  {
    var lo, hi := ReadLe16(b, at), ReadLe16(b, at + 2);
    assert (lo + 0x1_0000 * hi) % 0x1_0000 == lo && (lo + 0x1_0000 * hi) / 0x1_0000 == hi;
    WriteBack16(b, at);
    WriteBack16(b, at + 2);
    assert b[at..at + 2] + b[at + 2..at + 4] == b[at..at + 4];
  }

  lemma BlockIsPacked(payload: seq<Byte>, offset: nat)
    requires offset + 4 <= |payload|
    requires var length := ReadLe16(payload, offset + 2); 0 < length && offset + 4 + length <= |payload|
    ensures var end := offset + 4 + ReadLe16(payload, offset + 2);
            var w := Write(ReadLe16(payload, offset), payload[offset + 4..end]);
            Packable(w) && payload[offset..end] == Block(w)
  {
    WriteBack16(payload, offset);
    WriteBack16(payload, offset + 2);
    var end := offset + 4 + ReadLe16(payload, offset + 2);
    assert payload[offset..end]
           == payload[offset..offset + 2] + payload[offset + 2..offset + 4] + payload[offset + 4..end];
  }

  /** Blocks that parse are the packing of what they parse to. */
  lemma {:induction false} ParsedBlocksArePacked(payload: seq<Byte>, offset: nat, count: nat, maxData: nat)
    requires offset <= |payload| && ParsedBlocks(payload, offset, count, maxData).Some?
    ensures var writes := ParsedBlocks(payload, offset, count, maxData).value;
            && |writes| == count && NoneLonger(writes, maxData)
            && (forall w :: w in writes ==> Packable(w))
            && payload[offset..] == Payload(writes)
    decreases count
  {
    if count > 0 {
      var end := offset + 4 + ReadLe16(payload, offset + 2);
      ParsedBlocksArePacked(payload, end, count - 1, maxData);
      BlockIsPacked(payload, offset);
      assert payload[offset..] == payload[offset..end] + payload[end..];
      var writes := ParsedBlocks(payload, offset, count, maxData).value;
      assert writes[1..] == ParsedBlocks(payload, end, count - 1, maxData).value;
    }
  }

  /** What the firmware accepts is exactly the packing of what it parses: no other blob gets through. */
  lemma AcceptedIsPacked(blob: seq<Byte>, crc: Checksum)
    requires ParsedBlob(blob, crc).Program?
    ensures var writes := ParsedBlob(blob, crc).writes;
            Acceptable(writes) && (forall w :: w in writes ==> Packable(w)) && blob == Blob(writes, crc)
  {
    var writes := ParsedBlob(blob, crc).writes;
    PayloadIsPacked(blob[HEADER_SIZE..], ReadLe16(blob, 6), writes);
    HeaderIsPacked(blob);
  }

  lemma PayloadIsPacked(payload: seq<Byte>, count: nat, writes: seq<Write>)
    requires ParsedBlocks(payload, 0, count, MAX_WRITE_PAYLOAD) == Some(writes)
    ensures |writes| == count && NoneLonger(writes, MAX_WRITE_PAYLOAD) && (forall w :: w in writes ==> Packable(w))
    ensures payload == Payload(writes) && |payload| == BlockBytes(writes)
  {
    ParsedBlocksArePacked(payload, 0, count, MAX_WRITE_PAYLOAD);
    assert payload[0..] == payload;
    PayloadSize(writes);
  }

  lemma HeaderIsPacked(b: seq<Byte>)
    requires |b| >= HEADER_SIZE
    ensures ReadLe32(b, 8) < 0x1_0000_0000
    ensures b == b[..4] + Le16(ReadLe16(b, 4)) + Le16(ReadLe16(b, 6)) + Le32(ReadLe32(b, 8)) + b[HEADER_SIZE..]
  {
    WriteBack16(b, 4);
    WriteBack16(b, 6);
    WriteBack32(b, 8);
    assert b == b[..4] + b[4..6] + b[6..8] + b[8..12] + b[HEADER_SIZE..];
  }

  // ---- From the tool's input to the firmware ---------------------------------

  /** The write has the entry's address, and its data but for multiples of 256. */
  predicate Carries(w: Write, e: Entry) {
    && w.address == e.address && |w.data| == |e.data|
    && forall j: nat :: j < |w.data| ==> (e.data[j] - w.data[j]) % 256 == 0
  }

  predicate CarriesAll(writes: seq<Write>, entries: seq<Entry>) {
    |writes| == |entries| && forall i: nat :: i < |writes| ==> Carries(writes[i], entries[i])
  }

  lemma WritesCarry(entries: seq<Entry>)
    requires AllPackable(entries)
    ensures CarriesAll(WritesOf(entries), entries)
  {
    forall i: nat | i < |entries|
      ensures Carries(WritesOf(entries)[i], entries[i])
    {
      assert PackableEntry(entries[i]);
      MaskedIsCongruent(entries[i].data);
    }
  }

  lemma MaskedIsCongruent(data: seq<int>)
    ensures forall j: nat :: j < |data| ==> (data[j] - Masked(data)[j]) % 256 == 0
  {
    forall j: nat | j < |data|
      ensures (data[j] - Masked(data)[j]) % 256 == 0
    {
      Congruent(data[j]);
    }
  }

  lemma Congruent(x: int)
    ensures (x - x % 256) % 256 == 0
  {
    assert x - x % 256 == x / 256 * 256;
  }

  /** What the tool packs, the firmware parses to a program with each entry's address and data. */
  lemma FirmwareGetsEntries(entries: seq<Entry>, crc: Checksum)
    requires |entries| < 0x1_0000 && AllPackable(entries) && Acceptable(WritesOf(entries))
    ensures var r := ParsedBlob(Blob(WritesOf(entries), crc), crc);
            r.Program? && CarriesAll(r.writes, entries)
  {
    FirmwareRecoversProgramIff(WritesOf(entries), crc);
    WritesCarry(entries);
  }

  /** Bytes come back as they are. */
  lemma BytesComeBack(w: Write, e: Entry)
    requires Carries(w, e) && forall j: nat :: j < |e.data| ==> 0 <= e.data[j] < 256
    ensures w == Write(e.address, e.data)
  {
    forall j: nat | j < |e.data| ensures w.data[j] == e.data[j] {
      SameByte(e.data[j], w.data[j]);
    }
  }

  lemma SameByte(x: int, y: int)
    requires 0 <= x < 256 && 0 <= y < 256 && (x - y) % 256 == 0
    ensures x == y
  {
  }

  /** From end to end: a packed list within the firmware's limits comes out of its parser as it went in. */
  method PackAndParse(entries: seq<Entry>, crc: Checksum) returns (packed: Packed, parsed: Parsed)
    ensures packed.Packed? <==> |entries| < 0x1_0000 && AllPackable(entries)
    ensures packed.Packed? ==>
              if Acceptable(WritesOf(entries)) then parsed.Program? && CarriesAll(parsed.writes, entries)
              else parsed.Rejected?
  {
    packed := PackWrites(entries, crc);
    parsed := Rejected(Empty);
    if packed.Packed? {
      parsed := ParseDspProgramBlob(packed.blob, crc);
      FirmwareRecoversProgramIff(WritesOf(entries), crc);
      WritesCarry(entries);
    }
  }

  // ---- The layout, byte by byte ----------------------------------------------

  /** The number written low byte first. */
  function Number(bytes: seq<Byte>): nat {
    if bytes == [] then 0
    else
      var low: int := bytes[0];
      low + 256 * Number(bytes[1..])
  }

  lemma NumberOfTwo(b: seq<Byte>, at: nat)
    requires at + 2 <= |b|
    ensures Number(b[at..at + 2]) == ReadLe16(b, at)
  {
    var two := b[at..at + 2];
    assert two[1..] == [two[1]] && [two[1]][1..] == [];
    assert Number([two[1]]) == two[1];
  }

  lemma NumberOfFour(b: seq<Byte>, at: nat)
    requires at + 4 <= |b|
    ensures Number(b[at..at + 4]) == ReadLe32(b, at)
  {
    var four := b[at..at + 4];
    assert four[1..][1..] == b[at + 2..at + 4];
    NumberOfTwo(b, at);
    NumberOfTwo(b, at + 2);
    SplitNumber(b[at], b[at + 1], b[at + 2..at + 4], four);
  }

  lemma SplitNumber(a: Byte, b: Byte, rest: seq<Byte>, all: seq<Byte>)
    requires all == [a, b] + rest
    ensures Number(all) == Number([a, b]) + 0x1_0000 * Number(rest)
  {
    assert all[1..] == [b] + rest && all[1..][1..] == rest;
    assert [a, b][1..] == [b] && [b][1..] == [];
    assert Number([b]) == b;
  }

  /** The header: the letters DRAD, version 1, the count and the checksum. */
  lemma HeaderBytes(writes: seq<Write>, crc: Checksum)
    requires |writes| < 0x1_0000 && forall w :: w in writes ==> Packable(w)
    ensures var b := Blob(writes, crc);
            && |b| >= 12 && b[..4] == [0x44, 0x52, 0x41, 0x44] && Number(b[4..6]) == 1 && Number(b[6..8]) == |writes|
            && Number(b[8..12]) == crc(b[12..]) % 0x1_0000_0000 && b[12..] == Payload(writes)
  {
    BlobFields(writes, crc);
    var b := Blob(writes, crc);
    NumberOfTwo(b, 4);
    NumberOfTwo(b, 6);
    NumberOfFour(b, 8);
  }

  /** A block: address and length, then the data. */
  lemma BlockLayout(w: Write)
    requires Packable(w)
    ensures var b := Block(w);
            |b| == 4 + |w.data| && Number(b[..2]) == w.address && Number(b[2..4]) == |w.data| && b[4..] == w.data
  {
    var b := Block(w);
    assert b[0..] == Block(w) + [];
    BlockFields(b, 0, w, []);
    NumberOfTwo(b, 0);
    NumberOfTwo(b, 2);
    assert b[0..2] == b[..2];
  }

  /** Each block follows the one before. */
  lemma {:induction false} PayloadLayout(before: seq<Write>, after: seq<Write>)
    requires (forall w :: w in before ==> Packable(w)) && forall w :: w in after ==> Packable(w)
    ensures Payload(before + after) == Payload(before) + Payload(after)
  {
    if before == [] {
      assert before + after == after;
    } else {
      PayloadLayout(before[1..], after);
      assert (before + after)[0] == before[0] && (before + after)[1..] == before[1..] + after;
    }
  }

  // ---- Which error -----------------------------------------------------------

  /** Well-sized, with the right letters. */
  predicate HasMagic(b: seq<Byte>) {
    12 <= |b| <= 204800 && b[..4] == [0x44, 0x52, 0x41, 0x44]
  }

  /** A blob is refused for its size, its letters, its version, its checksum or its blocks, in this order. */
  lemma RefusedFor(b: seq<Byte>, crc: Checksum)
    ensures ParsedBlob(b, crc) == Rejected(Empty) <==> b == []
    ensures ParsedBlob(b, crc) == Rejected(TooLarge) <==> |b| > 204800
    ensures ParsedBlob(b, crc) == Rejected(InvalidMagic) <==> 12 <= |b| <= 204800 && !HasMagic(b)
    ensures ParsedBlob(b, crc) == Rejected(UnsupportedVersion) <==> HasMagic(b) && Number(b[4..6]) != 1
    ensures ParsedBlob(b, crc) == Rejected(BadCrc)
            <==> HasMagic(b) && Number(b[4..6]) == 1 && 1 <= Number(b[6..8]) <= 32
                 && crc(b[12..]) % 0x1_0000_0000 != Number(b[8..12])
  {
    if |b| >= 12 {
      NumberOfTwo(b, 4);
      NumberOfTwo(b, 6);
      NumberOfFour(b, 8);
    }
  }
}
