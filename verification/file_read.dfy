/** The paged chunk reader of a couch file (couchstore/src/file_read.rs).

    A couch file is cut into blocks of `bs` bytes. The first byte of every
    block is a marker that belongs to no chunk. A chunk is an 8-byte prefix
    (a 31-bit big-endian length whose top bit is a flag, then the big-endian
    CRC-32C of the body) followed by the body, all laid out in the payload
    bytes that remain once the markers are skipped.

    The file is an immutable byte sequence. The block size is a parameter
    greater than one. CRC-32C (section 12.1 of RFC 3720) and the raw Snappy
    decoder are collaborators, passed in as functions. */
module FileRead {
  import opened Results
  import opened ByteOrder
  import DivMod

  /** The collaborators the reader calls but does not define. */
  datatype Codecs = Codecs(crc32c: seq<Byte> -> U32, decompress: seq<Byte> -> Option<seq<Byte>>)

  /** Every way a chunk read aborts; each is a panic in the source. */
  datatype ReadError =
    | HeaderTooLarge(length: nat, maxHeaderSize: nat)
    | HeaderLengthUnderflow(length: nat)
    | ChecksumMismatch(stored: U32, computed: U32)
    | MissingMaxHeaderSize
    | DecompressionFailed

  /** Size of the length-and-checksum prefix of every chunk. */
  const PREFIX_LEN: nat := 8

  /** Bit 31 of the length word: a format flag, never part of the length. */
  const LENGTH_FLAG: nat := 0x8000_0000

  /** A header's length field also counts the 4 bytes of its checksum. */
  const HEADER_CRC_LEN: nat := 4

  function Min(a: nat, b: nat): (m: nat)
    ensures m <= a && m <= b && (m == a || m == b)
  {
    if a <= b then a else b
  }

  function Zeros(n: nat): (z: seq<Byte>)
    ensures |z| == n
  {
    seq(n, _ => 0)
  }

  // ---------------------------------------------------------------------
  // The byte store
  // ---------------------------------------------------------------------

  /** One `read` of at most `n` bytes after seeking to `p`: whatever the file
      still holds there, and nothing at or after its end. */
  function StoreRead(file: seq<Byte>, p: nat, n: nat): (got: seq<Byte>)
    ensures |got| <= n
    ensures p < |file| && n > 0 ==> |got| > 0
    ensures |got| > 0 ==> p + |got| <= |file| && got == file[p..p + |got|]
    ensures |got| < n ==> p + |got| >= |file|
  {
    if p >= |file| then []
    else if p + n <= |file| then file[p..p + n]
    else file[p..]
  }

  // ---------------------------------------------------------------------
  // Block skipping
  // ---------------------------------------------------------------------

  /** A position on a block boundary holds a marker: step over it. */
  function SkipMarker(p: nat, bs: nat): (q: nat)
    requires bs > 1
    ensures q % bs != 0
    ensures p % bs != 0 ==> q == p
    ensures p % bs == 0 ==> q == p + 1
  {
    if p % bs == 0 then
      DivMod.ModSucc(p, bs);
      p + 1
    else p
  }

  /** Payload bytes read so far and the position the cursor stands on. */
  datatype Advance = Advance(bytes: seq<Byte>, pos: nat)

  /** The reference reader: up to `n` payload bytes from `p`, one byte at a
      time, stepping over every marker it lands on and stopping at the end
      of the file. */
  function ReadPayload(file: seq<Byte>, bs: nat, p: nat, n: nat): (a: Advance)
    requires bs > 1 && p % bs != 0
    ensures |a.bytes| <= n
    ensures p <= a.pos && a.pos % bs != 0
    ensures |a.bytes| < n ==> a.pos >= |file|
    ensures n == 0 || p >= |file| ==> a == Advance([], p)
    decreases n
  {
    if n == 0 || p >= |file| then Advance([], p)
    else
      var rest := ReadPayload(file, bs, SkipMarker(p + 1, bs), n - 1);
      Advance([file[p]] + rest.bytes, rest.pos)
  }

  /** A run of `c` bytes that stays inside one block is read in one piece. */
  lemma {:induction false} ReadPayloadRun(file: seq<Byte>, bs: nat, p: nat, n: nat, c: nat)
    requires bs > 1 && p % bs != 0
    requires 1 <= c <= n && p % bs + c <= bs && p + c <= |file|
    ensures ReadPayload(file, bs, p, n) ==
              var rest := ReadPayload(file, bs, SkipMarker(p + c, bs), n - c);
              Advance(file[p..p + c] + rest.bytes, rest.pos)
    decreases c
  {
    ReadPayloadCons(file, bs, p, n);
    if c == 1 {
      assert file[p..p + 1] == [file[p]];
    } else {
      DivMod.ModSucc(p, bs);
      assert SkipMarker(p + 1, bs) == p + 1;
      ReadPayloadRun(file, bs, p + 1, n - 1, c - 1);
      var rest := ReadPayload(file, bs, SkipMarker(p + c, bs), n - c);
      ConsRun(file, p, c, rest.bytes);
    }
  }

  /** One step of the reference reader from a payload byte. */
  lemma ReadPayloadCons(file: seq<Byte>, bs: nat, p: nat, n: nat)
    requires bs > 1 && p % bs != 0 && n > 0 && p < |file|
    ensures ReadPayload(file, bs, p, n) ==
              var next := ReadPayload(file, bs, SkipMarker(p + 1, bs), n - 1);
              Advance([file[p]] + next.bytes, next.pos)
  {
  }

  /** Prepending the first byte of a slice to the rest of it. */
  lemma ConsRun(file: seq<Byte>, p: nat, c: nat, tail: seq<Byte>)
    requires 1 <= c && p + c <= |file|
    ensures [file[p]] + (file[p + 1..p + c] + tail) == file[p..p + c] + tail
  {
    assert file[p..p + c] == [file[p]] + file[p + 1..p + c];
  }

  /** The loop invariant of `ReadSkippingPrefixes`: the bytes placed so far
      followed by what the reference reader reads from `p` make up the whole
      read, and the buffer is untouched past `k`. */
  ghost predicate FillInvariant(file: seq<Byte>, bs: nat, p: nat, buf: seq<Byte>, filled: seq<Byte>, k: nat, whole: Advance)
    requires bs > 1
  {
    && p % bs != 0
    && k <= |buf| && |filled| == |buf|
    && filled[k..] == buf[k..]
    && whole.bytes == filled[..k] + ReadPayload(file, bs, p, |buf| - k).bytes
    && whole.pos == ReadPayload(file, bs, p, |buf| - k).pos
  }

  /** One block piece of `got` bytes placed at `k` keeps the invariant. */
  lemma FillStep(file: seq<Byte>, bs: nat, p: nat, buf: seq<Byte>, filled: seq<Byte>, k: nat, got: seq<Byte>, whole: Advance)
    requires bs > 1 && p % bs != 0
    requires FillInvariant(file, bs, p, buf, filled, k, whole)
    requires 1 <= |got| <= |buf| - k && p % bs + |got| <= bs
    requires p + |got| <= |file| && got == file[p..p + |got|]
    ensures FillInvariant(file, bs, SkipMarker(p + |got|, bs), buf, filled[..k] + got + filled[k + |got|..], k + |got|, whole)
  {
    var c := |got|;
    ReadPayloadRun(file, bs, p, |buf| - k, c);
    var rest := ReadPayload(file, bs, SkipMarker(p + c, bs), |buf| - k - c);
    Splice(filled, k, got, rest.bytes);
    DropMore(filled, buf, k, c);
  }

  /** Two sequences that agree from `k` on agree from any later index. */
  lemma DropMore(a: seq<Byte>, b: seq<Byte>, k: nat, c: nat)
    requires k + c <= |a| == |b| && a[k..] == b[k..]
    ensures a[k + c..] == b[k + c..]
  {
    assert a[k + c..] == a[k..][c..];
    assert b[k + c..] == b[k..][c..];
  }

  /** Overwriting `filled` with `got` at `k`: the part up to the end of
      `got`, and the part after it. */
  lemma Splice(filled: seq<Byte>, k: nat, got: seq<Byte>, tail: seq<Byte>)
    requires k + |got| <= |filled|
    ensures var next := filled[..k] + got + filled[k + |got|..];
            && next[..k + |got|] + tail == filled[..k] + (got + tail)
            && next[k + |got|..] == filled[k + |got|..]
  {
    var next := filled[..k] + got + filled[k + |got|..];
    assert next[..k + |got|] == filled[..k] + got;
  }

  /** What `read_skipping_prefixes` leaves behind: the buffer, filled from
      its start with payload bytes and untouched past the last byte read,
      and the cursor position. */
  datatype Filled = Filled(buf: seq<Byte>, pos: nat)

  function SkipFill(file: seq<Byte>, bs: nat, pos: nat, buf: seq<Byte>): (r: Filled)
    requires bs > 1
    ensures |r.buf| == |buf|
    ensures r.pos % bs != 0
  {
    var a := ReadPayload(file, bs, SkipMarker(pos, bs), |buf|);
    Filled(a.bytes + buf[|a.bytes|..], a.pos)
  }

  /** The size of the next read from `p`: the rest of the current block,
      capped by the room left in the buffer. A read of this size never
      reaches into the next block, and stops short of the block's end only
      when the buffer is about to fill. */
  function ReadSize(p: nat, bs: nat, remaining: nat): (size: nat)
    requires bs > 1 && p % bs != 0 && remaining > 0
    ensures 1 <= size <= remaining
    ensures p % bs + size <= bs
    ensures size < remaining ==> (p + size) % bs == 0
  {
    var room := bs - p % bs;
    DivMod.ModAdd(p, room, bs);
    Min(room, remaining)
  }

  /** The invariant, once nothing is left to read, is the reference result. */
  lemma FillDone(file: seq<Byte>, bs: nat, pos: nat, p: nat, buf: seq<Byte>, filled: seq<Byte>, k: nat)
    requires bs > 1 && p % bs != 0
    requires FillInvariant(file, bs, p, buf, filled, k, ReadPayload(file, bs, SkipMarker(pos, bs), |buf|))
    requires k == |buf| || p >= |file|
    ensures Filled(filled, p) == SkipFill(file, bs, pos, buf)
  {
  }

  /** `read_skipping_prefixes`: fills `buf` one block piece at a time,
      each of `ReadSize` bytes, stepping over the marker (`SkipMarker`)
      before the first read and whenever the cursor lands on a block
      boundary. It computes what the
      byte-at-a-time reference computes: the buffer filled from its start
      with payload bytes, the rest untouched, and the cursor past them. */
  method ReadSkippingPrefixes(file: seq<Byte>, bs: nat, pos: nat, buf: seq<Byte>)
    returns (newPos: nat, filled: seq<Byte>)
    requires bs > 1
    ensures Filled(filled, newPos) == SkipFill(file, bs, pos, buf)
    ensures newPos % bs != 0
    ensures |buf| == 0 ==> newPos == SkipMarker(pos, bs) && filled == buf
  {
    var p: nat := SkipMarker(pos, bs);
    ghost var whole := ReadPayload(file, bs, p, |buf|);
    var k: nat := 0;
    filled := buf;
    while k < |buf|
      invariant FillInvariant(file, bs, p, buf, filled, k, whole)
      decreases |buf| - k
    {
      var atEnd;
      p, filled, k, atEnd := FillRound(file, bs, p, buf, filled, k, whole);
      if atEnd {
        break;
      }
    }
    FillDone(file, bs, pos, p, buf, filled, k);
    newPos := p;
  }

  /** One iteration of `read_skipping_prefixes`: one read of `ReadSize`
      bytes, placed at `k`; `atEnd` when the read came back empty. */
  method FillRound(file: seq<Byte>, bs: nat, p: nat, buf: seq<Byte>, filled: seq<Byte>, k: nat, ghost whole: Advance)
    returns (p': nat, filled': seq<Byte>, k': nat, atEnd: bool)
    requires bs > 1 && k < |buf|
    requires FillInvariant(file, bs, p, buf, filled, k, whole)
    ensures FillInvariant(file, bs, p', buf, filled', k', whole)
    ensures atEnd ==> p' == p && filled' == filled && k' == k && p >= |file|
    ensures !atEnd ==> k < k'
  {
    var size := ReadSize(p, bs, |buf| - k);
    var got := StoreRead(file, p, size);
    if |got| == 0 {
      return p, filled, k, true;
    }
    var c := |got|;
    FillStep(file, bs, p, buf, filled, k, got, whole);
    filled' := filled[..k] + got + filled[k + c..];
    p' := SkipMarker(p + c, bs);
    k' := k + c;
    atEnd := false;
  }

  // ---------------------------------------------------------------------
  // Chunk framing
  // ---------------------------------------------------------------------

  /** The length word with its flag bit (bit 31, the top bit of the first
      byte) cleared: the word less 2^31 exactly when that bit is set. */
  function ChunkLength(prefix: seq<Byte>): (len: nat)
    requires |prefix| >= 4
    ensures len < LENGTH_FLAG
    ensures prefix[0] < 0x80 ==> len == BigEndianU32(prefix[..4])
    ensures prefix[0] >= 0x80 ==> len == BigEndianU32(prefix[..4]) - LENGTH_FLAG
  {
    var word := BigEndianU32(prefix[..4]);
    if prefix[0] < 0x80 then
      DivMod.DivModUnique(word, LENGTH_FLAG, 0, word);
      word % LENGTH_FLAG
    else
      DivMod.DivModUnique(word, LENGTH_FLAG, 1, word - LENGTH_FLAG);
      word % LENGTH_FLAG
  }

  /** The checksum word of a prefix. */
  function StoredCrc(prefix: seq<Byte>): (crc: U32)
    requires |prefix| >= PREFIX_LEN
    ensures EncodeU32(crc) == prefix[4..8]
  {
    EncodeDecode(prefix[4..8]);
    BigEndianU32(prefix[4..8])
  }

  /** The prefix as `pread_bin_internal` sees it: 8 bytes read through the
      block skipper into a zeroed buffer, and the position after them. */
  function PrefixAt(file: seq<Byte>, bs: nat, pos: nat): (r: Filled)
    requires bs > 1
    ensures |r.buf| == PREFIX_LEN
  {
    SkipFill(file, bs, pos, Zeros(PREFIX_LEN))
  }

  /** The number of body bytes a chunk read asks for: the declared length,
      less the checksum field for a header. `None` when a header's declared
      length is below that field's size. */
  function BodyLength(declared: nat, isHeader: bool): (len: Option<nat>)
    ensures len.Some? <==> !isHeader || declared >= HEADER_CRC_LEN
    ensures len.Some? ==> len.value + (if isHeader then HEADER_CRC_LEN else 0) == declared
  {
    if !isHeader then Some(declared)
    else if declared < HEADER_CRC_LEN then None
    else Some(declared - HEADER_CRC_LEN)
  }

  /** `pread_bin_internal`: reads the prefix, applies the header-size guard
      when a maximum is given, reads the body through the block skipper
      into a zeroed buffer and accepts it only when its CRC-32C matches. */
  function PreadBinInternal(file: seq<Byte>, bs: nat, codecs: Codecs, pos: nat, maxHeaderSize: Option<nat>)
    : (r: Result<seq<Byte>, ReadError>)
    requires bs > 1
    ensures var declared := ChunkLength(PrefixAt(file, bs, pos).buf);
            && (maxHeaderSize.Some? && declared > maxHeaderSize.value ==>
                  r == Err(HeaderTooLarge(declared, maxHeaderSize.value)))
            && (r.Ok? ==> Some(|r.value|) == BodyLength(declared, maxHeaderSize.Some?))
            && (r.Ok? && maxHeaderSize.Some? ==> |r.value| + HEADER_CRC_LEN <= maxHeaderSize.value)
    ensures r.Ok? ==> codecs.crc32c(r.value) == StoredCrc(PrefixAt(file, bs, pos).buf)
    ensures r.Err? && r.error.ChecksumMismatch? ==> r.error.stored != r.error.computed
    ensures maxHeaderSize.None? && r.Err? ==> r.error.ChecksumMismatch?
  {
    var info := PrefixAt(file, bs, pos);
    var declared := ChunkLength(info.buf);
    var stored := StoredCrc(info.buf);
    if maxHeaderSize.Some? && declared > maxHeaderSize.value then
      Err(HeaderTooLarge(declared, maxHeaderSize.value))
    else if maxHeaderSize.Some? && declared < HEADER_CRC_LEN then
      Err(HeaderLengthUnderflow(declared))
    else
      var bodyLen := if maxHeaderSize.Some? then declared - HEADER_CRC_LEN else declared;
      var body := SkipFill(file, bs, info.pos, Zeros(bodyLen));
      var computed := codecs.crc32c(body.buf);
      if stored != computed then Err(ChecksumMismatch(stored, computed))
      else Ok(body.buf)
  }

  /** `pread_bin`: a plain chunk, no header guard. */
  function PreadBin(file: seq<Byte>, bs: nat, codecs: Codecs, pos: nat): (r: Result<seq<Byte>, ReadError>)
    requires bs > 1
    ensures r == PreadBinInternal(file, bs, codecs, pos, None)
    ensures r.Ok? ==> |r.value| == ChunkLength(PrefixAt(file, bs, pos).buf)
  {
    PreadBinInternal(file, bs, codecs, pos, None)
  }

  /** `pread_header`: a header chunk, whose prefix starts one byte after
      `pos`; a missing maximum size is fatal. */
  function PreadHeader(file: seq<Byte>, bs: nat, codecs: Codecs, pos: nat, maxHeaderSize: Option<nat>)
    : (r: Result<seq<Byte>, ReadError>)
    requires bs > 1
    ensures maxHeaderSize.None? ==> r == Err(MissingMaxHeaderSize)
    ensures maxHeaderSize.Some? ==> r == PreadBinInternal(file, bs, codecs, pos + 1, maxHeaderSize)
  {
    if maxHeaderSize.None? then Err(MissingMaxHeaderSize)
    else PreadBinInternal(file, bs, codecs, pos + 1, maxHeaderSize)
  }

  /** `pread_compressed`: a plain chunk whose body is then decompressed. */
  function PreadCompressed(file: seq<Byte>, bs: nat, codecs: Codecs, pos: nat): (r: Result<seq<Byte>, ReadError>)
    requires bs > 1
    ensures PreadBin(file, bs, codecs, pos).Err? ==> r == Err(PreadBin(file, bs, codecs, pos).error)
    ensures PreadBin(file, bs, codecs, pos).Ok? ==>
              match codecs.decompress(PreadBin(file, bs, codecs, pos).value)
              case Some(plain) => r == Ok(plain)
              case None => r == Err(DecompressionFailed)
  {
    var compressed :- PreadBin(file, bs, codecs, pos);
    match codecs.decompress(compressed)
    case Some(plain) => Ok(plain)
    case None => Err(DecompressionFailed)
  }

  // ---------------------------------------------------------------------
  // The writer's layout, used to state what a read recovers
  // ---------------------------------------------------------------------

  /** The physical bytes that store `data` as payload from position `p`:
      `marker` on every block boundary, the data bytes in order elsewhere. */
  function Frame(bs: nat, p: nat, data: seq<Byte>, marker: Byte): (phys: seq<Byte>)
    requires bs > 1
    ensures |phys| >= |data|
    decreases |data|, if p % bs == 0 then 1 else 0
  {
    if |data| == 0 then []
    else if p % bs == 0 then
      DivMod.ModSucc(p, bs);
      [marker] + Frame(bs, p + 1, data, marker)
    else [data[0]] + Frame(bs, p + 1, data[1..], marker)
  }

  /** Framing two pieces one after the other is framing their concatenation. */
  ghost predicate FramesConcat(bs: nat, p: nat, d1: seq<Byte>, d2: seq<Byte>, marker: Byte)
    requires bs > 1
  {
    Frame(bs, p, d1 + d2, marker) ==
      Frame(bs, p, d1, marker) + Frame(bs, p + |Frame(bs, p, d1, marker)|, d2, marker)
  }

  lemma {:induction false} FrameAppend(bs: nat, p: nat, d1: seq<Byte>, d2: seq<Byte>, marker: Byte)
    requires bs > 1
    ensures FramesConcat(bs, p, d1, d2, marker)
    decreases |d1|, if p % bs == 0 then 1 else 0
  {
    if |d1| == 0 {
      assert d1 + d2 == d2;
    } else if p % bs == 0 {
      DivMod.ModSucc(p, bs);
      FrameAppend(bs, p + 1, d1, d2, marker);
      FrameAppendMarker(bs, p, d1, d2, marker);
    } else {
      FrameAppend(bs, p + 1, d1[1..], d2, marker);
      FrameAppendByte(bs, p, d1, d2, marker);
    }
  }

  /** The marker step of `FrameAppend`. */
  lemma FrameAppendMarker(bs: nat, p: nat, d1: seq<Byte>, d2: seq<Byte>, marker: Byte)
    requires bs > 1 && |d1| > 0 && p % bs == 0
    requires FramesConcat(bs, p + 1, d1, d2, marker)
    ensures FramesConcat(bs, p, d1, d2, marker)
  {
    var f1 := Frame(bs, p + 1, d1, marker);
    var f2 := Frame(bs, p + 1 + |f1|, d2, marker);
    assert Frame(bs, p + 1, d1 + d2, marker) == f1 + f2;
    FrameAtMarker(bs, p, d1, marker);
    FrameAtMarker(bs, p, d1 + d2, marker);
    assert p + |Frame(bs, p, d1, marker)| == p + 1 + |f1|;
    assert Frame(bs, p, d1 + d2, marker) == [marker] + (f1 + f2);
    ConsAssoc(marker, f1, f2);
  }

  lemma ConsAssoc(x: Byte, a: seq<Byte>, b: seq<Byte>)
    ensures [x] + (a + b) == ([x] + a) + b
  {
  }

  /** A frame starting on a block boundary starts with the marker. */
  lemma FrameAtMarker(bs: nat, p: nat, data: seq<Byte>, marker: Byte)
    requires bs > 1 && |data| > 0 && p % bs == 0
    ensures Frame(bs, p, data, marker) == [marker] + Frame(bs, p + 1, data, marker)
  {
  }

  /** The data-byte step of `FrameAppend`. */
  lemma FrameAppendByte(bs: nat, p: nat, d1: seq<Byte>, d2: seq<Byte>, marker: Byte)
    requires bs > 1 && |d1| > 0 && p % bs != 0
    requires FramesConcat(bs, p + 1, d1[1..], d2, marker)
    ensures FramesConcat(bs, p, d1, d2, marker)
  {
    var f1 := Frame(bs, p + 1, d1[1..], marker);
    assert Frame(bs, p, d1, marker) == [d1[0]] + f1;
    assert (d1 + d2)[1..] == d1[1..] + d2;
    assert Frame(bs, p, d1 + d2, marker) == [d1[0]] + Frame(bs, p + 1, d1[1..] + d2, marker);
  }

  /** A file holding `Frame(bs, p, data, _)` at `p`: the block skipper reads
      `data` back in order and stops just past the frame, stepping over a
      marker that may stand there. */
  ghost predicate HoldsAt(file: seq<Byte>, p: nat, phys: seq<Byte>)
  {
    p + |phys| <= |file| && file[p..p + |phys|] == phys
  }

  /** A file holding two pieces back to back holds each of them. */
  lemma HoldsAtSplit(file: seq<Byte>, p: nat, a: seq<Byte>, b: seq<Byte>)
    requires HoldsAt(file, p, a + b)
    ensures HoldsAt(file, p, a) && HoldsAt(file, p + |a|, b)
  {
    var whole := file[p..p + |a| + |b|];
    assert whole == a + b;
    assert file[p..p + |a|] == whole[..|a|];
    assert file[p + |a|..p + |a| + |b|] == whole[|a|..];
  }

  /** Reading `|data|` payload bytes from a frame of `data` laid at `p`
      yields `data` and stops just past the frame. */
  ghost predicate ReadsBack(file: seq<Byte>, bs: nat, p: nat, data: seq<Byte>, marker: Byte)
    requires bs > 1
  {
    ReadPayload(file, bs, SkipMarker(p, bs), |data|) ==
      Advance(data, SkipMarker(p + |Frame(bs, p, data, marker)|, bs))
  }

  lemma {:induction false} FrameThenRead(file: seq<Byte>, bs: nat, p: nat, data: seq<Byte>, marker: Byte)
    requires bs > 1
    requires HoldsAt(file, p, Frame(bs, p, data, marker))
    ensures ReadsBack(file, bs, p, data, marker)
    decreases |data|, if p % bs == 0 then 1 else 0
  {
    if |data| == 0 {
    } else if p % bs == 0 {
      DivMod.ModSucc(p, bs);
      HoldsAtCons(file, p, marker, Frame(bs, p + 1, data, marker));
      FrameThenRead(file, bs, p + 1, data, marker);
      FrameReadMarker(file, bs, p, data, marker);
    } else {
      HoldsAtCons(file, p, data[0], Frame(bs, p + 1, data[1..], marker));
      FrameThenRead(file, bs, p + 1, data[1..], marker);
      FrameReadByte(file, bs, p, data, marker);
    }
  }

  /** The marker step of `FrameThenRead`. */
  lemma FrameReadMarker(file: seq<Byte>, bs: nat, p: nat, data: seq<Byte>, marker: Byte)
    requires bs > 1 && |data| > 0 && p % bs == 0
    requires ReadsBack(file, bs, p + 1, data, marker)
    ensures ReadsBack(file, bs, p, data, marker)
  {
    DivMod.ModSucc(p, bs);
    assert Frame(bs, p, data, marker) == [marker] + Frame(bs, p + 1, data, marker);
  }

  /** The data-byte step of `FrameThenRead`. */
  lemma FrameReadByte(file: seq<Byte>, bs: nat, p: nat, data: seq<Byte>, marker: Byte)
    requires bs > 1 && |data| > 0 && p % bs != 0 && p < |file| && file[p] == data[0]
    requires ReadsBack(file, bs, p + 1, data[1..], marker)
    ensures ReadsBack(file, bs, p, data, marker)
  {
    assert Frame(bs, p, data, marker) == [data[0]] + Frame(bs, p + 1, data[1..], marker);
    ReadPayloadCons(file, bs, p, |data|);
    assert data == [data[0]] + data[1..];
  }

  /** A file holding a byte followed by more holds that byte, then the rest. */
  lemma HoldsAtCons(file: seq<Byte>, p: nat, x: Byte, rest: seq<Byte>)
    requires HoldsAt(file, p, [x] + rest)
    ensures p < |file| && file[p] == x && HoldsAt(file, p + 1, rest)
  {
    HoldsAtSplit(file, p, [x], rest);
  }

  /** The prefix a writer emits for a body of `len` bytes: the length
      word with the flag bit set or clear, then the checksum word. The
      reader's decoding recovers both fields, the flag bit dropped. */
  function PrefixBytes(len: nat, crc: U32, flag: bool): (b: seq<Byte>)
    requires len < LENGTH_FLAG
    ensures |b| == PREFIX_LEN
    ensures ChunkLength(b) == len && StoredCrc(b) == crc
  {
    var w := len + (if flag then LENGTH_FLAG else 0);
    PrefixWords(w, crc);
    EncodeU32FirstByte(w);
    EncodeU32(w) + EncodeU32(crc)
  }

  /** The two words of a prefix decode back from their encodings. */
  lemma PrefixWords(w: U32, crc: U32)
    ensures var b := EncodeU32(w) + EncodeU32(crc);
            b[0] == EncodeU32(w)[0] && BigEndianU32(b[..4]) == w && StoredCrc(b) == crc
  {
    var b := EncodeU32(w) + EncodeU32(crc);
    assert b[..4] == EncodeU32(w) && b[4..8] == EncodeU32(crc);
    DecodeEncode(w);
    DecodeEncode(crc);
  }

  /** The first byte of a big-endian word is at least 0x80 exactly when
      the word has bit 31 set. */
  lemma EncodeU32FirstByte(w: U32)
    ensures EncodeU32(w)[0] >= 0x80 <==> w >= LENGTH_FLAG
  {
    assert w / 0x100 / 0x100 / 0x100 == w / 0x100_0000;
  }

  /** A chunk as the writer emits it, with an arbitrary checksum word. */
  function ChunkBytes(body: seq<Byte>, crc: U32, flag: bool): (b: seq<Byte>)
    requires |body| < LENGTH_FLAG
    ensures |b| == PREFIX_LEN + |body|
  {
    PrefixBytes(|body|, crc, flag) + body
  }

  /** A well-formed chunk: the checksum word is the body's CRC-32C. */
  function EncodeChunk(codecs: Codecs, body: seq<Byte>, flag: bool): seq<Byte>
    requires |body| < LENGTH_FLAG
  {
    ChunkBytes(body, codecs.crc32c(body), flag)
  }

  /** A header chunk: its length word also counts the checksum field. */
  function EncodeHeader(codecs: Codecs, body: seq<Byte>): (b: seq<Byte>)
    requires |body| + HEADER_CRC_LEN < LENGTH_FLAG
  {
    PrefixBytes(|body| + HEADER_CRC_LEN, codecs.crc32c(body), false) + body
  }

  /** Reading a laid-out prefix and body: the prefix comes back, and the
      body comes back from the position where the prefix read stopped. */
  lemma ReadFramedPieces(file: seq<Byte>, bs: nat, pos: nat, prefix: seq<Byte>, body: seq<Byte>, marker: Byte)
    requires bs > 1 && |prefix| == PREFIX_LEN
    requires HoldsAt(file, pos, Frame(bs, pos, prefix + body, marker))
    ensures PrefixAt(file, bs, pos).buf == prefix
    ensures SkipFill(file, bs, PrefixAt(file, bs, pos).pos, Zeros(|body|)).buf == body
  {
    var f1 := Frame(bs, pos, prefix, marker);
    var q := pos + |f1|;
    FrameAppend(bs, pos, prefix, body, marker);
    HoldsAtSplit(file, pos, f1, Frame(bs, q, body, marker));
    FrameThenRead(file, bs, pos, prefix, marker);
    FillFromFrame(file, bs, pos, prefix, marker);
    FrameThenRead(file, bs, q, body, marker);
    FillFromFrame(file, bs, q, body, marker);
  }

  /** Filling a buffer of `|data|` bytes from a frame of `data` at `p`. */
  lemma FillFromFrame(file: seq<Byte>, bs: nat, p: nat, data: seq<Byte>, marker: Byte)
    requires bs > 1 && ReadsBack(file, bs, p, data, marker)
    ensures SkipFill(file, bs, p, Zeros(|data|)) ==
              Filled(data, SkipMarker(p + |Frame(bs, p, data, marker)|, bs))
  {
    assert data + Zeros(|data|)[|data|..] == data;
  }

  /** `pread_bin_internal` on a file whose prefix and body read back as
      given: the outcome depends only on the checksum comparison. */
  lemma ChunkFromPieces(file: seq<Byte>, bs: nat, codecs: Codecs, pos: nat, maxHeaderSize: Option<nat>, prefix: seq<Byte>, body: seq<Byte>)
    requires bs > 1 && |prefix| == PREFIX_LEN
    requires PrefixAt(file, bs, pos).buf == prefix
    requires BodyLength(ChunkLength(prefix), maxHeaderSize.Some?) == Some(|body|)
    requires maxHeaderSize.Some? ==> ChunkLength(prefix) <= maxHeaderSize.value
    requires SkipFill(file, bs, PrefixAt(file, bs, pos).pos, Zeros(|body|)).buf == body
    ensures PreadBinInternal(file, bs, codecs, pos, maxHeaderSize) ==
              if codecs.crc32c(body) == StoredCrc(prefix) then Ok(body)
              else Err(ChecksumMismatch(StoredCrc(prefix), codecs.crc32c(body)))
  {
    var info := PrefixAt(file, bs, pos);
    var declared := ChunkLength(info.buf);
    assert declared == ChunkLength(prefix) && StoredCrc(info.buf) == StoredCrc(prefix);
    assert maxHeaderSize.Some? ==> HEADER_CRC_LEN <= declared && declared - HEADER_CRC_LEN == |body|;
    assert maxHeaderSize.None? ==> declared == |body|;
  }

  /** Round trip: a chunk laid out at `pos` reads back as its body, whatever
      the flag bit and wherever the block boundaries fall. */
  lemma PreadBinRoundTrip(file: seq<Byte>, bs: nat, codecs: Codecs, pos: nat, body: seq<Byte>, flag: bool, marker: Byte)
    requires bs > 1 && |body| < LENGTH_FLAG
    requires HoldsAt(file, pos, Frame(bs, pos, EncodeChunk(codecs, body, flag), marker))
    ensures PreadBin(file, bs, codecs, pos) == Ok(body)
  {
    var prefix := PrefixBytes(|body|, codecs.crc32c(body), flag);
    ReadFramedPieces(file, bs, pos, prefix, body, marker);
    ChunkFromPieces(file, bs, codecs, pos, None, prefix, body);
  }

  /** Round trip for headers: a header laid out one byte after `pos` reads
      back as its body when its length word is within the maximum. */
  lemma PreadHeaderRoundTrip(file: seq<Byte>, bs: nat, codecs: Codecs, pos: nat, body: seq<Byte>, maxHeaderSize: nat, marker: Byte)
    requires bs > 1 && |body| + HEADER_CRC_LEN < LENGTH_FLAG
    requires |body| + HEADER_CRC_LEN <= maxHeaderSize
    requires HoldsAt(file, pos + 1, Frame(bs, pos + 1, EncodeHeader(codecs, body), marker))
    ensures PreadHeader(file, bs, codecs, pos, Some(maxHeaderSize)) == Ok(body)
  {
    var prefix := PrefixBytes(|body| + HEADER_CRC_LEN, codecs.crc32c(body), false);
    ReadFramedPieces(file, bs, pos + 1, prefix, body, marker);
    ChunkFromPieces(file, bs, codecs, pos + 1, Some(maxHeaderSize), prefix, body);
  }

  /** A header whose length word exceeds the maximum is refused before its
      body is read. */
  lemma OversizedHeaderRejected(file: seq<Byte>, bs: nat, codecs: Codecs, pos: nat, body: seq<Byte>, maxHeaderSize: nat, marker: Byte)
    requires bs > 1 && |body| + HEADER_CRC_LEN < LENGTH_FLAG
    requires |body| + HEADER_CRC_LEN > maxHeaderSize
    requires HoldsAt(file, pos + 1, Frame(bs, pos + 1, EncodeHeader(codecs, body), marker))
    ensures PreadHeader(file, bs, codecs, pos, Some(maxHeaderSize)) ==
              Err(HeaderTooLarge(|body| + HEADER_CRC_LEN, maxHeaderSize))
  {
    var prefix := PrefixBytes(|body| + HEADER_CRC_LEN, codecs.crc32c(body), false);
    ReadFramedPieces(file, bs, pos + 1, prefix, body, marker);
  }

  /** Round trip through compression: a laid-out chunk whose body the
      decoder accepts reads back as the decoded bytes. */
  lemma PreadCompressedRoundTrip(file: seq<Byte>, bs: nat, codecs: Codecs, pos: nat, compressed: seq<Byte>, plain: seq<Byte>, flag: bool, marker: Byte)
    requires bs > 1 && |compressed| < LENGTH_FLAG
    requires codecs.decompress(compressed) == Some(plain)
    requires HoldsAt(file, pos, Frame(bs, pos, EncodeChunk(codecs, compressed, flag), marker))
    ensures PreadCompressed(file, bs, codecs, pos) == Ok(plain)
  {
    PreadBinRoundTrip(file, bs, codecs, pos, compressed, flag, marker);
  }

  /** Corruption detection: when the body on disk differs from the one the
      checksum was computed for, in a way CRC-32C notices, the read fails. */
  lemma CorruptedBodyRejected(file: seq<Byte>, bs: nat, codecs: Codecs, pos: nat, written: seq<Byte>, onDisk: seq<Byte>, marker: Byte)
    requires bs > 1 && |written| < LENGTH_FLAG && |onDisk| == |written|
    requires codecs.crc32c(onDisk) != codecs.crc32c(written)
    requires HoldsAt(file, pos, Frame(bs, pos, ChunkBytes(onDisk, codecs.crc32c(written), false), marker))
    ensures PreadBin(file, bs, codecs, pos) ==
              Err(ChecksumMismatch(codecs.crc32c(written), codecs.crc32c(onDisk)))
  {
    var prefix := PrefixBytes(|onDisk|, codecs.crc32c(written), false);
    ReadFramedPieces(file, bs, pos, prefix, onDisk, marker);
    ChunkFromPieces(file, bs, codecs, pos, None, prefix, onDisk);
  }

  /** Reading at or past the end of the file is not reported: the zeroed
      prefix declares an empty body with checksum 0, so the read succeeds
      with no bytes whenever the checksum of nothing is 0, as it is for
      CRC-32C. */
  lemma ReadPastEndYieldsEmptyChunk(file: seq<Byte>, bs: nat, codecs: Codecs, pos: nat)
    requires bs > 1 && pos >= |file|
    requires codecs.crc32c([]) == 0
    ensures PreadBin(file, bs, codecs, pos) == Ok([])
  {
    var info := PrefixAt(file, bs, pos);
    assert info.buf == Zeros(PREFIX_LEN);
    assert info.buf[..4] == [0, 0, 0, 0];
    assert info.buf[4..8] == [0, 0, 0, 0];
    assert Zeros(0) == [];
  }
}
