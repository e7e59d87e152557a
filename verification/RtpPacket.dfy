/** The RTP packet object: building a packet into a buffer, and parsing a received one. */
module RtpPacket {
  import opened Bytes
  import opened Wrappers
  import opened RtpFormat
  import opened RtcpHeader

  datatype Status =
    | Ok | InvalidPacket | TooManyCsrcs | BadPayloadType | DataExceedsMaxSize | ExternalBufferNull | IllegalBufferSize

  /** The arguments of a build request. */
  datatype Request = Request(payloadType: byte, payload: seq<byte>, sequenceNumber: u16, timestamp: u32, ssrc: u32,
                             marker: bool, numCsrcs: byte, csrcs: seq<u32>, extension: bool, extensionId: u16,
                             extensionWords: u16, extensionData: seq<byte>)

  /** The caller's arrays are as long as the counts say. */
  predicate Backed(q: Request) {
    q.numCsrcs <= |q.csrcs| && (q.extension ==> 4 * q.extensionWords <= |q.extensionData|)
  }

  function Size(q: Request): nat {
    FIXED_SIZE + 4 * q.numCsrcs +
    (if q.extension then EXTENSION_HEADER_SIZE + 4 * q.extensionWords else 0) + |q.payload|
  }

  function Wanted(q: Request): Rtp
    requires Backed(q)
  {
    Rtp(q.marker, q.payloadType, q.sequenceNumber, q.timestamp, q.ssrc, q.csrcs[..q.numCsrcs],
        if q.extension then Some(Extension(q.extensionId, q.extensionData[..4 * q.extensionWords])) else None,
        q.payload)
  }

  /** The size as the code counts it, in 32 bits. */
  function WrappedSize(q: Request): u32 {
    Size(q) % 0x1_0000_0000
  }

  /** What a request is answered with. */
  function Answer(q: Request, maxSize: nat): Status {
    if q.numCsrcs > MAX_CSRCS then TooManyCsrcs
    else if q.payloadType > 127 || q.payloadType == 72 || q.payloadType == 73 then BadPayloadType
    else if maxSize > 0 && WrappedSize(q) > maxSize then DataExceedsMaxSize
    else Ok
  }

  /** The bytes of the packet fit the size the code counts unless that has wrapped around. */
  predicate SizeHolds(q: Request) {
    Size(q) < 0x1_0000_0000
  }

  /** An accepted request is longer than the buffer that is made for it iff its size has
      wrapped around; the buffer has then less than 262216 bytes. */
  lemma OutgrowsItsBuffer(q: Request, maxSize: nat)
    requires Backed(q) && |q.payload| < 0x1_0000_0000 && Answer(q, maxSize).Ok?
    ensures Fits(Wanted(q))
    ensures |Spell(BigEndianHost, Wanted(q), [])| > WrappedSize(q) <==> !SizeHolds(q)
    ensures !SizeHolds(q) ==> WrappedSize(q) < 262216
  {
    FitsWanted(q);
    SpellsWanted(q);
    hide Spell;
  }

  /** A request whose fields have a place in a packet that does not look like RTCP is accepted
      exactly if its bytes are within the limit; 0 is no limit. */
  lemma AcceptedMeans(q: Request, maxSize: nat)
    requires Backed(q) && SizeHolds(q)
    ensures Answer(q, maxSize).Ok? <==>
            && Fits(Wanted(q)) && !LooksLikeRtcp(Wanted(q).(marker := true))
            && (maxSize == 0 || |Spell(BigEndianHost, Wanted(q), [])| <= maxSize)
  {
    if Fits(Wanted(q)) {
      SpellsWanted(q);
    }
    hide Spell;
  }

  /** The shortest payload for which that happens. */
  lemma ShortestWrapped(q: Request)
    requires q.numCsrcs == 0 && !q.extension && q.payloadType == 0 && |q.payload| == 0x1_0000_0000 - FIXED_SIZE
    ensures Answer(q, 0).Ok? && WrappedSize(q) == 0
  {
  }

  lemma FitsWanted(q: Request)
    requires Backed(q) && q.numCsrcs <= MAX_CSRCS && q.payloadType < 128
    ensures Fits(Wanted(q))
  {
  }

  /** Conversion to a signed 32-bit integer. */
  function ToInt32(x: int): i32 {
    var w := x % 0x1_0000_0000;
    if w < TWO_31 then w else w - 0x1_0000_0000
  }

  lemma ToInt32Sign(x: int)
    requires -TWO_31 <= x < 0x1_0000_0000
    ensures ToInt32(x) >= 0 <==> 0 <= x < TWO_31
    ensures ToInt32(x) >= 0 ==> ToInt32(x) == x
  {
  }

  /** Where the parts of a packet are. */
  datatype Layout = Layout(marker: bool, payloadType: nat, csrcCount: nat, extension: bool, extWords: nat,
                           payloadOffset: nat, payloadLength: nat)

  ghost predicate IsLayout(host: HostOrder, d: seq<byte>, l: Layout) {
    && |d| >= FIXED_SIZE && l.marker == (d[1] >= 128) && l.payloadType == d[1] % 128 && l.csrcCount == CsrcCount(d)
    && l.extension == HasExtension(d) && PayloadStart(host, d) == Some(l.payloadOffset)
    && (l.extension ==> l.payloadOffset == FIXED_SIZE + 4 * l.csrcCount + EXTENSION_HEADER_SIZE + 4 * l.extWords)
    && l.payloadLength == |d| - PadCount(d) - l.payloadOffset
  }

  /** The bytes that count: the length of a raw packet is cut to 32 bits. */
  function Counted(d: seq<byte>): seq<byte> {
    d[..|d| % 0x1_0000_0000]
  }

  /** The checks on the fixed header; the number of padding bytes. */
  method CheckHeader(data: array<byte>, packetLen: nat) returns (numPadBytes: Option<byte>)
    requires packetLen <= data.Length
    ensures numPadBytes.Some? <==> GoodHeader(data[..packetLen])
    ensures numPadBytes.Some? ==> numPadBytes.value == PadCount(data[..packetLen])
  {
    if packetLen < FIXED_SIZE {
      return None;
    }
    if data[0] / 64 != RTP_VERSION {
      return None;
    }
    var payloadType := data[1] % 128;
    if data[1] / 128 == 1 {
      if payloadType == 200 % 128 {
        return None;
      }
      if payloadType == 201 % 128 {
        return None;
      }
    }
    if data[0] / 32 % 2 == 1 {
      if data[packetLen - 1] <= 0 {
        return None;
      }
      return Some(data[packetLen - 1]);
    }
    return Some(0);
  }

  /** The number of words in the header extension.  `stray` is what lies where the number
      is read when the extension does not fit in the packet; the ghost result says whether
      that happened. */
  method CountWords(host: HostOrder, data: array<byte>, packetLen: nat, at: nat, stray: u16)
    returns (extWords: u16, ghost outside: bool)
    requires packetLen <= data.Length
    ensures outside <==> packetLen < at + EXTENSION_HEADER_SIZE
    ensures extWords == if outside then stray else Read16(host, data[..packetLen][at + 2..at + 4])
  {
    hide Read16;
    outside := packetLen < at + EXTENSION_HEADER_SIZE;
    if at + EXTENSION_HEADER_SIZE <= packetLen {
      assert data[at + 2..at + 4] == data[..packetLen][at + 2..at + 4];
      extWords := Read16(host, data[at + 2..at + 4]);
    } else {
      extWords := stray;
    }
  }

  /** The checks on a packet, and where its parts are. */
  method FindLayout(host: HostOrder, data: array<byte>, stray: u16)
    returns (layout: Option<Layout>, ghost outside: bool)
    ensures layout.Some? <==> Parses(host, Counted(data[..]))
    ensures layout.Some? ==> IsLayout(host, Counted(data[..]), layout.value)
    ensures outside <==> ReadsOutside(Counted(data[..]))
  {
    hide Read16, GoodHeader, PadCount, HasPadding, ToInt32;
    var packetLen := data.Length % 0x1_0000_0000;
    assert Counted(data[..]) == data[..packetLen];
    hide Counted;
    var numPadBytes := CheckHeader(data, packetLen);
    if numPadBytes.None? {
      return None, false;
    }
    GoodIsLong(data[..packetLen]);
    var csrcCount, extension := data[0] % 16, data[0] / 16 % 2 == 1;
    var payloadOffset: nat, extWords: u16 := FIXED_SIZE + csrcCount * 4, 0;
    outside := false;
    if extension {
      extWords, outside := CountWords(host, data, packetLen, payloadOffset, stray);
      payloadOffset := payloadOffset + EXTENSION_HEADER_SIZE + extWords * 4;
    }
    ToInt32Sign(packetLen - numPadBytes.value - payloadOffset);
    var payloadLength := ToInt32(packetLen - numPadBytes.value - payloadOffset);
    if payloadLength < 0 {
      return None, outside;
    }
    layout := Some(Layout(data[1] / 128 == 1, data[1] % 128, csrcCount, extension, extWords,
                          payloadOffset, payloadLength));
  }

  lemma GoodIsLong(d: seq<byte>)
    requires GoodHeader(d)
    ensures |d| >= FIXED_SIZE
  {
  }

  /** The packet with these numbers and these parts of a buffer. */
  function RtpIn(host: HostOrder, d: seq<byte>, marker: bool, payloadType: nat, sequenceNumber: u16, timestamp: u32,
                 ssrc: u32, csrcs: nat, extension: Option<Extension>, payload: nat, payloadLength: nat): Rtp
    requires FIXED_SIZE + 4 * csrcs <= |d| && payload + payloadLength <= |d|
  {
    Rtp(marker, payloadType, sequenceNumber, timestamp, ssrc, ReadCsrcs(host, d[FIXED_SIZE..FIXED_SIZE + 4 * csrcs]),
        extension, d[payload..payload + payloadLength])
  }

  lemma FieldsInParts(host: HostOrder, d: seq<byte>, l: Layout)
    requires Parses(host, d) && IsLayout(host, d, l)
    ensures var at := FIXED_SIZE + 4 * l.csrcCount;
            && at <= l.payloadOffset && l.payloadOffset + l.payloadLength <= |d|
            && (l.extension ==> at + EXTENSION_HEADER_SIZE + 4 * l.extWords <= |d|)
            && FieldsOf(host, d) ==
               RtpIn(host, d, l.marker, l.payloadType,
                     Read16(host, d[2..4]), Read32(host, d[4..8]), Read32(host, d[8..12]), l.csrcCount,
                     if l.extension
                       then Some(Extension(Read16(host, d[at..at + 2]), d[at + 4..at + 4 + 4 * l.extWords]))
                       else None,
                     l.payloadOffset, l.payloadLength)
  {
    PartsFit(host, d);
    hide Read16, Read32, ReadCsrcs, PadCount, CsrcCount, HasExtension, Parses, PayloadStart;
  }

  /** The parts of a valid packet lie within it. */
  lemma PartsFit(host: HostOrder, d: seq<byte>)
    requires Parses(host, d)
    ensures |d| >= FIXED_SIZE && PayloadStart(host, d).Some?
    ensures FIXED_SIZE + 4 * CsrcCount(d) <= PayloadStart(host, d).value <= |d| - PadCount(d)
  {
    hide Read16;
  }

  class RTPPacket {
    var error: Status
    var hasExtension: bool
    var hasMarker: bool
    var externalBuffer: bool
    var numCsrcs: nat
    var payloadType: nat
    var extSeqNr: u32
    var timestamp: u32
    var ssrc: u32
    var packet: array?<byte>
    var packetLength: nat
    var payload: nat
    var payloadLength: nat
    var extId: u16
    var extension: nat
    var extensionLength: nat

    /** The fields, the payload and the extension lie in the packet. */
    ghost predicate Held()
      reads this
    {
      && packet != null && FIXED_SIZE + 4 * numCsrcs <= packetLength <= packet.Length
      && payload + payloadLength <= packetLength && extSeqNr < 0x1_0000
      && (hasExtension ==> extension + extensionLength <= packetLength)
    }

    /** The packet as its accessors show it. */
    ghost function Contents(host: HostOrder): Rtp
      requires Held()
      reads this, packet
    {
      var d := packet[..packetLength];
      RtpIn(host, d, hasMarker, payloadType, extSeqNr, timestamp, ssrc, numCsrcs,
            if hasExtension then Some(Extension(extId, d[extension..extension + extensionLength])) else None,
            payload, payloadLength)
    }

    constructor Parsed(host: HostOrder, isRtp: bool, data: array<byte>, stray: u16)
      ensures error.Ok? || error.InvalidPacket?
      ensures error.Ok? <==> isRtp && Parses(host, Counted(data[..]))
      ensures error.Ok? ==> Held() && packet == data && Contents(host) == FieldsOf(host, Counted(data[..]))
    {
      hide RtpIn, Parses, FieldsOf, Counted;
      new;
      Clear();
      error := ParseRawPacket(host, isRtp, data, stray);
    }

    constructor Built(q: Request, maxSize: nat)
      requires Backed(q) && (Answer(q, maxSize).Ok? ==> SizeHolds(q))
      ensures error == Answer(q, maxSize)
      ensures error.Ok? ==> packet != null && packet[..] == Spell(BigEndianHost, Wanted(q), [])
    {
      new;
      Clear();
      error := BuildPacket(q, null, maxSize);
    }

    constructor BuiltInto(q: Request, buffer: array?<byte>, bufferSize: nat)
      requires Backed(q) && (buffer != null ==> buffer.Length >= bufferSize)
      requires buffer != null && bufferSize != 0 && Answer(q, bufferSize).Ok? ==> SizeHolds(q)
      modifies if buffer == null then {} else {buffer}
      ensures error == if buffer == null then ExternalBufferNull else if bufferSize == 0 then IllegalBufferSize
                       else Answer(q, bufferSize)
      ensures error.Ok? ==> packet == buffer && Size(q) <= buffer.Length
                            && buffer[..Size(q)] == Spell(BigEndianHost, Wanted(q), [])
    {
      new;
      Clear();
      if buffer == null {
        error := ExternalBufferNull;
      } else if bufferSize == 0 {
        error := IllegalBufferSize;
      } else {
        error := BuildPacket(q, buffer, bufferSize);
      }
    }

    method Clear()
      modifies this
      ensures packet == null && packetLength == 0 && error.Ok?
    {
      hasExtension, hasMarker, numCsrcs, payloadType := false, false, 0, 0;
      extSeqNr, timestamp, ssrc := 0, 0, 0;
      packet, payload, packetLength, payloadLength := null, 0, 0, 0;
      extId, extension, extensionLength := 0, 0, 0;
      error, externalBuffer := Ok, false;
    }

    /** What is read from behind the packet never matters. */
    method ParseRawPacket(host: HostOrder, isRtp: bool, data: array<byte>, stray: u16) returns (status: Status)
      modifies this
      ensures status.Ok? || status.InvalidPacket?
      ensures status.Ok? <==> isRtp && Parses(host, Counted(data[..]))
      ensures status.Ok? ==> Held() && packet == data && Contents(host) == FieldsOf(host, Counted(data[..]))
    {
      if !isRtp {
        return InvalidPacket;
      }
      var layout, outside := FindLayout(host, data, stray);
      if layout.None? {
        return InvalidPacket;
      }
      FillIn(host, data, layout.value);
      return Ok;
    }

    /** The fields of a packet that was found valid. */
    method FillIn(host: HostOrder, data: array<byte>, l: Layout)
      requires Parses(host, Counted(data[..])) && IsLayout(host, Counted(data[..]), l)
      modifies this
      ensures Held() && packet == data && Contents(host) == FieldsOf(host, Counted(data[..]))
    {
      hide Read16, Read32, RtpIn, FieldsOf, Parses;
      ghost var d := data[..data.Length % 0x1_0000_0000];
      assert Counted(data[..]) == d;
      FieldsInParts(host, d, l);
      hide IsLayout;
      var id: u16 := 0;
      if l.extension {
        var extHeader := FIXED_SIZE + l.csrcCount * 4;
        assert data[extHeader..extHeader + 2] == d[extHeader..extHeader + 2];
        id := Read16(host, data[extHeader..extHeader + 2]);
      }
      assert data[2..4] == d[2..4] && data[4..8] == d[4..8] && data[8..12] == d[8..12];
      Store(data, l, Read16(host, data[2..4]), Read32(host, data[4..8]), Read32(host, data[8..12]), id);
    }

    ghost predicate Stored(data: array<byte>, l: Layout, sequenceNumber: u16, timestamp: u32, ssrc: u32, id: u16)
      reads this
    {
      && HeaderStored(l, sequenceNumber, timestamp, ssrc) && ExtensionStored(l, id)
      && packet == data && packetLength == data.Length % 0x1_0000_0000
      && payload == l.payloadOffset && payloadLength == l.payloadLength
    }

    ghost predicate HeaderStored(l: Layout, sequenceNumber: u16, timestamp: u32, ssrc: u32)
      reads this`hasMarker, this`numCsrcs, this`payloadType, this`extSeqNr, this`timestamp, this`ssrc
    {
      && hasMarker == l.marker && numCsrcs == l.csrcCount && payloadType == l.payloadType
      && extSeqNr == sequenceNumber && this.timestamp == timestamp && this.ssrc == ssrc
    }

    ghost predicate ExtensionStored(l: Layout, id: u16)
      reads this`hasExtension, this`extId, this`extensionLength, this`extension
    {
      && hasExtension == l.extension
      && (hasExtension ==>
            && extId == id && extensionLength == l.extWords * 4
            && extension == FIXED_SIZE + l.csrcCount * 4 + EXTENSION_HEADER_SIZE)
    }

    method StoreExtension(l: Layout, id: u16)
      modifies this`hasExtension, this`extId, this`extensionLength, this`extension
      ensures ExtensionStored(l, id)
    {
      hasExtension := l.extension;
      if hasExtension {
        extId := id;
        extensionLength := l.extWords * 4;
        extension := FIXED_SIZE + l.csrcCount * 4 + EXTENSION_HEADER_SIZE;
      }
    }

    method StoreHeader(l: Layout, sequenceNumber: u16, timestamp: u32, ssrc: u32)
      modifies this`hasMarker, this`numCsrcs, this`payloadType, this`extSeqNr, this`timestamp, this`ssrc
      ensures HeaderStored(l, sequenceNumber, timestamp, ssrc)
    {
      hasMarker := l.marker;
      numCsrcs := l.csrcCount;
      payloadType := l.payloadType;
      extSeqNr := sequenceNumber;
      this.timestamp := timestamp;
      this.ssrc := ssrc;
    }

    method Store(data: array<byte>, l: Layout, sequenceNumber: u16, timestamp: u32, ssrc: u32, id: u16)
      modifies this
      ensures Stored(data, l, sequenceNumber, timestamp, ssrc, id)
    {
      hide HeaderStored, ExtensionStored;
      StoreExtension(l, id);
      StoreHeader(l, sequenceNumber, timestamp, ssrc);
      packet := data;
      payload := l.payloadOffset;
      packetLength := data.Length % 0x1_0000_0000;
      payloadLength := l.payloadLength;
    }

    /** The contributing source with this number; 0 when there is none. */
    method GetCSRC(host: HostOrder, num: nat) returns (csrc: u32)
      requires Held()
      ensures csrc == if num < numCsrcs then Contents(host).csrcs[num] else 0
    {
      hide Read32, ReadCsrcs;
      if num >= numCsrcs {
        return 0;
      }
      var at := FIXED_SIZE + num * 4;
      csrc := Read32(host, packet[at..at + 4]);
      ghost var d, end := packet[..packetLength], FIXED_SIZE + 4 * numCsrcs;
      CsrcAt(host, d[FIXED_SIZE..end], num);
      SliceOfSlice(d, FIXED_SIZE, end, 4 * num, 4 * num + 4);
      assert d[at..at + 4] == packet[at..at + 4];
    }

    /** Fills in the packet, in a new buffer or in the caller's. */
    method BuildPacket(q: Request, buffer: array?<byte>, maxSize: nat) returns (status: Status)
      requires Backed(q) && (Answer(q, maxSize).Ok? ==> SizeHolds(q))
      requires buffer != null ==> 0 < maxSize <= buffer.Length
      modifies this, if buffer == null then {} else {buffer}
      ensures status == Answer(q, maxSize)
      ensures status.DataExceedsMaxSize? ==> packetLength == 0
      ensures status.Ok? ==>
                && packet != null && packetLength == Size(q) <= packet.Length && Fits(Wanted(q))
                && (if buffer == null then fresh(packet) && packet.Length == packetLength else packet == buffer)
                && packet[..packetLength] == Spell(BigEndianHost, Wanted(q), [])
                && Describes(q) && payload == packetLength - |q.payload|
    {
      if q.numCsrcs > MAX_CSRCS {
        return TooManyCsrcs;
      }
      if q.payloadType > 127 {
        return BadPayloadType;
      }
      if q.payloadType == 72 || q.payloadType == 73 {
        return BadPayloadType;
      }
      packetLength := FIXED_SIZE;
      packetLength := packetLength + 4 * q.numCsrcs;
      if q.extension {
        packetLength := packetLength + EXTENSION_HEADER_SIZE;
        packetLength := packetLength + 4 * q.extensionWords;
      }
      packetLength := (packetLength + |q.payload|) % 0x1_0000_0000;
      if maxSize > 0 && packetLength > maxSize {
        packetLength := 0;
        return DataExceedsMaxSize;
      }
      FitsWanted(q);
      FillBuffer(q, buffer);
      return Ok;
    }

    /** The accepted request goes into the buffer, and what was asked for into the fields. */
    method FillBuffer(q: Request, buffer: array?<byte>)
      requires Backed(q) && Fits(Wanted(q)) && packetLength == Size(q)
      requires buffer != null ==> packetLength <= buffer.Length
      modifies this, if buffer == null then {} else {buffer}
      ensures packet != null && packetLength == old(packetLength) <= packet.Length
      ensures if buffer == null then fresh(packet) && packet.Length == packetLength else packet == buffer
      ensures packet[..packetLength] == Spell(BigEndianHost, Wanted(q), [])
      ensures Describes(q) && payload == packetLength - |q.payload|
    {
      hide Describes, Wanted, Fits, Spell;
      var buf: array<byte>;
      if buffer == null {
        buf := new byte[packetLength];
        externalBuffer := false;
      } else {
        buf := buffer;
        externalBuffer := true;
      }
      packet := buf;
      CopyFields(q);
      payload := Write(buf, q);
    }

    ghost predicate Describes(q: Request)
      reads this`hasMarker, this`hasExtension, this`numCsrcs, this`payloadType, this`extSeqNr, this`timestamp,
        this`ssrc, this`payloadLength, this`extId, this`extensionLength
    {
      && hasMarker == q.marker && hasExtension == q.extension && numCsrcs == q.numCsrcs && payloadType == q.payloadType
      && extSeqNr == q.sequenceNumber && timestamp == q.timestamp && ssrc == q.ssrc && payloadLength == |q.payload|
      && extId == q.extensionId && extensionLength == 4 * q.extensionWords
    }

    method CopyFields(q: Request)
      modifies this`hasMarker, this`hasExtension, this`numCsrcs, this`payloadType, this`extSeqNr, this`timestamp,
        this`ssrc, this`payloadLength, this`extId, this`extensionLength
      ensures Describes(q)
    {
      hasMarker := q.marker;
      hasExtension := q.extension;
      numCsrcs := q.numCsrcs;
      payloadType := q.payloadType;
      extSeqNr := q.sequenceNumber;
      timestamp := q.timestamp;
      ssrc := q.ssrc;
      payloadLength := |q.payload|;
      extId := q.extensionId;
      extensionLength := 4 * q.extensionWords;
    }
  }

  /** The bytes of the packet, part after part; where the payload starts. */
  method Write(buf: array<byte>, q: Request) returns (at: nat)
    requires Backed(q) && Fits(Wanted(q)) && Size(q) <= buf.Length
    modifies buf
    ensures at == Size(q) - |q.payload| && buf[..Size(q)] == Spell(BigEndianHost, Wanted(q), [])
  {
    hide Spell, Start, Header;
    WriteFixed(buf, q);
    at := WriteCsrcs(buf, q);
    at := WriteExtension(buf, q, at);
    Append(buf, 0, at, q.payload, Header(q));
    SpellsWanted(q);
    assert buf[0..at + |q.payload|] == buf[..Size(q)];
  }

  lemma SpellsWanted(q: Request)
    requires Backed(q) && Fits(Wanted(q))
    ensures Spell(BigEndianHost, Wanted(q), []) == Header(q) + q.payload
    ensures |Header(q)| + |q.payload| == Size(q)
  {
    var w := Wanted(q);
    hide FixedBytes, CsrcBytes;
    assert Header(q) + q.payload + [] == Header(q) + q.payload;
  }

  /** Everything before the payload. */
  function Header(q: Request): seq<byte>
    requires Backed(q) && Fits(Wanted(q))
  {
    Start(q, q.numCsrcs) + ExtensionBytes(BigEndianHost, Wanted(q).extension)
  }

  /** The fixed part and the first n contributing sources. */
  function Start(q: Request, n: nat): (b: seq<byte>)
    requires Backed(q) && Fits(Wanted(q)) && n <= q.numCsrcs
    ensures |b| == FIXED_SIZE + 4 * n
  {
    FixedBytes(BigEndianHost, Wanted(q), false) + CsrcBytes(BigEndianHost, q.csrcs[..n])
  }

  method WriteFixed(buf: array<byte>, q: Request)
    requires Backed(q) && Fits(Wanted(q)) && buf.Length >= FIXED_SIZE
    modifies buf
    ensures buf[0..FIXED_SIZE] == Start(q, 0)
  {
    hide Big16, Big32;
    buf[0] := 128 + (if q.extension then 16 else 0) + q.numCsrcs;
    buf[1] := (if q.marker then 128 else 0) + q.payloadType % 128;
    ghost var first := [FlagByte(Wanted(q), false), TypeByte(Wanted(q))];
    assert buf[0..2] == first;
    hide FlagByte, TypeByte;
    Append(buf, 0, 2, Big16(q.sequenceNumber), first);
    Append(buf, 0, 4, Big32(q.timestamp), first + Big16(q.sequenceNumber));
    Append(buf, 0, 8, Big32(q.ssrc), first + Big16(q.sequenceNumber) + Big32(q.timestamp));
    assert q.csrcs[..0] == [];
    assert Start(q, 0) == FixedBytes(BigEndianHost, Wanted(q), false);
  }

  method WriteCsrcs(buf: array<byte>, q: Request) returns (at: nat)
    requires Backed(q) && Fits(Wanted(q)) && buf.Length >= FIXED_SIZE + 4 * q.numCsrcs
    requires buf[0..FIXED_SIZE] == Start(q, 0)
    modifies buf
    ensures at == FIXED_SIZE + 4 * q.numCsrcs && buf[0..at] == Start(q, q.numCsrcs)
  {
    hide Start, Big32, Wanted;
    at := FIXED_SIZE;
    for i := 0 to q.numCsrcs
      invariant at == FIXED_SIZE + 4 * i && buf[0..at] == Start(q, i)
    {
      Append(buf, 0, at, Big32(q.csrcs[i]), Start(q, i));
      StartGrows(q, i);
      at := at + 4;
    }
  }

  lemma StartGrows(q: Request, i: nat)
    requires Backed(q) && Fits(Wanted(q)) && i < q.numCsrcs
    ensures Start(q, i + 1) == Start(q, i) + Big32(q.csrcs[i])
  {
    var longer := q.csrcs[..i + 1];
    assert longer[..|longer| - 1] == q.csrcs[..i];
    StoreBig(q.csrcs[i]);
    hide FixedBytes, Big32, Store32;
    assert CsrcBytes(BigEndianHost, longer)
        == CsrcBytes(BigEndianHost, q.csrcs[..i]) + Store32(BigEndianHost, q.csrcs[i]);
  }

  method WriteExtension(buf: array<byte>, q: Request, start: nat) returns (at: nat)
    requires Backed(q) && Fits(Wanted(q)) && Size(q) <= buf.Length
    requires start == FIXED_SIZE + 4 * q.numCsrcs && buf[0..start] == Start(q, q.numCsrcs)
    modifies buf
    ensures at == Size(q) - |q.payload| && buf[0..at] == Header(q)
  {
    hide Start, Big16;
    at := start;
    if q.extension {
      ghost var body, e := Start(q, q.numCsrcs), Wanted(q).extension.value;
      Append(buf, 0, at, Big16(q.extensionId), body);
      Append(buf, 0, at + 2, Big16(q.extensionWords), body + Big16(q.extensionId));
      at := at + EXTENSION_HEADER_SIZE;
      Append(buf, 0, at, q.extensionData[..4 * q.extensionWords],
                            body + Big16(q.extensionId) + Big16(q.extensionWords));
      at := at + 4 * q.extensionWords;
      assert |e.data| / 4 == q.extensionWords;
      assert body + (Big16(q.extensionId) + Big16(q.extensionWords) + e.data)
          == body + Big16(q.extensionId) + Big16(q.extensionWords) + e.data;
    } else {
      assert Header(q) == Start(q, q.numCsrcs) + [] == Start(q, q.numCsrcs);
    }
  }

  /** The fields of the packet are those of the request. */
  predicate Carries(r: Rtp, q: Request)
    requires Backed(q)
  {
    && r.marker == q.marker && r.payloadType == q.payloadType && r.sequenceNumber == q.sequenceNumber
    && r.timestamp == q.timestamp && r.ssrc == q.ssrc && r.csrcs == q.csrcs[..q.numCsrcs]
    && r.extension.Some? == q.extension
    && (q.extension ==>
          && r.extension.value.id == q.extensionId
          && r.extension.value.data == q.extensionData[..4 * q.extensionWords])
    && r.payload == q.payload
  }

  lemma CarriesWanted(r: Rtp, q: Request)
    requires Backed(q)
    ensures Carries(r, q) <==> r == Wanted(q)
  {
  }

  /** Every accepted request yields bytes that parse back to the same fields iff the
      payload is shorter than 2^31 bytes and the host reads network order, or every
      multi-byte field is a byte palindrome. */
  lemma BuiltIsParsed(host: HostOrder, q: Request, maxSize: nat)
    requires Backed(q) && Answer(q, maxSize).Ok?
    ensures Fits(Wanted(q))
    ensures var d := Spell(BigEndianHost, Wanted(q), []);
            (Parses(host, d) && Carries(FieldsOf(host, d), q)) <==>
            (|q.payload| < TWO_31 && (host.BigEndianHost? || PalindromeRtp(Wanted(q))))
  {
    hide Spell, Parses, FieldsOf, PalindromeRtp, Carries;
    var d := Spell(BigEndianHost, Wanted(q), []);
    NetworkRoundTrip(host, Wanted(q));
    if Parses(host, d) {
      CarriesWanted(FieldsOf(host, d), q);
    }
  }
}
