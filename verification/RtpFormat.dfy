/** The layout of an RTP packet (sections 5.1 and 5.3.1 of RFC 3550): spelling its
    fields out in a byte order, and taking bytes apart again. */
module RtpFormat {
  import opened Bytes
  import opened Wrappers
  import opened RtcpHeader

  const MAX_CSRCS := 15
  const FIXED_SIZE := 12
  const EXTENSION_HEADER_SIZE := 4
  const TWO_31 := 0x8000_0000

  datatype Extension = Extension(id: u16, data: seq<byte>)

  datatype Rtp = Rtp(marker: bool, payloadType: nat, sequenceNumber: u16, timestamp: u32, ssrc: u32,
                     csrcs: seq<u32>, extension: Option<Extension>, payload: seq<byte>)

  /** The fields fit the widths the layout gives them. */
  predicate Fits(r: Rtp) {
    && r.payloadType < 128 && |r.csrcs| <= MAX_CSRCS
    && (r.extension.Some? ==> |r.extension.value.data| % 4 == 0 && |r.extension.value.data| / 4 < 0x1_0000)
  }

  /** With the marker bit these payload types would read as RTCP types 200 and 201. */
  predicate LooksLikeRtcp(r: Rtp) {
    r.marker && (r.payloadType == 72 || r.payloadType == 73)
  }

  /** Padding ends with its own length; there may be none. */
  predicate IsPadding(pad: seq<byte>) {
    pad == [] || pad[|pad| - 1] == |pad|
  }

  function Store16(host: HostOrder, x: u16): (r: seq<byte>)
    ensures |r| == 2
  {
    match host
    case BigEndianHost => Big16(x)
    case LittleEndianHost => [x % 0x100, x / 0x100]
  }

  function Store32(host: HostOrder, x: u32): (r: seq<byte>)
    ensures |r| == 4
  {
    match host
    case BigEndianHost => Big32(x)
    case LittleEndianHost => [x % 0x100, x / 0x100 % 0x100, x / 0x1_0000 % 0x100, x / 0x100_0000]
  }

  function FlagByte(r: Rtp, padded: bool): byte
    requires Fits(r)
  {
    128 + (if padded then 32 else 0) + (if r.extension.Some? then 16 else 0) + |r.csrcs|
  }

  function TypeByte(r: Rtp): byte
    requires Fits(r)
  {
    (if r.marker then 128 else 0) + r.payloadType
  }

  function FixedBytes(host: HostOrder, r: Rtp, padded: bool): (b: seq<byte>)
    requires Fits(r)
    ensures |b| == FIXED_SIZE
  {
    [FlagByte(r, padded), TypeByte(r)] + Store16(host, r.sequenceNumber) + Store32(host, r.timestamp) +
    Store32(host, r.ssrc)
  }

  function CsrcBytes(host: HostOrder, csrcs: seq<u32>): (b: seq<byte>)
    ensures |b| == 4 * |csrcs|
  {
    if csrcs == [] then []
    else CsrcBytes(host, csrcs[..|csrcs| - 1]) + Store32(host, csrcs[|csrcs| - 1])
  }

  function ExtensionBytes(host: HostOrder, e: Option<Extension>): seq<byte>
    requires e.Some? ==> |e.value.data| / 4 < 0x1_0000
  {
    if e.None? then []
    else Store16(host, e.value.id) + Store16(host, |e.value.data| / 4) + e.value.data
  }

  /** The packet with these fields, its multi-byte fields in the given byte order. */
  function Spell(host: HostOrder, r: Rtp, pad: seq<byte>): seq<byte>
    requires Fits(r)
  {
    Join(FixedBytes(host, r, pad != []), CsrcBytes(host, r.csrcs), ExtensionBytes(host, r.extension), r.payload, pad)
  }

  function Join(fixed: seq<byte>, csrcs: seq<byte>, extension: seq<byte>, payload: seq<byte>, pad: seq<byte>)
    : seq<byte>
  {
    fixed + csrcs + extension + payload + pad
  }

  // ---- reading ----

  lemma Load16(host: HostOrder, x: u16)
    ensures Read16(host, Store16(host, x)) == x
  {
    ReadBig16(BigEndianHost, x);
  }

  lemma Load32(host: HostOrder, x: u32)
    ensures Read32(host, Store32(host, x)) == x
  {
    ReadBig32(BigEndianHost, x);
  }

  lemma Reload16(host: HostOrder, b: seq<byte>)
    requires |b| == 2
    ensures Store16(host, Read16(host, b)) == b
  {
  }

  lemma Reload32(host: HostOrder, b: seq<byte>)
    requires |b| == 4
    ensures Store32(host, Read32(host, b)) == b
  {
    var x := Read32(host, b);
    WordOfDigits(x);
    match host
    case BigEndianHost =>
      WordInjective(b[0], b[1], b[2], b[3], x / 0x100_0000, x / 0x1_0000 % 0x100, x / 0x100 % 0x100, x % 0x100);
    case LittleEndianHost =>
      WordInjective(b[3], b[2], b[1], b[0], x / 0x100_0000, x / 0x1_0000 % 0x100, x / 0x100 % 0x100, x % 0x100);
  }

  function ReadCsrcs(host: HostOrder, b: seq<byte>): (csrcs: seq<u32>)
    requires |b| % 4 == 0
    ensures |csrcs| == |b| / 4
  {
    if b == [] then [] else ReadCsrcs(host, b[..|b| - 4]) + [Read32(host, b[|b| - 4..])]
  }

  lemma {:induction false} LoadCsrcs(host: HostOrder, csrcs: seq<u32>)
    ensures ReadCsrcs(host, CsrcBytes(host, csrcs)) == csrcs
  {
    hide Read32, Store32;
    if csrcs == [] {
    } else {
      var b := CsrcBytes(host, csrcs);
      LoadCsrcs(host, csrcs[..|csrcs| - 1]);
      Load32(host, csrcs[|csrcs| - 1]);
      assert b[..|b| - 4] == CsrcBytes(host, csrcs[..|csrcs| - 1]);
      assert b[|b| - 4..] == Store32(host, csrcs[|csrcs| - 1]);
    }
  }

  lemma {:induction false} ReloadCsrcs(host: HostOrder, b: seq<byte>)
    requires |b| % 4 == 0
    ensures CsrcBytes(host, ReadCsrcs(host, b)) == b
  {
    hide Read32, Store32;
    if b == [] {
    } else {
      ReloadCsrcs(host, b[..|b| - 4]);
      Reload32(host, b[|b| - 4..]);
      var csrcs := ReadCsrcs(host, b);
      assert csrcs[..|csrcs| - 1] == ReadCsrcs(host, b[..|b| - 4]);
      assert b == b[..|b| - 4] + b[|b| - 4..];
    }
  }

  lemma {:induction false} CsrcAt(host: HostOrder, b: seq<byte>, i: nat)
    requires |b| % 4 == 0 && i < |b| / 4
    ensures ReadCsrcs(host, b)[i] == Read32(host, b[4 * i..4 * i + 4])
  {
    hide Read32;
    var front := b[..|b| - 4];
    assert ReadCsrcs(host, b) == ReadCsrcs(host, front) + [Read32(host, b[|b| - 4..])];
    hide ReadCsrcs;
    if i == |b| / 4 - 1 {
      assert b[4 * i..4 * i + 4] == b[|b| - 4..];
    } else {
      CsrcAt(host, front, i);
      SliceOfSlice(b, 0, |b| - 4, 4 * i, 4 * i + 4);
      assert b[0..|b| - 4] == front;
    }
  }

  // ---- where the parts of a packet are ----

  function CsrcCount(d: seq<byte>): (n: nat)
    requires |d| >= FIXED_SIZE
    ensures n <= MAX_CSRCS
  {
    d[0] % 16
  }

  predicate HasExtension(d: seq<byte>)
    requires |d| >= FIXED_SIZE
  {
    d[0] / 16 % 2 == 1
  }

  function PadCount(d: seq<byte>): nat
    requires |d| >= FIXED_SIZE
  {
    if HasPadding(d) then d[|d| - 1] else 0
  }

  /** The end of the extension, where the payload starts; none when the extension's own
      header does not fit. */
  function PayloadStart(host: HostOrder, d: seq<byte>): Option<nat>
    requires |d| >= FIXED_SIZE
  {
    var at := FIXED_SIZE + 4 * CsrcCount(d);
    if !HasExtension(d) then Some(at)
    else if |d| < at + EXTENSION_HEADER_SIZE then None
    else Some(at + EXTENSION_HEADER_SIZE + 4 * Read16(host, d[at + 2..at + 4]))
  }

  /** The version and the padding bit lie where they lie in an RTCP header. */
  predicate GoodHeader(d: seq<byte>) {
    && |d| >= FIXED_SIZE && Version(d) == RTP_VERSION
    && !(d[1] == 128 + 72 || d[1] == 128 + 73)
    && (HasPadding(d) ==> PadCount(d) > 0)
  }

  /** What is left for the payload lies in the range of a signed 32-bit length. */
  predicate Parses(host: HostOrder, d: seq<byte>) {
    && GoodHeader(d) && PayloadStart(host, d).Some?
    && 0 <= |d| - PadCount(d) - PayloadStart(host, d).value < TWO_31
  }

  /** A header extension is announced, and its own header does not fit in the packet: the
      length of the extension is then read from behind the packet. */
  predicate ReadsOutside(d: seq<byte>) {
    && GoodHeader(d) && HasExtension(d)
    && |d| < FIXED_SIZE + 4 * CsrcCount(d) + EXTENSION_HEADER_SIZE
  }

  /** It happens only in packets of less than 76 bytes, and they are refused. */
  lemma OutsideIsRefused(host: HostOrder, d: seq<byte>)
    requires GoodHeader(d)
    ensures ReadsOutside(d) <==> PayloadStart(host, d).None?
    ensures ReadsOutside(d) ==> |d| < 76 && !Parses(host, d)
  {
  }

  /** A fixed header with the extension bit set and nothing behind it. */
  lemma ShortestOutside()
    ensures var d: seq<byte> := [128 + 16, 0, 0, 0, 0, 0, 0, 0, 0, 0, 0, 0];
            |d| == FIXED_SIZE && ReadsOutside(d)
  {
    var d: seq<byte> := [128 + 16, 0, 0, 0, 0, 0, 0, 0, 0, 0, 0, 0];
    assert d[0] == 144 && d[1] == 0;
  }

  function ExtensionOf(host: HostOrder, d: seq<byte>): Option<Extension>
    requires |d| >= FIXED_SIZE && PayloadStart(host, d).Some? && PayloadStart(host, d).value <= |d|
  {
    var at := FIXED_SIZE + 4 * CsrcCount(d);
    if !HasExtension(d) then None
    else Some(Extension(Read16(host, d[at..at + 2]), d[at + EXTENSION_HEADER_SIZE..PayloadStart(host, d).value]))
  }

  function FieldsOf(host: HostOrder, d: seq<byte>): Rtp
    requires Parses(host, d)
  {
    Rtp(d[1] >= 128, d[1] % 128, Read16(host, d[2..4]), Read32(host, d[4..8]), Read32(host, d[8..12]),
        ReadCsrcs(host, d[FIXED_SIZE..FIXED_SIZE + 4 * CsrcCount(d)]), ExtensionOf(host, d),
        d[PayloadStart(host, d).value..|d| - PadCount(d)])
  }

  function PaddingOf(d: seq<byte>): seq<byte>
    requires |d| >= FIXED_SIZE && PadCount(d) <= |d|
  {
    d[|d| - PadCount(d)..]
  }

  // ---- reading inverts spelling, and spelling inverts reading ----

  lemma FixedReads(host: HostOrder, r: Rtp, padded: bool)
    requires Fits(r)
    ensures var b := FixedBytes(host, r, padded);
            && b[0] / 64 == RTP_VERSION && b[0] % 16 == |r.csrcs|
            && (b[0] / 32 % 2 == 1 <==> padded) && (b[0] / 16 % 2 == 1 <==> r.extension.Some?)
            && (b[1] >= 128 <==> r.marker) && b[1] % 128 == r.payloadType
            && Read16(host, b[2..4]) == r.sequenceNumber && Read32(host, b[4..8]) == r.timestamp
            && Read32(host, b[8..12]) == r.ssrc
  {
    hide Read16, Read32, Store16, Store32;
    var b := FixedBytes(host, r, padded);
    assert b[2..4] == Store16(host, r.sequenceNumber);
    assert b[4..8] == Store32(host, r.timestamp);
    assert b[8..12] == Store32(host, r.ssrc);
    Load16(host, r.sequenceNumber);
    Load32(host, r.timestamp);
    Load32(host, r.ssrc);
  }

  lemma ExtensionReads(host: HostOrder, e: Extension)
    requires |e.data| / 4 < 0x1_0000
    ensures var b := ExtensionBytes(host, Some(e));
            && |b| == 4 + |e.data| && Read16(host, b[..2]) == e.id
            && Read16(host, b[2..4]) == |e.data| / 4 && b[4..] == e.data
  {
    hide Read16, Store16;
    var b := ExtensionBytes(host, Some(e));
    assert b[..2] == Store16(host, e.id) && b[2..4] == Store16(host, |e.data| / 4);
    Load16(host, e.id);
    Load16(host, |e.data| / 4);
  }

  /** The five parts of a packet and where each starts. */
  lemma Parts(a: seq<byte>, b: seq<byte>, c: seq<byte>, p: seq<byte>, q: seq<byte>)
    ensures var d := Join(a, b, c, p, q);
            && |d| == |a| + |b| + |c| + |p| + |q|
            && d[0..|a|] == a && d[|a|..|a| + |b|] == b
            && d[|a| + |b|..|a| + |b| + |c|] == c
            && d[|a| + |b| + |c|..|a| + |b| + |c| + |p|] == p
            && d[|a| + |b| + |c| + |p|..] == q
            && (q != [] ==> d[|d| - 1] == q[|q| - 1])
  {
  }

  lemma HeaderSlices(d: seq<byte>, a: seq<byte>)
    requires |a| == FIXED_SIZE <= |d| && d[0..FIXED_SIZE] == a
    ensures d[0] == a[0] && d[1] == a[1] && d[2..4] == a[2..4] && d[4..8] == a[4..8] && d[8..12] == a[8..12]
  {
    SliceOfSlice(d, 0, FIXED_SIZE, 2, 4);
    SliceOfSlice(d, 0, FIXED_SIZE, 4, 8);
    SliceOfSlice(d, 0, FIXED_SIZE, 8, 12);
    assert d[0] == d[0..FIXED_SIZE][0] && d[1] == d[0..FIXED_SIZE][1];
  }

  lemma HeaderReads(host: HostOrder, d: seq<byte>, r: Rtp, padded: bool)
    requires Fits(r) && |d| >= FIXED_SIZE && d[0..FIXED_SIZE] == FixedBytes(host, r, padded)
    ensures Version(d) == RTP_VERSION && CsrcCount(d) == |r.csrcs|
    ensures HasPadding(d) == padded && HasExtension(d) == r.extension.Some?
    ensures (d[1] >= 128 <==> r.marker) && d[1] % 128 == r.payloadType
    ensures Read16(host, d[2..4]) == r.sequenceNumber && Read32(host, d[4..8]) == r.timestamp
    ensures Read32(host, d[8..12]) == r.ssrc
  {
    HeaderSlices(d, FixedBytes(host, r, padded));
    FixedReads(host, r, padded);
    hide Read16, Read32, FixedBytes;
  }

  lemma ExtensionSlice(host: HostOrder, d: seq<byte>, at: nat, e: Extension)
    requires |e.data| / 4 < 0x1_0000 && at + 4 + |e.data| <= |d|
    requires d[at..at + 4 + |e.data|] == ExtensionBytes(host, Some(e))
    ensures Read16(host, d[at..at + 2]) == e.id && Read16(host, d[at + 2..at + 4]) == |e.data| / 4
    ensures d[at + 4..at + 4 + |e.data|] == e.data
  {
    hide Read16, ExtensionBytes;
    var n := 4 + |e.data|;
    SliceOfSlice(d, at, at + n, 0, 2);
    SliceOfSlice(d, at, at + n, 2, 4);
    SliceOfSlice(d, at, at + n, 4, n);
    ExtensionReads(host, e);
    assert d[at..at + n][0..2] == d[at..at + n][..2] && d[at..at + n][4..n] == d[at..at + n][4..];
  }

  lemma ExtensionFound(host: HostOrder, d: seq<byte>, at: nat, e: Option<Extension>)
    requires |d| >= FIXED_SIZE && at == FIXED_SIZE + 4 * CsrcCount(d) && HasExtension(d) == e.Some?
    requires e.Some? ==> |e.value.data| % 4 == 0 && |e.value.data| / 4 < 0x1_0000
    requires at + |ExtensionBytes(host, e)| <= |d|
    requires d[at..at + |ExtensionBytes(host, e)|] == ExtensionBytes(host, e)
    ensures PayloadStart(host, d) == Some(at + |ExtensionBytes(host, e)|) && ExtensionOf(host, d) == e
  {
    hide CsrcCount, HasExtension, Read16, Store16;
    if e.Some? {
      ExtensionReads(host, e.value);
      ExtensionSlice(host, d, at, e.value);
    }
  }

  lemma SpelledParts(host: HostOrder, r: Rtp, pad: seq<byte>)
    requires Fits(r)
    ensures var d := Spell(host, r, pad);
            var at := FIXED_SIZE + 4 * |r.csrcs|;
            var n := |ExtensionBytes(host, r.extension)|;
            && |d| == at + n + |r.payload| + |pad|
            && d[0..FIXED_SIZE] == FixedBytes(host, r, pad != [])
            && d[FIXED_SIZE..at] == CsrcBytes(host, r.csrcs)
            && d[at..at + n] == ExtensionBytes(host, r.extension)
            && d[at + n..at + n + |r.payload|] == r.payload
            && d[at + n + |r.payload|..] == pad
            && (pad != [] ==> d[|d| - 1] == pad[|pad| - 1])
  {
    hide FixedBytes, CsrcBytes, ExtensionBytes, Join;
    Parts(FixedBytes(host, r, pad != []), CsrcBytes(host, r.csrcs), ExtensionBytes(host, r.extension), r.payload, pad);
  }

  lemma SpelledParses(host: HostOrder, r: Rtp, pad: seq<byte>)
    requires Fits(r) && !LooksLikeRtcp(r) && |r.payload| < TWO_31 && IsPadding(pad)
    ensures var d := Spell(host, r, pad);
            && Parses(host, d) && PadCount(d) == |pad|
            && PayloadStart(host, d).value == |d| - |pad| - |r.payload|
            && ExtensionOf(host, d) == r.extension
  {
    var d := Spell(host, r, pad);
    hide FixedBytes, CsrcBytes, ExtensionBytes, Read16, Read32, Spell, CsrcCount, HasPadding, HasExtension;
    SpelledParts(host, r, pad);
    HeaderReads(host, d, r, pad != []);
    ExtensionFound(host, d, FIXED_SIZE + 4 * |r.csrcs|, r.extension);
    hide PayloadStart, ExtensionOf;
  }

  lemma SpelledFixed(host: HostOrder, r: Rtp, pad: seq<byte>)
    requires Fits(r)
    ensures var d := Spell(host, r, pad);
            && |d| >= FIXED_SIZE && CsrcCount(d) == |r.csrcs|
            && (d[1] >= 128 <==> r.marker) && d[1] % 128 == r.payloadType
            && Read16(host, d[2..4]) == r.sequenceNumber && Read32(host, d[4..8]) == r.timestamp
            && Read32(host, d[8..12]) == r.ssrc
  {
    hide Spell, FixedBytes, CsrcBytes, ExtensionBytes, Read16, Read32, CsrcCount, HasPadding, HasExtension, Fits;
    SpelledParts(host, r, pad);
    HeaderReads(host, Spell(host, r, pad), r, pad != []);
  }

  lemma SpelledCsrcs(host: HostOrder, r: Rtp, pad: seq<byte>)
    requires Fits(r) && CsrcCount(Spell(host, r, pad)) == |r.csrcs|
    ensures var d := Spell(host, r, pad);
            |d| >= FIXED_SIZE + 4 * CsrcCount(d) &&
            ReadCsrcs(host, d[FIXED_SIZE..FIXED_SIZE + 4 * CsrcCount(d)]) == r.csrcs
  {
    hide Spell, FixedBytes, CsrcBytes, ExtensionBytes, ReadCsrcs, CsrcCount, Fits;
    SpelledParts(host, r, pad);
    LoadCsrcs(host, r.csrcs);
  }

  lemma SpelledPayload(host: HostOrder, r: Rtp, pad: seq<byte>)
    requires Fits(r) && !LooksLikeRtcp(r) && |r.payload| < TWO_31 && IsPadding(pad)
    ensures var d := Spell(host, r, pad);
            && Parses(host, d) && PaddingOf(d) == pad
            && d[PayloadStart(host, d).value..|d| - PadCount(d)] == r.payload
  {
    hide Spell, FixedBytes, CsrcBytes, ExtensionBytes, Parses, PayloadStart, PadCount, IsPadding, Fits;
    SpelledParses(host, r, pad);
    SpelledParts(host, r, pad);
  }

  /** Spelled fields read back, whatever the padding. */
  lemma SpelledReads(host: HostOrder, r: Rtp, pad: seq<byte>)
    requires Fits(r) && !LooksLikeRtcp(r) && |r.payload| < TWO_31 && IsPadding(pad)
    ensures var d := Spell(host, r, pad);
            Parses(host, d) && FieldsOf(host, d) == r && PaddingOf(d) == pad
  {
    hide Spell, PayloadStart, ExtensionOf, Parses, PadCount, CsrcCount, ReadCsrcs, Read16, Read32, PaddingOf,
      Fits, IsPadding;
    SpelledParses(host, r, pad);
    SpelledFixed(host, r, pad);
    SpelledCsrcs(host, r, pad);
    SpelledPayload(host, r, pad);
  }

  lemma FixedSpelled(host: HostOrder, d: seq<byte>, r: Rtp)
    requires |d| >= FIXED_SIZE && Fits(r) && Version(d) == RTP_VERSION
    requires CsrcCount(d) == |r.csrcs| && HasExtension(d) == r.extension.Some?
    requires r.marker == (d[1] >= 128) && r.payloadType == d[1] % 128
    requires r.sequenceNumber == Read16(host, d[2..4]) && r.timestamp == Read32(host, d[4..8])
    requires r.ssrc == Read32(host, d[8..12])
    ensures FixedBytes(host, r, HasPadding(d)) == d[0..FIXED_SIZE]
  {
    hide Read16, Read32, Store16, Store32;
    Reload16(host, d[2..4]);
    Reload32(host, d[4..8]);
    Reload32(host, d[8..12]);
    assert FlagByte(r, HasPadding(d)) == d[0];
    assert TypeByte(r) == d[1];
    hide FlagByte, TypeByte;
    FourParts(d[0..FIXED_SIZE], [d[0], d[1]], d[2..4], d[4..8], d[8..12]);
  }

  lemma FourParts(d: seq<byte>, w: seq<byte>, x: seq<byte>, y: seq<byte>, z: seq<byte>)
    requires |d| == FIXED_SIZE && w == d[0..2] && x == d[2..4] && y == d[4..8] && z == d[8..12]
    ensures w + x + y + z == d
  {
  }

  lemma ExtensionSpelled(host: HostOrder, d: seq<byte>)
    requires |d| >= FIXED_SIZE && PayloadStart(host, d).Some? && PayloadStart(host, d).value <= |d|
    ensures var at := FIXED_SIZE + 4 * CsrcCount(d);
            var e := ExtensionOf(host, d);
            && (e.Some? <==> HasExtension(d))
            && (e.Some? ==> |e.value.data| % 4 == 0 && |e.value.data| / 4 < 0x1_0000)
            && at <= PayloadStart(host, d).value && ExtensionBytes(host, e) == d[at..PayloadStart(host, d).value]
  {
    hide Read16, Store16, CsrcCount, HasExtension;
    var at := FIXED_SIZE + 4 * CsrcCount(d);
    if HasExtension(d) {
      Reload16(host, d[at..at + 2]);
      Reload16(host, d[at + 2..at + 4]);
      ThreeParts(d, at, at + 2, at + 4, PayloadStart(host, d).value);
    } else {
      assert d[at..at] == [];
    }
  }

  lemma ThreeParts(d: seq<byte>, a: nat, b: nat, c: nat, e: nat)
    requires a <= b <= c <= e <= |d|
    ensures d[a..b] + d[b..c] + d[c..e] == d[a..e]
  {
  }

  lemma AllParts(d: seq<byte>, a: nat, b: nat, c: nat, e: nat)
    requires a <= b <= c <= e <= |d|
    ensures Join(d[0..a], d[a..b], d[b..c], d[c..e], d[e..]) == d
  {
  }

  lemma ParsedFits(host: HostOrder, d: seq<byte>)
    requires Parses(host, d)
    ensures var r := FieldsOf(host, d);
            && Fits(r) && !LooksLikeRtcp(r) && |r.payload| < TWO_31 && IsPadding(PaddingOf(d))
            && (HasPadding(d) <==> PaddingOf(d) != []) && |r.csrcs| == CsrcCount(d)
  {
    hide Read16, Read32, ReadCsrcs, PayloadStart, ExtensionOf, CsrcCount, HasExtension, HasPadding;
    ExtensionSpelled(host, d);
  }

  /** A packet that parses is spelled by the fields and the padding read from it. */
  lemma ParsedIsSpelled(host: HostOrder, d: seq<byte>)
    requires Parses(host, d)
    ensures var r := FieldsOf(host, d);
            && Fits(r) && !LooksLikeRtcp(r) && |r.payload| < TWO_31 && IsPadding(PaddingOf(d))
            && (HasPadding(d) <==> PaddingOf(d) != []) && Spell(host, r, PaddingOf(d)) == d
  {
    var r := FieldsOf(host, d);
    hide Read16, Read32, ReadCsrcs, CsrcBytes, FixedBytes, ExtensionBytes, PayloadStart, ExtensionOf, Join, CsrcCount,
      HasExtension, HasPadding, Fits, IsPadding, LooksLikeRtcp;
    var at, start := FIXED_SIZE + 4 * CsrcCount(d), PayloadStart(host, d).value;
    ParsedFits(host, d);
    ExtensionSpelled(host, d);
    ReloadCsrcs(host, d[FIXED_SIZE..at]);
    FixedSpelled(host, d, r);
    AllParts(d, FIXED_SIZE, at, start, |d| - PadCount(d));
  }

  /** A packet parses exactly when some fields and padding spell it. */
  lemma {:induction false} ParsesMeansSpelled(host: HostOrder, d: seq<byte>)
    ensures Parses(host, d) <==>
            exists r, pad ::
              && Fits(r) && !LooksLikeRtcp(r) && |r.payload| < TWO_31
              && IsPadding(pad) && Spell(host, r, pad) == d
  {
    hide Parses, FieldsOf, PaddingOf, Spell, Fits, IsPadding, LooksLikeRtcp;
    if Parses(host, d) {
      ParsedIsSpelled(host, d);
    }
    forall r, pad | Fits(r) && !LooksLikeRtcp(r) && |r.payload| < TWO_31 && IsPadding(pad) && Spell(host, r, pad) == d
      ensures Parses(host, d)
    {
      SpelledReads(host, r, pad);
    }
  }

  // ---- network order read in host order ----

  /** Whether every multi-byte field reads the same in both directions. */
  predicate PalindromeRtp(r: Rtp) {
    && Palindrome16(r.sequenceNumber) && Palindrome32(r.timestamp) && Palindrome32(r.ssrc)
    && (forall c :: c in r.csrcs ==> Palindrome32(c))
    && (r.extension.Some? && |r.extension.value.data| / 4 < 0x1_0000 ==>
          Palindrome16(r.extension.value.id) && Palindrome16(|r.extension.value.data| / 4))
  }

  lemma SameStore16(x: u16)
    ensures Store16(LittleEndianHost, x) == Big16(x) <==> Palindrome16(x)
  {
  }

  lemma SameStore32(x: u32)
    ensures Store32(LittleEndianHost, x) == Big32(x) <==> Palindrome32(x)
  {
  }

  lemma {:induction false} SameCsrcs(csrcs: seq<u32>)
    ensures CsrcBytes(LittleEndianHost, csrcs) == CsrcBytes(BigEndianHost, csrcs) <==>
            forall c :: c in csrcs ==> Palindrome32(c)
  {
    if csrcs == [] {
    } else {
      var front, last := csrcs[..|csrcs| - 1], csrcs[|csrcs| - 1];
      SameCsrcs(front);
      SameStore32(last);
      hide Palindrome32, Store32;
      assert csrcs == front + [last];
      SplitEqual(CsrcBytes(LittleEndianHost, front), Store32(LittleEndianHost, last),
                 CsrcBytes(BigEndianHost, front), Store32(BigEndianHost, last));
      assert Store32(BigEndianHost, last) == Big32(last) by {
        StoreBig(last);
      }
    }
  }

  lemma StoreBig(x: u32)
    ensures Store32(BigEndianHost, x) == Big32(x)
  {
  }

  lemma SplitEqual(a: seq<byte>, b: seq<byte>, c: seq<byte>, d: seq<byte>)
    requires |a| == |c|
    ensures a + b == c + d <==> a == c && b == d
  {
    if a + b == c + d {
      assert a == (a + b)[..|a|] && c == (c + d)[..|a|];
      assert b == (a + b)[|a|..] && d == (c + d)[|a|..];
    }
  }

  lemma SameFixed(r: Rtp)
    requires Fits(r)
    ensures FixedBytes(LittleEndianHost, r, false) == FixedBytes(BigEndianHost, r, false) <==>
            Palindrome16(r.sequenceNumber) && Palindrome32(r.timestamp) && Palindrome32(r.ssrc)
  {
    SameStore16(r.sequenceNumber);
    SameStore32(r.timestamp);
    SameStore32(r.ssrc);
    assert Store16(BigEndianHost, r.sequenceNumber) == Big16(r.sequenceNumber);
    StoreBig(r.timestamp);
    StoreBig(r.ssrc);
    hide Store16, Store32, Palindrome16, Palindrome32, FlagByte, TypeByte;
    var first := [FlagByte(r, false), TypeByte(r)];
    var l, b := LittleEndianHost, BigEndianHost;
    SplitEqual(first, Store16(l, r.sequenceNumber), first, Store16(b, r.sequenceNumber));
    SplitEqual(first + Store16(l, r.sequenceNumber), Store32(l, r.timestamp),
               first + Store16(b, r.sequenceNumber), Store32(b, r.timestamp));
    SplitEqual(first + Store16(l, r.sequenceNumber) + Store32(l, r.timestamp), Store32(l, r.ssrc),
               first + Store16(b, r.sequenceNumber) + Store32(b, r.timestamp), Store32(b, r.ssrc));
  }

  lemma SameExtension(e: Extension)
    requires |e.data| / 4 < 0x1_0000
    ensures ExtensionBytes(LittleEndianHost, Some(e)) == ExtensionBytes(BigEndianHost, Some(e)) <==>
            Palindrome16(e.id) && Palindrome16(|e.data| / 4)
  {
    var words := |e.data| / 4;
    SameStore16(e.id);
    SameStore16(words);
    assert Store16(BigEndianHost, e.id) == Big16(e.id) && Store16(BigEndianHost, words) == Big16(words);
    hide Store16, Palindrome16;
    var l, b := LittleEndianHost, BigEndianHost;
    SplitEqual(Store16(l, e.id), Store16(l, words), Store16(b, e.id), Store16(b, words));
    SplitEqual(Store16(l, e.id) + Store16(l, words), e.data, Store16(b, e.id) + Store16(b, words), e.data);
  }

  lemma SameSpelling(r: Rtp)
    requires Fits(r)
    ensures Spell(LittleEndianHost, r, []) == Spell(BigEndianHost, r, []) <==> PalindromeRtp(r)
  {
    SameFixed(r);
    SameCsrcs(r.csrcs);
    if r.extension.Some? {
      SameExtension(r.extension.value);
    }
    var l, b := LittleEndianHost, BigEndianHost;
    assert |ExtensionBytes(l, r.extension)| == |ExtensionBytes(b, r.extension)|;
    hide FixedBytes, CsrcBytes, ExtensionBytes, Palindrome16, Palindrome32;
    SpelledParts(l, r, []);
    SpelledParts(b, r, []);
  }

  /** What a builder writes in network order is read back on a host exactly iff the host
      is big-endian or every multi-byte field is a byte palindrome; and a payload of 2^31
      bytes or more is refused on any host. */
  lemma NetworkRoundTrip(host: HostOrder, r: Rtp)
    requires Fits(r) && !LooksLikeRtcp(r)
    ensures var d := Spell(BigEndianHost, r, []);
            (Parses(host, d) && FieldsOf(host, d) == r) <==>
            (|r.payload| < TWO_31 && (host.BigEndianHost? || PalindromeRtp(r)))
  {
    var d := Spell(BigEndianHost, r, []);
    hide Spell, Parses, FieldsOf, PaddingOf, Fits, PalindromeRtp, LooksLikeRtcp;
    SameSpelling(r);
    if Parses(host, d) && FieldsOf(host, d) == r {
      ParsedIsSpelled(host, d);
      NoPadding(r);
    }
    if |r.payload| < TWO_31 && (host.BigEndianHost? || PalindromeRtp(r)) {
      SpelledReads(host, r, []);
    }
  }

  lemma NoPadding(r: Rtp)
    requires Fits(r)
    ensures |Spell(BigEndianHost, r, [])| >= FIXED_SIZE && !HasPadding(Spell(BigEndianHost, r, []))
  {
    hide Spell, FixedBytes, ExtensionBytes;
    SpelledParts(BigEndianHost, r, []);
    HeaderReads(BigEndianHost, Spell(BigEndianHost, r, []), r, false);
  }
}
