/** The four-byte header every RTCP packet starts with (section 6.4.1 of RFC 3550):
    two bits of version, the padding bit, a five-bit count, the packet type and a
    16-bit length in words minus one. */
module RtcpHeader {
  import opened Bytes
  import opened Wrappers

  const RTP_VERSION := 2
  const HEADER_SIZE := 4
  const TYPE_SR := 200
  const TYPE_RR := 201
  const TYPE_SDES := 202
  const TYPE_BYE := 203
  const TYPE_APP := 204

  function Version(data: seq<byte>): nat
    requires |data| >= HEADER_SIZE
  {
    data[0] / 64
  }

  predicate HasPadding(data: seq<byte>)
    requires |data| >= HEADER_SIZE
  {
    data[0] / 32 % 2 == 1
  }

  function Count(data: seq<byte>): (c: nat)
    requires |data| >= HEADER_SIZE
    ensures c <= 31
  {
    data[0] % 32
  }

  /** Number of bytes the length word announces, header included. */
  function AnnouncedLength(host: HostOrder, data: seq<byte>): (n: nat)
    requires |data| >= HEADER_SIZE
    ensures n >= HEADER_SIZE && n % 4 == 0
  {
    (Read16(host, data[2..4]) + 1) * 4
  }

  /** Length of a packet without its padding.  There is none when the pad count is
      not a multiple of four or would swallow the whole packet. */
  function ContentLength(data: seq<byte>): (r: Option<nat>)
    requires |data| >= HEADER_SIZE
    ensures r.Some? ==> 0 < r.value <= |data|
  {
    if !HasPadding(data) then Some(|data|)
    else
      var padCount := data[|data| - 1];
      if padCount % 4 != 0 || padCount >= |data| then None
      else Some(|data| - padCount)
  }

  /** The header a builder writes; the length word is cut to 16 bits. */
  function Header(count: nat, packetType: byte, size: nat): (r: seq<byte>)
    requires count <= 31 && size >= HEADER_SIZE
    ensures |r| == HEADER_SIZE
  {
    [128 + count, packetType] + Big16((size / 4 - 1) % 0x1_0000)
  }

  /** Whether the length word written for a packet of this size reads back. */
  predicate LengthReadsBack(host: HostOrder, size: nat)
    requires size >= HEADER_SIZE
  {
    size <= 262144 && (host.BigEndianHost? || Palindrome16(size / 4 - 1))
  }

  lemma HeaderFields(host: HostOrder, count: nat, packetType: byte, size: nat, rest: seq<byte>)
    requires count <= 31 && size >= HEADER_SIZE && size % 4 == 0
    ensures var data := Header(count, packetType, size) + rest;
            && Version(data) == RTP_VERSION && !HasPadding(data)
            && Count(data) == count && data[1] == packetType
            && (AnnouncedLength(host, data) == size <==> LengthReadsBack(host, size))
  {
    var data := Header(count, packetType, size) + rest;
    var words := size / 4 - 1;
    assert data[2..4] == Big16(words % 0x1_0000);
    if size <= 262144 {
      assert words % 0x1_0000 == words;
      ReadBig16(host, words);
    } else {
      assert words >= 0x1_0000;
    }
  }
}
