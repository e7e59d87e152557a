/** Splitting a received compound packet into its RTCP packets, with the validity
    checks of section A.2 of RFC 3550. */
module CompoundParser {
  import opened Bytes
  import opened Wrappers
  import opened RtcpHeader
  import opened RtcpPackets

  datatype Status = Ok | InvalidPacket

  // ---- what a compound packet is ----

  /** One packet of a compound: right version, announced length, padding only if it is the last. */
  predicate ValidPiece(host: HostOrder, piece: seq<byte>, last: bool) {
    && |piece| >= HEADER_SIZE
    && Version(piece) == RTP_VERSION
    && AnnouncedLength(host, piece) == |piece|
    && (HasPadding(piece) ==> last)
  }

  predicate ValidPieces(host: HostOrder, pieces: seq<seq<byte>>) {
    forall i :: 0 <= i < |pieces| ==> ValidPiece(host, pieces[i], i == |pieces| - 1)
  }

  predicate StartsWithReport(data: seq<byte>) {
    |data| >= HEADER_SIZE && (data[1] == TYPE_SR || data[1] == TYPE_RR)
  }

  /** The pieces tile the data, each is valid, and the first is an SR or RR. */
  predicate ValidCompound(host: HostOrder, data: seq<byte>, pieces: seq<seq<byte>>) {
    pieces != [] && Flatten(pieces) == data && ValidPieces(host, pieces) && StartsWithReport(pieces[0])
  }

  function PacketsOf(pieces: seq<seq<byte>>): (r: seq<RTCPPacket>)
    requires forall i :: 0 <= i < |pieces| ==> |pieces[i]| >= HEADER_SIZE
    ensures |r| == |pieces|
    ensures forall i :: 0 <= i < |r| ==> r[i] == PacketOf(pieces[i])
  {
    seq(|pieces|, i requires 0 <= i < |pieces| => PacketOf(pieces[i]))
  }

  // ---- the parser as a function ----

  function Split(host: HostOrder, data: seq<byte>): (r: Option<seq<seq<byte>>>)
    ensures r.Some? ==> r.value != [] && |data| >= HEADER_SIZE
  {
    if |data| < HEADER_SIZE || Version(data) != RTP_VERSION then None
    else
      var n := AnnouncedLength(host, data);
      if n > |data| || (HasPadding(data) && n != |data|) then None
      else if n == |data| then Some([data])
      else
        match Split(host, data[n..])
        case None => None
        case Some(rest) => Some([data[..n]] + rest)
  }

  lemma PrefixHeader(host: HostOrder, data: seq<byte>, n: nat)
    requires HEADER_SIZE <= n <= |data|
    ensures Version(data[..n]) == Version(data) && HasPadding(data[..n]) == HasPadding(data)
    ensures AnnouncedLength(host, data[..n]) == AnnouncedLength(host, data)
  {
    assert data[..n][2..4] == data[2..4];
  }

  lemma {:induction false} SplitSound(host: HostOrder, data: seq<byte>)
    ensures var r := Split(host, data);
            r.Some? ==> Flatten(r.value) == data && ValidPieces(host, r.value) &&
                        StartsWithReport(r.value[0]) == StartsWithReport(data)
    decreases |data|
  {
    hide AnnouncedLength, Version, HasPadding;
    var r := Split(host, data);
    if r.Some? {
      var n := AnnouncedLength(host, data);
      if n == |data| {
        FlattenOne(data);
      } else {
        SplitSound(host, data[n..]);
        PrefixHeader(host, data, n);
        var rest := Split(host, data[n..]).value;
        assert ([data[..n]] + rest)[1..] == rest;
        assert data == data[..n] + data[n..];
        forall i | 0 <= i < |r.value|
          ensures ValidPiece(host, r.value[i], i == |r.value| - 1)
        {
          if i > 0 {
            assert ValidPiece(host, rest[i - 1], i - 1 == |rest| - 1);
          }
        }
      }
    }
  }

  lemma {:induction false} SplitComplete(host: HostOrder, pieces: seq<seq<byte>>)
    requires pieces != [] && ValidPieces(host, pieces)
    ensures Split(host, Flatten(pieces)) == Some(pieces)
    decreases |pieces|
  {
    hide AnnouncedLength, Version, HasPadding;
    var data := Flatten(pieces);
    var first := pieces[0];
    var n := |first|;
    assert ValidPiece(host, first, 0 == |pieces| - 1);
    assert data[..n] == first;
    PrefixHeader(host, data, n);
    if |pieces| == 1 {
      FlattenOne(first);
      assert pieces == [first];
    } else {
      var rest := pieces[1..];
      forall i | 0 <= i < |rest|
        ensures ValidPiece(host, rest[i], i == |rest| - 1)
      {
        assert ValidPiece(host, pieces[i + 1], i + 1 == |pieces| - 1);
      }
      assert data[n..] == Flatten(rest);
      SplitComplete(host, rest);
      assert |Flatten(rest)| >= HEADER_SIZE;
      assert [first] + rest == pieces;
    }
  }

  /** A compound packet can be tiled in at most one way, the one the parser finds. */
  lemma ParseMeansTiling(host: HostOrder, data: seq<byte>)
    ensures (Split(host, data).Some? && StartsWithReport(data))
       <==> exists pieces :: ValidCompound(host, data, pieces)
    ensures forall pieces :: ValidCompound(host, data, pieces) ==> Split(host, data) == Some(pieces)
  {
    hide ValidPieces, StartsWithReport;
    forall pieces | ValidCompound(host, data, pieces)
      ensures Split(host, data) == Some(pieces)
    {
      SplitComplete(host, pieces);
    }
    SplitSound(host, data);
    if Split(host, data).Some? && StartsWithReport(data) {
      assert ValidCompound(host, data, Split(host, data).value);
    }
    if exists pieces :: ValidCompound(host, data, pieces) {
      var pieces :| ValidCompound(host, data, pieces);
      assert Split(host, data) == Some(pieces);
    }
  }

  // ---- the class ----

  class RTCPCompoundPacket {
    var error: Status
    var compoundPacket: seq<byte>
    var packetList: seq<RTCPPacket>
    var isRtp: bool

    /** From a raw packet: data that arrived on the RTP port is refused unread. */
    constructor (host: HostOrder, data: seq<byte>, onRtpPort: bool)
      ensures error.Ok? <==> !onRtpPort && exists pieces :: ValidCompound(host, data, pieces)
      ensures error.Ok? ==> compoundPacket == data
      ensures error.Ok? ==>
                forall pieces :: ValidCompound(host, data, pieces) ==> packetList == PacketsOf(pieces)
      ensures error.InvalidPacket? ==> packetList == [] && compoundPacket == []
    {
      compoundPacket, packetList, error, isRtp := [], [], Ok, onRtpPort;
      new;
      if isRtp {
        error := InvalidPacket;
        return;
      }
      error := ParseData(host, data);
      if error.InvalidPacket? {
        return;
      }
      compoundPacket := data;
    }

    /** The do/while loop over the packets.  On success the packets tile the data;
        on failure the packet list is empty again. */
    method ParseData(host: HostOrder, data: seq<byte>) returns (status: Status)
      requires packetList == []
      modifies this`packetList
      ensures status.Ok? <==> exists pieces :: ValidCompound(host, data, pieces)
      ensures status.Ok? ==>
                forall pieces :: ValidCompound(host, data, pieces) ==> packetList == PacketsOf(pieces)
      ensures status.InvalidPacket? ==> packetList == []
    {
      ParseMeansTiling(host, data);
      hide Split, ValidCompound, StartsWithReport, AnnouncedLength, Version, HasPadding;
      if |data| < HEADER_SIZE {
        Unsplittable(host, data);
        return InvalidPacket;
      }
      var first := true;
      var rest, dataLen := data, |data|;
      ghost var done: seq<seq<byte>> := [];
      ProgressBegin(host, data);
      while first || dataLen >= HEADER_SIZE
        invariant dataLen == |rest| && (first ==> rest == data && done == [] && dataLen >= HEADER_SIZE)
        invariant !first ==> StartsWithReport(data) && done != []
        invariant Progress(host, data, done, rest)
        invariant packetList == PacketsOf(done)
        decreases first, dataLen
      {
        if Version(rest) != RTP_VERSION {
          Unsplittable(host, rest);
          packetList := [];
          return InvalidPacket;
        }
        if first {
          first := false;
          if !(rest[1] == TYPE_SR || rest[1] == TYPE_RR) {
            NotAReport(data);
            packetList := [];
            return InvalidPacket;
          }
          IsAReport(data);
        }
        var length := AnnouncedLength(host, rest);
        if length > dataLen {
          Unsplittable(host, rest);
          packetList := [];
          return InvalidPacket;
        }
        if HasPadding(rest) {
          if length != dataLen {
            Unsplittable(host, rest);
            packetList := [];
            return InvalidPacket;
          }
        }
        var p := NewPacket(rest[..length]);
        packetList := packetList + [p];
        SplitStep(host, data, done, rest);
        done := done + [rest[..length]];
        dataLen := dataLen - length;
        rest := rest[length..];
      }
      if dataLen != 0 {
        Unsplittable(host, rest);
        packetList := [];
        return InvalidPacket;
      }
      return Ok;
    }
  }

  /** The dispatch on the packet type. */
  method NewPacket(data: seq<byte>) returns (p: RTCPPacket)
    requires |data| >= HEADER_SIZE
    ensures p == PacketOf(data)
  {
    hide IsSR, IsRR, IsSDES, IsBYE, IsAPP;
    if data[1] == TYPE_SR {
      p := NewSR(data);
    } else if data[1] == TYPE_RR {
      p := NewRR(data);
    } else if data[1] == TYPE_SDES {
      p := NewSDES(data);
    } else if data[1] == TYPE_BYE {
      p := NewBYE(data);
    } else if data[1] == TYPE_APP {
      p := NewAPP(data);
    } else {
      p := UnknownPacket(data);
    }
  }

  /** Where the parse loop stands: the pieces found, and what is left to split. */
  ghost predicate Progress(host: HostOrder, data: seq<byte>, done: seq<seq<byte>>, rest: seq<byte>) {
    && (forall i :: 0 <= i < |done| ==> |done[i]| >= HEADER_SIZE)
    && Split(host, data) ==
         if rest == [] && done != [] then Some(done)
         else match Split(host, rest) case None => None case Some(r) => Some(done + r)
  }

  lemma ProgressBegin(host: HostOrder, data: seq<byte>)
    ensures Progress(host, data, [], data)
  {
    var r := Split(host, data);
    if r.Some? {
      assert [] + r.value == r.value;
    }
  }

  lemma SplitStep(host: HostOrder, data: seq<byte>, done: seq<seq<byte>>, rest: seq<byte>)
    requires Progress(host, data, done, rest)
    requires |rest| >= HEADER_SIZE && Version(rest) == RTP_VERSION
    requires AnnouncedLength(host, rest) <= |rest|
    requires HasPadding(rest) ==> AnnouncedLength(host, rest) == |rest|
    ensures var n := AnnouncedLength(host, rest); Progress(host, data, done + [rest[..n]], rest[n..])
  {
    hide AnnouncedLength, Version, HasPadding;
    var n := AnnouncedLength(host, rest);
    assert n == |rest| ==> rest[..n] == rest;
    var r := Split(host, rest[n..]);
    if n < |rest| && r.Some? {
      assert done + ([rest[..n]] + r.value) == done + [rest[..n]] + r.value;
    }
  }

  lemma Unsplittable(host: HostOrder, rest: seq<byte>)
    requires |rest| < HEADER_SIZE || Version(rest) != RTP_VERSION
          || AnnouncedLength(host, rest) > |rest|
          || (HasPadding(rest) && AnnouncedLength(host, rest) != |rest|)
    ensures Split(host, rest) == None
  {
  }

  lemma NotAReport(data: seq<byte>)
    requires |data| >= HEADER_SIZE && !(data[1] == TYPE_SR || data[1] == TYPE_RR)
    ensures !StartsWithReport(data)
  {
  }

  lemma IsAReport(data: seq<byte>)
    requires |data| >= HEADER_SIZE && (data[1] == TYPE_SR || data[1] == TYPE_RR)
    ensures StartsWithReport(data)
  {
  }
}
