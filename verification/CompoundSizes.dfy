/** The size predictors of the builder against the bytes they predict: closed
    formulas over counts on one side, the length of the spelling on the other. */
module CompoundSizes {
  import opened Bytes
  import opened SdesFormat
  import opened CompoundFormat

  /** Packets needed for n entries at 31 to a packet, as the builder counts them. */
  function PacketsNeeded(n: nat): nat {
    if n % PER_PACKET != 0 then n / PER_PACKET + 1 else n / PER_PACKET
  }

  lemma PacketsNeededStep(n: nat)
    requires n > PER_PACKET
    ensures PacketsNeeded(n) == 1 + PacketsNeeded(n - PER_PACKET)
  {
    assert n == (n - PER_PACKET) + 31;
    assert n / 31 == (n - 31) / 31 + 1;
  }

  lemma PacketsNeededSmall(n: nat)
    requires n <= PER_PACKET
    ensures PacketsNeeded(n) == if n == 0 then 0 else 1
  {
  }

  /** A report list takes 24 bytes a block, 8 a packet, and 20 for sender info. */
  lemma {:induction false} ReportPiecesSize(h: ReportHeader, blocks: seq<ReportBlock>)
    requires !h.NoReport?
    ensures |Flatten(ReportPieces(h, blocks))| ==
            24 * |blocks| + (if blocks == [] then 8 else 8 * PacketsNeeded(|blocks|)) +
            (if h.SenderReport? then 20 else 0)
    decreases |blocks|
  {
    hide PacketsNeeded, ReportPiece, HeaderData;
    if |blocks| <= PER_PACKET {
      PacketsNeededSmall(|blocks|);
      FlattenOne(ReportPiece(h, blocks));
    } else {
      var rest := blocks[PER_PACKET..];
      PacketsNeededStep(|blocks|);
      ReportPiecesSize(Continued(h), rest);
      var first := ReportPiece(h, blocks[..PER_PACKET]);
      assert ([first] + ReportPieces(Continued(h), rest))[1..] == ReportPieces(Continued(h), rest);
    }
  }

  lemma {:induction false} SourcesBytesConcat(a: seq<Source>, b: seq<Source>)
    ensures SourcesBytes(a + b) == SourcesBytes(a) + SourcesBytes(b)
  {
    hide SourceBytes, SourcesBytes;
    if a == [] {
      NoSources();
      assert a + b == b;
    } else {
      SourcesBytesConcat(a[1..], b);
      SourcesBytesFront(a[0], a[1..]);
      SourcesBytesFront(a[0], a[1..] + b);
      assert a == [a[0]] + a[1..] && a + b == [a[0]] + (a[1..] + b);
      ConcatAssociative(SourceBytes(a[0]), SourcesBytes(a[1..]), SourcesBytes(b));
    }
  }

  lemma SourcesBytesFront(s: Source, sources: seq<Source>)
    ensures SourcesBytes([s] + sources) == SourceBytes(s) + SourcesBytes(sources)
  {
    hide SourceBytes;
    assert ([s] + sources)[1..] == sources;
  }

  /** SDES packets take their chunks and four bytes a packet. */
  lemma {:induction false} SdesPiecesSize(sources: seq<Source>)
    ensures |Flatten(SdesPieces(sources))| == |SourcesBytes(sources)| + 4 * PacketsNeeded(|sources|)
    decreases |sources|
  {
    hide PacketsNeeded, SdesPiece, SourcesBytes;
    if |sources| <= PER_PACKET {
      PacketsNeededSmall(|sources|);
      if sources == [] {
        NoSources();
      } else {
        FlattenOne(SdesPiece(sources));
      }
    } else {
      var front, rest := sources[..PER_PACKET], sources[PER_PACKET..];
      PacketsNeededStep(|sources|);
      SdesPiecesSize(rest);
      SourcesBytesConcat(front, rest);
      assert front + rest == sources;
      assert ([SdesPiece(front)] + SdesPieces(rest))[1..] == SdesPieces(rest);
    }
  }

  lemma NoSources()
    ensures SourcesBytes([]) == []
  {
  }

  lemma OneSource(s: Source)
    ensures SourcesBytes([s]) == SourceBytes(s)
  {
    assert [s][1..] == [];
    NoSources();
    assert SourceBytes(s) + [] == SourceBytes(s);
  }

  /** The four parts of a compound packet add up. */
  lemma SizeParts(c: Compound)
    ensures Spelling(c) == Flatten(Reports(c)) + Flatten(SdesPieces(c.sources)) +
                           Flatten(AppPieces(c.apps)) + Flatten(ByePieces(c.byes))
    ensures Size(c) == |Flatten(Reports(c))| + |Flatten(SdesPieces(c.sources))| +
                       |Flatten(AppPieces(c.apps))| + |Flatten(ByePieces(c.byes))|
  {
    hide Reports, SdesPieces, AppPieces, ByePieces;
    var r, s, a, b := Reports(c), SdesPieces(c.sources), AppPieces(c.apps), ByePieces(c.byes);
    FlattenConcat(r + s + a, b);
    FlattenConcat(r + s, a);
    FlattenConcat(r, s);
  }

  lemma ItemsBytesNext(items: seq<Item>, j: nat)
    requires j < |items|
    ensures ItemsBytes(items[..j + 1]) == ItemsBytes(items[..j]) + ItemBytes(items[j])
    ensures |ItemsBytes(items[..j])| + |ItemBytes(items[j])| <= |ItemsBytes(items)|
  {
    ItemsSplit(items[..j + 1], j);
    assert items[..j + 1][..j] == items[..j] && items[..j + 1][j..] == [items[j]];
    assert ItemsBytes([items[j]]) == ItemBytes(items[j]) + ItemsBytes([items[j]][1..]);
    ItemsSplit(items, j + 1);
  }

  lemma SourcesBytesNext(sources: seq<Source>, k: nat)
    requires k < |sources|
    ensures SourcesBytes(sources[..k + 1]) == SourcesBytes(sources[..k]) + SourceBytes(sources[k])
    ensures |SourcesBytes(sources[..k])| + |SourceBytes(sources[k])| <= |SourcesBytes(sources)|
  {
    hide SourceBytes, SourcesBytes;
    assert sources[..k + 1] == sources[..k] + [sources[k]];
    SourcesBytesConcat(sources[..k], [sources[k]]);
    OneSource(sources[k]);
    assert sources == sources[..k + 1] + sources[k + 1..];
    SourcesBytesConcat(sources[..k + 1], sources[k + 1..]);
  }
}
