/** Bytes, fixed-width integers, network byte order, and flattening of lists of
    buffers.  Writers always store multi-byte fields most significant byte first
    (Qt's `qToBigEndian`); readers load a field in the byte order of the host and
    pass it through `RTPEndian::qToHost`, which changes nothing on either kind of
    host.  The host order is therefore an explicit parameter of every reader. */
module Bytes {

  type byte = b: int | 0 <= b < 0x100
  type u16 = x: int | 0 <= x < 0x1_0000
  type u32 = x: int | 0 <= x < 0x1_0000_0000
  type i32 = x: int | -0x8000_0000 <= x < 0x8000_0000

  datatype HostOrder = LittleEndianHost | BigEndianHost

  function Big16(x: u16): (r: seq<byte>)
    ensures |r| == 2
  {
    [x / 0x100, x % 0x100]
  }

  function Big32(x: u32): (r: seq<byte>)
    ensures |r| == 4
  {
    [x / 0x100_0000, x / 0x1_0000 % 0x100, x / 0x100 % 0x100, x % 0x100]
  }

  function Read16(host: HostOrder, b: seq<byte>): u16
    requires |b| == 2
  {
    var (b0: int, b1: int) := (b[0], b[1]);
    match host
    case BigEndianHost => b0 * 0x100 + b1
    case LittleEndianHost => b1 * 0x100 + b0
  }

  function Read32(host: HostOrder, b: seq<byte>): u32
    requires |b| == 4
  {
    match host
    case BigEndianHost => Word(b[0], b[1], b[2], b[3])
    case LittleEndianHost => Word(b[3], b[2], b[1], b[0])
  }

  function Word(b3: int, b2: int, b1: int, b0: int): int {
    ((b3 * 0x100 + b2) * 0x100 + b1) * 0x100 + b0
  }

  /** A field whose bytes read the same in both directions. */
  predicate Palindrome16(x: u16) {
    x / 0x100 == x % 0x100
  }

  predicate Palindrome32(x: u32) {
    x / 0x100_0000 == x % 0x100 && x / 0x1_0000 % 0x100 == x / 0x100 % 0x100
  }

  lemma ReadBig16(host: HostOrder, x: u16)
    ensures Read16(host, Big16(x)) == x <==> host.BigEndianHost? || Palindrome16(x)
  {
  }

  lemma WordOfDigits(x: u32)
    ensures Word(x / 0x100_0000, x / 0x1_0000 % 0x100, x / 0x100 % 0x100, x % 0x100) == x
  {
    assert x / 0x100 == x / 0x1_0000 * 0x100 + x / 0x100 % 0x100;
    assert x / 0x1_0000 == x / 0x100_0000 * 0x100 + x / 0x1_0000 % 0x100;
  }

  lemma WordInjective(a3: byte, a2: byte, a1: byte, a0: byte, b3: byte, b2: byte, b1: byte, b0: byte)
    requires Word(a3, a2, a1, a0) == Word(b3, b2, b1, b0)
    ensures a3 == b3 && a2 == b2 && a1 == b1 && a0 == b0
  {
  }

  lemma ReadBig32(host: HostOrder, x: u32)
    ensures Read32(host, Big32(x)) == x <==> host.BigEndianHost? || Palindrome32(x)
  {
    var b0, b1, b2, b3 := x / 0x100_0000, x / 0x1_0000 % 0x100, x / 0x100 % 0x100, x % 0x100;
    WordOfDigits(x);
    if Word(b3, b2, b1, b0) == x {
      WordInjective(b3, b2, b1, b0, b0, b1, b2, b3);
    }
  }

  function Zeros(n: nat): (r: seq<byte>)
    ensures |r| == n
    ensures forall i :: 0 <= i < n ==> r[i] == 0
  {
    seq(n, _ => 0)
  }

  /** The number of bytes that bring n up to the next multiple of four. */
  function PadLength(n: nat): (r: nat)
    ensures r < 4 && (n + r) % 4 == 0
  {
    if n % 4 == 0 then 0 else 4 - n % 4
  }

  // ---- slices ----

  lemma SliceOfSlice<T>(s: seq<T>, a: nat, b: nat, i: nat, j: nat)
    requires a <= b <= |s| && i <= j <= b - a
    ensures s[a..b][i..j] == s[a + i..a + j]
  {
    forall k | 0 <= k < j - i
      ensures s[a..b][i..j][k] == s[a + i..a + j][k]
    {
      assert s[a..b][i..j][k] == s[a..b][i + k];
    }
  }

  lemma ConcatAssociative<T>(x: seq<T>, y: seq<T>, z: seq<T>)
    ensures (x + y) + z == x + (y + z)
  {
  }

  lemma Middle<T>(x: seq<T>, y: seq<T>, z: seq<T>)
    ensures (x + (y + z))[|x|..|x| + |y|] == y
  {
  }

  // ---- buffers ----

  /** memcpy behind what has been written since `start`. */
  method Append(buf: array<byte>, ghost start: nat, at: nat, bytes: seq<byte>, ghost body: seq<byte>)
    requires start <= at && at + |bytes| <= buf.Length
    requires buf[start..at] == body
    modifies buf
    ensures buf[..start] == old(buf[..start])
    ensures buf[start..at + |bytes|] == body + bytes
  {
    for i := 0 to |bytes|
      invariant buf[..at] == old(buf[..at])
      invariant buf[at..at + i] == bytes[..i]
    {
      buf[at + i] := bytes[i];
    }
    assert bytes[..|bytes|] == bytes;
    assert buf[start..at] == buf[..at][start..] == old(buf[..at])[start..];
    assert buf[..start] == buf[..at][..start];
    assert buf[start..at + |bytes|] == buf[start..at] + buf[at..at + |bytes|];
  }

  // ---- lists of buffers ----

  function Flatten<T>(parts: seq<seq<T>>): seq<T> {
    if parts == [] then [] else parts[0] + Flatten(parts[1..])
  }

  lemma FlattenNothing<T>()
    ensures Flatten<T>([]) == []
  {
  }

  lemma FlattenOne<T>(part: seq<T>)
    ensures Flatten([part]) == part
  {
    assert [part][1..] == [];
    assert part + [] == part;
  }

  lemma {:induction false} FlattenConcat<T>(a: seq<seq<T>>, b: seq<seq<T>>)
    ensures Flatten(a + b) == Flatten(a) + Flatten(b)
  {
    if a == [] {
      assert a + b == b;
    } else {
      FlattenConcat(a[1..], b);
      assert (a + b)[1..] == a[1..] + b;
      ConcatAssociative(a[0], Flatten(a[1..]), Flatten(b));
    }
  }

  lemma FlattenSnoc<T>(a: seq<seq<T>>, part: seq<T>)
    ensures Flatten(a + [part]) == Flatten(a) + part
  {
    FlattenConcat(a, [part]);
    FlattenOne(part);
  }
}
