/** Bytes in memory on a little-endian host, and the big-endian readers and writers built on them. */
module Bytes {

  newtype Byte = b: int | 0 <= b < 256

  const TWO_TO_THE_16 := 0x1_0000
  const TWO_TO_THE_48 := 0x1_0000_0000_0000
  const TWO_TO_THE_64 := 0x1_0000_0000_0000_0000

  type U16 = v: int | 0 <= v < TWO_TO_THE_16
  type U64 = v: int | 0 <= v < TWO_TO_THE_64

  function Pow256(n: nat): (p: nat)
    ensures p > 0
  {
    if n == 0 then 1 else 256 * Pow256(n - 1)
  }

  lemma WordSizes()
    ensures Pow256(2) == TWO_TO_THE_16
    ensures Pow256(6) == TWO_TO_THE_48
    ensures Pow256(8) == TWO_TO_THE_64
  {
    assert Pow256(4) == Pow256(2) * 65536;
    assert Pow256(6) == Pow256(4) * 65536;
    assert Pow256(8) == Pow256(6) * 65536;
  }

  function Reverse(bs: seq<Byte>): seq<Byte> {
    seq(|bs|, i requires 0 <= i < |bs| => bs[|bs| - 1 - i])
  }

  // The object representation of an n-byte integer: least significant byte first.
  function StoreLe(v: nat, n: nat): (bs: seq<Byte>)
    ensures |bs| == n
    decreases v, n
  {
    if n == 0 then [] else [(v % 256) as Byte] + StoreLe(v / 256, n - 1)
  }

  function LoadLe(bs: seq<Byte>): (v: nat)
    ensures v < Pow256(|bs|)
  {
    if bs == [] then 0 else bs[0] as int + 256 * LoadLe(bs[1..])
  }

  // std::byteswap: reverse the object representation.
  function ByteSwap(v: nat, n: nat): (w: nat)
    ensures w < Pow256(n)
  {
    LoadLe(Reverse(StoreLe(v, n)))
  }

  // read_at_be: memcpy out of the buffer, then to_be.
  function HostRead(buf: seq<Byte>, offset: nat, n: nat): nat
    requires offset + n <= |buf|
  {
    ByteSwap(LoadLe(buf[offset..offset + n]), n)
  }

  // The bytes write_at_be copies into the buffer: to_be, then memcpy.
  function HostImage(v: nat, n: nat): (bs: seq<Byte>)
    ensures |bs| == n
  {
    StoreLe(ByteSwap(v, n), n)
  }

  // Reference meaning: positional value, most significant byte first.
  function BigEndian(bs: seq<Byte>): nat {
    if bs == [] then 0 else 256 * BigEndian(bs[..|bs| - 1]) + bs[|bs| - 1] as int
  }

  // The n base-256 digits of v, most significant first.
  function BeBytes(v: nat, n: nat): (bs: seq<Byte>)
    ensures |bs| == n
    decreases v, n
  {
    if n == 0 then [] else BeBytes(v / 256, n - 1) + [(v % 256) as Byte]
  }

  lemma LastDigit(rest: nat, b: Byte)
    ensures (b as int + 256 * rest) % 256 == b as int
    ensures (b as int + 256 * rest) / 256 == rest
  {
  }

  lemma {:induction false} StoreOfLoad(bs: seq<Byte>)
    ensures StoreLe(LoadLe(bs), |bs|) == bs
  {
    if bs != [] {
      StoreOfLoad(bs[1..]);
      LastDigit(LoadLe(bs[1..]), bs[0]);
      assert bs == [bs[0]] + bs[1..];
    }
  }

  lemma {:induction false} LoadOfReverse(bs: seq<Byte>)
    ensures LoadLe(Reverse(bs)) == BigEndian(bs)
  {
    if bs != [] {
      var init := bs[..|bs| - 1];
      LoadOfReverse(init);
      assert Reverse(bs)[1..] == Reverse(init);
    }
  }

  // Byteswapping a little-endian load reads the positional big-endian value.
  lemma HostReadIsBigEndian(buf: seq<Byte>, offset: nat, n: nat)
    requires offset + n <= |buf|
    ensures HostRead(buf, offset, n) == BigEndian(buf[offset..offset + n]) < Pow256(n)
  {
    StoreOfLoad(buf[offset..offset + n]);
    LoadOfReverse(buf[offset..offset + n]);
  }

  lemma {:induction false} ReverseOfStore(v: nat, n: nat)
    ensures Reverse(StoreLe(v, n)) == BeBytes(v, n)
    decreases n
  {
    if n > 0 {
      ReverseOfStore(v / 256, n - 1);
      assert Reverse(StoreLe(v, n)) == Reverse(StoreLe(v / 256, n - 1)) + [(v % 256) as Byte];
    }
  }

  // Storing a byteswapped value lays out its big-endian digits.
  lemma HostImageIsBigEndian(v: nat, n: nat)
    ensures HostImage(v, n) == BeBytes(v, n)
  {
    ReverseOfStore(v, n);
    StoreOfLoad(Reverse(StoreLe(v, n)));
  }

  lemma {:induction false} BigEndianBound(bs: seq<Byte>)
    ensures BigEndian(bs) < Pow256(|bs|)
  {
    if bs != [] {
      BigEndianBound(bs[..|bs| - 1]);
    }
  }

  // Every value below 256^n survives being written and read.
  lemma {:induction false} DigitsDenote(v: nat, n: nat)
    requires v < Pow256(n)
    ensures BigEndian(BeBytes(v, n)) == v
    decreases n
  {
    if n > 0 {
      DigitsDenote(v / 256, n - 1);
      assert BeBytes(v, n)[..n - 1] == BeBytes(v / 256, n - 1);
    }
  }

  // And every byte string is the digits of its value.
  lemma {:induction false} DigitsUnique(bs: seq<Byte>)
    ensures BeBytes(BigEndian(bs), |bs|) == bs
  {
    if bs != [] {
      DigitsUnique(bs[..|bs| - 1]);
      LastDigit(BigEndian(bs[..|bs| - 1]), bs[|bs| - 1]);
    }
  }

  function Spliced(buf: seq<Byte>, pos: nat, data: seq<Byte>): (r: seq<Byte>)
    requires pos + |data| <= |buf|
  {
    buf[..pos] + data + buf[pos + |data|..]
  }

  // binary_io::write: copy the bytes in and advance the position past them.
  method Write(buf: array<Byte>, pos: nat, data: seq<Byte>) returns (next: nat)
    requires pos + |data| <= buf.Length
    modifies buf
    ensures buf[..] == Spliced(old(buf[..]), pos, data)
    ensures next == pos + |data|
  {
    forall i | 0 <= i < |data| {
      buf[pos + i] := data[i];
    }
    next := pos + |data|;
  }

  // binary_io::write_at_be; bytes outside the field keep their value.
  method WriteAtBe(buf: array<Byte>, offset: nat, v: nat, n: nat)
    requires offset + n <= buf.Length
    modifies buf
    ensures buf[..] == Spliced(old(buf[..]), offset, BeBytes(v, n))
  {
    HostImageIsBigEndian(v, n);
    var _ := Write(buf, offset, HostImage(v, n));
  }

  // binary_io::read_be
  method ReadBe(buf: seq<Byte>, pos: nat, n: nat) returns (v: nat, next: nat)
    requires pos + n <= |buf|
    ensures v == BigEndian(buf[pos..pos + n]) < Pow256(n)
    ensures next == pos + n
  {
    v, next := HostRead(buf, pos, n), pos + n;
    HostReadIsBigEndian(buf, pos, n);
  }

  // Write a field, then read it back: the same value, whatever surrounds it.
  method WriteThenRead(buf: array<Byte>, offset: nat, v: nat, n: nat) returns (back: nat)
    requires offset + n <= buf.Length && v < Pow256(n)
    modifies buf
    ensures back == v
    ensures buf[..] == Spliced(old(buf[..]), offset, BeBytes(v, n))
  {
    WriteAtBe(buf, offset, v, n);
    assert buf[..][offset..offset + n] == BeBytes(v, n);
    DigitsDenote(v, n);
    var next;
    back, next := ReadBe(buf[..], offset, n);
  }
}
