/** The 48-bit nanosecond timestamp every TotalView-ITCH message carries at offset 5. */
module Timestamp {
  import opened Bytes

  const TIMESTAMP_OFFSET := 5
  const TIMESTAMP_SIZE := 6

  // Copy six bytes into the low addresses of a zeroed 64-bit integer, byteswap, shift right by 16.
  function Extract(bytes: seq<Byte>): nat
    requires |bytes| >= TIMESTAMP_OFFSET + TIMESTAMP_SIZE
  {
    ByteSwap(LoadLe(bytes[TIMESTAMP_OFFSET..TIMESTAMP_OFFSET + TIMESTAMP_SIZE] + [0, 0]), 8) / TWO_TO_THE_16
  }

  // Reference meaning: the n bytes at `at`, most significant first.
  function Value(bytes: seq<Byte>, at: nat, n: nat): nat
    requires at + n <= |bytes|
    decreases at, n
  {
    if n == 0 then 0 else 256 * Value(bytes, at, n - 1) + bytes[at + n - 1] as int
  }

  lemma {:induction false} ValueIsBigEndian(bytes: seq<Byte>, at: nat, n: nat)
    requires at + n <= |bytes|
    ensures Value(bytes, at, n) == BigEndian(bytes[at..at + n])
    decreases n
  {
    if n > 0 {
      ValueIsBigEndian(bytes, at, n - 1);
      assert bytes[at..at + n][..n - 1] == bytes[at..at + (n - 1)];
    }
  }

  // Equal bytes, equal value, wherever they lie.
  lemma SameValue(a: seq<Byte>, i: nat, b: seq<Byte>, j: nat, n: nat)
    requires i + n <= |a| && j + n <= |b| && a[i..i + n] == b[j..j + n]
    ensures Value(a, i, n) == Value(b, j, n)
  {
    ValueIsBigEndian(a, i, n);
    ValueIsBigEndian(b, j, n);
  }

  // Two zero bytes behind six multiply their value by 2^16, which the shift undoes.
  lemma ZeroesShift(field: seq<Byte>)
    ensures BigEndian(field + [0, 0]) == TWO_TO_THE_16 * BigEndian(field)
  {
    assert (field + [0, 0])[..|field| + 1] == field + [0];
    assert (field + [0])[..|field|] == field;
    assert BigEndian(field + [0]) == 256 * BigEndian(field);
  }

  lemma ExtractIsBigEndian(bytes: seq<Byte>)
    requires |bytes| >= TIMESTAMP_OFFSET + TIMESTAMP_SIZE
    ensures Extract(bytes) == BigEndian(bytes[TIMESTAMP_OFFSET..TIMESTAMP_OFFSET + TIMESTAMP_SIZE])
    ensures Extract(bytes) == Value(bytes, TIMESTAMP_OFFSET, TIMESTAMP_SIZE) < TWO_TO_THE_48
  {
    var field := bytes[TIMESTAMP_OFFSET..TIMESTAMP_OFFSET + TIMESTAMP_SIZE];
    StoreOfLoad(field + [0, 0]);
    LoadOfReverse(field + [0, 0]);
    ZeroesShift(field);
    ValueIsBigEndian(bytes, TIMESTAMP_OFFSET, TIMESTAMP_SIZE);
    WordSizes();
    BigEndianBound(field);
  }
}
