/**
 Bytes, fixed-width words and the POSIX file operations both file systems use.
 A file is the sequence of its bytes.
 */
module Bytes {

  type byte = x: int | 0 <= x < 0x100
  type bytes = seq<byte>

  const TWO32: int := 0x1_0000_0000
  type u32 = x: int | 0 <= x < 0x1_0000_0000
  /** An `off_t` that is a file position: 64-bit, signed, not negative. */
  type off64 = x: int | 0 <= x < 0x8000_0000_0000_0000

  datatype Option<+T> = None | Some(value: T)

  function Min(a: int, b: int): int {
    if a <= b then a else b
  }

  function Max(a: int, b: int): int {
    if a >= b then a else b
  }

  // ----- little-endian words -----

  function Le32(n: u32): (b: bytes)
    ensures |b| == 4
  {
    var n1 := n / 0x100;
    var n2 := n1 / 0x100;
    [n % 0x100, n1 % 0x100, n2 % 0x100, n2 / 0x100]
  }

  function FromLe32(b: bytes): u32
    requires |b| >= 4
  {
    b[0] as int + 0x100 * (b[1] as int) + 0x1_0000 * (b[2] as int) + 0x100_0000 * (b[3] as int)
  }

  /** `memcpy` of an 8-byte integer on a little-endian machine, least significant byte first. */
  function Le64(n: off64): (b: bytes)
    ensures |b| == 8
  {
    var n1 := n / 0x100;
    var n2 := n1 / 0x100;
    var n3 := n2 / 0x100;
    var n4 := n3 / 0x100;
    var n5 := n4 / 0x100;
    var n6 := n5 / 0x100;
    [n % 0x100, n1 % 0x100, n2 % 0x100, n3 % 0x100, n4 % 0x100, n5 % 0x100, n6 % 0x100, n6 / 0x100]
  }

  lemma Le32RoundTrip(n: u32, tail: bytes)
    ensures FromLe32(Le32(n) + tail) == n
  {
  }

  lemma Digits(d0: byte, d1: byte, d2: byte, d3: byte)
    ensures Le32(d0 + 0x100 * (d1 as int) + 0x1_0000 * (d2 as int) + 0x100_0000 * (d3 as int)) == [d0, d1, d2, d3]
  {
    var n3 := d3 as int;
    var n2 := d2 + 0x100 * n3;
    var n1 := d1 + 0x100 * n2;
    var n := d0 + 0x100 * n1;
    assert n / 0x100 == n1 && n % 0x100 == d0;
    assert n1 / 0x100 == n2 && n1 % 0x100 == d1;
    assert n2 / 0x100 == n3 && n2 % 0x100 == d2;
  }

  lemma LowWord(n: nat, n1: nat, n2: nat, n3: nat, n4: nat)
    requires n1 == n / 0x100 && n2 == n1 / 0x100 && n3 == n2 / 0x100 && n4 == n3 / 0x100
    ensures n / TWO32 == n4
    ensures n % TWO32 == n % 0x100 + 0x100 * (n1 % 0x100) + 0x1_0000 * (n2 % 0x100) + 0x100_0000 * (n3 % 0x100)
  {
  }

  /** The two 32-bit words the reader unpacks are the low and the high half of the 8-byte offset. */
  lemma Le64IsTwoWords(n: off64)
    ensures 0 <= n / TWO32 < TWO32
    ensures Le64(n) == Le32(n % TWO32) + Le32(n / TWO32)
  {
    var n1 := n / 0x100;
    var n2 := n1 / 0x100;
    var n3 := n2 / 0x100;
    LowWord(n, n1, n2, n3, n3 / 0x100);
    Digits(n % 0x100, n1 % 0x100, n2 % 0x100, n3 % 0x100);
  }

  // ----- files -----

  function Zeros(n: nat): (z: bytes)
    ensures |z| == n
    ensures forall i | 0 <= i < n :: z[i] == 0
  {
    seq(n, i => 0)
  }

  /** The file after `data` was stored at `offset`: a gap past the old end reads as zeros,
      and storing nothing changes nothing. */
  function Overwrite(f: bytes, offset: nat, data: bytes): (g: bytes)
    ensures data == [] ==> g == f
    ensures data != [] ==> |g| == Max(|f|, offset + |data|)
    ensures forall i | 0 <= i < |g| ::
              g[i] == if offset <= i < offset + |data| then data[i - offset] else if i < |f| then f[i] else 0
  {
    if data == [] then f
    else
      seq(Max(|f|, offset + |data|), i requires 0 <= i =>
        if offset <= i < offset + |data| then data[i - offset] else if i < |f| then f[i] else 0)
  }

  /** The file after `truncate`: cut, or extended with zeros. */
  function Resize(f: bytes, n: nat): (g: bytes)
    ensures |g| == n
    ensures forall i | 0 <= i < n :: g[i] == if i < |f| then f[i] else 0
  {
    if n <= |f| then f[..n] else f + Zeros(n - |f|)
  }

  /** `pread`: at most `count` bytes from `offset`, possibly fewer, none only at the end of the file. */
  method PRead(f: bytes, count: nat, offset: nat) returns (got: bytes)
    ensures offset >= |f| || count == 0 ==> got == []
    ensures offset < |f| && count > 0 ==>
              0 < |got| <= count && offset + |got| <= |f| && got == f[offset..offset + |got|]
  {
    if offset >= |f| || count == 0 {
      got := [];
    } else {
      assert 0 < 1 <= count && offset + 1 <= |f|;
      var n: nat :| 0 < n <= count && offset + n <= |f|;
      got := f[offset..offset + n];
    }
  }
}
