/** The fuzz tests' deterministic helpers: the key encoder that turns a uint32 and a size
    byte into a 0..4-byte key, and the normalisation of a begin/end pair into a strictly
    increasing one before range bounds are built from it. */
module FuzzInputs {
  import opened Bytes

  newtype uint32 = x: int | 0 <= x < 0x1_0000_0000

  /** maxFuzzKeyLength */
  const MaxFuzzKeyLength := 4

  /** 256^n, for the byte counts a uint32 can have. */
  function Pow256(n: nat): (r: nat)
    ensures r > 0
  {
    if n == 0 then 1 else 256 * Pow256(n - 1)
  }

  /** The number of key bytes the fuzz tests derive from a size byte, as its comment tabulates:
      0x00 gives 0, 0x01-0x03 give 1, 0x04-0x0F give 2, 0x10-0x3F give 3, 0x40-0xFF give 4. */
  function KeySize(size: bv8): (n: nat)
    ensures n <= MaxFuzzKeyLength
  {
    if size >= 0x40 then 4
    else if size >= 0x10 then 3
    else if size >= 0x04 then 2
    else if size >= 0x01 then 1
    else 0
  }

  /** Go's binary.BigEndian.AppendUint32(nil, key): most significant byte first. */
  function BigEndianUint32(key: uint32): (r: seq<byte>)
    ensures |r| == 4
  {
    [ ((key as int / 0x100_0000) % 0x100) as byte,
      ((key as int / 0x1_0000) % 0x100) as byte,
      ((key as int / 0x100) % 0x100) as byte,
      (key as int % 0x100) as byte ]
  }

  /** The number a byte string denotes when read most significant byte first. */
  function BigEndianValue(s: seq<byte>): nat
  {
    if s == [] then 0 else BigEndianValue(s[..|s| - 1]) * 0x100 + s[|s| - 1] as int
  }

  /** Big-endian values of the suffixes of a four-byte string. */
  lemma SuffixValues(b: seq<byte>)
    requires |b| == 4
    ensures BigEndianValue(b[4..]) == 0
    ensures BigEndianValue(b[3..]) == b[3] as int
    ensures BigEndianValue(b[2..]) == b[2] as int * 0x100 + b[3] as int
    ensures BigEndianValue(b[1..]) == b[1] as int * 0x1_0000 + b[2] as int * 0x100 + b[3] as int
    ensures BigEndianValue(b[0..]) == b[0] as int * 0x100_0000 + b[1] as int * 0x1_0000 + b[2] as int * 0x100 + b[3] as int
  {
    var x0, x1, x2, x3 := b[0] as int, b[1] as int, b[2] as int, b[3] as int;
    assert b[4..] == [] && b[3..][..0] == [];
    assert BigEndianValue(b[3..]) == x3;
    assert BigEndianValue([b[2]]) == x2 by { assert [b[2]][..0] == []; }
    assert b[2..][..1] == [b[2]];
    assert BigEndianValue([b[1], b[2]]) == x1 * 0x100 + x2 by {
      assert [b[1], b[2]][..1] == [b[1]] && [b[1]][..0] == [];
    }
    assert b[1..][..2] == [b[1], b[2]];
    assert BigEndianValue([b[0], b[1], b[2]]) == (x0 * 0x100 + x1) * 0x100 + x2 by {
      assert [b[0], b[1], b[2]][..2] == [b[0], b[1]];
      assert BigEndianValue([b[0], b[1]]) == x0 * 0x100 + x1 by {
        assert [b[0], b[1]][..1] == [b[0]] && [b[0]][..0] == [];
      }
    }
    assert b[0..][..3] == [b[0], b[1], b[2]];
  }

  /** The bytes of the big-endian encoding are the base-256 digits of key. */
  lemma EncodingDigits(key: uint32)
    ensures BigEndianUint32(key)[3] as int == key as int % 0x100
    ensures BigEndianUint32(key)[2] as int == (key as int / 0x100) % 0x100
    ensures BigEndianUint32(key)[1] as int == (key as int / 0x1_0000) % 0x100
    ensures BigEndianUint32(key)[0] as int == (key as int / 0x100_0000) % 0x100
  {
  }

  /** The remainders of k modulo 256^n as sums of its base-256 digits. */
  lemma DigitSums(k: int, d0: int, d1: int, d2: int, d3: int)
    requires 0 <= k < 0x1_0000_0000
    requires d0 == k % 0x100 && d1 == (k / 0x100) % 0x100
    requires d2 == (k / 0x1_0000) % 0x100 && d3 == (k / 0x100_0000) % 0x100
    ensures k % 0x1_0000 == d1 * 0x100 + d0
    ensures k % 0x100_0000 == d2 * 0x1_0000 + d1 * 0x100 + d0
    ensures k == d3 * 0x100_0000 + d2 * 0x1_0000 + d1 * 0x100 + d0
  {
    assert k % 0x1_0000 == d1 * 0x100 + d0;
    assert k % 0x100_0000 == d2 * 0x1_0000 + k % 0x1_0000;
    assert k == d3 * 0x100_0000 + k % 0x100_0000;
  }

  /** The suffixes of the big-endian encoding of key denote key modulo 1, 256, 256^2, 256^3
      and 256^4. */
  lemma EncodingSuffixValues(key: uint32)
    ensures BigEndianValue(BigEndianUint32(key)[4..]) == 0
    ensures BigEndianValue(BigEndianUint32(key)[3..]) == key as int % 0x100
    ensures BigEndianValue(BigEndianUint32(key)[2..]) == key as int % 0x1_0000
    ensures BigEndianValue(BigEndianUint32(key)[1..]) == key as int % 0x100_0000
    ensures BigEndianValue(BigEndianUint32(key)[0..]) == key as int
  {
    var k := key as int;
    var b := BigEndianUint32(key);
    assert BigEndianValue(b[4..]) == 0 by { SuffixValues(b); }
    assert BigEndianValue(b[3..]) == k % 0x100 by {
      EncodingDigits(key);
      SuffixValues(b);
    }
    assert BigEndianValue(b[2..]) == k % 0x1_0000 by {
      EncodingDigits(key);
      SuffixValues(b);
      DigitSums(k, b[3] as int, b[2] as int, b[1] as int, b[0] as int);
    }
    assert BigEndianValue(b[1..]) == k % 0x100_0000 by {
      EncodingDigits(key);
      SuffixValues(b);
      DigitSums(k, b[3] as int, b[2] as int, b[1] as int, b[0] as int);
    }
    assert BigEndianValue(b[0..]) == k by {
      EncodingDigits(key);
      SuffixValues(b);
      DigitSums(k, b[3] as int, b[2] as int, b[1] as int, b[0] as int);
    }
  }

  /** The last n bytes of the big-endian encoding of key, read back, are key mod 256^n;
      with n == 4 that is key itself. */
  lemma KeySuffixValue(key: uint32, n: nat)
    requires n <= 4
    ensures BigEndianValue(BigEndianUint32(key)[4 - n..]) == key as int % Pow256(n)
  {
    EncodingSuffixValues(key);
    Powers();
    if n == 4 {
      assert Pow256(n) == 0x1_0000_0000;
    }
  }

  lemma Powers()
    ensures Pow256(0) == 1 && Pow256(1) == 0x100 && Pow256(2) == 0x1_0000
    ensures Pow256(3) == 0x100_0000 && Pow256(4) == 0x1_0000_0000
  {
  }

  /** One step of the size loop: a set two-bit group at keySize means KeySize reaches keySize;
      a clear one lowers the bound by one. */
  lemma MaskStep(size: bv8, keySize: int)
    requires 1 <= keySize <= 4
    ensures size & (0x03 << (2 * (keySize - 1))) != 0 ==> keySize <= KeySize(size)
    ensures size & (0x03 << (2 * (keySize - 1))) == 0 && KeySize(size) <= keySize ==> KeySize(size) < keySize
  {
    if keySize == 1 {} else if keySize == 2 {} else if keySize == 3 {} else {}
  }

  /** keyForFuzzInputs: the key is the low-order KeySize(size) bytes of key, big-endian; the
      loop counts keySize down from 4 and stops at the highest two-bit group of size that is set. */
  method KeyForFuzzInputs(key: uint32, size: bv8) returns (r: seq<byte>)
    ensures |r| == KeySize(size) && |r| <= MaxFuzzKeyLength
    ensures r == BigEndianUint32(key)[4 - |r|..]
    ensures BigEndianValue(r) == key as int % Pow256(|r|)
    ensures |r| == 4 ==> r == BigEndianUint32(key)
  {
    var keySize := 4;
    while keySize > 0
      invariant 0 <= keySize <= 4
      invariant KeySize(size) <= keySize
    {
      MaskStep(size, keySize);
      if size & (0x03 << (2 * (keySize - 1))) != 0 {
        break;
      }
      keySize := keySize - 1;
    }
    var keyBytes := BigEndianUint32(key);
    r := keyBytes[4 - keySize..];
    assert |r| == keySize;
    assert BigEndianValue(r) == key as int % Pow256(|r|) by {
      KeySuffixValue(key, keySize);
    }
  }

  /** FuzzRange's normalisation of a begin/end pair: equal keys get a 0x00 appended to end,
      inverted keys are swapped, so that begin ends up strictly below end. */
  method NormalizeRange(begin0: seq<byte>, end0: seq<byte>) returns (begin: seq<byte>, end: seq<byte>)
    ensures Less(begin, end)
    ensures Compare(begin0, end0) < 0 ==> begin == begin0 && end == end0
    ensures Compare(begin0, end0) == 0 ==> begin == begin0 && end == end0 + [0]
    ensures Compare(begin0, end0) > 0 ==> begin == end0 && end == begin0
    ensures {begin, end} == {begin0, end0} || (begin0 == end0 && begin == begin0 && end == end0 + [0])
  {
    begin, end := begin0, end0;
    var cmp := Compare(begin, end);
    if cmp == 0 {
      end := end + [0];
      PadIsSuccessor(begin, end);
    } else if cmp > 0 {
      CompareAntisymmetric(begin, end);
      begin, end := end, begin;
    }
  }

  /** The padded end of an equal pair is the least key strictly above begin, so the
      normalised range excludes no key that a larger end would admit below it. */
  lemma PaddedEndIsLeast(begin: seq<byte>, x: seq<byte>)
    ensures Less(begin, begin + [0])
    ensures Less(begin, x) ==> x == begin + [0] || Less(begin + [0], x)
  {
    PadIsSuccessor(begin, x);
    CompareAntisymmetric(x, begin + [0]);
  }
}
