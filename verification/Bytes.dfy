/** Optional values, standing for Python's `None`. */
module Wrappers {
  datatype Option<+T> = None | Some(value: T) {
    function Or(default: T): T {
      match this
      case None => default
      case Some(v) => v
    }
  }
}

/** Byte strings and the fixed-width integer layouts both servers use. */
module Bytes {
  type Byte = n: int | 0 <= n < 0x100
  type U16 = n: int | 0 <= n < 0x1_0000
  type U32 = n: int | 0 <= n < 0x1_0000_0000

  function PackU16Le(n: U16): seq<Byte> {
    [n % 0x100, n / 0x100]
  }

  function UnpackU16Le(b: seq<Byte>, at: nat): U16
    requires at + 2 <= |b|
  {
    b[at] as int + 0x100 * (b[at + 1] as int)
  }

  function PackU32Le(n: U32): seq<Byte> {
    PackU16Le(n % 0x1_0000) + PackU16Le(n / 0x1_0000)
  }

  function UnpackU32Le(b: seq<Byte>, at: nat): U32
    requires at + 4 <= |b|
  {
    UnpackU16Le(b, at) as int + 0x1_0000 * (UnpackU16Le(b, at + 2) as int)
  }

  function PackU16Be(n: U16): seq<Byte> {
    [n / 0x100, n % 0x100]
  }

  function UnpackU16Be(b: seq<Byte>, at: nat): U16
    requires at + 2 <= |b|
  {
    0x100 * (b[at] as int) + b[at + 1] as int
  }

  function PackU32Be(n: U32): seq<Byte> {
    PackU16Be(n / 0x1_0000) + PackU16Be(n % 0x1_0000)
  }

  function UnpackU32Be(b: seq<Byte>, at: nat): U32
    requires at + 4 <= |b|
  {
    0x1_0000 * (UnpackU16Be(b, at) as int) + UnpackU16Be(b, at + 2) as int
  }

  /** The octets of a 32-bit value, lowest first. */
  lemma OctetsU32Le(n: U32)
    ensures PackU32Le(n) == [n % 0x100, n / 0x100 % 0x100, n / 0x1_0000 % 0x100, n / 0x100_0000]
  {
    var high, low := n / 0x1_0000, n % 0x1_0000;
    var b0, b1, b2, b3 := low % 0x100, low / 0x100, high % 0x100, high / 0x100;
    assert n == b0 + 0x100 * b1 + 0x1_0000 * b2 + 0x100_0000 * b3;
    SumOctets(n, b0, b1, b2, b3);
  }

  /** The octets of a 32-bit value, highest first. */
  lemma OctetsU32Be(n: U32)
    ensures PackU32Be(n) == [n / 0x100_0000, n / 0x1_0000 % 0x100, n / 0x100 % 0x100, n % 0x100]
  {
    var high, low := n / 0x1_0000, n % 0x1_0000;
    var b0, b1, b2, b3 := low % 0x100, low / 0x100, high % 0x100, high / 0x100;
    assert n == b0 + 0x100 * b1 + 0x1_0000 * b2 + 0x100_0000 * b3;
    SumOctets(n, b0, b1, b2, b3);
  }

  lemma SumOctets(n: int, b0: int, b1: int, b2: int, b3: int)
    requires 0 <= b0 < 0x100 && 0 <= b1 < 0x100 && 0 <= b2 < 0x100 && 0 <= b3 < 0x100
    requires n == b0 + 0x100 * b1 + 0x1_0000 * b2 + 0x100_0000 * b3
    ensures b0 == n % 0x100 && b1 == n / 0x100 % 0x100 && b2 == n / 0x1_0000 % 0x100 && b3 == n / 0x100_0000
  {
    assert n / 0x100 == b1 + 0x100 * b2 + 0x1_0000 * b3;
    assert n / 0x1_0000 == b2 + 0x100 * b3;
  }

  /** Packing what was unpacked gives the same bytes. */
  lemma PackOfUnpackU16Le(b: seq<Byte>, at: nat)
    requires at + 2 <= |b|
    ensures PackU16Le(UnpackU16Le(b, at)) == b[at..at + 2]
  {
  }

  lemma PackOfUnpackU32Le(b: seq<Byte>, at: nat)
    requires at + 4 <= |b|
    ensures PackU32Le(UnpackU32Le(b, at)) == b[at..at + 4]
  {
    hide PackU32Le;
    var n := UnpackU32Le(b, at);
    OctetsU32Le(n);
    SumOctets(n, b[at], b[at + 1], b[at + 2], b[at + 3]);
  }

  lemma PackOfUnpackU32Be(b: seq<Byte>, at: nat)
    requires at + 4 <= |b|
    ensures PackU32Be(UnpackU32Be(b, at)) == b[at..at + 4]
  {
    hide PackU32Be;
    var n := UnpackU32Be(b, at);
    OctetsU32Be(n);
    SumOctets(n, b[at + 3], b[at + 2], b[at + 1], b[at]);
  }

  lemma UnpackU32BeAt(prefix: seq<Byte>, n: U32, suffix: seq<Byte>)
    ensures UnpackU32Be(prefix + PackU32Be(n) + suffix, |prefix|) == n
  {
  }
}
