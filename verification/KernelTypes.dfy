/** Machine integers, two's complement and little-endian memory, shared by every component. */
module KernelTypes {
  type u8 = x: int | 0 <= x < 0x100
  type u16 = x: int | 0 <= x < 0x1_0000
  type u32 = x: int | 0 <= x < 0x1_0000_0000
  type i32 = x: int | -0x8000_0000 <= x < 0x8000_0000

  /** A C `char`: one byte. */
  type Char = c: char | c as int < 0x100

  /** The status codes that the modelled functions answer with. */
  datatype KeStatus =
    | STATUS_SUCCESS
    | STATUS_UNEXPECTED
    | STATUS_INVALID_PARAMETER
    | STATUS_NULL_PARAMETER
    | STATUS_ALLOC_FAILED
    | STATUS_NOT_A_DIRECTORY
    | STATUS_NOT_A_FILE
    | STATUS_HANDLE_NOT_FOUND

  function Code(c: Char): u8 {
    c as int
  }

  /** The `int` that x becomes when C narrows it to 32 bits. */
  function ToInt32(x: int): (r: i32) {
    var low := x % 0x1_0000_0000;
    if low < 0x8000_0000 then low else low - 0x1_0000_0000
  }

  /** Narrowing keeps every `int` and forgets multiples of 2^32. */
  lemma ToInt32Wraps(x: i32, k: int)
    ensures ToInt32(x + 0x1_0000_0000 * k) == x
  {
  }

  /** The 16-bit word whose bytes in memory are lo, hi. */
  function Word(lo: u8, hi: u8): u16 {
    lo as int + 0x100 * hi as int
  }

  /** How many numbers n bytes can hold. */
  function Capacity(n: nat): (c: nat)
    ensures c > 0
    decreases n, n
  {
    if n == 0 then 1 else 0x100 * Capacity(n - 1)
  }

  lemma CapacityOfFour()
    ensures Capacity(4) == 0x1_0000_0000
  {
    assert Capacity(2) == 0x1_0000;
  }

  /** The n low bytes of a number, lowest first. */
  function LeBytes(x: nat, n: nat): (bytes: seq<u8>)
    ensures |bytes| == n
    decreases n, x
  {
    if n == 0 then [] else [x % 0x100] + LeBytes(x / 0x100, n - 1)
  }

  /** The number whose n low bytes come first in memory. */
  function FromLe(bytes: seq<u8>, n: nat): (x: nat)
    requires |bytes| >= n
    ensures x < Capacity(n)
    decreases n, |bytes|
  {
    if n == 0 then 0 else bytes[0] as int + 0x100 * FromLe(bytes[1..], n - 1)
  }

  /** An `unsigned int` as it lies in memory. */
  function Le32(x: u32): (bytes: seq<u8>)
    ensures |bytes| == 4
  {
    LeBytes(x, 4)
  }

  /** The `unsigned int` that lies in the first four bytes. */
  function FromLe32(bytes: seq<u8>): (x: u32)
    requires |bytes| >= 4
  {
    CapacityOfFour();
    FromLe(bytes, 4)
  }

  lemma {:induction false} FromLeBytes(x: nat, n: nat, rest: seq<u8>)
    requires x < Capacity(n)
    ensures FromLe(LeBytes(x, n) + rest, n) == x
    decreases n
  {
    if n > 0 {
      var bytes := LeBytes(x, n) + rest;
      assert bytes[1..] == LeBytes(x / 0x100, n - 1) + rest;
      FromLeBytes(x / 0x100, n - 1, rest);
    }
  }

  lemma {:induction false} LeBytesOf(bytes: seq<u8>, n: nat)
    requires |bytes| >= n
    ensures LeBytes(FromLe(bytes, n), n) == bytes[..n]
    decreases n
  {
    if n > 0 {
      LeBytesOf(bytes[1..], n - 1);
      var high := FromLe(bytes[1..], n - 1);
      assert (bytes[0] as int + 0x100 * high) / 0x100 == high;
      assert bytes[..n] == [bytes[0]] + bytes[1..][..n - 1];
    }
  }

  lemma {:induction false} FromLeTake(bytes: seq<u8>, n: nat, k: nat)
    requires n <= k <= |bytes|
    ensures FromLe(bytes[..k], n) == FromLe(bytes, n)
    decreases n
  {
    if n > 0 {
      assert bytes[..k][1..] == bytes[1..][..k - 1];
      FromLeTake(bytes[1..], n - 1, k - 1);
    }
  }

  lemma {:induction false} FromLeZero(bytes: seq<u8>, n: nat)
    requires |bytes| >= n && forall k :: 0 <= k < n ==> bytes[k] == 0
    ensures FromLe(bytes, n) == 0
    decreases n
  {
    if n > 0 {
      FromLeZero(bytes[1..], n - 1);
    }
  }

  /** Reading four bytes of memory inverts storing them, whatever lies behind. */
  lemma FromLe32Prefix(x: u32, rest: seq<u8>)
    ensures FromLe32(Le32(x) + rest) == x
  {
    CapacityOfFour();
    FromLeBytes(x, 4, rest);
  }

  lemma Le32RoundTrip(x: u32)
    ensures FromLe32(Le32(x)) == x
  {
    FromLe32Prefix(x, []);
    assert Le32(x) + [] == Le32(x);
  }

  lemma FromLe32RoundTrip(bytes: seq<u8>)
    requires |bytes| == 4
    ensures Le32(FromLe32(bytes)) == bytes
  {
    LeBytesOf(bytes, 4);
    assert bytes[..4] == bytes;
  }

  lemma FromLe32Take(bytes: seq<u8>)
    requires |bytes| >= 4
    ensures FromLe32(bytes[..4]) == FromLe32(bytes)
  {
    FromLeTake(bytes, 4, 4);
  }

  /** Four bytes in memory, the lowest first, and the number they make up. */
  lemma Le32Bytes(a: u8, b: u8, c: u8, d: u8, rest: seq<u8>)
    ensures Le32(a as int + 0x100 * b as int + 0x1_0000 * c as int + 0x100_0000 * d as int) == [a, b, c, d]
    ensures FromLe32([a, b, c, d] + rest)
         == a as int + 0x100 * b as int + 0x1_0000 * c as int + 0x100_0000 * d as int
  {
    var bytes := [a, b, c, d] + rest;
    assert bytes[1..] == [b, c, d] + rest;
    assert bytes[1..][1..] == [c, d] + rest && bytes[1..][1..][1..] == [d] + rest;
    assert FromLe(bytes[1..][1..], 2) == c as int + 0x100 * d as int;
    assert FromLe(bytes[1..], 3) == b as int + 0x100 * FromLe(bytes[1..][1..], 2);
    FromLe32Take(bytes);
    assert bytes[..4] == [a, b, c, d];
    FromLe32RoundTrip([a, b, c, d]);
  }

  lemma FourBytes(x: u32)
    ensures x == x % 0x100 + 0x100 * (x / 0x100 % 0x100)
              + 0x1_0000 * (x / 0x1_0000 % 0x100) + 0x100_0000 * (x / 0x100_0000)
    ensures 0 <= x / 0x100_0000 < 0x100
  {
    var b, c := x / 0x100, x / 0x1_0000;
    assert c == b / 0x100 && x / 0x100_0000 == c / 0x100;
  }

  /** An `unsigned int` as it lies in memory, byte by byte. */
  lemma Le32Of(x: u32)
    ensures Le32(x) == [x % 0x100, x / 0x100 % 0x100, x / 0x1_0000 % 0x100, x / 0x100_0000]
  {
    hide Le32, FromLe32;
    FourBytes(x);
    Le32Bytes(x % 0x100, x / 0x100 % 0x100, x / 0x1_0000 % 0x100, x / 0x100_0000, []);
  }

  /** The top bit of a word is that of its last byte. */
  lemma TopBit(bytes: seq<u8>)
    requires |bytes| >= 4
    ensures FromLe32(bytes) < 0x8000_0000 <==> bytes[3] < 0x80
  {
    var low := bytes[0] as int + 0x100 * bytes[1] as int + 0x1_0000 * bytes[2] as int;
    assert FromLe(bytes[1..][1..], 2) == bytes[2] as int + 0x100 * bytes[3] as int;
    assert FromLe(bytes[1..], 3) == bytes[1] as int + 0x100 * FromLe(bytes[1..][1..], 2);
    assert FromLe32(bytes) == low + 0x100_0000 * bytes[3] as int;
  }

  lemma FromLe32Zero(bytes: seq<u8>)
    requires |bytes| == 4 && forall k :: 0 <= k < 4 ==> bytes[k] == 0
    ensures FromLe32(bytes) == 0
  {
    FromLeZero(bytes, 4);
  }
}
