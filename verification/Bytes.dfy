/** Unsigned integers as bytes in the machine's little-endian order. */
module Bytes {

  type byte = x: int | 0 <= x < 256
  type u32 = x: int | 0 <= x < 0x1_0000_0000
  const TWO64 := 0x1_0000_0000_0000_0000
  type u64 = x: int | 0 <= x < TWO64

  /** A C string of bytes: the terminator is not part of the value. */
  type CString = s: seq<byte> | 0 !in s

  function Power(k: nat): (r: nat)
    ensures r > 0
  {
    if k == 0 then 1 else 256 * Power(k - 1)
  }

  /** The `k` low bytes of `n`, lowest first. */
  function ToBytes(n: nat, k: nat): (r: seq<byte>)
    ensures |r| == k
  {
    if k == 0 then [] else [n % 256] + ToBytes(n / 256, k - 1)
  }

  function FromBytes(s: seq<byte>): nat {
    if s == [] then 0 else s[0] + 256 * FromBytes(s[1..])
  }

  /** A value that fits is read back as it was stored. */
  lemma {:induction false} StoreLoad(n: nat, k: nat)
    requires n < Power(k)
    ensures FromBytes(ToBytes(n, k)) == n
  {
    if k > 0 {
      StoreLoad(n / 256, k - 1);
    }
  }

  lemma Powers()
    ensures Power(1) == 0x100 && Power(4) == 0x1_0000_0000 && Power(8) == 0x1_0000_0000_0000_0000
  {
  }

  lemma Load32(n: nat)
    requires n < 0x1_0000_0000
    ensures FromBytes(ToBytes(n, 4)) == n
  {
    Powers();
    StoreLoad(n, 4);
  }

  lemma Load64(n: nat)
    requires n < 0x1_0000_0000_0000_0000
    ensures FromBytes(ToBytes(n, 8)) == n
  {
    Powers();
    StoreLoad(n, 8);
  }

  function Read32(s: seq<byte>, at: nat): u32
    requires at + 4 <= |s|
  {
    FromBytes(s[at..at + 4]) % 0x1_0000_0000
  }

  function Read64(s: seq<byte>, at: nat): u64
    requires at + 8 <= |s|
  {
    FromBytes(s[at..at + 8]) % 0x1_0000_0000_0000_0000
  }

  lemma Read32Back(s: seq<byte>, at: nat, n: nat)
    requires at + 4 <= |s| && n < 0x1_0000_0000 && s[at..at + 4] == ToBytes(n, 4)
    ensures Read32(s, at) == n
  {
    hide ToBytes, FromBytes;
    Load32(n);
  }

  lemma Read64Back(s: seq<byte>, at: nat, n: nat)
    requires at + 8 <= |s| && n < 0x1_0000_0000_0000_0000 && s[at..at + 8] == ToBytes(n, 8)
    ensures Read64(s, at) == n
  {
    hide ToBytes, FromBytes;
    Load64(n);
  }
}
