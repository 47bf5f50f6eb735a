/** Little-endian integers and flat byte memories. */
module Bytes {
  import opened Words

  function Pow256(n: nat): (r: nat)
    ensures r > 0
  {
    if n == 0 then 1 else 256 * Pow256(n - 1)
  }

  function LittleEndian(bs: seq<Byte>): nat {
    if bs == [] then 0 else bs[0] + 256 * LittleEndian(bs[1..])
  }

  function ToBytes(data: nat, len: nat): (bs: seq<Byte>)
    ensures |bs| == len
  {
    if len == 0 then [] else [data % 256] + ToBytes(data / 256, len - 1)
  }

  // The low n bytes of a datum, and what is left above them.
  function Low(data: nat, n: nat): nat { Mod(data, Pow256(n)) }

  function High(data: nat, n: nat): nat { Div(data, Pow256(n)) }

  function Div(x: nat, m: nat): nat
    requires m > 0
  {
    x / m
  }

  function Mod(x: nat, m: nat): nat
    requires m > 0
  {
    x % m
  }

  // Copying bytes over a memory at an address.
  function Patch(mem: seq<Byte>, addr: nat, bs: seq<Byte>): (r: seq<Byte>)
    requires addr + |bs| <= |mem|
    ensures |r| == |mem|
    ensures forall i :: 0 <= i < |mem| ==> r[i] == if addr <= i < addr + |bs| then bs[i - addr] else mem[i]
  {
    mem[..addr] + bs + mem[addr + |bs|..]
  }

  lemma {:induction false} LittleEndianJoin(lo: seq<Byte>, hi: seq<Byte>)
    ensures LittleEndian(lo + hi) == LittleEndian(hi) * Pow256(|lo|) + LittleEndian(lo)
  {
    if lo == [] {
      assert lo + hi == hi;
    } else {
      LittleEndianJoin(lo[1..], hi);
      assert (lo + hi)[1..] == lo[1..] + hi;
      Regroup(LittleEndian(hi), Pow256(|lo| - 1));
    }
  }

  lemma Regroup(h: nat, p: nat)
    ensures h * (256 * p) == 256 * (h * p)
  {}

  lemma {:induction false} LittleEndianBound(bs: seq<Byte>)
    ensures LittleEndian(bs) < Pow256(|bs|)
  {
    if bs != [] {
      LittleEndianBound(bs[1..]);
    }
  }

  /** Splitting a datum at a byte boundary splits its bytes. */
  lemma {:induction false} ToBytesSplit(data: nat, lo: nat, hi: nat)
    ensures ToBytes(data, lo + hi) == ToBytes(Low(data, lo), lo) + ToBytes(High(data, lo), hi)
  {
    if lo > 0 {
      ToBytesSplit(data / 256, lo - 1, hi);
      hide ToBytes;
      var p := Pow256(lo - 1);
      SplitDigits(data, p);
      var first, rest, low, high := data % 256, data / 256, Low(data, lo), High(data, lo);
      assert low % 256 == first && low / 256 == rest % p && high == rest / p;
      ToBytesStep(low, lo, first, rest % p);
      ToBytesStep(data, lo + hi, first, rest);
    }
  }

  lemma ToBytesStep(data: nat, len: nat, first: Byte, rest: nat)
    requires len > 0 && first == data % 256 && rest == data / 256
    ensures ToBytes(data, len) == [first] + ToBytes(rest, len - 1)
  {}

  lemma SplitDigits(data: nat, p: nat)
    requires p > 0
    ensures data % (256 * p) / 256 == data / 256 % p
    ensures data % (256 * p) % 256 == data % 256
    ensures data / (256 * p) == data / 256 / p
  {
    var q, d := data / 256, data % 256;
    var t, u := q / p, q % p;
    Regroup(t, p);
    assert q == t * p + u;
    DivModIs(data, 256 * p, t, 256 * u + d);
  }

  /** Writing then reading the same bytes gives the datum back, cut to its width. */
  lemma {:induction false} LittleEndianToBytes(data: nat, len: nat)
    ensures LittleEndian(ToBytes(data, len)) == Low(data, len)
  {
    if len > 0 {
      LittleEndianToBytes(data / 256, len - 1);
      SplitDigits(data, Pow256(len - 1));
      assert ToBytes(data, len)[1..] == ToBytes(data / 256, len - 1);
    }
  }

  // (dataH << (8 * len)) + dataL in 32 bits
  function Joined(dataL: nat, dataH: nat, len: nat): nat {
    (dataH * Pow256(len)) % 0x1_0000_0000 + dataL
  }

  // Joining two halves by a 32-bit shift loses nothing: the high half has room.
  lemma ShiftedJoin(lo: seq<Byte>, hi: seq<Byte>)
    requires |lo| + |hi| <= 4
    ensures Joined(LittleEndian(lo), LittleEndian(hi), |lo|) == LittleEndian(lo + hi)
  {
    hide LittleEndian, Pow256;
    LittleEndianJoin(lo, hi);
    LittleEndianBound(hi);
    Room(LittleEndian(hi), |lo|, |hi|);
  }

  lemma Room(h: nat, a: nat, b: nat)
    requires a + b <= 4 && h < Pow256(b)
    ensures 0 <= h * Pow256(a) < 0x1_0000_0000
  {
    Powers();
    hide Pow256;
    match a {
      case 0 => assert h * Pow256(0) == h;
      case 1 => assert h * Pow256(1) == h * 256;
      case 2 => assert h * Pow256(2) == h * 65536;
      case 3 => assert h * Pow256(3) == h * 16777216;
      case 4 => assert h * Pow256(4) == 0;
    }
  }

  lemma Powers()
    ensures Pow256(0) == 1 && Pow256(1) == 256 && Pow256(2) == 65536 && Pow256(3) == 16777216
    ensures Pow256(4) == 0x1_0000_0000
  {
    assert Pow256(3) == 256 * Pow256(2);
  }

  lemma HalvesFit(data: nat, n: nat)
    requires data < 0x1_0000_0000
    ensures Low(data, n) < 0x1_0000_0000 && High(data, n) < 0x1_0000_0000
  {
    var p, q := Pow256(n), High(data, n);
    assert data == q * p + Low(data, n);
    MulLe(1, p, q);
  }
}
