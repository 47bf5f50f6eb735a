/** Physical memory: hw_mem_read and hw_mem_write in nemu/src/memory/memory.c. */
module Memory {
  import opened Bytes
  import opened Words

  const MEM_SIZE := 128 * 1024 * 1024

  /** Copying up to four bytes over a zeroed word loads their little-endian value: the bytes of the
      word that stay zero do not count. */
  method HwMemRead(mem: array<Byte>, paddr: nat, len: nat) returns (ret: nat)
    requires len <= 4 && paddr + len <= mem.Length
    ensures ret == LittleEndian(mem[paddr..paddr + len])
  {
    var word := new Byte[4](_ => 0);
    for i := 0 to len
      invariant word[..i] == mem[paddr..paddr + i]
      invariant forall j :: i <= j < 4 ==> word[j] == 0
    {
      word[i] := mem[paddr + i];
    }
    ZeroesAbove(word[..], len);
    assert word[..][..len] == word[..len];
    ret := LittleEndian(word[..]);
  }

  lemma {:induction false} ZeroesAbove(w: seq<Byte>, n: nat)
    requires n <= |w| && forall j :: n <= j < |w| ==> w[j] == 0
    ensures LittleEndian(w) == LittleEndian(w[..n])
    decreases |w|
  {
    if n > 0 {
      ZeroesAbove(w[1..], n - 1);
      assert w[..n][1..] == w[1..][..n - 1];
    } else if w != [] {
      ZeroesAbove(w[1..], 0);
    }
  }

  /** Copying the first bytes of a word stores exactly the low bytes of the datum. */
  method HwMemWrite(mem: array<Byte>, paddr: nat, len: nat, data: nat)
    requires len <= 4 && paddr + len <= mem.Length
    modifies mem
    ensures mem[..] == Patch(old(mem[..]), paddr, ToBytes(data, len))
  {
    var word := new Byte[4](i requires 0 <= i < 4 => ToBytes(data, 4)[i]);
    ghost var bytes := word[..];
    for i := 0 to len
      invariant word[..] == bytes
      invariant forall j :: 0 <= j < mem.Length ==>
        mem[j] == if paddr <= j < paddr + i then bytes[j - paddr] else old(mem[j])
    {
      mem[paddr + i] := word[i];
    }
    FirstBytes(data, 4, len);
    assert bytes == ToBytes(data, 4);
  }

  lemma {:induction false} FirstBytes(data: nat, n: nat, len: nat)
    requires len <= n
    ensures ToBytes(data, n)[..len] == ToBytes(data, len)
    decreases len
  {
    if len > 0 {
      FirstBytes(data / 256, n - 1, len - 1);
    }
  }
}
