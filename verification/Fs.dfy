/** The kernel's read-only file system: kernel/src/fs/fs.c. Offsets are 32-bit words. */
module Fs {
  import opened Words

  const SEEK_SET := 0
  const SEEK_CUR := 1
  const SEEK_END := 2

  type I32 = x: int | -0x8000_0000 <= x < 0x8000_0000

  datatype FileInfo = FileInfo(name: string, size: Word, diskOffset: Word)
  datatype Fstate = Fstate(used: bool, offset: Word)

  const FILE_TABLE: seq<FileInfo> := [
    FileInfo("1.rpg", 188864, 1048576), FileInfo("2.rpg", 188864, 1237440),
    FileInfo("3.rpg", 188864, 1426304), FileInfo("4.rpg", 188864, 1615168),
    FileInfo("5.rpg", 188864, 1804032), FileInfo("abc.mkf", 1022564, 1992896),
    FileInfo("ball.mkf", 134704, 3015460), FileInfo("data.mkf", 66418, 3150164),
    FileInfo("desc.dat", 16027, 3216582), FileInfo("fbp.mkf", 1128064, 3232609),
    FileInfo("fire.mkf", 834728, 4360673), FileInfo("f.mkf", 186966, 5195401),
    FileInfo("gop.mkf", 11530322, 5382367), FileInfo("map.mkf", 1496578, 16912689),
    FileInfo("mgo.mkf", 1577442, 18409267), FileInfo("m.msg", 188232, 19986709),
    FileInfo("mus.mkf", 331284, 20174941), FileInfo("pat.mkf", 8488, 20506225),
    FileInfo("rgm.mkf", 453202, 20514713), FileInfo("rng.mkf", 4546074, 20967915),
    FileInfo("sss.mkf", 557004, 25513989), FileInfo("voc.mkf", 1997044, 26070993),
    FileInfo("wor16.asc", 5374, 28068037), FileInfo("wor16.fon", 82306, 28073411),
    FileInfo("word.dat", 5650, 28155717), FileInfo("credits_bgm.wav", 6631340, 1048576)]

  const NR_FILES: nat := 26

  lemma SizesArePositive()
    ensures |FILE_TABLE| == NR_FILES
    ensures forall i :: 0 <= i < NR_FILES ==> 0 < FILE_TABLE[i].size < 0x1000_0000
  {}

  // ----- one read

  // How many bytes fs_read transfers; the sum that guards the cap is a 32-bit one.
  function Transfer(offset: Word, len: Word, size: Word): Word
    requires offset < size
  {
    if Wrap32(offset + len) >= size then size - 1 - offset else len
  }

  /** A read stays inside the file exactly when offset + len does not wrap around; even then it
      never reaches the last byte. The offset stays inside the file either way. */
  lemma ReadStaysInside(offset: Word, len: Word, size: Word)
    requires offset < size
    ensures offset + Transfer(offset, len, size) < size <==> offset + len < WORD
    ensures Wrap32(offset + Transfer(offset, len, size)) < size
    ensures offset + len < WORD ==>
      offset + Transfer(offset, len, size) == if offset + len < size then offset + len else size - 1
  {
    if offset + len >= WORD {
      assert Wrap32(offset + len) == offset + len - WORD;
    }
  }

  // ----- any sequence of reads

  function Sum(lens: seq<Word>): nat { if lens == [] then 0 else lens[0] + Sum(lens[1..]) }

  // No length is so large that a sum wraps.
  predicate Modest(lens: seq<Word>, bound: int) { forall k :: 0 <= k < |lens| ==> lens[k] < bound }

  function Span(s: seq<Byte>, i: nat, j: nat): seq<Byte>
    requires i <= j <= |s|
  {
    s[i..j]
  }

  // The bytes that successive reads of the given lengths deliver from a file, one after the other.
  function ReadAll(file: seq<Byte>, offset: Word, lens: seq<Word>): seq<Byte>
    requires offset < |file| < WORD
    requires Modest(lens, WORD - |file|)
    decreases |lens|
  {
    if lens == [] then []
    else
      assert lens[0] < WORD - |file| && Modest(lens[1..], WORD - |file|);
      var n := Transfer(offset, lens[0], |file|);
      assert offset + n < |file| by { ReadStaysInside(offset, lens[0], |file|); }
      Span(file, offset, offset + n) + ReadAll(file, offset + n, lens[1..])
  }

  function Min(a: int, b: int): int { if a < b then a else b }

  /** However a read is cut into chunks, it delivers the same bytes of the file, in order: all that
      were asked for, short of the last byte of the file. */
  lemma {:induction false} ChunksAgree(file: seq<Byte>, offset: Word, lens: seq<Word>)
    requires offset < |file| < WORD
    requires Modest(lens, WORD - |file|)
    ensures offset <= Min(offset + Sum(lens), |file| - 1) < |file|
    ensures ReadAll(file, offset, lens) == Span(file, offset, Min(offset + Sum(lens), |file| - 1))
    decreases |lens|
  {
    hide Span, Modest, Transfer;
    if lens == [] {
      Slices(file, offset, offset, offset);
    } else {
      var n := FirstChunk(file, offset, lens);
      ChunksAgree(file, offset + n, lens[1..]);
      Slices(file, offset, offset + n, Min(offset + n + Sum(lens[1..]), |file| - 1));
    }
  }

  lemma FirstChunk(file: seq<Byte>, offset: Word, lens: seq<Word>) returns (n: Word)
    requires offset < |file| < WORD && Modest(lens, WORD - |file|) && lens != []
    ensures n == Transfer(offset, lens[0], |file|) <= lens[0] && offset + n < |file|
    ensures lens[0] < WORD - |file| && Modest(lens[1..], WORD - |file|)
    ensures ReadAll(file, offset, lens) == Span(file, offset, offset + n) + ReadAll(file, offset + n, lens[1..])
    ensures offset + n <= Min(offset + n + Sum(lens[1..]), |file| - 1) < |file|
    ensures Min(offset + n + Sum(lens[1..]), |file| - 1) == Min(offset + Sum(lens), |file| - 1)
  {
    hide Transfer, Span;
    n := Transfer(offset, lens[0], |file|);
    assert lens[0] < WORD - |file| && Modest(lens[1..], WORD - |file|);
    ReadStaysInside(offset, lens[0], |file|);
    Meet(offset, lens[0], Sum(lens[1..]), |file|);
  }

  lemma SpanIs(s: seq<Byte>, i: nat, j: nat)
    requires i <= j <= |s|
    ensures Span(s, i, j) == s[i..j]
  {}

  lemma NoneLeft(file: seq<Byte>, offset: Word, lens: seq<Word>)
    requires offset < |file| < WORD && Modest(lens, WORD - |file|) && lens == []
    ensures ReadAll(file, offset, lens) == [] && Min(offset + Sum(lens), |file| - 1) == offset
  {}

  lemma Meet(offset: Word, len: Word, rest: nat, size: Word)
    requires offset < size && offset + len < WORD
    ensures var n := Transfer(offset, len, size);
      n <= len && offset + n < size && Min(offset + n + rest, size - 1) == Min(offset + len + rest, size - 1)
  {
    ReadStaysInside(offset, len, size);
  }

  lemma Slices(s: seq<Byte>, i: nat, j: nat, k: nat)
    requires i <= j <= k <= |s|
    ensures i == j ==> Span(s, i, j) == []
    ensures Span(s, i, j) + Span(s, j, k) == Span(s, i, k)
  {}

  /** A length that wraps the sum is not capped: it is copied whole and moves the offset backwards. */
  lemma WrappedRead(offset: Word, len: Word, size: Word)
    requires offset < size && offset + len >= WORD
    ensures Transfer(offset, len, size) == len && offset + len > size
    ensures Wrap32(offset + len) < offset
  {
    assert Wrap32(offset + len) == offset + len - WORD;
  }

  // ----- seeking

  predicate KnownWhence(whence: int) { whence == SEEK_SET || whence == SEEK_CUR || whence == SEEK_END }

  function Base(whence: int, offset: Word, size: Word): Word {
    if whence == SEEK_SET then 0 else if whence == SEEK_CUR then offset else size
  }

  function SeekResult(whence: int, offset: Word, delta: I32, size: Word): Word
    requires 0 < size
  {
    var moved := Wrap32(Base(whence, offset, size) + delta);
    if moved >= size then size - 1 else moved
  }

  /** A seek lands where it was sent exactly when that is inside the file, counted from the beginning,
      from the offset or from the end; every other one, also one before the beginning, lands on the
      last byte. */
  lemma SeekLandsIff(offset: Word, delta: I32, size: Word)
    requires offset < size < 0x1000_0000
    ensures SeekResult(SEEK_SET, offset, delta, size) == if 0 <= delta < size then delta else size - 1
    ensures SeekResult(SEEK_CUR, offset, delta, size) ==
      if 0 <= offset + delta < size then offset + delta else size - 1
    ensures SeekResult(SEEK_END, offset, delta, size) == if 0 <= size + delta < size then size + delta else size - 1
  {
    hide Wrap32;
    SeekTo(delta, size);
    SeekTo(offset + delta, size);
    SeekTo(size + delta, size);
  }

  lemma SeekTo(target: int, size: Word)
    requires 0 < size < 0x1000_0000 && -0x8000_0000 <= target < WORD
    ensures var moved := Wrap32(target);
      (if moved >= size then size - 1 else moved) == if 0 <= target < size then target else size - 1
  {
    assert Wrap32(target) == if target >= 0 then target else target + WORD;
  }

  /** Relative seeks that stay inside the file add up, and one by nothing changes nothing. */
  lemma RelativeSeeksAdd(offset: Word, d: I32, e: I32, size: Word)
    requires offset < size < 0x1000_0000 && 0 <= offset + d < size && 0 <= offset + d + e < size
    ensures SeekResult(SEEK_CUR, SeekResult(SEEK_CUR, offset, d, size), e, size) == offset + d + e
    ensures SeekResult(SEEK_CUR, offset, 0, size) == offset
  {
    SeekLandsIff(offset, d, size);
    SeekLandsIff(offset + d, e, size);
    SeekLandsIff(offset, 0, size);
  }

  class FileSystem {
    const disk: nat -> Byte
    const table: seq<FileInfo>
    const files: array<Fstate>

    /** Every offset stays inside its file. */
    ghost predicate Valid()
      reads files
    {
      && files.Length == NR_FILES + 3 && |table| == NR_FILES
      && (forall i :: 0 <= i < NR_FILES ==> 0 < table[i].size < 0x1000_0000)
      && forall fd :: 3 <= fd < NR_FILES + 3 ==> files[fd].offset < table[fd - 3].size
    }

    constructor (disk: nat -> Byte)
      ensures Valid() && fresh(files) && this.disk == disk && table == FILE_TABLE
    {
      this.disk, table := disk, FILE_TABLE;
      files := new Fstate[29](_ => Fstate(false, 0));
      new;
      SizesArePositive();
    }

    /** The descriptor of the named file, rewound; -1 stands for the kernel's failing assertion. */
    method Open(pathname: string) returns (fd: int)
      requires Valid()
      modifies files
      ensures Valid()
      ensures fd == -1 <==> forall i :: 0 <= i < NR_FILES ==> table[i].name != pathname
      ensures fd == -1 ==> files[..] == old(files[..])
      ensures fd != -1 ==> 3 <= fd < NR_FILES + 3 && table[fd - 3].name == pathname
      ensures fd != -1 ==> files[..] == old(files[..])[fd := Fstate(true, 0)]
    {
      for i := 0 to NR_FILES
        invariant files[..] == old(files[..])
        invariant forall j :: 0 <= j < i ==> table[j].name != pathname
      {
        if pathname == table[i].name {
          assert files[i + 3].offset < table[i].size;
          files[i + 3] := Fstate(true, 0);
          return i + 3;
        }
      }
      return -1;
    }

    /** Copies Transfer bytes from the file's place on the disk, fills the rest with zeros and moves
        the offset. */
    method Read(fd: nat, buf: array<Byte>, len: Word) returns (n: Word)
      requires Valid() && 3 <= fd < NR_FILES + 3 && len <= buf.Length
      modifies files, buf
      ensures Valid() && n == Transfer(old(files[fd].offset), len, table[fd - 3].size) && n <= len
      ensures forall k :: 0 <= k < n ==>
        buf[k] == disk(table[fd - 3].diskOffset + old(files[fd].offset) + k)
      ensures forall k :: n <= k < len ==> buf[k] == 0
      ensures forall k :: len <= k < buf.Length ==> buf[k] == old(buf[k])
      ensures files[..] == old(files[..])[fd := old(files[fd]).(offset := Wrap32(old(files[fd].offset) + n))]
    {
      var state, info := files[fd], table[fd - 3];
      ReadStaysInside(state.offset, len, info.size);
      TransferBound(state.offset, len, info.size);
      n := 0;
      if state.offset < info.size {
        n := len;
        if Wrap32(state.offset + len) >= info.size {
          n := info.size - 1 - state.offset;
        }
        IdeRead(buf, info.diskOffset + state.offset, n);
        files[fd] := state.(offset := Wrap32(state.offset + n));
        Zero(buf, n, len);
      }
    }

    // The bytes of a file.
    ghost function Contents(fd: nat): (file: seq<Byte>)
      requires 3 <= fd < |table| + 3
      ensures |file| == table[fd - 3].size
    {
      seq(table[fd - 3].size, k requires 0 <= k => disk(table[fd - 3].diskOffset + k))
    }

    // One read into a buffer of its own, and the bytes that it copied.
    method ReadChunk(fd: nat, len: Word) returns (bytes: seq<Byte>)
      requires Valid() && 3 <= fd < NR_FILES + 3 && len < WORD - table[fd - 3].size
      modifies files
      ensures Valid()
      ensures var file, from := Contents(fd), old(files[fd].offset); var to := from + Transfer(from, len, |file|);
        && to < |file| && bytes == Span(file, from, to)
        && files[..] == old(files[..])[fd := old(files[fd]).(offset := to)]
    {
      hide Transfer;
      ReadStaysInside(files[fd].offset, len, table[fd - 3].size);
      var buf := new Byte[len];
      var n := Read(fd, buf, len);
      bytes := buf[..n];
    }

    /** Reads of any lengths, one after the other, none so large that the 32-bit sum wraps: together
        they deliver what one read of the whole length would. */
    method ReadChunks(fd: nat, lens: seq<Word>) returns (bytes: seq<Byte>)
      requires Valid() && 3 <= fd < NR_FILES + 3
      requires Modest(lens, WORD - table[fd - 3].size)
      modifies files
      ensures Valid()
      ensures var file, from := Contents(fd), old(files[fd].offset); var to := Min(from + Sum(lens), |file| - 1);
        && from <= to && bytes == ReadAll(file, from, lens) == file[from..to]
        && files[..] == old(files[..])[fd := old(files[fd]).(offset := to)]
    {
      hide Transfer, Modest, Sum, ReadAll, Min, Span, Contents;
      ghost var file, from := Contents(fd), files[fd].offset;
      ChunksAgree(file, from, lens);
      SpanIs(file, from, Min(from + Sum(lens), |file| - 1));
      bytes := [];
      assert lens[0..] == lens;
      for i := 0 to |lens|
        invariant Valid() && Modest(lens[i..], WORD - |file|)
        invariant files[..] == old(files[..])[fd := old(files[fd]).(offset := files[fd].offset)]
        invariant bytes + ReadAll(file, files[fd].offset, lens[i..]) == ReadAll(file, from, lens)
        invariant Min(files[fd].offset + Sum(lens[i..]), |file| - 1) == Min(from + Sum(lens), |file| - 1)
      {
        ghost var o := files[fd].offset;
        ghost var rest := lens[i..];
        assert rest[0] == lens[i] && rest[1..] == lens[i + 1..];
        ghost var n := FirstChunk(file, o, rest);
        var chunk := ReadChunk(fd, lens[i]);
        bytes := bytes + chunk;
      }
      NoneLeft(file, files[fd].offset, lens[|lens|..]);
    }

    static method Zero(buf: array<Byte>, from: nat, to: nat)
      requires from <= to <= buf.Length
      modifies buf
      ensures forall k :: from <= k < to ==> buf[k] == 0
      ensures forall k :: 0 <= k < buf.Length && !(from <= k < to) ==> buf[k] == old(buf[k])
    {
      for k := from to to
        invariant forall j :: from <= j < k ==> buf[j] == 0
        invariant forall j :: 0 <= j < buf.Length && !(from <= j < k) ==> buf[j] == old(buf[j])
      {
        buf[k] := 0;
      }
    }

    // ide_read, not part of this model, as what it delivers
    method IdeRead(buf: array<Byte>, from: nat, n: nat)
      requires n <= buf.Length
      modifies buf
      ensures forall k :: 0 <= k < n ==> buf[k] == disk(from + k)
      ensures forall k :: n <= k < buf.Length ==> buf[k] == old(buf[k])
    {
      for k := 0 to n
        invariant forall j :: 0 <= j < k ==> buf[j] == disk(from + j)
        invariant forall j :: k <= j < buf.Length ==> buf[j] == old(buf[j])
      {
        buf[k] := disk(from + k);
      }
    }

    /** The offset moves to where it is sent, from the beginning, from itself or from the end, if that
        is inside the file, and otherwise to the last byte. Unknown directions are refused and change
        nothing. */
    method Lseek(fd: nat, delta: I32, whence: int) returns (r: int)
      requires Valid() && 3 <= fd < NR_FILES + 3
      modifies files
      ensures Valid()
      ensures !KnownWhence(whence) ==> r == -1 && files[..] == old(files[..])
      ensures KnownWhence(whence) ==>
        && r == SeekResult(whence, old(files[fd].offset), delta, table[fd - 3].size)
        && files[..] == old(files[..])[fd := old(files[fd]).(offset := r)]
      ensures var size, o := table[fd - 3].size, old(files[fd].offset);
        && (whence == 0 ==> r == if 0 <= delta < size then delta else size - 1)
        && (whence == 1 ==> r == if 0 <= o + delta < size then o + delta else size - 1)
        && (whence == 2 ==> r == if 0 <= size + delta < size then size + delta else size - 1)
    {
      hide Wrap32;
      SeekLandsIff(files[fd].offset, delta, table[fd - 3].size);
      var size := table[fd - 3].size;
      if whence == SEEK_SET {
        files[fd] := files[fd].(offset := Wrap32(delta));
      } else if whence == SEEK_CUR {
        files[fd] := files[fd].(offset := Wrap32(files[fd].offset + delta));
      } else if whence == SEEK_END {
        files[fd] := files[fd].(offset := Wrap32(size + delta));
      } else {
        return -1;
      }
      if files[fd].offset >= size {
        files[fd] := files[fd].(offset := size - 1);
      }
      r := files[fd].offset;
    }

    method Close(fd: int) returns (r: int)
      requires Valid()
      modifies files
      ensures Valid() && (r == 0 <==> 0 <= fd < NR_FILES + 3) && (r != 0 ==> r == -1)
      ensures r == 0 ==> files[..] == old(files[..])[fd := old(files[fd]).(used := false)]
      ensures r == -1 ==> files[..] == old(files[..])
    {
      // the comparison is between unsigned numbers, so a negative descriptor is a large one
      if fd < 0 || fd >= NR_FILES + 3 {
        return -1;
      }
      files[fd] := files[fd].(used := false);
      return 0;
    }
  }

  lemma TransferBound(offset: Word, len: Word, size: Word)
    requires offset < size
    ensures Transfer(offset, len, size) <= len
  {
    ReadStaysInside(offset, len, size);
  }
}
