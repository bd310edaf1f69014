/** Disk compaction. The dense disk map alternates file and free-space
    lengths; the first compaction moves single cells, filling each free cell
    with the last file cell on the disk, and the second moves whole files into
    the first free span from the left that holds them. The answer is a
    positional checksum. */
module Disk {
  import opened Common

  datatype Block = File(id: nat, size: nat) | Free(size: nat)

  predicate IsDigit(c: char) {
    '0' <= c <= '9'
  }

  function DigitValue(c: char): (v: nat)
    requires IsDigit(c)
    ensures v <= 9
  {
    c as int - '0' as int
  }

  // ---------------------------------------------------------------- parsing

  /** The block a character of the map stands for, given its index among all
      characters: a digit at an even index is a file whose id is half the
      index, at an odd index free space; any other character is skipped. */
  function BlockOf(i: nat, c: char): seq<Block> {
    if !IsDigit(c) then []
    else if i % 2 == 0 then [File(i / 2, DigitValue(c))]
    else [Free(DigitValue(c))]
  }

  function ParseFrom(s: string, i: nat): seq<Block>
    requires i <= |s|
    decreases |s| - i
  {
    if i == |s| then [] else BlockOf(i, s[i]) + ParseFrom(s, i + 1)
  }

  /** `DiskMap::from`: one block per digit; on a map of digits only, block `k`
      is a file with id `k / 2` for even `k` and free space for odd `k`. */
  function Parse(s: string): (r: seq<Block>)
    ensures |r| == DigitCount(s, 0)
    ensures (forall k :: 0 <= k < |s| ==> IsDigit(s[k])) ==>
              |r| == |s| && forall k :: 0 <= k < |s| ==> r[k] == (if k % 2 == 0 then File(k / 2, DigitValue(s[k])) else Free(DigitValue(s[k])))
  {
    ParseLength(s, 0);
    ParseLayout(s);
    ParseFrom(s, 0)
  }

  lemma ParseLayout(s: string)
    ensures (forall k :: 0 <= k < |s| ==> IsDigit(s[k])) ==>
              |ParseFrom(s, 0)| == |s|
              && forall k :: 0 <= k < |s| ==> ParseFrom(s, 0)[k] == (if k % 2 == 0 then File(k / 2, DigitValue(s[k])) else Free(DigitValue(s[k])))
  {
    if forall k :: 0 <= k < |s| ==> IsDigit(s[k]) {
      ParseDigits(s, 0);
    }
  }

  /** Number of digits in `s[i..]`. */
  function DigitCount(s: string, i: nat): nat
    requires i <= |s|
    decreases |s| - i
  {
    if i == |s| then 0 else (if IsDigit(s[i]) then 1 else 0) + DigitCount(s, i + 1)
  }

  /** Every digit yields one block and nothing else does. */
  lemma {:induction false} ParseLength(s: string, i: nat)
    requires i <= |s|
    ensures |ParseFrom(s, i)| == DigitCount(s, i)
    decreases |s| - i
  {
    if i < |s| {
      ParseLength(s, i + 1);
    }
  }

  /** On a map made of digits only, block `k` is a file with id `k / 2` for
      even `k` and free space for odd `k`, of the size the digit gives. */
  lemma {:induction false} ParseDigits(s: string, i: nat)
    requires i <= |s|
    requires forall k :: i <= k < |s| ==> IsDigit(s[k])
    ensures |ParseFrom(s, i)| == |s| - i
    ensures forall k :: i <= k < |s| ==>
              ParseFrom(s, i)[k - i] == (if k % 2 == 0 then File(k / 2, DigitValue(s[k])) else Free(DigitValue(s[k])))
    decreases |s| - i
  {
    if i < |s| {
      ParseDigits(s, i + 1);
      var r := ParseFrom(s, i);
      var tail := ParseFrom(s, i + 1);
      assert r == BlockOf(i, s[i]) + tail;
      forall k | i <= k < |s|
        ensures r[k - i] == (if k % 2 == 0 then File(k / 2, DigitValue(s[k])) else Free(DigitValue(s[k])))
      {
        if k > i {
          assert r[k - i] == tail[k - i - 1];
        }
      }
    }
  }

  /** Characters after the last digit, such as a final line break, add no block. */
  lemma {:induction false} ParseIgnoresTail(s: string, t: string, i: nat)
    requires i <= |s|
    requires forall k :: 0 <= k < |t| ==> !IsDigit(t[k])
    ensures ParseFrom(s + t, i) == ParseFrom(s, i)
    decreases |s| - i
  {
    if i < |s| {
      assert (s + t)[i] == s[i];
      ParseIgnoresTail(s, t, i + 1);
    } else {
      NoDigitsNoBlocks(s + t, i);
    }
  }

  lemma {:induction false} NoDigitsNoBlocks(u: string, j: nat)
    requires j <= |u|
    requires forall k :: j <= k < |u| ==> !IsDigit(u[k])
    ensures ParseFrom(u, j) == []
    decreases |u| - j
  {
    if j < |u| {
      NoDigitsNoBlocks(u, j + 1);
    }
  }

  // ---------------------------------------------------------------- decompressing

  /** Total number of cells the blocks occupy. */
  function TotalSize(disk: seq<Block>): nat {
    if disk == [] then 0 else disk[0].size + TotalSize(disk[1..])
  }

  lemma {:induction false} TotalSizeAppend(a: seq<Block>, b: seq<Block>)
    ensures TotalSize(a + b) == TotalSize(a) + TotalSize(b)
  {
    if a == [] {
      assert a + b == b;
    } else {
      assert (a + b)[1..] == a[1..] + b;
      TotalSizeAppend(a[1..], b);
    }
  }

  /** A one-cell block of the same kind and id. */
  function Unit(b: Block): Block {
    match b
    case File(id, _) => File(id, 1)
    case Free(_) => Free(1)
  }

  function Expand(b: Block): (r: seq<Block>)
    ensures |r| == b.size
    ensures forall k :: 0 <= k < |r| ==> r[k] == Unit(b)
  {
    seq(b.size, _ => Unit(b))
  }

  /** `decompress`: every block of size `s` becomes `s` one-cell blocks. */
  function Decompress(disk: seq<Block>): (r: seq<Block>)
    ensures |r| == TotalSize(disk)
    ensures forall k :: 0 <= k < |r| ==> r[k].size == 1
  {
    if disk == [] then [] else Expand(disk[0]) + Decompress(disk[1..])
  }

  /** Decompressing a concatenation decompresses the parts. */
  lemma {:induction false} DecompressAppend(a: seq<Block>, b: seq<Block>)
    ensures Decompress(a + b) == Decompress(a) + Decompress(b)
  {
    if a == [] {
      assert a + b == b;
    } else {
      assert (a + b)[1..] == a[1..] + b;
      DecompressAppend(a[1..], b);
    }
  }

  /** Cell `k` of the decompressed disk is the unit of the block that covers
      it: block `j` covers the cells from the total size of the blocks before it. */
  lemma {:induction false} DecompressCell(disk: seq<Block>, j: nat, k: nat)
    requires j < |disk|
    requires TotalSize(disk[..j]) <= k < TotalSize(disk[..j]) + disk[j].size
    ensures k < |Decompress(disk)| && Decompress(disk)[k] == Unit(disk[j])
  {
    assert disk == disk[..j] + [disk[j]] + disk[j + 1..];
    DecompressAppend(disk[..j] + [disk[j]], disk[j + 1..]);
    DecompressAppend(disk[..j], [disk[j]]);
    assert Decompress([disk[j]]) == Expand(disk[j]) + Decompress([]);
  }

  // ---------------------------------------------------------------- checksum

  /** Checksum of blocks placed from position `start` on: position times id
      for each file block, nothing for free blocks. */
  function ChecksumFrom(disk: seq<Block>, start: nat): nat {
    if disk == [] then 0
    else (if disk[0].File? then start * disk[0].id else 0) + ChecksumFrom(disk[1..], start + 1)
  }

  /** What a block adds to the checksum when it stands at position `k`. */
  function Contribution(b: Block, k: nat): nat {
    if b.File? then k * b.id else 0
  }

  /** `checksum`: the sum, over the positions of the disk, of position times
      file id, where free blocks add nothing. */
  function Checksum(disk: seq<Block>): (r: nat)
    ensures r == Sum(seq(|disk|, k requires 0 <= k < |disk| => Contribution(disk[k], k) as int))
  {
    ChecksumIndexed(disk, 0);
    assert seq(|disk|, k requires 0 <= k < |disk| => Contribution(disk[k], 0 + k) as int)
        == seq(|disk|, k requires 0 <= k < |disk| => Contribution(disk[k], k) as int);
    ChecksumFrom(disk, 0)
  }

  /** The running checksum from `start` is the indexed sum shifted by `start`. */
  lemma {:induction false} ChecksumIndexed(disk: seq<Block>, start: nat)
    ensures ChecksumFrom(disk, start)
            == Sum(seq(|disk|, k requires 0 <= k < |disk| => Contribution(disk[k], start + k) as int))
  {
    var s := seq(|disk|, k requires 0 <= k < |disk| => Contribution(disk[k], start + k) as int);
    if disk != [] {
      var rest := disk[1..];
      var t := seq(|rest|, k requires 0 <= k < |rest| => Contribution(rest[k], start + 1 + k) as int);
      ChecksumIndexed(rest, start + 1);
      assert s[1..] == t;
      assert s[0] == Contribution(disk[0], start);
    }
  }

  /** Sum of the ids of the file blocks. */
  function IdSum(disk: seq<Block>): nat {
    if disk == [] then 0 else (if disk[0].File? then disk[0].id else 0) + IdSum(disk[1..])
  }

  /** Moving blocks `start` positions to the right adds `start` per id. */
  lemma {:induction false} ChecksumShift(disk: seq<Block>, start: nat)
    ensures ChecksumFrom(disk, start) == ChecksumFrom(disk, 0) + start * IdSum(disk)
  {
    if disk != [] {
      ChecksumShift(disk[1..], start + 1);
      ChecksumShift(disk[1..], 1);
      var id := if disk[0].File? then disk[0].id else 0;
      assert (start + 1) * IdSum(disk[1..]) == start * IdSum(disk[1..]) + IdSum(disk[1..]);
      assert start * IdSum(disk) == start * id + start * IdSum(disk[1..]);
    }
  }

  /** The checksum of a concatenation: the second part counts from where the
      first part ends. */
  lemma {:induction false} ChecksumAppend(a: seq<Block>, b: seq<Block>, start: nat)
    ensures ChecksumFrom(a + b, start) == ChecksumFrom(a, start) + ChecksumFrom(b, start + |a|)
  {
    if a == [] {
      assert a + b == b;
    } else {
      assert (a + b)[1..] == a[1..] + b;
      ChecksumAppend(a[1..], b, start + 1);
    }
  }

  /** A free block contributes nothing, whatever its size. */
  lemma FreeIsWorthNothing(a: seq<Block>, b: seq<Block>, n: nat, m: nat)
    ensures Checksum(a + [Free(n)] + b) == Checksum(a + [Free(m)] + b)
  {
    ChecksumAppend(a + [Free(n)], b, 0);
    ChecksumAppend(a + [Free(m)], b, 0);
    ChecksumAppend(a, [Free(n)], 0);
    ChecksumAppend(a, [Free(m)], 0);
  }

  // ---------------------------------------------------------------- files

  /** The file blocks, in order. */
  function Files(disk: seq<Block>): (r: seq<Block>)
    ensures forall k :: 0 <= k < |r| ==> r[k].File?
    ensures |r| <= |disk|
  {
    if disk == [] then []
    else (if disk[0].File? then [disk[0]] else []) + Files(disk[1..])
  }

  lemma {:induction false} FilesAppend(a: seq<Block>, b: seq<Block>)
    ensures Files(a + b) == Files(a) + Files(b)
  {
    if a == [] {
      assert a + b == b;
    } else {
      assert (a + b)[1..] == a[1..] + b;
      FilesAppend(a[1..], b);
    }
  }

  /** The files of a disk are exactly its blocks when it holds no free block. */
  lemma {:induction false} FilesOfFiles(disk: seq<Block>)
    requires forall k :: 0 <= k < |disk| ==> disk[k].File?
    ensures Files(disk) == disk
  {
    if disk != [] {
      FilesOfFiles(disk[1..]);
    }
  }

  // ---------------------------------------------------------------- cell by cell

  /** Index of the last file block; `pop_back` discards the free blocks after it. */
  function LastFile(disk: seq<Block>): (r: Option<nat>)
    ensures r.Some? ==> r.value < |disk| && disk[r.value].File?
    ensures r.Some? ==> forall k :: r.value < k < |disk| ==> disk[k].Free?
    ensures r.None? ==> forall k :: 0 <= k < |disk| ==> disk[k].Free?
  {
    if disk == [] then None
    else if disk[|disk| - 1].File? then Some(|disk| - 1)
    else LastFile(disk[..|disk| - 1])
  }

  /** Free blocks contribute no files. */
  lemma {:induction false} NoFiles(disk: seq<Block>)
    requires forall k :: 0 <= k < |disk| ==> disk[k].Free?
    ensures Files(disk) == []
  {
    if disk != [] {
      NoFiles(disk[1..]);
    }
  }

  /** `defragment`: a file at the front stays; a free block at the front is
      replaced by the last file, dropping the free blocks behind it; when no
      file is left the disk ends. */
  function Defragment(disk: seq<Block>): (r: seq<Block>)
    decreases |disk|
    ensures forall k :: 0 <= k < |r| ==> r[k].File?
  {
    if disk == [] then []
    else if disk[0].File? then [disk[0]] + Defragment(disk[1..])
    else
      var rest := disk[1..];
      match LastFile(rest)
      case None => []
      case Some(k) => [rest[k]] + Defragment(rest[..k])
  }

  /** Compaction only reorders the file blocks: the result holds each of them
      exactly once, so it is as long as the number of files. */
  lemma {:induction false} DefragmentPermutes(disk: seq<Block>)
    ensures multiset(Defragment(disk)) == multiset(Files(disk))
    ensures |Defragment(disk)| == |Files(disk)|
    decreases |disk|
  {
    if disk != [] {
      var rest := disk[1..];
      FilesCons(disk);
      if disk[0].File? {
        DefragmentPermutes(rest);
      } else {
        match LastFile(rest)
        case None =>
          NoFiles(rest);
        case Some(k) =>
          DefragmentPermutes(rest[..k]);
          FilesUpToLast(rest, k);
      }
    }
    assert |multiset(Defragment(disk))| == |Defragment(disk)|;
  }

  lemma FilesCons(disk: seq<Block>)
    requires disk != []
    ensures Files(disk) == (if disk[0].File? then [disk[0]] else []) + Files(disk[1..])
  {
  }

  /** The files of a disk are those before its last file, then that file. */
  lemma FilesUpToLast(disk: seq<Block>, k: nat)
    requires LastFile(disk) == Some(k)
    ensures Files(disk) == Files(disk[..k]) + [disk[k]]
  {
    assert disk == disk[..k] + [disk[k]] + disk[k + 1..];
    FilesAppend(disk[..k] + [disk[k]], disk[k + 1..]);
    FilesAppend(disk[..k], [disk[k]]);
    assert Files([disk[k]]) == [disk[k]] + Files([]);
    NoFiles(disk[k + 1..]);
  }

  /** A file never moves right: position `k` of the result keeps the file that
      stood there, and a free position is filled from further right. */
  lemma {:induction false} DefragmentFillsFromRight(disk: seq<Block>, k: nat)
    requires k < |Defragment(disk)|
    ensures k < |disk|
    ensures disk[k].File? ==> Defragment(disk)[k] == disk[k]
    ensures exists j :: k <= j < |disk| && Defragment(disk)[k] == disk[j]
    decreases |disk|
  {
    var r := Defragment(disk);
    var rest := disk[1..];
    if disk[0].File? {
      if k > 0 {
        DefragmentFillsFromRight(rest, k - 1);
        var j :| k - 1 <= j < |rest| && Defragment(rest)[k - 1] == rest[j];
        assert r[k] == disk[j + 1];
      } else {
        assert r[k] == disk[0];
      }
    } else {
      var last := LastFile(rest).value;
      if k > 0 {
        DefragmentFillsFromRight(rest[..last], k - 1);
        var j :| k - 1 <= j < last && Defragment(rest[..last])[k - 1] == rest[..last][j];
        assert r[k] == disk[j + 1];
      } else {
        assert r[k] == disk[last + 1];
      }
    }
  }

  // ---------------------------------------------------------------- whole files

  /** The backwards pass of `defragment_by_block` over the blocks before index
      `i`, into a free span of `free` cells: each file that fits, from the right,
      is taken out, its place becomes free space of its size, and the span
      shrinks. Returns the taken files, the updated disk and what is left. */
  function Fill(disk: seq<Block>, i: nat, free: nat): (r: (seq<Block>, seq<Block>, nat))
    requires i <= |disk|
    decreases i
    ensures |r.1| == |disk| && r.1[i..] == disk[i..]
    ensures r.2 <= free
    ensures TotalSize(r.0) + r.2 == free
    ensures forall k :: 0 <= k < |r.0| ==> r.0[k].File?
  {
    if i == 0 then ([], disk, free)
    else
      var j := i - 1;
      match disk[j]
      case File(_, size) =>
        if size <= free then
          var (taken, d, left) := Fill(disk[j := Free(size)], j, free - size);
          assert TotalSize([disk[j]] + taken) == size + TotalSize(taken) by {
            assert ([disk[j]] + taken)[1..] == taken;
          }
          ([disk[j]] + taken, d, left)
        else Fill(disk, j, free)
      case Free(_) => Fill(disk, j, free)
  }

  /** Replacing a file by free space of the same size moves the file out of
      the disk's files and keeps its size. */
  lemma ReplaceByFree(disk: seq<Block>, j: nat)
    requires j < |disk| && disk[j].File?
    ensures TotalSize(disk[j := Free(disk[j].size)]) == TotalSize(disk)
    ensures multiset(Files(disk)) == multiset(Files(disk[j := Free(disk[j].size)])) + multiset{disk[j]}
  {
    var d := disk[j := Free(disk[j].size)];
    assert disk == disk[..j] + [disk[j]] + disk[j + 1..];
    assert d == disk[..j] + [d[j]] + disk[j + 1..];
    TotalSizeAppend(disk[..j] + [disk[j]], disk[j + 1..]);
    TotalSizeAppend(disk[..j], [disk[j]]);
    TotalSizeAppend(disk[..j] + [d[j]], disk[j + 1..]);
    TotalSizeAppend(disk[..j], [d[j]]);
    assert TotalSize([disk[j]]) == disk[j].size + TotalSize([]);
    assert TotalSize([d[j]]) == d[j].size + TotalSize([]);
    FilesAppend(disk[..j] + [disk[j]], disk[j + 1..]);
    FilesAppend(disk[..j], [disk[j]]);
    FilesAppend(disk[..j] + [d[j]], disk[j + 1..]);
    FilesAppend(disk[..j], [d[j]]);
    assert Files([disk[j]]) == [disk[j]] + Files([]);
    assert Files([d[j]]) == [] + Files([]);
  }

  /** The backwards pass loses no cell and no file: the taken files plus the
      files left on the disk are the files before, and the sizes agree. */
  lemma {:induction false} FillKeeps(disk: seq<Block>, i: nat, free: nat)
    requires i <= |disk|
    ensures TotalSize(Fill(disk, i, free).1) == TotalSize(disk)
    ensures multiset(Fill(disk, i, free).0) + multiset(Files(Fill(disk, i, free).1)) == multiset(Files(disk))
    decreases i
  {
    if i > 0 {
      var j := i - 1;
      if disk[j].File? && disk[j].size <= free {
        var d := disk[j := Free(disk[j].size)];
        var (taken, d2, left) := Fill(d, j, free - disk[j].size);
        assert Fill(disk, i, free) == ([disk[j]] + taken, d2, left);
        ReplaceByFree(disk, j);
        FillKeeps(d, j, free - disk[j].size);
        assert multiset([disk[j]] + taken) == multiset{disk[j]} + multiset(taken);
      } else {
        assert Fill(disk, i, free) == Fill(disk, j, free);
        FillKeeps(disk, j, free);
      }
    }
  }

  /** `defragment_by_block`: files at the front stay; a free span at the front
      takes every file from the rest that fits, right to left, and its unused
      remainder stays free when it is not empty. */
  function DefragByBlock(disk: seq<Block>): (r: seq<Block>)
    decreases |disk|
    ensures forall k :: 0 <= k < |r| && r[k].Free? ==> r[k].size > 0
  {
    if disk == [] then []
    else match disk[0]
      case File(_, _) => [disk[0]] + DefragByBlock(disk[1..])
      case Free(size) =>
        var (taken, rest, left) := Fill(disk[1..], |disk| - 1, size);
        var span := taken + (if left > 0 then [Free(left)] else []);
        assert forall k :: 0 <= k < |span| && span[k].Free? ==> span[k].size > 0;
        span + DefragByBlock(rest)
  }

  /** Whole-file compaction keeps the disk size and each file, with its size,
      exactly once. */
  lemma {:induction false} DefragByBlockKeeps(disk: seq<Block>)
    ensures TotalSize(DefragByBlock(disk)) == TotalSize(disk)
    ensures multiset(Files(DefragByBlock(disk))) == multiset(Files(disk))
    decreases |disk|, 1
  {
    if disk != [] {
      assert disk == [disk[0]] + disk[1..];
      TotalSizeAppend([disk[0]], disk[1..]);
      FilesAppend([disk[0]], disk[1..]);
      assert TotalSize([disk[0]]) == disk[0].size + TotalSize([]);
      assert Files([disk[0]]) == (if disk[0].File? then [disk[0]] else []) + Files([]);
      match disk[0]
      case File(_, _) =>
        DefragByBlockKeeps(disk[1..]);
        TotalSizeAppend([disk[0]], DefragByBlock(disk[1..]));
        FilesAppend([disk[0]], DefragByBlock(disk[1..]));
      case Free(size) =>
        SpanKeeps(disk[1..], size);
    }
  }

  /** A free span at the front of the disk: what it emits plus the compaction
      of the rest has the size and the files of the rest plus the span. */
  lemma {:induction false} SpanKeeps(rest: seq<Block>, size: nat)
    decreases |rest| + 1, 0
    ensures TotalSize(DefragByBlock([Free(size)] + rest)) == size + TotalSize(rest)
    ensures multiset(Files(DefragByBlock([Free(size)] + rest))) == multiset(Files(rest))
  {
    var disk := [Free(size)] + rest;
    assert disk[1..] == rest;
    var (taken, after, left) := Fill(rest, |rest|, size);
    var tail := if left > 0 then [Free(left)] else [];
    assert DefragByBlock(disk) == taken + tail + DefragByBlock(after);
    FillKeeps(rest, |rest|, size);
    DefragByBlockKeeps(after);
    SpanAdds(taken, left, DefragByBlock(after));
  }

  /** Moved files, the free space left over, then the rest of the disk. */
  lemma SpanAdds(taken: seq<Block>, left: nat, out: seq<Block>)
    requires forall k :: 0 <= k < |taken| ==> taken[k].File?
    ensures var tail := if left > 0 then [Free(left)] else [];
      TotalSize(taken + tail + out) == TotalSize(taken) + left + TotalSize(out)
      && Files(taken + tail + out) == taken + Files(out)
  {
    var tail := if left > 0 then [Free(left)] else [];
    TotalSizeAppend(taken + tail, out);
    TotalSizeAppend(taken, tail);
    FilesAppend(taken + tail, out);
    FilesAppend(taken, tail);
    assert TotalSize(tail) == left && Files(tail) == [] by {
      if left > 0 {
        assert TotalSize(tail) == left + TotalSize([]);
        assert Files(tail) == [] + Files([]);
      }
    }
    FilesOfFiles(taken);
    assert taken + [] == taken;
  }

  // ---------------------------------------------------------------- files move left

  lemma PrefixSize(s: seq<Block>, t: nat)
    requires t <= |s|
    ensures TotalSize(s[..t]) <= TotalSize(s)
  {
    assert s == s[..t] + s[t..];
    TotalSizeAppend(s[..t], s[t..]);
  }

  /** Blocks of the same sizes, index by index, cover the same cells. */
  lemma {:induction false} SameSizes(a: seq<Block>, b: seq<Block>)
    requires |a| == |b| && forall k :: 0 <= k < |a| ==> a[k].size == b[k].size
    ensures TotalSize(a) == TotalSize(b)
  {
    if a != [] {
      SameSizes(a[1..], b[1..]);
    }
  }

  /** The backwards pass keeps the size of every block: a file it takes out
      leaves free space of its own size. */
  lemma {:induction false} FillSizes(disk: seq<Block>, i: nat, free: nat)
    requires i <= |disk|
    ensures forall k :: 0 <= k < |disk| ==> Fill(disk, i, free).1[k].size == disk[k].size
    decreases i
  {
    if i > 0 {
      var j := i - 1;
      if disk[j].File? && disk[j].size <= free {
        FillSizes(disk[j := Free(disk[j].size)], j, free - disk[j].size);
      } else {
        FillSizes(disk, j, free);
      }
    }
  }

  /** Every file the backwards pass passes over either stays where it is or is
      taken into the free span. */
  lemma {:induction false} FillTracks(disk: seq<Block>, i: nat, free: nat, k: nat)
    requires i <= |disk| && k < |disk| && disk[k].File?
    ensures Fill(disk, i, free).1[k] == disk[k] || disk[k] in Fill(disk, i, free).0
    decreases i
  {
    if i > 0 {
      var j := i - 1;
      if disk[j].File? && disk[j].size <= free {
        var d := disk[j := Free(disk[j].size)];
        var (taken, d2, left) := Fill(d, j, free - disk[j].size);
        assert Fill(disk, i, free) == ([disk[j]] + taken, d2, left);
        if k != j {
          FillTracks(d, j, free - disk[j].size, k);
        }
      } else {
        FillTracks(disk, j, free, k);
      }
    }
  }

  /** Whole-file compaction never moves a file right: each file block of the
      disk is found in the result at a block that starts at or before the cell
      where it started. */
  lemma {:induction false} DefragByBlockMovesLeft(disk: seq<Block>, j: nat)
    requires j < |disk| && disk[j].File?
    ensures exists i :: 0 <= i < |DefragByBlock(disk)| && DefragByBlock(disk)[i] == disk[j]
                        && TotalSize(DefragByBlock(disk)[..i]) <= TotalSize(disk[..j])
    decreases |disk|
  {
    var r := DefragByBlock(disk);
    var rest := disk[1..];
    if j == 0 {
      assert r[0] == disk[0] && r[..0] == [];
    } else {
      var jr := j - 1;
      assert rest[jr] == disk[j];
      assert disk[..j] == [disk[0]] + rest[..jr];
      TotalSizeAppend([disk[0]], rest[..jr]);
      assert TotalSize([disk[0]]) == disk[0].size + TotalSize([]);
      match disk[0]
      case File(_, _) =>
        FileFrontMovesLeft(disk, j);
      case Free(size) =>
        FreeFrontMovesLeft(disk, j);
    }
  }

  /** A file at the front stays, and the rest is compacted behind it. */
  lemma {:induction false} FileFrontMovesLeft(disk: seq<Block>, j: nat)
    requires 0 < j < |disk| && disk[j].File? && disk[0].File?
    requires TotalSize(disk[..j]) == disk[0].size + TotalSize(disk[1..][..j - 1])
    ensures exists i :: 0 <= i < |DefragByBlock(disk)| && DefragByBlock(disk)[i] == disk[j]
                        && TotalSize(DefragByBlock(disk)[..i]) <= TotalSize(disk[..j])
    decreases |disk|, 0
  {
    var rest := disk[1..];
    var out := DefragByBlock(rest);
    var r := DefragByBlock(disk);
    assert r == [disk[0]] + out;
    assert rest[j - 1] == disk[j];
    DefragByBlockMovesLeft(rest, j - 1);
    var i :| 0 <= i < |out| && out[i] == rest[j - 1] && TotalSize(out[..i]) <= TotalSize(rest[..j - 1]);
    assert r[..i + 1] == [disk[0]] + out[..i];
    TotalSizeAppend([disk[0]], out[..i]);
    assert TotalSize([disk[0]]) == disk[0].size + TotalSize([]);
    assert r[i + 1] == disk[j];
  }

  /** A free span at the front: the front space is filled from the back, and
      the rest is compacted behind the span. */
  lemma {:induction false} FreeFrontMovesLeft(disk: seq<Block>, j: nat)
    requires 0 < j < |disk| && disk[j].File? && disk[0].Free?
    requires TotalSize(disk[..j]) == disk[0].size + TotalSize(disk[1..][..j - 1])
    ensures exists i :: 0 <= i < |DefragByBlock(disk)| && DefragByBlock(disk)[i] == disk[j]
                        && TotalSize(DefragByBlock(disk)[..i]) <= TotalSize(disk[..j])
    decreases |disk|, 1
  {
    var rest := disk[1..];
    var f := Fill(rest, |rest|, disk[0].size);
    var span := f.0 + (if f.2 > 0 then [Free(f.2)] else []);
    assert DefragByBlock(disk) == span + DefragByBlock(f.1);
    assert rest[j - 1] == disk[j];
    FillTracks(rest, |rest|, disk[0].size, j - 1);
    if disk[j] in f.0 {
      TakenMovesLeft(f.0, if f.2 > 0 then [Free(f.2)] else [], DefragByBlock(f.1), disk[j], disk[0].size, TotalSize(disk[..j]));
    } else {
      FillSizes(rest, |rest|, disk[0].size);
      SameSizes(f.1[..j - 1], rest[..j - 1]);
      DefragByBlockMovesLeft(f.1, j - 1);
      KeptMovesLeft(f.0, f.2, DefragByBlock(f.1), disk[j], TotalSize(f.1[..j - 1]), TotalSize(disk[..j]));
    }
  }

  /** A file taken into the span lies within the span's cells, which start
      where the free space did. */
  lemma TakenMovesLeft(taken: seq<Block>, tail: seq<Block>, out: seq<Block>, b: Block, free: nat, at: nat)
    requires b in taken && TotalSize(taken) <= free <= at
    ensures exists i :: 0 <= i < |taken + tail + out| && (taken + tail + out)[i] == b
                        && TotalSize((taken + tail + out)[..i]) <= at
  {
    var t :| 0 <= t < |taken| && taken[t] == b;
    assert (taken + tail + out)[..t] == taken[..t];
    PrefixSize(taken, t);
    assert (taken + tail + out)[t] == b;
  }

  /** A file left behind is found in the compacted rest, which starts after the
      span; the span covers exactly the front free space. */
  lemma KeptMovesLeft(taken: seq<Block>, left: nat, out: seq<Block>, b: Block, before: nat, at: nat)
    requires at == TotalSize(taken) + left + before
    requires exists i :: 0 <= i < |out| && out[i] == b && TotalSize(out[..i]) <= before
    ensures var span := taken + (if left > 0 then [Free(left)] else []);
            exists i :: 0 <= i < |span + out| && (span + out)[i] == b && TotalSize((span + out)[..i]) <= at
  {
    var tail := if left > 0 then [Free(left)] else [];
    var span := taken + tail;
    var i :| 0 <= i < |out| && out[i] == b && TotalSize(out[..i]) <= before;
    assert (span + out)[|span| + i] == b;
    assert (span + out)[..|span| + i] == span + out[..i];
    TotalSizeAppend(span, out[..i]);
    TotalSizeAppend(taken, tail);
    assert TotalSize(tail) == left by {
      if left > 0 {
        assert TotalSize(tail) == left + TotalSize([]);
      }
    }
  }

  /** The same in cells: file `j` starts at cell `TotalSize(disk[..j])` of the
      decompressed disk, and after whole-file compaction one of its cells lies
      at or before that cell. */
  lemma DefragByBlockCellsLeft(disk: seq<Block>, j: nat)
    requires j < |disk| && disk[j].File? && disk[j].size > 0
    ensures TotalSize(disk[..j]) < |Decompress(disk)|
    ensures Decompress(disk)[TotalSize(disk[..j])] == Unit(disk[j])
    ensures exists c :: 0 <= c <= TotalSize(disk[..j]) && c < |Decompress(DefragByBlock(disk))|
                        && Decompress(DefragByBlock(disk))[c] == Unit(disk[j])
  {
    DecompressCell(disk, j, TotalSize(disk[..j]));
    DefragByBlockMovesLeft(disk, j);
    var r := DefragByBlock(disk);
    var i :| 0 <= i < |r| && r[i] == disk[j] && TotalSize(r[..i]) <= TotalSize(disk[..j]);
    DecompressCell(r, i, TotalSize(r[..i]));
  }

  // ---------------------------------------------------------------- the answers

  /** `process` of the first part. */
  function CellChecksum(input: string): nat {
    Checksum(Defragment(Decompress(Parse(input))))
  }

  /** `process` of the second part. */
  function FileChecksum(input: string): nat {
    Checksum(Decompress(DefragByBlock(Parse(input))))
  }
}
