/**
 Reading and writing a file's bytes through 512-byte sectors: inode_read_at and inode_write_at of
 pintos-kaist/filesys/inode.c. A file is one extent of consecutive sectors.

 The disk is an array of sectors with atomic reads and writes. `Byte(disk, a)` views it as one
 long array of bytes, in which a file occupies the addresses from `start * 512` on.
 */
module InodeIO {

  const SECTOR: nat := 512

  type Bytes = seq<int>

  /** The parts of `struct inode` that matter here. */
  datatype Inode = Inode(start: nat, length: nat, denyWriteCnt: nat)

  function BytesToSectors(size: nat): (r: nat) {
    (size + SECTOR - 1) / SECTOR
  }

  ghost predicate DiskOk(disk: seq<Bytes>) {
    forall i :: 0 <= i < |disk| ==> |disk[i]| == SECTOR
  }

  /** The inode's extent lies on the disk. */
  ghost predicate OnDisk(inode: Inode, disk: seq<Bytes>) {
    DiskOk(disk) && inode.start + BytesToSectors(inode.length) <= |disk|
  }

  ghost function Byte(disk: seq<Bytes>, a: nat): int
    requires DiskOk(disk) && a < |disk| * SECTOR
  {
    disk[a / SECTOR][a % SECTOR]
  }

  lemma Fits(inode: Inode, disk: seq<Bytes>, pos: nat)
    requires OnDisk(inode, disk) && pos < inode.length
    ensures inode.start + pos / SECTOR < inode.start + BytesToSectors(inode.length)
    ensures inode.start * SECTOR + pos < |disk| * SECTOR
    ensures (inode.start * SECTOR + pos) / SECTOR == inode.start + pos / SECTOR
    ensures (inode.start * SECTOR + pos) % SECTOR == pos % SECTOR
  {
  }

  /** The bytes of the file. */
  ghost function Content(inode: Inode, disk: seq<Bytes>): (r: Bytes)
    requires OnDisk(inode, disk)
    ensures |r| == inode.length
    ensures forall p :: 0 <= p < inode.length ==>
              inode.start * SECTOR + p < |disk| * SECTOR && r[p] == Byte(disk, inode.start * SECTOR + p)
  {
    seq(inode.length, p requires 0 <= p < inode.length =>
      Fits(inode, disk, p); Byte(disk, inode.start * SECTOR + p))
  }

  function Min(a: int, b: int): int {
    if a < b then a else b
  }

  /** How many bytes a transfer of `size` at `offset` can move: none past the end. */
  function Transfer(inode: Inode, size: int, offset: nat): (n: nat) {
    if size <= 0 || inode.length <= offset then 0 else Min(size, inode.length - offset)
  }

  /** Without a bounce buffer only leading whole sectors move, and none unless the offset is aligned. */
  function WholeSectors(inode: Inode, size: int, offset: nat): (n: nat)
    ensures n <= Transfer(inode, size, offset)
  {
    if offset % SECTOR != 0 then 0 else Transfer(inode, size, offset) / SECTOR * SECTOR
  }

  /** What one round of either loop moves. */
  function Chunk(inode: Inode, size: int, offset: nat): int {
    Min(size, Min(inode.length - offset, SECTOR - offset % SECTOR))
  }

  predicate WholeSoFar(offset: nat, n: nat) {
    n > 0 ==> n % SECTOR == 0 && offset % SECTOR == 0
  }

  lemma Aligned(offset: nat, n: nat, chunk: int)
    ensures WholeSoFar(offset, n) && (offset + n) % SECTOR == 0 && chunk == SECTOR ==> WholeSoFar(offset, n + chunk)
  {
  }

  lemma AllWhole(inode: Inode, size: int, offset: nat, n: nat)
    requires WholeSoFar(offset, n) && n == Transfer(inode, size, offset)
    ensures n == WholeSectors(inode, size, offset)
  {
  }

  /** Where the loop stops for want of a bounce buffer. */
  lemma StopsShort(inode: Inode, size: int, offset: nat, n: nat)
    requires WholeSoFar(offset, n) && n < Transfer(inode, size, offset)
    requires !((offset + n) % SECTOR == 0 && Chunk(inode, size - n, offset + n) == SECTOR)
    ensures n == WholeSectors(inode, size, offset)
  {
    var t := Transfer(inode, size, offset);
    if offset % SECTOR == 0 {
      assert (offset + n) % SECTOR == 0;
      assert t - n < SECTOR;
    }
  }

  /** What both loops know after `n` bytes. */
  ghost predicate SoFar(inode: Inode, size: int, offset: nat, n: nat, memory: bool) {
    n <= Transfer(inode, size, offset) && (!memory ==> WholeSoFar(offset, n))
  }

  lemma OneMoreChunk(inode: Inode, size: int, offset: nat, n: nat, memory: bool)
    requires SoFar(inode, size, offset, n, memory) && Chunk(inode, size - n, offset + n) > 0
    ensures var chunk, pos := Chunk(inode, size - n, offset + n), offset + n;
            && pos + chunk <= inode.length && n + chunk <= size && chunk <= SECTOR - pos % SECTOR
            && (memory || (pos % SECTOR == 0 && chunk == SECTOR) ==> SoFar(inode, size, offset, n + chunk, memory))
  {
    Aligned(offset, n, Chunk(inode, size - n, offset + n));
  }

  /** How far either loop has come when it stops, for want of bytes or of a bounce buffer. */
  lemma Stops(inode: Inode, size: int, offset: nat, n: nat, memory: bool)
    requires SoFar(inode, size, offset, n, memory)
    requires || size <= n
             || Chunk(inode, size - n, offset + n) <= 0
             || (!memory && !((offset + n) % SECTOR == 0 && Chunk(inode, size - n, offset + n) == SECTOR))
    ensures n == if memory then Transfer(inode, size, offset) else WholeSectors(inode, size, offset)
  {
    if !memory {
      if n == Transfer(inode, size, offset) {
        AllWhole(inode, size, offset, n);
      } else {
        StopsShort(inode, size, offset, n);
      }
    }
  }

  class Disk {
    var sectors: seq<Bytes>

    /** Reads up to `size` bytes at `offset` into `buffer`. `memory` says whether the bounce buffer
        can be allocated. */
    method ReadAt(inode: Inode, buffer: array<int>, size: int, offset: nat, memory: bool) returns (n: nat)
      requires OnDisk(inode, sectors) && size <= buffer.Length
      modifies buffer
      ensures n == if memory then Transfer(inode, size, offset) else WholeSectors(inode, size, offset)
      ensures n > 0 ==> buffer[..n] == Content(inode, sectors)[offset..offset + n]
      ensures buffer[n..] == old(buffer[n..])
    {
      n := 0;
      var left, pos := size, offset;
      while left > 0
        invariant left == size - n && pos == offset + n && SoFar(inode, size, offset, n, memory)
        invariant forall i :: 0 <= i < n ==> buffer[i] == Content(inode, sectors)[offset + i]
        invariant forall i :: n <= i < buffer.Length ==> buffer[i] == old(buffer[i])
        decreases left
      {
        var chunk := Chunk(inode, left, pos);
        if chunk <= 0 {
          break;
        }
        OneMoreChunk(inode, size, offset, n, memory);
        var ok := ReadChunk(inode, buffer, n, chunk, pos, memory);
        if !ok {
          break;
        }
        left, pos, n := left - chunk, pos + chunk, n + chunk;
      }
      Stops(inode, size, offset, n, memory);
    }

    /** One round of the read loop: a whole sector comes straight in, a part of one through the bounce
        buffer. */
    method ReadChunk(inode: Inode, buffer: array<int>, n: nat, chunk: nat, pos: nat, memory: bool) returns (ok: bool)
      requires OnDisk(inode, sectors) && pos + chunk <= inode.length && 0 < chunk <= SECTOR - pos % SECTOR
      requires n + chunk <= buffer.Length
      modifies buffer
      ensures ok <==> memory || (pos % SECTOR == 0 && chunk == SECTOR)
      ensures forall i :: 0 <= i < buffer.Length ==>
                buffer[i] == if ok && n <= i < n + chunk then Content(inode, sectors)[pos + i - n] else old(buffer[i])
    {
      var ofs := pos % SECTOR;
      Fits(inode, sectors, pos);
      var sector := inode.start + pos / SECTOR;
      ok := memory || (ofs == 0 && chunk == SECTOR);
      if ok {
        forall p | pos <= p < pos + chunk ensures Content(inode, sectors)[p] == sectors[sector][p - pos + ofs] {
          Fits(inode, sectors, p);
        }
        CopyIn(buffer, n, sectors[sector], ofs, chunk);
      }
    }

    /** memcpy into the caller's buffer. */
    method CopyIn(buffer: array<int>, at: nat, src: Bytes, ofs: nat, cnt: nat)
      requires at + cnt <= buffer.Length && ofs + cnt <= |src|
      modifies buffer
      ensures forall i :: 0 <= i < buffer.Length ==>
                buffer[i] == if at <= i < at + cnt then src[ofs + i - at] else old(buffer[i])
    {
      var j := 0;
      while j < cnt
        invariant 0 <= j <= cnt
        invariant forall i :: 0 <= i < buffer.Length ==>
                    buffer[i] == if at <= i < at + j then src[ofs + i - at] else old(buffer[i])
      {
        buffer[at + j] := src[ofs + j];
        j := j + 1;
      }
    }

    /** One round of the write loop: a whole sector goes straight out, a part of one through the
        bounce buffer. */
    method WriteChunk(inode: Inode, data: Bytes, pos: nat, memory: bool) returns (ok: bool)
      requires OnDisk(inode, sectors) && pos + |data| <= inode.length && 0 < |data| <= SECTOR - pos % SECTOR
      modifies this
      ensures |sectors| == |old(sectors)| && DiskOk(sectors)
      ensures ok <==> memory || (pos % SECTOR == 0 && |data| == SECTOR)
      ensures !ok ==> sectors == old(sectors)
      ensures ok ==> Written(old(sectors), sectors, inode.start * SECTOR + pos, data)
    {
      var ofs := pos % SECTOR;
      Fits(inode, sectors, pos);
      var sector := inode.start + pos / SECTOR;
      ghost var old' := sectors[sector];
      if ofs == 0 && |data| == SECTOR {
        assert data == old'[..ofs] + data + old'[ofs + |data|..];
        sectors := sectors[sector := data];
      } else {
        if !memory {
          return false;
        }
        // the chunk never fills a whole sector here, so the old contents are read first
        var bounce := sectors[sector];
        bounce := bounce[..ofs] + data + bounce[ofs + |data|..];
        sectors := sectors[sector := bounce];
      }
      WriteSector(old(sectors), sectors, sector, ofs, data);
      return true;
    }

    /** ... added to the bytes written so far. */
    method WriteNext(inode: Inode, buffer: Bytes, n: nat, chunk: nat, pos: nat, memory: bool, ghost disk: seq<Bytes>, ghost a: nat)
      returns (ok: bool)
      requires OnDisk(inode, sectors) && pos + chunk <= inode.length && 0 < chunk <= SECTOR - pos % SECTOR
      requires n + chunk <= |buffer| && inode.start * SECTOR + pos == a + n && |sectors| == |disk| && DiskOk(disk)
      requires Written(disk, sectors, a, buffer[..n])
      modifies this
      ensures OnDisk(inode, sectors) && |sectors| == |disk|
      ensures ok <==> memory || (pos % SECTOR == 0 && chunk == SECTOR)
      ensures Written(disk, sectors, a, if ok then buffer[..n + chunk] else buffer[..n])
    {
      ghost var before := sectors;
      ok := WriteChunk(inode, buffer[n..n + chunk], pos, memory);
      if ok {
        WrittenMore(disk, before, sectors, a, buffer, n, chunk);
      }
    }

    /** Writes up to `size` bytes of `buffer` at `offset`; a denied or too-far write moves nothing. */
    method WriteAt(inode: Inode, buffer: Bytes, size: int, offset: nat, memory: bool) returns (n: nat)
      requires OnDisk(inode, sectors) && size <= |buffer|
      modifies this
      ensures OnDisk(inode, sectors) && |sectors| == |old(sectors)|
      ensures n == if inode.denyWriteCnt > 0 then 0
                   else if memory then Transfer(inode, size, offset) else WholeSectors(inode, size, offset)
      ensures Written(old(sectors), sectors, inode.start * SECTOR + offset, buffer[..n])
    {
      n := 0;
      if inode.denyWriteCnt > 0 {
        return;
      }
      var left, pos := size, offset;
      ghost var a := inode.start * SECTOR + offset;
      while left > 0
        invariant left == size - n && pos == offset + n && SoFar(inode, size, offset, n, memory)
        invariant OnDisk(inode, sectors) && |sectors| == |old(sectors)|
        invariant Written(old(sectors), sectors, a, buffer[..n])
        decreases left
      {
        var chunk := Chunk(inode, left, pos);
        if chunk <= 0 {
          break;
        }
        OneMoreChunk(inode, size, offset, n, memory);
        var ok := WriteNext(inode, buffer, n, chunk, pos, memory, old(sectors), a);
        if !ok {
          break;
        }
        left, pos, n := left - chunk, pos + chunk, n + chunk;
      }
      Stops(inode, size, offset, n, memory);
    }
  }

  /** `disk'` is `disk` with `data` written from address `a` on, and not a byte else changed. */
  ghost predicate Written(disk: seq<Bytes>, disk': seq<Bytes>, a: nat, data: Bytes) {
    && DiskOk(disk) && DiskOk(disk') && |disk'| == |disk|
    && (data != [] ==> a + |data| <= |disk| * SECTOR)
    && forall b {:trigger Byte(disk', b)} :: 0 <= b < |disk| * SECTOR ==>
         Byte(disk', b) == if a <= b < a + |data| then data[b - a] else Byte(disk, b)
  }

  lemma WriteSector(disk: seq<Bytes>, disk': seq<Bytes>, sector: nat, ofs: nat, data: Bytes)
    requires DiskOk(disk) && sector < |disk| && ofs + |data| <= SECTOR
    requires disk' == disk[sector := disk[sector][..ofs] + data + disk[sector][ofs + |data|..]]
    ensures Written(disk, disk', sector * SECTOR + ofs, data)
  {
    var a := sector * SECTOR + ofs;
    forall b | 0 <= b < |disk| * SECTOR
      ensures Byte(disk', b) == if a <= b < a + |data| then data[b - a] else Byte(disk, b)
    {
      var s, k := b / SECTOR, b % SECTOR;
      assert b == s * SECTOR + k;
      if s == sector {
        assert disk'[s][k] == if ofs <= k < ofs + |data| then data[k - ofs] else disk[s][k];
      }
    }
  }

  lemma WrittenMore(d0: seq<Bytes>, d1: seq<Bytes>, d2: seq<Bytes>, a: nat, buffer: Bytes, n: nat, m: nat)
    requires n + m <= |buffer|
    requires Written(d0, d1, a, buffer[..n]) && Written(d1, d2, a + n, buffer[n..n + m])
    ensures Written(d0, d2, a, buffer[..n + m])
  {
    forall b | 0 <= b < |d0| * SECTOR
      ensures Byte(d2, b) == if a <= b < a + n + m then buffer[..n + m][b - a] else Byte(d0, b)
    {
      assert Byte(d1, b) == if a <= b < a + n then buffer[..n][b - a] else Byte(d0, b);
    }
  }

  /** The file's bytes after a write: the slice is replaced and the rest stays. */
  lemma WriteUpdatesSlice(inode: Inode, disk: seq<Bytes>, disk': seq<Bytes>, offset: nat, data: Bytes)
    requires OnDisk(inode, disk) && OnDisk(inode, disk')
    requires Written(disk, disk', inode.start * SECTOR + offset, data)
    requires data != [] ==> offset + |data| <= inode.length
    ensures data == [] ==> Content(inode, disk') == Content(inode, disk)
    ensures data != [] ==>
              Content(inode, disk') == Content(inode, disk)[..offset] + data + Content(inode, disk)[offset + |data|..]
    ensures data != [] ==> Content(inode, disk')[offset..offset + |data|] == data
  {
    forall p | 0 <= p < inode.length
      ensures Content(inode, disk')[p] == if offset <= p < offset + |data| then data[p - offset]
                                          else Content(inode, disk)[p]
    {
      var b := inode.start * SECTOR + p;
      assert b < |disk| * SECTOR;
    }
  }

  /** A write to one file changes no byte of a file with a disjoint extent. */
  lemma WriteKeepsOthers(inode: Inode, other: Inode, disk: seq<Bytes>, disk': seq<Bytes>, offset: nat, data: Bytes)
    requires OnDisk(inode, disk) && OnDisk(other, disk) && OnDisk(other, disk')
    requires Written(disk, disk', inode.start * SECTOR + offset, data)
    requires data != [] ==> offset + |data| <= inode.length
    requires inode.start + BytesToSectors(inode.length) <= other.start
             || other.start + BytesToSectors(other.length) <= inode.start
    ensures Content(other, disk') == Content(other, disk)
  {
    forall p | 0 <= p < other.length
      ensures Content(other, disk')[p] == Content(other, disk)[p]
    {
      var b := other.start * SECTOR + p;
      Fits(other, disk, p);
      assert b < |disk| * SECTOR;
      if data != [] {
        Fits(inode, disk, offset);
        Fits(inode, disk, offset + |data| - 1);
      }
    }
  }
}
