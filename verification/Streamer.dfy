/** The disk and the byte streamer over its 512-byte sectors. */
module Streamer {
  import opened Bytes

  const SECTOR_SIZE: int := 512

  /** The ATA device: a byte image moved one whole sector at a time. */
  class Disk {
    var image: seq<Byte>

    constructor (bytes: seq<Byte>)
      ensures image == bytes
    {
      image := bytes;
    }

    method ReadBlock(lba: nat) returns (buf: array<Byte>)
      requires (lba + 1) * SECTOR_SIZE <= |image|
      ensures fresh(buf) && buf[..] == image[lba * SECTOR_SIZE..(lba + 1) * SECTOR_SIZE]
    {
      var sector := image[lba * SECTOR_SIZE..(lba + 1) * SECTOR_SIZE];
      buf := new Byte[SECTOR_SIZE](i requires 0 <= i < |sector| => sector[i]);
      assert buf[..] == sector;
    }

    method WriteBlock(lba: nat, buf: array<Byte>)
      requires (lba + 1) * SECTOR_SIZE <= |image|
      requires buf.Length == SECTOR_SIZE
      modifies this
      ensures image == Splice(old(image), lba * SECTOR_SIZE, buf[..])
    {
      image := Splice(image, lba * SECTOR_SIZE, buf[..]);
    }
  }

  /** A stream read copies `buf[offset..offset + n]` out of one sector buffer per pass,
      so it stays inside that buffer exactly under this recursion. */
  predicate ReadInBuffer(pos: nat, total: nat)
    decreases total
  {
    && pos % SECTOR_SIZE + Min(total, SECTOR_SIZE) <= SECTOR_SIZE
    && (total > SECTOR_SIZE ==> ReadInBuffer(pos + SECTOR_SIZE, total - SECTOR_SIZE))
  }

  /** What a caller can check beforehand: start on a sector, or stay in one. */
  lemma {:induction false} ReadInBufferIff(pos: nat, total: nat)
    ensures ReadInBuffer(pos, total) <==> pos % SECTOR_SIZE == 0 || pos % SECTOR_SIZE + total <= SECTOR_SIZE
    decreases total
  {
    if total > SECTOR_SIZE {
      ReadInBufferIff(pos + SECTOR_SIZE, total - SECTOR_SIZE);
    }
  }

  class DiskStream {
    const disk: Disk
    var pos: int

    constructor (d: Disk)
      ensures disk == d && pos == 0
    {
      disk := d;
      pos := 0;
    }

    method Seek(p: int)
      modifies this
      ensures pos == p
    {
      pos := p;
    }

    /** A read returns the bytes at the stream position and moves past them. */
    method Read(total: nat) returns (out: seq<Byte>)
      requires 0 <= pos < |disk.image| && pos + total <= |disk.image|
      requires |disk.image| % SECTOR_SIZE == 0
      requires ReadInBuffer(pos, total)
      modifies this
      ensures out == disk.image[old(pos)..old(pos) + total]
      ensures pos == old(pos) + total
      decreases total
    {
      var sector := pos / SECTOR_SIZE;
      var offset := pos % SECTOR_SIZE;
      var buf := disk.ReadBlock(sector);
      var n := if total > SECTOR_SIZE then SECTOR_SIZE else total;
      out := buf[offset..offset + n];
      assert out == disk.image[pos..pos + n];
      pos := pos + n;
      if total > SECTOR_SIZE {
        var rest := Read(total - SECTOR_SIZE);
        out := out + rest;
      }
    }

    /** Read-modify-write over any number of sectors is one flat splice of the image. */
    method Write(data: seq<Byte>)
      requires 0 <= pos < |disk.image| && pos + |data| <= |disk.image|
      requires |disk.image| % SECTOR_SIZE == 0
      modifies this, disk
      ensures disk.image == Splice(old(disk.image), old(pos), data)
      ensures pos == old(pos) + |data|
      decreases |data|
    {
      var sector := pos / SECTOR_SIZE;
      var offset := pos % SECTOR_SIZE;
      var buf := disk.ReadBlock(sector);
      var n := if |data| > SECTOR_SIZE - offset then SECTOR_SIZE - offset else |data|;
      Overlay(buf, offset, data[..n]);
      disk.WriteBlock(sector, buf);
      assert disk.image == Splice(old(disk.image), old(pos), data[..n]) by {
        assert sector * SECTOR_SIZE + offset == pos;
        SpliceThrough(old(disk.image), sector * SECTOR_SIZE, SECTOR_SIZE, offset, data[..n]);
      }
      pos := pos + n;
      SpliceRest(old(disk.image), old(pos), data, n);
      if |data| > n {
        Write(data[n..]);
      }
    }

    /** memcpy(buf + offset, data, |data|). */
    static method Overlay(buf: array<Byte>, offset: nat, data: seq<Byte>)
      requires offset + |data| <= buf.Length
      modifies buf
      ensures buf[..] == Splice(old(buf[..]), offset, data)
    {
      var i := 0;
      while i < |data|
        invariant 0 <= i <= |data|
        invariant buf[..] == Splice(old(buf[..]), offset, data[..i])
      {
        buf[offset + i] := data[i];
        i := i + 1;
      }
      assert data[..i] == data;
    }
  }
}
