/** src/bios/bios_disk.c: reads of any length, 64 sectors at a time through the bounce buffer. */
module DiskChunks {
  import opened Bytes
  import opened StringOps

  datatype RawCall = RawCall(lba: nat, sectors: nat)

  /** The raw calls that read `count` sectors. */
  function Chunks(lba: nat, count: nat): (calls: seq<RawCall>)
    decreases count
  {
    if count == 0 then []
    else
      var n := if count > 64 then 64 else count;
      [RawCall(lba, n)] + Chunks(lba + n, count - n)
  }

  function Sectors(disk: seq<Byte>, lba: nat, count: nat): (b: seq<Byte>)
    requires (lba + count) * 512 <= |disk|
    ensures |b| == count * 512
  {
    disk[lba * 512..(lba + count) * 512]
  }

  predicate Within(calls: seq<RawCall>, limit: nat) {
    forall i :: 0 <= i < |calls| ==> calls[i].lba + calls[i].sectors <= limit
  }

  function Gather(disk: seq<Byte>, calls: seq<RawCall>): seq<Byte>
    requires Within(calls, |disk| / 512)
  {
    if calls == [] then []
    else Sectors(disk, calls[0].lba, calls[0].sectors) + Gather(disk, calls[1..])
  }

  /** The calls ask for 1 to 64 sectors each, and what they read, put together, is what one read would give. */
  lemma {:induction false} ChunksAreOneRead(disk: seq<Byte>, lba: nat, count: nat)
    requires (lba + count) * 512 <= |disk|
    ensures var calls := Chunks(lba, count);
            && (forall i :: 0 <= i < |calls| ==> 1 <= calls[i].sectors <= 64)
            && Within(calls, |disk| / 512) && Gather(disk, calls) == Sectors(disk, lba, count)
    decreases count
  {
    if count > 0 {
      var n := if count > 64 then 64 else count;
      var calls := Chunks(lba, count);
      ChunksAreOneRead(disk, lba + n, count - n);
      var rest := Chunks(lba + n, count - n);
      assert calls[1..] == rest;
      assert forall i :: 0 < i < |calls| ==> calls[i] == rest[i - 1];
      SectorsSplit(disk, lba, n, count - n);
    }
  }

  lemma {:induction false} ChunksSplit(lba: nat, done: nat, count: nat)
    requires done % 64 == 0
    ensures Chunks(lba, done + count) == Chunks(lba, done) + Chunks(lba + done, count)
    decreases done
  {
    if done > 0 {
      var n := 64;
      ChunksSplit(lba + n, done - n, count);
    }
  }

  lemma SectorsSplit(disk: seq<Byte>, lba: nat, done: nat, n: nat)
    requires (lba + done + n) * 512 <= |disk|
    ensures Sectors(disk, lba, done + n) == Sectors(disk, lba, done) + Sectors(disk, lba + done, n)
  {
  }

  /** A buffer after `done` sectors have arrived at offset `o`. */
  function Delivered(buffer: seq<Byte>, o: nat, disk: seq<Byte>, lba: nat, done: nat): (r: seq<Byte>)
    requires done > 0 ==> (lba + done) * 512 <= |disk| && o + done * 512 <= |buffer|
    ensures |r| == |buffer|
  {
    if done == 0 then buffer else Patch(buffer, o, Sectors(disk, lba, done))
  }

  lemma DeliveredSplit(buffer: seq<Byte>, o: nat, disk: seq<Byte>, lba: nat, done: nat, n: nat)
    requires n > 0 && (lba + done + n) * 512 <= |disk| && o + (done + n) * 512 <= |buffer|
    ensures Patch(Delivered(buffer, o, disk, lba, done), o + done * 512, Sectors(disk, lba + done, n))
         == Delivered(buffer, o, disk, lba, done + n)
  {
    hide Sectors;
    SectorsSplit(disk, lba, done, n);
    if done > 0 { PatchAppend(buffer, o, Sectors(disk, lba, done), Sectors(disk, lba + done, n)); }
    else { assert Sectors(disk, lba, 0) == []; }
  }

  /** Call by call: 64 sectors each, what is left in the last one. */
  lemma {:induction false} ChunkAt(lba: nat, count: nat, i: nat)
    ensures |Chunks(lba, count)| == (count + 63) / 64
    ensures i < |Chunks(lba, count)| ==>
              64 * i < count && Chunks(lba, count)[i] == RawCall(lba + 64 * i, if count - 64 * i > 64 then 64 else count - 64 * i)
    decreases count
  {
    if count > 0 {
      var n := if count > 64 then 64 else count;
      ChunkAt(lba + n, count - n, if i > 0 then i - 1 else 0);
      assert (count + 63) / 64 == 1 + (count - n + 63) / 64;
    }
  }

  /** Byte by byte, what a delivery of `done` sectors leaves in the buffer. */
  lemma DeliveredInBytes(buffer: seq<Byte>, o: nat, disk: seq<Byte>, lba: nat, done: nat, i: nat)
    requires (done > 0 ==> (lba + done) * 512 <= |disk| && o + done * 512 <= |buffer|) && i < |buffer|
    ensures Delivered(buffer, o, disk, lba, done)[i] ==
            if o <= i < o + 512 * done then disk[512 * lba + (i - o)] else buffer[i]
  {
  }

  lemma OneChunk(lba: nat, count: nat)
    requires count > 0
    ensures var n := if count > 64 then 64 else count;
            Chunks(lba, count)[..1] == [RawCall(lba, n)] && (count <= 64 ==> Chunks(lba, count) == [RawCall(lba, count)])
  {
  }

  /** INT 13h extended reads into the bounce buffer; any call may fail, and then leaves anything behind. */
  class Bios {
    const disk: seq<Byte>
    const bounce: array<Byte>
    var calls: seq<RawCall>
    var status: int // what the last call returned

    constructor (d: seq<Byte>)
      ensures disk == d && fresh(bounce) && bounce.Length == 64 * 512 && calls == []
    {
      disk, calls, status := d, [], 0;
      bounce := new Byte[64 * 512];
    }

    method ReadRaw(lba: nat, sectors: nat) returns (res: int)
      requires sectors * 512 <= bounce.Length
      modifies this, bounce
      ensures calls == old(calls) + [RawCall(lba, sectors)] && res == status
      ensures res == 0 ==> (lba + sectors) * 512 <= |disk| && bounce[..sectors * 512] == Sectors(disk, lba, sectors)
    {
      calls := calls + [RawCall(lba, sectors)];
      status := *;
      if (lba + sectors) * 512 > |disk| && status == 0 {
        status := 1;
      }
      if status != 0 {
        var junk: seq<Byte> := *;
        if |junk| <= bounce.Length {
          MemCpy(bounce, 0, junk);
        }
        return status;
      }
      MemCpy(bounce, 0, Sectors(disk, lba, sectors));
      assert bounce[..sectors * 512] == bounce[..][..sectors * 512];
      return status;
    }

    /** One turn of the loop. */
    method ReadChunk(at: nat, left: nat, buffer: array<Byte>, dest: nat) returns (ok: bool, chunk: nat)
      requires bounce.Length == 64 * 512 && buffer != bounce
      requires left > 0 && dest + left * 512 <= buffer.Length
      modifies this, bounce, buffer
      ensures chunk == (if left > 64 then 64 else left)
      ensures ok <==> status == 0
      ensures Chunks(at, left)[..1] == Chunks(at, chunk) && calls == old(calls) + Chunks(at, chunk)
      ensures ok ==> (at + chunk) * 512 <= |disk| && buffer[..] == Patch(old(buffer[..]), dest, Sectors(disk, at, chunk))
      ensures !ok ==> buffer[..] == old(buffer[..])
    {
      hide Patch, Sectors;
      chunk := left;
      if chunk > 64 {
        chunk := 64;
      }
      OneChunk(at, left);
      OneChunk(at, chunk);
      hide Chunks;
      var res := ReadRaw(at, chunk);
      if res != 0 {
        return false, chunk;
      }
      MemCpy(buffer, dest, bounce[..chunk * 512]);
      return true, chunk;
    }

    /** `done` sectors from `lba` are in the buffer, and nothing else was asked for. */
    ghost predicate Progress(calls0: seq<RawCall>, buffer0: seq<Byte>, buffer: array<Byte>, lba: nat, o: nat, done: nat)
      reads this, buffer
    {
      && (done > 0 ==> (lba + done) * 512 <= |disk| && o + done * 512 <= |buffer0|)
      && buffer[..] == Delivered(buffer0, o, disk, lba, done)
      && calls == calls0 + Chunks(lba, done)
    }

    /** The loop variables after `done` sectors. */
    static ghost predicate At(at: nat, left: nat, dest: nat, lba: nat, o: nat, count: nat, done: nat) {
      at == lba + done && done + left == count && dest == o + done * 512 && (left > 0 ==> done % 64 == 0)
    }

    /** One turn of the loop, with the step of its variables. */
    method Turn(at: nat, left: nat, buffer: array<Byte>, dest: nat, ghost lba: nat, ghost o: nat, ghost count: nat,
                ghost done: nat, ghost calls0: seq<RawCall>, ghost buffer0: seq<Byte>)
      returns (ok: bool, at': nat, left': nat, dest': nat, ghost done': nat)
      requires bounce.Length == 64 * 512 && buffer != bounce && o + count * 512 <= buffer.Length && left > 0
      requires At(at, left, dest, lba, o, count, done) && Progress(calls0, buffer0, buffer, lba, o, done)
      modifies this, bounce, buffer
      ensures ok <==> status == 0
      ensures ok ==> left' < left && At(at', left', dest', lba, o, count, done')
      ensures ok ==> Progress(calls0, buffer0, buffer, lba, o, done')
      ensures !ok ==> done < count && done % 64 == 0 && (done > 0 ==> (lba + done) * 512 <= |disk|)
      ensures !ok ==> o + done * 512 <= |buffer0| && buffer[..] == Delivered(buffer0, o, disk, lba, done)
      ensures !ok ==> calls == calls0 + (Chunks(lba, done) + Chunks(lba + done, count - done)[..1])
    {
      hide Delivered, Chunks, Sectors, Patch;
      var chunk;
      ok, chunk := ReadChunk(at, left, buffer, dest);
      ChunksSplit(lba, done, chunk);
      if ok { DeliveredSplit(buffer0, o, disk, lba, done, chunk); }
      at', left', dest', done' := at + chunk, left - chunk, dest + chunk * 512, done + chunk;
    }

    /** The loop of ReadSectors. */
    method ReadLoop(lba: nat, count: nat, buffer: array<Byte>, o: nat) returns (ok: bool, ghost done: nat)
      requires bounce.Length == 64 * 512 && buffer != bounce && o + count * 512 <= buffer.Length
      modifies this, bounce, buffer
      ensures done <= count && (done > 0 ==> (lba + done) * 512 <= |disk|)
      ensures buffer[..] == Delivered(old(buffer[..]), o, disk, lba, done)
      ensures if ok then done == count && calls == old(calls) + Chunks(lba, count)
              else done < count && done % 64 == 0 && status != 0
                   && calls == old(calls) + (Chunks(lba, done) + Chunks(lba + done, count - done)[..1])
    {
      var at, left, dest := lba, count, o;
      ghost var buffer0, calls0 := buffer[..], calls;
      done := 0;
      assert At(at, left, dest, lba, o, count, 0) && Progress(calls0, buffer0, buffer, lba, o, 0);
      hide Delivered, Chunks, Progress, At;
      while left > 0
        invariant At(at, left, dest, lba, o, count, done) && Progress(calls0, buffer0, buffer, lba, o, done)
        decreases left
      {
        var read, at', left', dest';
        ghost var done';
        read, at', left', dest', done' := Turn(at, left, buffer, dest, lba, o, count, done, calls0, buffer0);
        if !read {
          return false, done;
        }
        at, left, dest, done := at', left', dest', done';
      }
      ProgressMeans(calls0, buffer0, buffer, lba, o, done);
      AllRead(at, dest, lba, o, count, done);
      return true, done;
    }

    lemma AllRead(at: nat, dest: nat, lba: nat, o: nat, count: nat, done: nat)
      requires At(at, 0, dest, lba, o, count, done)
      ensures done == count
    {
    }

    lemma {:induction false} ProgressMeans(calls0: seq<RawCall>, buffer0: seq<Byte>, buffer: array<Byte>, lba: nat, o: nat, done: nat)
      requires Progress(calls0, buffer0, buffer, lba, o, done)
      ensures done > 0 ==> (lba + done) * 512 <= |disk| && o + done * 512 <= |buffer0|
      ensures buffer[..] == Delivered(buffer0, o, disk, lba, done) && calls == calls0 + Chunks(lba, done)
    {
    }

    /** `done` is the number of sectors that arrived. */
    method ReadSectors(lba: nat, count: nat, buffer: array?<Byte>, o: nat) returns (res: int, ghost done: nat)
      requires bounce.Length == 64 * 512 && buffer != bounce
      requires buffer != null ==> o + count * 512 <= buffer.Length
      modifies this, bounce, buffer
      ensures res == 0 || res == -1
      ensures buffer == null ==> res == 0 && done == 0 && calls == old(calls)
      ensures done <= count && (done > 0 ==> (lba + done) * 512 <= |disk|)
      ensures buffer != null ==>
                forall i :: 0 <= i < buffer.Length ==>
                  buffer[i] == if o <= i < o + 512 * done then disk[512 * lba + (i - o)] else old(buffer[i])
      ensures buffer != null ==>
                && buffer[..] == Delivered(old(buffer[..]), o, disk, lba, done)
                && if res == 0 then done == count && calls == old(calls) + Chunks(lba, count)
                   else done < count && done % 64 == 0 && status != 0
                        && calls == old(calls) + (Chunks(lba, done) + Chunks(lba + done, count - done)[..1])
    {
      if count == 0 || buffer == null {
        return 0, 0;
      }
      hide Delivered, Chunks;
      var ok;
      ghost var was := buffer[..];
      ok, done := ReadLoop(lba, count, buffer, o);
      forall i | 0 <= i < buffer.Length
        ensures buffer[i] == if o <= i < o + 512 * done then disk[512 * lba + (i - o)] else was[i]
      {
        DeliveredInBytes(was, o, disk, lba, done, i);
        assert buffer[i] == buffer[..][i];
      }
      res := if ok then 0 else -1;
    }
  }
}
