/** Streaming a file through the CRC in reads of at most 512 bytes. */
module FileCrcs {
  import opened Words
  import opened Crc

  const CHUNK := 512
  /** LFS_ERR_IO. */
  const IO_ERROR := -5

  /** An open file: the file system may fail a read or return fewer bytes than asked. */
  class File {
    const data: seq<word8>
    var pos: nat
    /** Reads that failed, and the position after the last that did not. */
    ghost var failures: nat
    ghost var good: nat

    constructor (data: seq<word8>)
      ensures this.data == data && pos == 0 && good == 0
    {
      this.data := data;
      pos, good, failures := 0, 0, 0;
    }

    method Read(buffer: array<word8>, size: nat) returns (n: int)
      requires pos <= |data| && 0 < size <= buffer.Length
      modifies this`pos, this`failures, this`good, buffer
      ensures failures == old(failures) + if n < 0 then 1 else 0
      ensures good == if n < 0 then old(good) else pos
      ensures old(pos) <= pos <= |data|
      ensures n >= 0 ==> n <= size && pos == old(pos) + n && buffer[..n] == data[old(pos)..pos]
      ensures n == 0 ==> pos == |data|
    {
      var start := pos;
      if * {
        if * {
          pos := |data|;
        }
        failures := failures + 1;
        return IO_ERROR;
      }
      n := if size <= |data| - pos then size else |data| - pos;
      while 1 < n
        invariant start == pos && (0 < n || pos == |data|) && 0 <= n <= size && n <= |data| - pos
      {
        if * {
          n := n - 1;
        } else {
          break;
        }
      }
      forall i | 0 <= i < n {
        buffer[i] := data[start + i];
      }
      pos := start + n;
      good := pos;
    }
  }

  class FileSystem {
    var err: int

    method FileRead(file: File, buffer: array<word8>, size: nat) returns (n: int)
      requires file.pos <= |file.data| && 0 < size <= buffer.Length
      modifies this, file`pos, file`failures, file`good, buffer
      ensures file.failures == old(file.failures) + if n < 0 then 1 else 0
      ensures file.good == if n < 0 then old(file.good) else file.pos
      ensures err == if n < 0 then n else 0
      ensures old(file.pos) <= file.pos <= |file.data|
      ensures n >= 0 ==> n <= size && file.pos == old(file.pos) + n
      ensures n >= 0 ==> buffer[..n] == file.data[old(file.pos)..file.pos]
      ensures n == 0 ==> file.pos == |file.data|
    {
      err := 0;
      n := file.Read(buffer, size);
      if n < 0 {
        err := n;
      }
    }

    /** With every read successful, the CRC of the bytes from the current
        position to the end, however the reads were sized; after a failure, that
        of the bytes read before it. It fails exactly if a read failed. */
    method FileCrc(file: File) returns (crc: bv32, ghost upTo: nat)
      requires file.good == file.pos <= |file.data|
      modifies this, file`pos, file`failures, file`good
      ensures err == 0 <==> file.failures == old(file.failures)
      ensures upTo == file.good
      ensures err <= 0 && old(file.pos) <= upTo <= file.pos <= |file.data|
      ensures crc == Crc32Of(file.data[old(file.pos)..upTo], 0)
      ensures err == 0 ==> upTo == |file.data|
    {
      err := 0;
      crc := 0;
      var buffer := new word8[CHUNK];
      ghost var from := file.pos;
      upTo := file.pos;
      EmptyCrc();
      var n := FileRead(file, buffer, CHUNK);
      while n > 0
        invariant fresh(buffer) && file.failures == old(file.failures) + if n < 0 then 1 else 0
        invariant file.good == if n < 0 then upTo else file.pos
        invariant from <= upTo <= file.pos <= |file.data|
        invariant err == if n < 0 then n else 0
        invariant n >= 0 ==> n <= CHUNK && file.pos == upTo + n && buffer[..n] == file.data[upTo..file.pos]
        invariant n == 0 ==> file.pos == |file.data|
        invariant crc == Crc32Of(file.data[from..upTo], 0)
        decreases |file.data| - upTo
      {
        Streaming(file.data[from..upTo], buffer[..n], 0);
        JoinSlices(file.data, from, upTo, file.pos);
        crc := Crc32(buffer, n, crc);
        upTo := file.pos;
        n := FileRead(file, buffer, CHUNK);
      }
      if n < 0 {
        err := n;
      }
    }
  }

  lemma JoinSlices(d: seq<word8>, a: nat, b: nat, c: nat)
    requires a <= b <= c <= |d|
    ensures d[a..b] + d[b..c] == d[a..c]
  {
  }

  lemma EmptyCrc()
    ensures Crc32Of([], 0) == 0
  {
    Complement(0);
  }
}
