/** The CAN firmware updater: commands, retries, chunked write and verify, and
    the order in which a whole update touches the flash of the remote node. */
module Bootloader {
  import opened Flash
  import opened Remote
  import opened Sequences

  const CHUNK := 64
  const RETRY_LIMIT := 3
  const FIRMWARE_CRC_ADDRESS := 0x0800_A000

  function Min(a: int, b: int): int {
    if a <= b then a else b
  }

  function Max(a: int, b: int): int {
    if a <= b then b else a
  }

  /** How many bytes the next chunk at `current` carries. */
  function ChunkLength(current: nat, total: nat): (n: nat)
    requires current < total
    ensures 1 <= n <= CHUNK && current + n <= total
    ensures n < CHUNK ==> current + n == total
  {
    if current + CHUNK > total then total - current else CHUNK
  }

  /** A verification reads whole blocks of 16 bytes. */
  function Blocks(n: nat): nat {
    (n + 15) / 16 * 16
  }

  /** How far behind the base an update of `total` bytes reads back. */
  function Extent(total: nat): nat {
    CHUNK + Blocks(if total > CHUNK then total - CHUNK else 0)
  }

  lemma BlockFits(offset: nat, n: nat)
    requires offset % 16 == 0
    ensures offset < n ==> offset + 16 <= Blocks(n)
    ensures (offset + 16) % 16 == 0
  {
  }

  lemma DivideShifted(a: nat, k: nat)
    ensures (16 * k + a) / 16 == k + a / 16
  {
  }

  lemma BlocksGrow(n: nat, m: nat)
    requires n <= m
    ensures Blocks(n) <= Blocks(m)
  {
  }

  lemma ChunkBlocks(done: nat, n: nat, all: nat)
    requires done % CHUNK == 0 && done + n <= all
    ensures done + Blocks(n) <= Blocks(all)
    ensures (done + CHUNK) % CHUNK == 0
  {
    var k := done / CHUNK * 4;
    assert done == 16 * k;
    DivideShifted(n + 15, k);
    BlocksGrow(done + n, all);
  }

  /** One update: the image, the offset of its base in flash and its length. */
  datatype Job = Job(image: seq<byte>, base: nat, total: nat) {
    /** The first erased page starts here. */
    function Lo(): int {
      base - base % PAGE_SIZE
    }

    /** The erased pages end here: one page for each multiple of the page size up
        to and including the length. */
    function EraseEnd(): int {
      Lo() + (total - total % PAGE_SIZE) + PAGE_SIZE
    }

    /** The header is written whatever the length says. */
    function Length(): int {
      Max(total, CHUNK)
    }

    function Hi(): int {
      Max(EraseEnd(), base + Length())
    }

    /** The erased pages hold the image, and the flash holds all that is read back. */
    predicate Fits(size: nat) {
      base + Length() <= EraseEnd() <= size && base + Extent(total) <= size &&
      FIRMWARE_CRC_ADDRESS - FLASH_START + 8 <= size
    }

    predicate HeaderInFirstPage() {
      base % PAGE_SIZE + CHUNK <= PAGE_SIZE
    }

    predicate SameOutside(f0: seq<byte>, f: seq<byte>) {
      |f| == |f0| && forall i :: 0 <= i < |f0| && !(Lo() <= i < Hi()) ==> f[i] == f0[i]
    }

    /** Every byte from the first erased page up to `end` is erased, and nothing else has changed. */
    predicate Cleared(f0: seq<byte>, f: seq<byte>, end: int) {
      |f| == |f0| && end <= |f| && forall i :: 0 <= i < |f| ==> f[i] == if Lo() <= i < end then ERASED else f0[i]
    }

    /** At most the first page has been erased, perhaps incompletely. */
    predicate HeaderErasing(f0: seq<byte>, f: seq<byte>) {
      Erasing(f0, f, Lo(), Lo() + PAGE_SIZE)
    }

    /** The header (CRC and length) reads as erased, so the image cannot be taken for complete. */
    predicate HeaderErased(f0: seq<byte>, f: seq<byte>) {
      SameOutside(f0, f) && Blank(f, base, base + CHUNK)
    }

    /** Every byte behind the header is the image's. */
    predicate BodyWritten(f0: seq<byte>, f: seq<byte>) {
      SameOutside(f0, f) && Holds(f, base, image, CHUNK, total)
    }

    function NewByte(f0: seq<byte>, i: nat): byte
      requires i < |f0| && Length() <= |image|
    {
      if base <= i < base + Length() then image[i - base]
      else if Lo() <= i < EraseEnd() then ERASED
      else f0[i]
    }

    /** The flash after a successful update, byte by byte. */
    predicate Updated(f0: seq<byte>, f: seq<byte>) {
      |f| == |f0| && Length() <= |image| && base + Length() <= |f| &&
      forall i :: 0 <= i < |f| ==> f[i] == NewByte(f0, i)
    }
  }

  /** The history of the flash during an update, which began with `f0` at `start`:
      first at most the header page is erased, from `erased` on the header is
      erased, and from `sealed` on the body is complete. */
  ghost predicate Phases(job: Job, f0: seq<byte>, h: seq<seq<byte>>,
                         start: int, erased: int, sealed: int, atomic: bool) {
    start <= erased <= sealed <= |h| &&
    (forall k :: 0 <= start <= k < erased ==> job.HeaderErasing(f0, h[k]) && (atomic ==> h[k] == f0)) &&
    (forall k :: 0 <= start <= k && erased <= k < sealed ==> job.HeaderErased(f0, h[k])) &&
    (forall k :: 0 <= start <= k && sealed <= k < |h| ==> job.BodyWritten(f0, h[k]))
  }

  /** The erased pages end at the first page boundary behind the image, even where
      the image itself ends at one. */
  lemma EraseEndIs(job: Job)
    ensures (job.EraseEnd() - job.Lo()) % PAGE_SIZE == 0
    ensures job.total < job.EraseEnd() - job.Lo() <= job.total + PAGE_SIZE
  {
    var pages := job.total / PAGE_SIZE + 1;
    assert job.EraseEnd() - job.Lo() == pages * PAGE_SIZE;
  }

  /** Crash consistency of one flash content: untouched, header erased, or body complete. */
  predicate Consistent(job: Job, f0: seq<byte>, f: seq<byte>) {
    f == f0 || job.HeaderErased(f0, f) || job.BodyWritten(f0, f)
  }

  predicate AllConsistent(job: Job, f0: seq<byte>, h: seq<seq<byte>>, start: int) {
    forall k :: 0 <= start <= k < |h| ==> Consistent(job, f0, h[k])
  }

  /** An erase that is cut short may spoil a valid header: wherever two bytes of
      the header are not erased and the body is not that of the new image yet. */
  lemma HalfErasedHeader(job: Job, f0: seq<byte>, p: nat, q: nat) returns (f: seq<byte>)
    requires job.HeaderInFirstPage() && job.Lo() + PAGE_SIZE <= |f0| && !job.BodyWritten(f0, f0)
    requires job.base <= p < job.base + CHUNK && job.base <= q < job.base + CHUNK && p != q
    requires f0[p] != ERASED && f0[q] != ERASED
    ensures Wiped([f0], [f0, f], job.Lo(), job.Lo() + PAGE_SIZE, false)
    ensures !Consistent(job, f0, f)
  {
    f := f0[p := ERASED];
    assert Raised(f0[p], ERASED) && Raised(f0[q], f0[q]);
    RaisedAll(f0);
    WipedStep([f0], f, job.Lo(), job.Lo() + PAGE_SIZE, false);
    assert [f0] + [f] == [f0, f];
    assert f[q] == f0[q] && f[p] != f0[p];
  }

  lemma RaisedAll(f: seq<byte>)
    ensures forall i :: 0 <= i < |f| ==> Raised(f[i], f[i])
  {
  }

  /** Every history of erasing the header page is crash consistent if and only if
      a page erase is atomic. */
  lemma ConsistentIffAtomic(job: Job, size: nat, atomic: bool)
    requires job.HeaderInFirstPage() && job.Lo() + PAGE_SIZE <= size
    requires CHUNK < job.total <= |job.image| && job.base + job.total <= size
    ensures atomic <==> forall f0, h :: |f0| == size && Wiped([f0], h, job.Lo(), job.Lo() + PAGE_SIZE, atomic) ==>
      AllConsistent(job, f0, h, 0)
  {
    var lo := job.Lo();
    if atomic {
      forall f0, h | |f0| == size && Wiped([f0], h, lo, lo + PAGE_SIZE, true)
        ensures AllConsistent(job, f0, h, 0)
      {
        forall k | 0 <= k < |h| ensures Consistent(job, f0, h[k]) {
          assert h[0] == f0 && Erasing(h[0], h[k], lo, lo + PAGE_SIZE);
        }
      }
    } else {
      var b: byte := if job.image[CHUNK] == 0 then 1 else 0;
      var f0: seq<byte> := seq(size, _ => b);
      assert InWindow(job.base + CHUNK, job.base, job.image, CHUNK, job.total);
      assert f0[job.base + CHUNK] != job.image[job.base + CHUNK - job.base];
      var f := HalfErasedHeader(job, f0, job.base, job.base + 1);
      assert [f0, f][1] == f;
      assert !AllConsistent(job, f0, [f0, f], 0);
    }
  }

  /** The first state from `start` on in which [lo, hi) is erased. */
  lemma FirstBlank(h: seq<seq<byte>>, start: nat, lo: int, hi: int) returns (e: nat)
    requires start <= |h|
    ensures start <= e <= |h| && forall k :: start <= k < e ==> !Blank(h[k], lo, hi)
    ensures e < |h| ==> Blank(h[e], lo, hi)
  {
    e := start;
    while e < |h| && !Blank(h[e], lo, hi)
      invariant e <= |h| && forall k :: start <= k < e ==> !Blank(h[k], lo, hi)
    {
      e := e + 1;
    }
  }

  /** Erasing the page of the header: until it is blank nothing else has changed. */
  lemma FirstPageErase(job: Job, h: seq<seq<byte>>, h': seq<seq<byte>>, atomic: bool) returns (erased: nat)
    requires h != [] && job.HeaderInFirstPage()
    requires Wiped(h, h', job.Lo(), job.Lo() + PAGE_SIZE, atomic)
    ensures Phases(job, h[|h| - 1], h', |h| - 1, erased, |h'|, atomic)
    ensures Blank(h'[|h'| - 1], job.Lo(), job.Lo() + PAGE_SIZE) ==>
      erased < |h'| && job.HeaderErased(h[|h| - 1], h'[|h'| - 1])
  {
    var start, lo, hi := |h| - 1, job.Lo(), job.Lo() + PAGE_SIZE;
    assert h'[start] == h[start];
    erased := FirstBlank(h', start, lo, hi);
    forall k | erased <= k < |h'| ensures job.HeaderErased(h[start], h'[k]) {
      BlankStays(h'[erased], h'[k], lo, hi);
    }
  }

  /** Erasing one more page leaves the header erased. */
  lemma LaterPageErase(job: Job, f0: seq<byte>, h: seq<seq<byte>>, h': seq<seq<byte>>,
                       start: nat, off: int, erased: nat, atomic: bool)
    requires h != [] && start < |h| && job.HeaderInFirstPage() && job.HeaderErased(f0, h[|h| - 1])
    requires PAGE_SIZE <= off <= job.total && off % PAGE_SIZE == 0
    requires Wiped(h, h', job.Lo() + off, job.Lo() + off + PAGE_SIZE, atomic)
    requires Phases(job, f0, h, start, erased, |h|, atomic) && erased < |h|
    ensures Phases(job, f0, h', start, erased, |h'|, atomic)
    ensures job.HeaderErased(f0, h'[|h'| - 1])
  {
    var last := |h| - 1;
    assert forall k :: 0 <= k < |h| ==> h'[k] == h[k];
    forall k | last <= k < |h'| ensures job.HeaderErased(f0, h'[k]) {
      assert Erasing(h'[last], h'[k], job.Lo() + off, job.Lo() + off + PAGE_SIZE);
    }
  }

  /** Where a page begins, by its number as the command sends it: one byte. */
  function PageStart(page: nat): nat {
    page % 256 * PAGE_SIZE
  }

  lemma NextPage(off: nat)
    requires off % PAGE_SIZE == 0
    ensures (off + PAGE_SIZE) % PAGE_SIZE == 0
  {
  }

  /** The page number sent for the address `off` behind a base at offset `b`:
      truncating it to one byte loses nothing while the address is in flash. */
  lemma PageAt(b: nat, off: nat)
    requires off % PAGE_SIZE == 0 && b - b % PAGE_SIZE + off < 256 * PAGE_SIZE
    ensures PageStart((b + off) / PAGE_SIZE) == b - b % PAGE_SIZE + off
  {
    assert (b + off) / PAGE_SIZE == b / PAGE_SIZE + off / PAGE_SIZE;
  }

  /** The pages erased are those of the multiples of the page size up to and including the length. */
  lemma LastPage(total: nat, off: nat)
    requires off % PAGE_SIZE == 0
    ensures off <= total ==> off <= total - total % PAGE_SIZE
    ensures off <= total < off + PAGE_SIZE ==> off == total - total % PAGE_SIZE
  {
  }

  /** Erasing the next page extends the erased area by that page. */
  lemma ClearPage(job: Job, f0: seq<byte>, h: seq<seq<byte>>, h': seq<seq<byte>>, lo: nat, atomic: bool)
    requires h != [] && Wiped(h, h', lo, lo + PAGE_SIZE, atomic)
    requires job.Lo() <= lo && lo + PAGE_SIZE <= |f0|
    requires job.Cleared(f0, h[|h| - 1], lo)
    requires Blank(h'[|h'| - 1], lo, lo + PAGE_SIZE)
    ensures job.Cleared(f0, h'[|h'| - 1], lo + PAGE_SIZE)
  {
    assert Erasing(h'[|h| - 1], h'[|h'| - 1], lo, lo + PAGE_SIZE);
  }

  /** The phases while erasing, after `off` bytes worth of pages. */
  ghost predicate PagesErased(job: Job, f0: seq<byte>, h: seq<seq<byte>>,
                              start: nat, erased: nat, off: nat, atomic: bool) {
    h != [] && start < |h| && Phases(job, f0, h, start, erased, |h|, atomic) &&
    (off == 0 ==> start == |h| - 1 && h[start] == f0) &&
    (off > 0 ==> erased < |h| && job.HeaderErased(f0, h[|h| - 1]))
  }

  lemma PageErase(job: Job, f0: seq<byte>, h: seq<seq<byte>>, h': seq<seq<byte>>,
                  start: nat, before: nat, off: nat, lo: int, atomic: bool) returns (erased: nat)
    requires job.HeaderInFirstPage() ==> PagesErased(job, f0, h, start, before, off, atomic)
    requires off <= job.total && off % PAGE_SIZE == 0 && lo == job.Lo() + off
    requires Wiped(h, h', lo, lo + PAGE_SIZE, atomic)
    ensures job.HeaderInFirstPage() ==> Phases(job, f0, h', start, erased, |h'|, atomic)
    ensures job.HeaderInFirstPage() && Blank(h'[|h'| - 1], lo, lo + PAGE_SIZE) ==>
      PagesErased(job, f0, h', start, erased, off + PAGE_SIZE, atomic)
  {
    erased := before;
    if job.HeaderInFirstPage() {
      if off == 0 {
        erased := FirstPageErase(job, h, h', atomic);
      } else {
        LaterPageErase(job, f0, h, h', start, off, erased, atomic);
      }
    }
  }

  /** Writing the body, however far it gets, leaves the header erased. */
  lemma BodyPhase(job: Job, f0: seq<byte>, h: seq<seq<byte>>, h': seq<seq<byte>>, start: nat, erased: nat, atomic: bool)
    requires h != [] && start < |h| && erased < |h| && Phases(job, f0, h, start, erased, |h|, atomic)
    requires Tried(h, h', job.base, job.image, CHUNK, job.total)
    ensures Phases(job, f0, h', start, erased, |h'|, atomic)
  {
    assert forall k :: 0 <= k < |h| ==> h'[k] == h[k];
    forall k | |h| - 1 <= k < |h'| ensures job.HeaderErased(f0, h'[k]) {
      assert Programming(h[|h| - 1], h'[k], job.base, job.image, CHUNK, job.total);
    }
  }

  /** Writing the header, however far it gets, leaves the body as it is. */
  lemma HeaderPhase(job: Job, f0: seq<byte>, h: seq<seq<byte>>, h': seq<seq<byte>>,
                    start: nat, erased: nat, atomic: bool)
    requires h != [] && start < |h| && erased < |h| && Phases(job, f0, h, start, erased, |h|, atomic)
    requires Holds(h[|h| - 1], job.base, job.image, CHUNK, job.total)
    requires Tried(h, h', job.base, job.image, 0, CHUNK)
    ensures Phases(job, f0, h', start, erased, |h|, atomic)
  {
    assert forall k :: 0 <= k < |h| ==> h'[k] == h[k];
    forall k | |h| <= k < |h'| ensures job.BodyWritten(f0, h'[k]) {
      assert Programming(h[|h| - 1], h'[k], job.base, job.image, 0, CHUNK);
    }
  }

  lemma WritePhases(job: Job, f0: seq<byte>, h: seq<seq<byte>>, h': seq<seq<byte>>, h'': seq<seq<byte>>,
                    start: nat, erased: nat, atomic: bool)
    requires h != [] && start < |h| && erased < |h| && Phases(job, f0, h, start, erased, |h|, atomic)
    requires Tried(h, h', job.base, job.image, CHUNK, job.total)
    requires h'' == h' || (Tried(h', h'', job.base, job.image, 0, CHUNK) &&
      Holds(h'[|h'| - 1], job.base, job.image, CHUNK, job.total))
    ensures Phases(job, f0, h'', start, erased, |h'|, atomic)
  {
    BodyPhase(job, f0, h, h', start, erased, atomic);
    if h'' != h' {
      HeaderPhase(job, f0, h', h'', start, erased, atomic);
    }
  }

  /** What the erase, the two writes and the two verifications establish together. */
  lemma UpdateComplete(job: Job, f0: seq<byte>, f1: seq<byte>, f2: seq<byte>, f3: seq<byte>)
    requires job.Cleared(f0, f1, job.EraseEnd())
    requires Programmed(f1, f2, job.base, job.image, CHUNK, job.total)
    requires Holds(f2, job.base, job.image, CHUNK, job.total)
    requires Programmed(f2, f3, job.base, job.image, 0, CHUNK) && Holds(f3, job.base, job.image, 0, CHUNK)
    ensures job.Updated(f0, f3)
  {
    forall i | 0 <= i < |f3| ensures f3[i] == job.NewByte(f0, i) {
      if !InWindow(i, job.base, job.image, 0, CHUNK) {
        assert f3[i] == f2[i];
        if !InWindow(i, job.base, job.image, CHUNK, job.total) {
          assert f2[i] == f1[i];
        }
      }
    }
  }

  lemma SameSlice(s: seq<byte>, n: nat, a: nat, z: nat)
    requires a <= z <= n <= |s|
    ensures s[..n][a..z] == s[a..z]
  {
  }

  /** A byte read back that differs is a byte of the flash that differs. */
  lemma DifferentByte(f: seq<byte>, block: seq<byte>, at: int, d: seq<byte>, start: nat, i: nat)
    requires Holds(f, at + start, block, 0, |block|) && i < |block| && start + i < |d| && d[start + i] != block[i]
    ensures !Holds(f, at, d, 0, |d|)
  {
    assert InWindow(at + start + i, at + start, block, 0, |block|);
    assert InWindow(at + start + i, at, d, 0, |d|);
  }

  /** A stretch of flash that holds the image holds every part of it. */
  lemma HoldsPart(f: seq<byte>, at: int, d: seq<byte>, a: nat, z: int, c: nat, k: nat)
    requires Holds(f, at, d, a, z) && a <= c && k > 0 && c + k <= z
    ensures c + k <= |d| && Holds(f, at + c, d[c..c + k], 0, k)
  {
    forall j | 0 <= j < |f| && InWindow(j, at + c, d[c..c + k], 0, k) ensures f[j] == d[c..c + k][j - (at + c)] {
      assert InWindow(j, at, d, a, z);
    }
  }

  /** Programming behind the header leaves it blank. */
  lemma HeaderStaysBlank(f: seq<byte>, f': seq<byte>, at: int, d: seq<byte>, total: int, z: int)
    requires Programmed(f, f', at, d, CHUNK, total) && Blank(f, at, z)
    ensures Blank(f', at, Min(z, at + CHUNK))
  {
  }

  lemma ErasedBlank(job: Job, f0: seq<byte>, f: seq<byte>)
    requires job.Cleared(f0, f, job.EraseEnd()) && job.base + job.Length() <= job.EraseEnd()
    ensures Blank(f, job.base, job.base + job.Length())
  {
  }

  lemma BlocksLeast(n: nat, m: nat)
    requires n <= m && m % 16 == 0
    ensures Blocks(n) <= m
  {
  }

  lemma PagesAreBlocks(m: nat)
    requires m % PAGE_SIZE == 0
    ensures m % 16 == 0 && (m > 0 ==> m >= PAGE_SIZE)
  {
    var k := m / PAGE_SIZE;
    assert m == PAGE_SIZE * k;
    SixteenTimes(128 * k);
  }

  lemma SixteenTimes(k: nat)
    ensures 16 * k % 16 == 0
  {
  }

  /** Every page-aligned update whose pages are in flash fits. */
  lemma AlignedFits(job: Job, size: nat)
    requires job.base % PAGE_SIZE == 0 && job.EraseEnd() <= size && FIRMWARE_CRC_ADDRESS - FLASH_START + 8 <= size
    ensures job.Fits(size)
  {
    var pages := job.EraseEnd() - job.Lo();
    EraseEndIs(job);
    PagesAreBlocks(pages);
    if job.total > CHUNK {
      BlocksLeast(job.total - CHUNK, pages - CHUNK);
    } else {
      BlocksLeast(0, 0);
    }
  }

  /** How many frames carry `n` bytes. */
  function FrameCount(n: nat): nat {
    if n % 8 > 0 then n / 8 + 1 else n / 8
  }

  /** Joining as many frames as the updater expects recovers what an ideal node sends. */
  lemma ReadJoins(d: seq<byte>, data: seq<seq<byte>>, expected: nat)
    requires data == Frames(d) && expected == FrameCount(|d|)
    ensures Min(expected, |data|) == |data| && Flatten(data[..|data|]) == d
  {
    FramesRoundTrip(d);
    assert data[..|data|] == data;
  }

  /** What was joined from all the frames of a stretch of flash is in flash there. */
  lemma JoinedHolds(f: seq<byte>, at: nat, n: nat, data: seq<seq<byte>>, expected: nat, dest: seq<byte>, index: nat)
    requires at + n <= |f| && n <= |dest| && data == Frames(f[at..at + n])
    requires expected == FrameCount(n)
    requires index == Min(|Flatten(data[..Min(expected, |data|)])|, |dest|)
    requires dest[..index] == Flatten(data[..Min(expected, |data|)])[..index]
    ensures Holds(f, at, dest[..n], 0, n)
  {
    var read := f[at..at + n];
    ReadJoins(read, data, expected);
    assert index == n && dest[..n] == read;
    SliceHolds(f, at, dest[..n]);
  }

  /** Sending the first frame of the remaining data keeps what will have been sent. */
  lemma FirstFrame(sent: seq<seq<byte>>, d: seq<byte>, k: nat)
    requires 1 <= k <= 8 && k <= |d| && (k == 8 || k == |d|)
    ensures sent + [d[..k]] + Frames(d[k..]) == sent + Frames(d)
  {
    if k == |d| {
      assert d[..k] == d && d[k..] == [];
    }
  }

  class Updater {
    const node: RemoteNode
    const image: seq<byte>
    /** Whether the callback answers every request within the image. */
    const readable: bool
    const temp: array<byte>
    var readFails: nat
    var writeFails: nat
    var eraseFails: nat
    var connectionFails: nat
    var initiations: nat

    constructor (node: RemoteNode, image: seq<byte>, readable: bool)
      ensures this.node == node && this.image == image && this.readable == readable && temp.Length == CHUNK
    {
      this.node, this.image, this.readable, temp := node, image, readable, new byte[CHUNK](_ => 0);
      readFails, writeFails, eraseFails, connectionFails, initiations := 0, 0, 0, 0, 0;
    }

    /** The flash has the bytes [lo, hi), and those that are read to test the connection. */
    predicate Room(lo: int, hi: int) {
      0 <= lo && hi <= node.size && FIRMWARE_CRC_ADDRESS - FLASH_START + 8 <= node.size
    }

    /** Faults and announcements are only ever counted up. */
    ghost predicate Onward(faults: nat, announcements: nat)
      reads node
    {
      node.faults >= faults && node.announcements >= announcements
    }

    /** The caller's read callback: it may fail, but never returns anything but the image. */
    method ReadImage(offset: nat, n: nat) returns (ok: bool)
      requires n <= temp.Length
      modifies temp
      ensures readable && offset + n <= |image| ==> ok
      ensures ok ==> offset + n <= |image| && temp[..n] == image[offset..offset + n]
    {
      ok := *;
      ok := ok || readable;
      if !ok || offset + n > |image| {
        return false;
      }
      for i := 0 to n
        invariant forall j :: 0 <= j < i ==> temp[j] == image[offset + j]
      {
        temp[i] := image[offset + i];
      }
    }

    /** Appends one data frame to what has been received, never past the end of `dest`. */
    method CopyFrame(frame: seq<byte>, dest: array<byte>, start: nat) returns (index: nat)
      requires |frame| <= 8 && start <= dest.Length
      modifies dest
      ensures index == Min(start + |frame|, dest.Length)
      ensures dest[..index] == (old(dest[..start]) + frame)[..index]
    {
      index := start;
      for j := 0 to |frame|
        invariant index == Min(start + j, dest.Length)
        invariant dest[..index] == (old(dest[..start]) + frame)[..index]
      {
        if index < dest.Length && j < 8 {
          dest[index] := frame[j];
          index := index + 1;
        }
      }
    }

    /** Receives `expected` data frames; a frame that does not arrive is skipped. */
    method JoinFrames(data: seq<seq<byte>>, expected: nat, dest: array<byte>) returns (index: nat)
      requires forall f :: f in data ==> |f| <= 8
      modifies dest
      ensures index == Min(|Flatten(data[..Min(expected, |data|)])|, dest.Length)
      ensures dest[..index] == Flatten(data[..Min(expected, |data|)])[..index]
    {
      index := 0;
      for i := 0 to expected
        invariant index == Min(|Flatten(data[..Min(i, |data|)])|, dest.Length)
        invariant dest[..index] == Flatten(data[..Min(i, |data|)])[..index]
      {
        if i < |data| {
          FlattenAppend(data[..i], data[i]);
          assert data[..i + 1] == data[..i] + [data[i]];
          index := CopyFrame(data[i], dest, index);
        }
      }
    }

    method ExpectedFrames(n: nat) returns (count: nat)
      ensures count == FrameCount(n)
    {
      count := n / 8;
      if n % 8 > 0 {
        count := count + 1;
      }
    }

    method ReadData(address: nat, n: nat, dest: array<byte>) returns (ok: bool)
      requires node.Valid() && 1 <= n <= 256 && n <= dest.Length
      modifies dest, node`commands, node`faults, node`answered
      ensures ok ==> Holds(node.flash, address - FLASH_START, dest[..n], 0, n)
      ensures node.faults >= old(node.faults) && node.answered == old(node.answered) + if ok then 1 else 0
      ensures !ok && Room(address - FLASH_START, address - FLASH_START + n) ==> node.faults > old(node.faults)
    {
      var count := (n - 1) % 256;
      assert count == n - 1;
      var ack, data, done := node.ReadMemory(address, count);
      if !ack {
        return false;
      }
      var expectedFrames := ExpectedFrames(n);
      var index := JoinFrames(data, expectedFrames, dest);
      ghost var got := dest[..];
      assert got[..index] == dest[..index] && got[..n] == dest[..n];
      if done {
        JoinedHolds(node.flash, address - FLASH_START, n, data, expectedFrames, got, index);
      }
      ok := done;
    }

    method ErasePage(page: nat, ghost lo: nat) returns (ok: bool)
      requires node.Valid() && lo == PageStart(page)
      modifies node`flash, node`history, node`commands, node`faults
      ensures node.Valid() && node.faults >= old(node.faults)
      ensures !ok && Room(lo, lo + PAGE_SIZE) ==> node.faults > old(node.faults)
      ensures Wiped(old(node.history), node.history, lo, lo + PAGE_SIZE, node.atomicErase)
      ensures ok ==> lo + PAGE_SIZE <= |node.flash|
      ensures ok ==> Blank(node.flash, lo, lo + PAGE_SIZE)
    {
      ok := node.Erase(page % 256);
    }

    method FillFrame(src: array<byte>, start: nat, n: nat) returns (frame: seq<byte>, index: nat)
      requires start <= n <= src.Length
      ensures index == Min(start + 8, n) && frame == src[start..index]
    {
      frame, index := [], start;
      while index < n && |frame| < 8
        invariant start <= index <= n && |frame| <= 8 && frame == src[start..index]
      {
        frame := frame + [src[index]];
        index := index + 1;
      }
    }

    /** Sends the next data frame of a write of `d`. */
    method SendFrame(frame: seq<byte>, ghost d: seq<byte>) returns (ack: bool)
      requires node.Valid() && |frame| <= 8
      requires |node.pending| + |frame| <= |d| && node.pending + frame == d[..|node.pending| + |frame|]
      modifies node`flash, node`history, node`pending, node`frames, node`commands, node`faults
      ensures node.faults == old(node.faults) + if ack then 0 else 1
      ensures node.Valid() && Tried(old(node.history), node.history, node.writeAt, d, 0, |d|)
      ensures ack ==> node.pending == old(node.pending) + frame && node.frames == old(node.frames) + [frame]
    {
      ack := node.DataFrame(frame);
      TriedWiden(old(node.history), node.history, old(node.pending) + frame, node.writeAt, d, 0, 0, |d|);
    }

    method WriteMemory(address: nat, src: array<byte>, n: nat) returns (ok: bool)
      requires node.Valid() && 1 <= n <= 255 && n <= src.Length
      modifies node
      ensures node.Valid() && Tried(old(node.history), node.history, address - FLASH_START, src[..n], 0, n)
      ensures ok ==> Programmed(old(node.flash), node.flash, address - FLASH_START, src[..n], 0, n)
      ensures ok ==> node.frames == Frames(src[..n])
      ensures Onward(old(node.faults), old(node.announcements)) && node.announcements == old(node.announcements)
      ensures !ok && Room(address - FLASH_START, address - FLASH_START + n) ==> node.faults > old(node.faults)
    {
      ghost var d := src[..n];
      ghost var at := address - FLASH_START;
      ProgramReflexive(node.flash, at, d, 0, n);
      var ack := node.BeginWrite(address, n % 256);
      if !ack {
        return false;
      }
      var index := 0;
      while true
        invariant node.Valid() && index <= n && node.faults == old(node.faults)
        invariant node.announcements == old(node.announcements)
        invariant node.writeAt == at && node.expected == n && node.pending == d[..index]
        invariant node.frames + Frames(d[index..]) == Frames(d)
        invariant Tried(old(node.history), node.history, at, d, 0, n)
        decreases n - index
      {
        var frame, next := FillFrame(src, index, n);
        if |frame| > 0 {
          FirstFrame(node.frames, d[index..], |frame|);
          assert d[index..][|frame|..] == d[next..] && d[index..][..|frame|] == frame;
          index := next;
          ghost var h := node.history;
          ack := SendFrame(frame, d);
          TriedCompose(old(node.history), h, node.history, at, d, 0, n);
          if !ack {
            return false;
          }
        } else {
          break;
        }
      }
      assert d[..index] == d;
      ghost var h, f := node.history, node.flash;
      ok := node.FinishWrite();
      TriedCompose(old(node.history), h, node.history, at, d, 0, n);
      if ok {
        RetryIsIdempotent(old(node.flash), f, node.flash, at, d, 0, n);
      }
    }

    /** Reads back something, or waits for the node to announce itself again; five
        times before it gives up. */
    method VerifyConnection() returns (ok: bool)
      requires node.Valid()
      modifies `initiations, `connectionFails, node`commands, node`faults, node`announcements, node`answered
      ensures connectionFails == old(connectionFails) + if ok then 0 else 1
      ensures Onward(old(node.faults), old(node.announcements))
      ensures ok <==> node.answered > old(node.answered) || node.announcements > old(node.announcements)
      ensures !ok && Room(0, 0) ==> node.faults >= old(node.faults) + 5
    {
      var trash := new byte[8];
      for i := 0 to 5
        invariant node.Valid() && connectionFails == old(connectionFails)
        invariant node.announcements == old(node.announcements) && node.answered == old(node.answered)
        invariant node.faults >= old(node.faults)
        invariant Room(0, 0) ==> node.faults >= old(node.faults) + i
      {
        ok := ReadData(FIRMWARE_CRC_ADDRESS, trash.Length, trash);
        if ok {
          return true;
        }
        ok := Initiate();
        if ok {
          return true;
        }
      }
      connectionFails := connectionFails + 1;
      return false;
    }

    /** Waits for the announcement of the node; says nothing about its flash. */
    method Initiate() returns (ok: bool)
      modifies `initiations, node`announcements
      ensures initiations == old(initiations) + if ok then 1 else 0
      ensures node.announcements == old(node.announcements) + if ok then 1 else 0
    {
      ok := node.Announce();
      if ok {
        initiations := initiations + 1;
      }
    }

    method ErasePageReliable(page: nat, ghost lo: nat) returns (ok: bool)
      requires node.Valid() && lo == PageStart(page)
      modifies node`flash, node`history, `eraseFails, `initiations, `connectionFails
      modifies node`commands, node`faults, node`announcements, node`answered
      ensures node.Valid()
      ensures Wiped(old(node.history), node.history, lo, lo + PAGE_SIZE, node.atomicErase)
      ensures ok ==> lo + PAGE_SIZE <= |node.flash|
      ensures ok ==> Blank(node.flash, lo, lo + PAGE_SIZE)
      ensures eraseFails <= old(eraseFails) + if ok then RETRY_LIMIT - 1 else RETRY_LIMIT
      ensures Onward(old(node.faults), old(node.announcements))
      ensures connectionFails == old(connectionFails) || (!ok && connectionFails == old(connectionFails) + 1)
      ensures !ok ==> eraseFails == old(eraseFails) + RETRY_LIMIT || connectionFails == old(connectionFails) + 1
      ensures !ok && Room(lo, lo + PAGE_SIZE) ==> node.faults >= old(node.faults) + RETRY_LIMIT
    {
      ghost var hi := lo + PAGE_SIZE;
      EraseReflexive(node.flash, lo, hi);
      for i := 0 to RETRY_LIMIT
        invariant connectionFails == old(connectionFails) && Onward(old(node.faults), old(node.announcements))
        invariant Room(lo, lo + PAGE_SIZE) ==> node.faults >= old(node.faults) + i
        invariant node.Valid() && eraseFails == old(eraseFails) + i
        invariant Wiped(old(node.history), node.history, lo, hi, node.atomicErase)
      {
        ghost var h := node.history;
        ok := ErasePage(page, lo);
        WipedCompose(old(node.history), h, node.history, lo, hi, node.atomicErase);
        if ok {
          return true;
        }
        eraseFails := eraseFails + 1;
        ok := VerifyConnection();
        if !ok {
          return false;
        }
      }
      return false;
    }

    method WriteMemoryReliable(address: nat, src: array<byte>, n: nat) returns (ok: bool)
      requires node.Valid() && 1 <= n <= 255 && n <= src.Length
      modifies node, `writeFails, `initiations, `connectionFails
      ensures node.Valid() && Tried(old(node.history), node.history, address - FLASH_START, src[..n], 0, n)
      ensures ok ==> Programmed(old(node.flash), node.flash, address - FLASH_START, src[..n], 0, n)
      ensures ok && Blank(old(node.flash), address - FLASH_START, address - FLASH_START + n) ==>
        Holds(node.flash, address - FLASH_START, src[..n], 0, n)
      ensures writeFails <= old(writeFails) + if ok then RETRY_LIMIT - 1 else RETRY_LIMIT
      ensures Onward(old(node.faults), old(node.announcements))
      ensures connectionFails == old(connectionFails) || (!ok && connectionFails == old(connectionFails) + 1)
      ensures !ok ==> writeFails == old(writeFails) + RETRY_LIMIT || connectionFails == old(connectionFails) + 1
      ensures !ok && Room(address - FLASH_START, address - FLASH_START + n) ==>
        node.faults >= old(node.faults) + RETRY_LIMIT
    {
      var at := address - FLASH_START;
      ProgramReflexive(node.flash, at, src[..n], 0, n);
      for i := 0 to RETRY_LIMIT
        invariant connectionFails == old(connectionFails) && Onward(old(node.faults), old(node.announcements))
        invariant Room(address - FLASH_START, address - FLASH_START + n) ==> node.faults >= old(node.faults) + i
        invariant node.Valid() && writeFails == old(writeFails) + i
        invariant Tried(old(node.history), node.history, at, src[..n], 0, n)
      {
        ghost var h := node.history;
        ghost var f := node.flash;
        ok := WriteMemory(address, src, n);
        TriedCompose(old(node.history), h, node.history, at, src[..n], 0, n);
        if ok {
          RetryIsIdempotent(old(node.flash), f, node.flash, at, src[..n], 0, n);
          if Blank(old(node.flash), at, at + n) {
            ProgramErased(old(node.flash), node.flash, at, src[..n], 0, n);
          }
          return true;
        }
        writeFails := writeFails + 1;
        ok := VerifyConnection();
        if !ok {
          return false;
        }
      }
      return false;
    }

    method ReadDataReliable(address: nat, n: nat, dest: array<byte>) returns (ok: bool)
      requires node.Valid() && 1 <= n <= 256 && n <= dest.Length
      modifies dest, `readFails, `initiations, `connectionFails
      modifies node`commands, node`faults, node`announcements, node`answered
      ensures ok ==> Holds(node.flash, address - FLASH_START, dest[..n], 0, n)
      ensures readFails <= old(readFails) + if ok then RETRY_LIMIT - 1 else RETRY_LIMIT
      ensures Onward(old(node.faults), old(node.announcements))
      ensures connectionFails == old(connectionFails) || (!ok && connectionFails == old(connectionFails) + 1)
      ensures !ok ==> readFails == old(readFails) + RETRY_LIMIT || connectionFails == old(connectionFails) + 1
      ensures !ok && Room(address - FLASH_START, address - FLASH_START + n) ==>
        node.faults >= old(node.faults) + RETRY_LIMIT
    {
      for i := 0 to RETRY_LIMIT
        invariant connectionFails == old(connectionFails) && Onward(old(node.faults), old(node.announcements))
        invariant Room(address - FLASH_START, address - FLASH_START + n) ==> node.faults >= old(node.faults) + i
        invariant node.Valid() && readFails == old(readFails) + i
      {
        ok := ReadData(address, n, dest);
        if ok {
          return true;
        }
        readFails := readFails + 1;
        ok := VerifyConnection();
        if !ok {
          return false;
        }
      }
      return false;
    }

    /** Compares a block read back with the bytes from `start`, up to `n`; `i` is
        the first that differs. */
    method CompareBlock(src: array<byte>, start: nat, n: nat, block: array<byte>)
      returns (ok: bool, offset: nat, ghost i: nat)
      requires start < n <= src.Length && block.Length == 16
      ensures ok ==> offset == Min(start + 16, n) && src[start..offset] == block[..offset - start]
      ensures !ok ==> i < 16 && start + i < n && src[start + i] != block[i]
    {
      offset, i := start, 0;
      for j := 0 to block.Length
        invariant offset == Min(start + j, n) && src[start..offset] == block[..offset - start]
      {
        if offset < n {
          if src[offset] != block[j] {
            return false, offset, j;
          }
          offset := offset + 1;
        }
      }
      ok := true;
    }

    /** One block of a verification: reads 16 bytes and compares those before `n`. */
    method VerifyBlock(address: nat, src: array<byte>, n: nat, offset: nat, block: array<byte>)
      returns (ok: bool, next: nat)
      requires node.Valid() && offset < n <= src.Length && block.Length == 16 && block != src
      requires Holds(node.flash, address - FLASH_START, src[..n], 0, offset)
      modifies block, `readFails, `initiations, `connectionFails
      modifies node`commands, node`faults, node`announcements, node`answered
      ensures Onward(old(node.faults), old(node.announcements))
      ensures ok ==> next == Min(offset + 16, n) && Holds(node.flash, address - FLASH_START, src[..n], 0, next)
      ensures var at := address - FLASH_START;
        !ok && Room(at + offset, at + offset + 16) ==>
        node.faults >= old(node.faults) + RETRY_LIMIT || !Holds(node.flash, at, src[..n], 0, n)
    {
      next := offset;
      ok := ReadDataReliable(address + offset, block.Length, block);
      if !ok {
        return;
      }
      ghost var at, d, b := address - FLASH_START, src[..n], block[..];
      assert block[..16] == b;
      ghost var i;
      ok, next, i := CompareBlock(src, offset, n, block);
      if !ok {
        DifferentByte(node.flash, b, at, d, offset, i);
      } else {
        SameSlice(src[..], n, offset, next);
        assert src[..][..n] == d && src[..][offset..next] == src[offset..next];
        assert b[..next - offset] == block[..next - offset];
        HoldsAppend(node.flash, b, at, d, 0, offset, next - offset);
      }
    }

    /** Reads back in blocks of 16, also past the end of the checked range. False
        only after three failed reads of a block, or for a byte that differs. */
    method VerifyMemoryReliable(address: nat, src: array<byte>, n: nat) returns (ok: bool)
      requires node.Valid() && n <= src.Length
      modifies `readFails, `initiations, `connectionFails
      modifies node`commands, node`faults, node`announcements, node`answered
      ensures ok ==> Holds(node.flash, address - FLASH_START, src[..n], 0, n)
      ensures Onward(old(node.faults), old(node.announcements))
      ensures !ok && Room(address - FLASH_START, address - FLASH_START + Blocks(n)) ==>
        node.faults >= old(node.faults) + RETRY_LIMIT || !Holds(node.flash, address - FLASH_START, src[..n], 0, n)
    {
      var block := new byte[16];
      var offset := 0;
      while offset < n
        invariant node.Valid() && Onward(old(node.faults), old(node.announcements))
        invariant offset <= n && Holds(node.flash, address - FLASH_START, src[..n], 0, offset)
        invariant offset % 16 == 0 || offset == n
      {
        BlockFits(offset, n);
        ok, offset := VerifyBlock(address, src, n, offset, block);
        if !ok {
          return false;
        }
      }
      return true;
    }

    /** One pass of the write loop: reads a chunk of the image and programs it. */
    method WriteChunk(base: nat, current: nat, n: nat) returns (ok: bool)
      requires node.Valid() && temp.Length == CHUNK && 1 <= n <= CHUNK
      modifies node, temp, `writeFails, `initiations, `connectionFails
      ensures node.Valid()
      ensures Tried(old(node.history), node.history, base - FLASH_START, image, current, current + n)
      ensures Onward(old(node.faults), old(node.announcements))
      ensures var at := base + current - FLASH_START;
        !ok && readable && current + n <= |image| && Room(at, at + n) ==>
        node.faults >= old(node.faults) + RETRY_LIMIT
      ensures ok ==> current + n <= |image|
      ensures ok ==>
        Programmed(old(node.flash), node.flash, base + current - FLASH_START, image[current..current + n], 0, n)
    {
      var at := base - FLASH_START;
      ok := ReadImage(current, n);
      if !ok {
        ProgramReflexive(node.flash, at, image, current, current + n);
        return false;
      }
      ok := WriteMemoryReliable(base + current, temp, n);
      ghost var part := image[current..current + n];
      TriedWiden(old(node.history), node.history, part, at, image, current, current, current + n);
    }

    /** The loop of WriteSubsection: consecutive chunks of 1 to 64 bytes. */
    method WriteChunks(base: nat, start: nat, total: nat) returns (ok: bool)
      requires node.Valid() && temp.Length == CHUNK
      modifies node, temp, `writeFails, `initiations, `connectionFails
      ensures node.Valid()
      ensures Tried(old(node.history), node.history, base - FLASH_START, image, start, total)
      ensures ok ==> Programmed(old(node.flash), node.flash, base - FLASH_START, image, start, total)
      ensures Onward(old(node.faults), old(node.announcements)) && (!ok ==> start < total)
      ensures !ok && readable && total <= |image| && Room(base - FLASH_START + start, base - FLASH_START + total) ==>
        node.faults >= old(node.faults) + RETRY_LIMIT
    {
      ghost var at := base - FLASH_START;
      ghost var f0, h0 := node.flash, node.history;
      ProgramReflexive(f0, at, image, start, total);
      var current := start;
      while current < total
        invariant node.Valid() && start <= current && (start < current ==> current <= total)
        invariant Onward(old(node.faults), old(node.announcements))
        invariant Programmed(f0, node.flash, at, image, start, current)
        invariant Tried(h0, node.history, at, image, start, total)
      {
        var n := ChunkLength(current, total);
        ghost var h, f := node.history, node.flash;
        ok := WriteChunk(base, current, n);
        TriedCompose(h0, h, node.history, at, image, start, total);
        if !ok {
          return false;
        }
        ghost var part := image[current..current + n];
        ProgramAppend(f0, f, node.flash, part, at, image, start, current);
        current := current + n;
      }
      return true;
    }

    /** Writes the image from `start` to `total`. */
    method WriteSubsection(base: nat, start: nat, total: nat) returns (ok: bool)
      requires node.Valid() && temp.Length == CHUNK
      modifies node, temp, `writeFails, `initiations, `connectionFails
      ensures node.Valid()
      ensures Tried(old(node.history), node.history, base - FLASH_START, image, start, total)
      ensures ok ==> Programmed(old(node.flash), node.flash, base - FLASH_START, image, start, total)
      ensures ok && Blank(old(node.flash), base - FLASH_START + start, base - FLASH_START + total) ==>
        Holds(node.flash, base - FLASH_START, image, start, total)
      ensures Onward(old(node.faults), old(node.announcements)) && (!ok ==> start < total)
      ensures !ok && readable && total <= |image| && Room(base - FLASH_START + start, base - FLASH_START + total) ==>
        node.faults >= old(node.faults) + RETRY_LIMIT
    {
      ghost var at, f0 := base - FLASH_START, node.flash;
      ok := WriteChunks(base, start, total);
      if ok && Blank(f0, at + start, at + total) {
        ProgramErased(f0, node.flash, at, image, start, total);
      }
    }

    /** One pass of the verify loop: reads a chunk of the image and compares it with the flash. */
    method VerifyChunk(base: nat, current: nat, n: nat) returns (ok: bool)
      requires node.Valid() && temp.Length == CHUNK && 1 <= n <= CHUNK
      modifies temp, `readFails, `initiations, `connectionFails
      modifies node`commands, node`faults, node`announcements, node`answered
      ensures ok ==> current + n <= |image|
      ensures ok ==> Holds(node.flash, base + current - FLASH_START, image[current..current + n], 0, n)
      ensures Onward(old(node.faults), old(node.announcements))
      ensures var at := base + current - FLASH_START;
        !ok && readable && current + n <= |image| && Room(at, at + Blocks(n)) ==>
        node.faults >= old(node.faults) + RETRY_LIMIT || !Holds(node.flash, at, image[current..current + n], 0, n)
    {
      ok := ReadImage(current, n);
      if ok {
        ok := VerifyMemoryReliable(base + current, temp, n);
      }
    }

    method VerifySubsection(base: nat, start: nat, total: nat) returns (ok: bool)
      requires node.Valid() && temp.Length == CHUNK
      modifies temp, `readFails, `initiations, `connectionFails
      modifies node`commands, node`faults, node`announcements, node`answered
      ensures ok ==> Holds(node.flash, base - FLASH_START, image, start, total)
      ensures Onward(old(node.faults), old(node.announcements)) && (!ok ==> start < total)
      ensures var at := base - FLASH_START + start;
        !ok && readable && total <= |image| && Room(at, at + Blocks(total - start)) ==>
        node.faults >= old(node.faults) + RETRY_LIMIT || !Holds(node.flash, base - FLASH_START, image, start, total)
    {
      ghost var at := base - FLASH_START;
      var current := start;
      while current < total
        invariant node.Valid() && start <= current && (start < current ==> current <= total)
        invariant Onward(old(node.faults), old(node.announcements))
        invariant (current - start) % CHUNK == 0 || current == total
        invariant Holds(node.flash, at, image, start, current)
      {
        var n := ChunkLength(current, total);
        ChunkBlocks(current - start, n, total - start);
        ok := VerifyChunk(base, current, n);
        if !ok {
          if Holds(node.flash, at, image, start, total) {
            HoldsPart(node.flash, at, image, start, total, current, n);
          }
          return false;
        }
        HoldsAppend(node.flash, image[current..current + n], at, image, start, current, n);
        current := current + n;
      }
      return true;
    }

    /** Erases the page at `lo`, `off` bytes behind that of the base. */
    method ErasePageAt(ghost job: Job, ghost off: nat, ghost lo: nat, tempAddress: nat, ghost f0: seq<byte>)
      returns (ok: bool)
      requires tempAddress == FLASH_START + job.base + off && off % PAGE_SIZE == 0 && lo == job.Lo() + off
      requires node.Valid() && job.Cleared(f0, node.flash, lo)
      modifies node`flash, node`history, `eraseFails, `initiations, `connectionFails
      modifies node`commands, node`faults, node`announcements, node`answered
      ensures node.Valid() && Onward(old(node.faults), old(node.announcements))
      ensures !ok && Room(lo, lo + PAGE_SIZE) ==> node.faults >= old(node.faults) + RETRY_LIMIT
      ensures Wiped(old(node.history), node.history, lo, lo + PAGE_SIZE, node.atomicErase)
      ensures ok ==> Blank(node.flash, lo, lo + PAGE_SIZE) && job.Cleared(f0, node.flash, lo + PAGE_SIZE)
    {
      var page := (tempAddress - FLASH_START) / PAGE_SIZE;
      PageAt(job.base, off);
      ok := ErasePageReliable(page, lo);
      if ok {
        ClearPage(job, f0, old(node.history), node.history, lo, node.atomicErase);
      }
    }

    /** Erases the pages of the image, the one with the header first. */
    method ErasePages(base: nat, total: nat) returns (ok: bool, ghost erased: nat)
      requires node.Valid() && FLASH_START <= base < FLASH_START + |node.flash|
      modifies node`flash, node`history, `eraseFails, `initiations, `connectionFails
      modifies node`commands, node`faults, node`announcements, node`answered
      ensures node.Valid() && old(node.history) <= node.history
      ensures var job := Job(image, base - FLASH_START, total);
        job.HeaderInFirstPage() ==>
        Phases(job, old(node.flash), node.history, |old(node.history)| - 1, erased, |node.history|, node.atomicErase) &&
        (ok ==> erased < |node.history|)
      ensures var job := Job(image, base - FLASH_START, total);
        ok ==> job.Cleared(old(node.flash), node.flash, job.EraseEnd())
      ensures Onward(old(node.faults), old(node.announcements))
      ensures var job := Job(image, base - FLASH_START, total);
        !ok && Room(job.Lo(), job.EraseEnd()) ==> node.faults >= old(node.faults) + RETRY_LIMIT
    {
      ghost var job := Job(image, base - FLASH_START, total);
      ghost var f0, start := node.flash, |node.history| - 1;
      EraseReflexive(f0, job.Lo(), job.Lo() + PAGE_SIZE);
      erased := |node.history|;
      var tempAddress := base;
      ghost var off, lo: nat := 0, job.Lo();
      while tempAddress <= base + total
        invariant lo == job.Lo() + off
        invariant tempAddress == base + off && off % PAGE_SIZE == 0 && (off > 0 ==> off - PAGE_SIZE <= total)
        invariant node.Valid() && old(node.history) <= node.history
        invariant Onward(old(node.faults), old(node.announcements))
        invariant job.Cleared(f0, node.flash, lo)
        invariant job.HeaderInFirstPage() ==>
          PagesErased(job, f0, node.history, start, erased, off, node.atomicErase)
      {
        ghost var h := node.history;
        LastPage(total, off);
        ok := ErasePageAt(job, off, lo, tempAddress, f0);
        erased := PageErase(job, f0, h, node.history, start, erased, off, lo, node.atomicErase);
        if !ok {
          return;
        }
        NextPage(off);
        tempAddress, off, lo := tempAddress + PAGE_SIZE, off + PAGE_SIZE, lo + PAGE_SIZE;
      }
      LastPage(total, off - PAGE_SIZE);
      ok := true;
    }

    /** Writes and then verifies a subsection. On erased flash this fails only for
        want of the image or after a command has failed three times. */
    method Fill(base: nat, start: nat, total: nat) returns (ok: bool)
      requires node.Valid() && temp.Length == CHUNK
      modifies node, temp, `writeFails, `readFails, `initiations, `connectionFails
      ensures node.Valid()
      ensures Tried(old(node.history), node.history, base - FLASH_START, image, start, total)
      ensures ok ==> Programmed(old(node.flash), node.flash, base - FLASH_START, image, start, total)
      ensures ok ==> Holds(node.flash, base - FLASH_START, image, start, total)
      ensures Onward(old(node.faults), old(node.announcements)) && (!ok ==> start < total)
      ensures var at := base - FLASH_START + start;
        !ok && readable && total <= |image| && Room(at, at + Blocks(total - start)) &&
        Blank(old(node.flash), at, base - FLASH_START + total) ==>
        node.faults >= old(node.faults) + RETRY_LIMIT
    {
      ok := WriteSubsection(base, start, total);
      if ok {
        ok := VerifySubsection(base, start, total);
      }
    }

    /** The part of an update behind the erasing: the body, then the header. */
    method WriteImage(base: nat, total: nat)
      returns (ok: bool, ghost written: seq<seq<byte>>, ghost body: seq<byte>)
      requires node.Valid() && temp.Length == CHUNK && FLASH_START <= base
      modifies node, temp, `writeFails, `readFails, `initiations, `connectionFails
      ensures node.Valid()
      ensures Tried(old(node.history), written, base - FLASH_START, image, CHUNK, total)
      ensures body == written[|written| - 1]
      ensures node.history == written || (
        Tried(written, node.history, base - FLASH_START, image, 0, CHUNK) &&
        Holds(body, base - FLASH_START, image, CHUNK, total))
      ensures ok ==> Programmed(old(node.flash), body, base - FLASH_START, image, CHUNK, total)
      ensures ok ==> Holds(body, base - FLASH_START, image, CHUNK, total)
      ensures ok ==> Programmed(body, node.flash, base - FLASH_START, image, 0, CHUNK)
      ensures ok ==> Holds(node.flash, base - FLASH_START, image, 0, CHUNK)
      ensures Onward(old(node.faults), old(node.announcements))
      ensures var at := base - FLASH_START;
        !ok && readable && Max(total, CHUNK) <= |image| && Room(at, at + Extent(total)) &&
        Blank(old(node.flash), at, at + Max(total, CHUNK)) ==>
        node.faults >= old(node.faults) + RETRY_LIMIT
    {
      ok := Fill(base, CHUNK, total);
      written, body := node.history, node.flash;
      if ok {
        if Blank(old(node.flash), base - FLASH_START, base - FLASH_START + Max(total, CHUNK)) {
          HeaderStaysBlank(old(node.flash), node.flash, base - FLASH_START, image, total,
                           base - FLASH_START + Max(total, CHUNK));
        }
        ok := Fill(base, 0, CHUNK);
      }
    }

    /** The part of an update behind the erasing. */
    method WriteErased(base: nat, total: nat, ghost f0: seq<byte>, ghost start: nat, ghost erased: nat)
      returns (ok: bool, ghost sealed: nat)
      requires node.Valid() && temp.Length == CHUNK && FLASH_START <= base && start < |node.history|
      requires var job := Job(image, base - FLASH_START, total);
        job.HeaderInFirstPage() ==> (
          erased < |node.history| && Phases(job, f0, node.history, start, erased, |node.history|, node.atomicErase))
      requires var job := Job(image, base - FLASH_START, total); job.Cleared(f0, node.flash, job.EraseEnd())
      modifies node, temp, `writeFails, `readFails, `initiations, `connectionFails
      ensures node.Valid() && old(node.history) <= node.history
      ensures var job := Job(image, base - FLASH_START, total);
        job.HeaderInFirstPage() ==> Phases(job, f0, node.history, start, erased, sealed, node.atomicErase)
      ensures ok ==> Job(image, base - FLASH_START, total).Updated(f0, node.flash)
      ensures Onward(old(node.faults), old(node.announcements))
      ensures var at := base - FLASH_START;
        !ok && readable && Max(total, CHUNK) <= |image| && Room(at, at + Extent(total)) &&
        Blank(old(node.flash), at, at + Max(total, CHUNK)) ==>
        node.faults >= old(node.faults) + RETRY_LIMIT
    {
      ghost var job := Job(image, base - FLASH_START, total);
      ghost var f1, h1 := node.flash, node.history;
      ghost var written, body;
      ok, written, body := WriteImage(base, total);
      sealed := |written|;
      if job.HeaderInFirstPage() {
        WritePhases(job, f0, h1, written, node.history, start, erased, node.atomicErase);
      }
      if ok {
        UpdateComplete(job, f0, f1, body, node.flash);
      }
    }

    /** A whole update. Addresses stay within 32 bits. At every moment of it, and
        wherever it fails, the flash is in the phase that `erased` and `sealed`
        give; on success it is the updated one. Nothing is sent to a node that does
        not announce itself. An update that fits succeeds unless three or more
        commands that the node could have carried out are not acknowledged. */
    method UpdateM0(base: nat, total: nat) returns (ok: bool, ghost erased: nat, ghost sealed: nat)
      requires node.Valid() && temp.Length == CHUNK
      requires FLASH_START <= base < FLASH_START + |node.flash| && base + total + PAGE_SIZE < 0x1_0000_0000
      modifies node, temp, this
      ensures node.Valid() && old(node.history) <= node.history
      ensures var job := Job(image, base - FLASH_START, total);
        job.HeaderInFirstPage() ==>
        Phases(job, old(node.flash), node.history, |old(node.history)| - 1, erased, sealed, node.atomicErase)
      ensures var job := Job(image, base - FLASH_START, total);
        job.HeaderInFirstPage() && node.atomicErase ==>
        AllConsistent(job, old(node.flash), node.history, |old(node.history)| - 1)
      ensures ok ==> Job(image, base - FLASH_START, total).Updated(old(node.flash), node.flash)
      ensures node.announcements == old(node.announcements) ==>
        !ok && node.commands == old(node.commands) && node.history == old(node.history)
      ensures var job := Job(image, base - FLASH_START, total);
        node.announcements > old(node.announcements) && readable && job.Length() <= |image| && job.Fits(node.size) ==>
        ok || node.faults >= old(node.faults) + RETRY_LIMIT
    {
      ghost var job := Job(image, base - FLASH_START, total);
      ghost var f0, start := node.flash, |node.history| - 1;
      EraseReflexive(f0, job.Lo(), job.Lo() + PAGE_SIZE);
      erased, sealed := |node.history|, |node.history|;
      ok := Initiate();
      if !ok {
        return;
      }
      ok, erased := ErasePages(base, total);
      sealed := |node.history|;
      if !ok {
        return;
      }
      if job.Fits(node.size) {
        ErasedBlank(job, f0, node.flash);
      }
      ok, sealed := WriteErased(base, total, f0, start, erased);
    }
  }
}
