/**
 The RAM disk of examples/blkram.c (6.9 and later): requests are lists of segments copied
 to or from a flat buffer. A WRITE segment is the content of its page range; for a READ the
 segments given are the old contents of the page ranges and the new ones are returned.
 */
module Blkram {

  newtype Byte = x: int | 0 <= x < 256

  /** `(unsigned long)sector * BLKRAM_SECTOR_SIZE` */
  function ByteOffset(sector: nat): nat {
    sector * 512
  }

  const ULONG: int := 0x1_0000_0000_0000_0000

  type Segments = seq<seq<Byte>>

  /** The length of the first n segments together. */
  function Total(segs: Segments, n: nat): nat
    requires n <= |segs|
    decreases n
  {
    if n == 0 then 0 else Total(segs, n - 1) + |segs[n-1]|
  }

  /** Byte x of the first n segments strung together. */
  function ByteAt(segs: Segments, n: nat, x: nat): Byte
    requires n <= |segs| && x < Total(segs, n)
    decreases n
  {
    if x < Total(segs, n - 1) then ByteAt(segs, n - 1, x) else segs[n-1][x - Total(segs, n - 1)]
  }

  function Concat(segs: Segments, n: nat): (s: seq<Byte>)
    requires n <= |segs|
    ensures |s| == Total(segs, n)
  {
    seq(Total(segs, n), x requires 0 <= x < Total(segs, n) => ByteAt(segs, n, x))
  }

  /** How many of the first n segments precede the first one that overruns the disk. */
  function Fitting(size: nat, offset: nat, segs: Segments, n: nat): (k: nat)
    requires n <= |segs|
    ensures k <= n
    ensures k > 0 ==> offset + Total(segs, k) <= size
    decreases n
  {
    if n == 0 then 0 else
    var k := Fitting(size, offset, segs, n - 1);
    if k == n - 1 && offset + Total(segs, n) <= size then n else k
  }

  lemma {:induction false} TotalGrows(segs: Segments, m: nat, n: nat)
    requires m <= n <= |segs|
    ensures Total(segs, m) <= Total(segs, n)
    decreases n
  {
    if m < n { TotalGrows(segs, m, n - 1); }
  }

  /** A segment is served exactly when it, and so all before it, end within the disk. */
  lemma {:induction false} FittingIs(size: nat, offset: nat, segs: Segments, n: nat, i: nat)
    requires 0 < i <= n <= |segs|
    ensures offset + Total(segs, i) <= size <==> i <= Fitting(size, offset, segs, n)
    decreases n
  {
    if i < n {
      FittingIs(size, offset, segs, n - 1, i);
      TotalGrows(segs, i, n);
    } else if n > 1 {
      FittingIs(size, offset, segs, n - 1, n - 1);
    }
  }

  /** The flat buffer with `bytes` written over it at `offset`. */
  function Overwrite(data: seq<Byte>, offset: nat, bytes: seq<Byte>): (r: seq<Byte>) {
    seq(|data|, x requires 0 <= x < |data| =>
      if offset <= x < offset + |bytes| then bytes[x - offset] else data[x])
  }

  datatype Request =
    | Passthrough
    | Io(write: bool, sector: nat, segs: Segments)

  /** Status BLK_STS_OK or BLK_STS_IOERR, the disk and the segments afterwards. */
  datatype Outcome = Outcome(ok: bool, data: seq<Byte>, segs: Segments)

  /** The n bytes of the disk from `at` on. */
  function Slice(data: seq<Byte>, at: nat, n: nat): (r: seq<Byte>)
    requires at + n <= |data|
    ensures |r| == n
  {
    seq(n, k requires 0 <= k < n => data[at + k])
  }

  /** Segment i of a READ when it has been served. */
  function Stretch(data: seq<Byte>, offset: nat, segs: Segments, i: nat): (r: seq<Byte>)
    requires i < |segs|
    ensures |r| == |segs[i]|
  {
    var at := offset + Total(segs, i);
    if at + |segs[i]| <= |data| then Slice(data, at, |segs[i]|) else segs[i]
  }

  /** The state when n segments have been copied. */
  function Copied(data: seq<Byte>, write: bool, offset: nat, segs: Segments, n: nat): (r: Outcome)
    requires n <= |segs|
    ensures |r.data| == |data| && |r.segs| == |segs|
  {
    if write
    then Outcome(n == |segs|, Overwrite(data, offset, Concat(segs, n)), segs)
    else Outcome(n == |segs|, data, seq(|segs|, i requires 0 <= i < |segs| =>
           if i < n then Stretch(data, offset, segs, i) else segs[i]))
  }

  /** The effect of a request on a disk with the given content. */
  function Serve(data: seq<Byte>, rq: Request): (r: Outcome)
    ensures |r.data| == |data|
  {
    match rq
    case Passthrough => Outcome(false, data, [])
    case Io(write, sector, segs) =>
      var offset := ByteOffset(sector);
      Copied(data, write, offset, segs, Fitting(|data|, offset, segs, |segs|))
  }

  /** A request succeeds if and only if its last byte is on the disk. */
  lemma SucceedsIffFits(data: seq<Byte>, sector: nat, segs: Segments, write: bool)
    ensures Serve(data, Io(write, sector, segs)).ok <==>
            segs == [] || ByteOffset(sector) + Total(segs, |segs|) <= |data|
  {
    if segs != [] { FittingIs(|data|, ByteOffset(sector), segs, |segs|, |segs|); }
  }

  // Histories of requests.

  /** The disk after a history, of the given size and all zero at the start. */
  function After(size: nat, history: seq<Request>): (data: seq<Byte>)
    ensures |data| == size
    decreases |history|
  {
    if history == [] then seq(size, _ => 0)
    else Serve(After(size, history[..|history|-1]), history[|history|-1]).data
  }

  /** The bytes a request puts on a disk of the given size, from its offset on. */
  function Written(size: nat, rq: Request): seq<Byte> {
    if rq.Io? && rq.write
    then Concat(rq.segs, Fitting(size, ByteOffset(rq.sector), rq.segs, |rq.segs|))
    else []
  }

  predicate Covers(size: nat, rq: Request, x: nat) {
    rq.Io? && ByteOffset(rq.sector) <= x < ByteOffset(rq.sector) + |Written(size, rq)|
  }

  /** The byte last written at x, looking back through the history; 0 if there is none. */
  function LastWritten(size: nat, history: seq<Request>, x: nat): Byte
    decreases |history|
  {
    if history == [] then 0 else
    var rq := history[|history|-1];
    if Covers(size, rq, x) then Written(size, rq)[x - ByteOffset(rq.sector)]
    else LastWritten(size, history[..|history|-1], x)
  }

  lemma ServeByte(data: seq<Byte>, rq: Request, x: nat)
    requires x < |data|
    ensures Serve(data, rq).data[x] ==
            if Covers(|data|, rq, x) then Written(|data|, rq)[x - ByteOffset(rq.sector)] else data[x]
  {
  }

  /**
   The disk refines a flat array: after any history, overruns and passthrough requests
   included, every byte is the one last written there.
   */
  lemma {:induction false} HoldsLastWritten(size: nat, history: seq<Request>, x: nat)
    requires x < size
    ensures After(size, history)[x] == LastWritten(size, history, x)
    decreases |history|
  {
    if history != [] {
      HoldsLastWritten(size, history[..|history|-1], x);
      ServeByte(After(size, history[..|history|-1]), history[|history|-1], x);
    }
  }

  lemma ServedSegment(data: seq<Byte>, sector: nat, segs: Segments, i: nat)
    requires i < |segs|
    ensures var r := Serve(data, Io(false, sector, segs)).segs;
            && |r| == |segs|
            && r[i] == if i < Fitting(|data|, ByteOffset(sector), segs, |segs|)
                       then Stretch(data, ByteOffset(sector), segs, i) else segs[i]
  {
  }

  lemma StretchAt(data: seq<Byte>, offset: nat, segs: Segments, i: nat, j: nat)
    requires i < |segs| && offset + Total(segs, i + 1) <= |data| && j < |segs[i]|
    ensures offset + Total(segs, i) + j < |data|
    ensures Stretch(data, offset, segs, i)[j] == data[offset + Total(segs, i) + j]
  {
  }

  lemma ServedByte(data: seq<Byte>, sector: nat, segs: Segments, i: nat, j: nat)
    requires i < |segs| && j < |segs[i]|
    ensures var r, x := Serve(data, Io(false, sector, segs)).segs, ByteOffset(sector) + Total(segs, i) + j;
            var fits := i < Fitting(|data|, ByteOffset(sector), segs, |segs|);
            && |r| == |segs| && |r[i]| == |segs[i]| && (fits ==> x < |data|)
            && r[i][j] == if fits then data[x] else segs[i][j]
  {
    var n := Fitting(|data|, ByteOffset(sector), segs, |segs|);
    ServedSegment(data, sector, segs, i);
    if i < n {
      TotalGrows(segs, i + 1, n);
      StretchAt(data, ByteOffset(sector), segs, i, j);
    }
  }

  /**
   A READ after any history returns, in every segment before the overrun, the bytes last
   written where the segment lies, and leaves the segments from the overrun on alone.
   */
  lemma ReadsLastWritten(size: nat, history: seq<Request>, sector: nat, segs: Segments, i: nat, j: nat)
    requires i < |segs| && j < |segs[i]|
    ensures var r := Serve(After(size, history), Io(false, sector, segs));
            && |r.segs| == |segs| && |r.segs[i]| == |segs[i]|
            && r.segs[i][j] == if i < Fitting(size, ByteOffset(sector), segs, |segs|)
                               then LastWritten(size, history, ByteOffset(sector) + Total(segs, i) + j)
                               else segs[i][j]
  {
    ServedByte(After(size, history), sector, segs, i, j);
    if i < Fitting(size, ByteOffset(sector), segs, |segs|) {
      HoldsLastWritten(size, history, ByteOffset(sector) + Total(segs, i) + j);
    }
  }

  lemma WholeWrite(data: seq<Byte>, sector: nat, segs: Segments)
    requires ByteOffset(sector) + Total(segs, |segs|) <= |data|
    ensures Serve(data, Io(true, sector, segs)).data
         == Overwrite(data, ByteOffset(sector), Concat(segs, |segs|))
  {
    SucceedsIffFits(data, sector, segs, true);
  }

  /** Within the disk it does not matter how the bytes of a WRITE are split into segments. */
  lemma SplitDoesNotMatter(data: seq<Byte>, sector: nat, segs1: Segments, segs2: Segments)
    requires Concat(segs1, |segs1|) == Concat(segs2, |segs2|)
    requires ByteOffset(sector) + |Concat(segs1, |segs1|)| <= |data|
    ensures Serve(data, Io(true, sector, segs1)).data == Serve(data, Io(true, sector, segs2)).data
  {
    WholeWrite(data, sector, segs1);
    WholeWrite(data, sector, segs2);
  }

  /** Segment i of r holds the bytes of the disk where it lies. */
  ghost predicate Holds(data: seq<Byte>, offset: nat, segs: Segments, r: Segments, i: nat)
    requires i < |segs| == |r|
  {
    && |r[i]| == |segs[i]| && offset + Total(segs, i) + |segs[i]| <= |data|
    && forall k :: 0 <= k < |segs[i]| ==> r[i][k] == data[offset + Total(segs, i) + k]
  }

  lemma StretchHolds(data: seq<Byte>, offset: nat, segs: Segments, r: Segments, i: nat)
    requires i < |segs| == |r| && offset + Total(segs, i) + |segs[i]| <= |data|
    requires r[i] == Stretch(data, offset, segs, i)
    ensures Holds(data, offset, segs, r, i)
  {
  }

  lemma {:induction false} StretchesTotal(data: seq<Byte>, offset: nat, segs: Segments, r: Segments, n: nat)
    requires n <= |segs| == |r| && forall i :: 0 <= i < n ==> Holds(data, offset, segs, r, i)
    ensures Total(r, n) == Total(segs, n)
    decreases n
  {
    if n > 0 {
      StretchesTotal(data, offset, segs, r, n - 1);
      assert Holds(data, offset, segs, r, n - 1);
    }
  }

  lemma {:induction false} StretchesByte(data: seq<Byte>, offset: nat, segs: Segments, r: Segments, n: nat, x: nat)
    requires n <= |segs| == |r| && forall i :: 0 <= i < n ==> Holds(data, offset, segs, r, i)
    requires x < Total(segs, n) == Total(r, n)
    ensures offset + x < |data| && ByteAt(r, n, x) == data[offset + x]
    decreases n
  {
    assert Holds(data, offset, segs, r, n - 1);
    StretchesTotal(data, offset, segs, r, n - 1);
    if x < Total(segs, n - 1) { StretchesByte(data, offset, segs, r, n - 1, x); }
  }

  lemma HeldTogether(data: seq<Byte>, offset: nat, segs: Segments, r: Segments)
    requires |r| == |segs| && forall i :: 0 <= i < |segs| ==> Holds(data, offset, segs, r, i)
    requires offset + Total(segs, |segs|) <= |data|
    ensures Concat(r, |segs|) == Slice(data, offset, Total(segs, |segs|))
  {
    var n := |segs|;
    StretchesTotal(data, offset, segs, r, n);
    forall x | 0 <= x < Total(segs, n) ensures ByteAt(r, n, x) == data[offset + x] {
      StretchesByte(data, offset, segs, r, n, x);
    }
  }

  /** Within the disk a READ returns the stretch it asks for, however it is split. */
  lemma ReadsTheStretch(data: seq<Byte>, sector: nat, segs: Segments)
    requires ByteOffset(sector) + Total(segs, |segs|) <= |data|
    ensures var r := Serve(data, Io(false, sector, segs));
            && r.ok && |r.segs| == |segs|
            && Concat(r.segs, |segs|) == Slice(data, ByteOffset(sector), Total(segs, |segs|))
  {
    SucceedsIffFits(data, sector, segs, false);
    var offset, r := ByteOffset(sector), Serve(data, Io(false, sector, segs)).segs;
    forall i | 0 <= i < |segs| ensures Holds(data, offset, segs, r, i) {
      TotalGrows(segs, i + 1, |segs|);
      ServedSegment(data, sector, segs, i);
      StretchHolds(data, offset, segs, r, i);
    }
    HeldTogether(data, offset, segs, r);
  }

  // Sectors.

  /** Sectors of 512 bytes, one after the other from the first byte on. */
  lemma SectorsFollow(sector: nat)
    ensures ByteOffset(0) == 0 && ByteOffset(sector + 1) == ByteOffset(sector) + 512
  {
  }

  /** All segments strung together. */
  function Flat(segs: Segments): seq<Byte> {
    if segs == [] then [] else segs[0] + Flat(segs[1..])
  }

  lemma {:induction false} FlatAppend(segs: Segments, more: Segments)
    ensures Flat(segs + more) == Flat(segs) + Flat(more)
    decreases |segs|
  {
    if segs == [] {
      assert segs + more == more;
    } else {
      FlatAppend(segs[1..], more);
      assert (segs + more)[1..] == segs[1..] + more;
    }
  }

  lemma ConcatOneMore(segs: Segments, n: nat)
    requires n < |segs|
    ensures Concat(segs, n + 1) == Concat(segs, n) + segs[n]
  {
  }

  lemma {:induction false} ConcatIsFlat(segs: Segments, n: nat)
    requires n <= |segs|
    ensures Concat(segs, n) == Flat(segs[..n])
    decreases n
  {
    if n > 0 {
      ConcatIsFlat(segs, n - 1);
      ConcatOneMore(segs, n - 1);
      assert segs[..n] == segs[..n-1] + [segs[n-1]];
      FlatAppend(segs[..n-1], [segs[n-1]]);
      assert Flat([segs[n-1]]) == segs[n-1] + Flat([]);
    }
  }

  /**
   A WRITE of n sectors from sector s on, within the disk, changes exactly the bytes of those
   sectors, and into the bytes of its segments in order.
   */
  lemma WriteChangesItsSectors(data: seq<Byte>, s: nat, segs: Segments, n: nat, x: nat)
    requires |Flat(segs)| == n * 512 && (s + n) * 512 <= |data| && x < |data|
    ensures var r := Serve(data, Io(true, s, segs));
            && r.ok && |r.data| == |data|
            && r.data[x] == if s <= x / 512 < s + n then Flat(segs)[(x / 512 - s) * 512 + x % 512] else data[x]
  {
    ConcatIsFlat(segs, |segs|);
    assert segs[..|segs|] == segs;
    WholeWrite(data, s, segs);
    SucceedsIffFits(data, s, segs, true);
    InSector(x, s, n);
  }

  lemma InSector(x: nat, s: nat, n: nat)
    ensures s <= x / 512 < s + n <==> s * 512 <= x < s * 512 + n * 512
    ensures x - s * 512 == (x / 512 - s) * 512 + x % 512
  {
  }

  /** The bytes a request writes before the first segment that does not fit. */
  function Fits(size: nat, rq: Request): seq<Byte> {
    if rq.Io? && rq.write then Flat(rq.segs[..Fitting(size, rq.sector * 512, rq.segs, |rq.segs|)]) else []
  }

  /** The byte last written at place k of sector s, looking back through the history; 0 if there is none. */
  function LastInSector(size: nat, history: seq<Request>, s: nat, k: nat): Byte
    decreases |history|
  {
    if history == [] then 0 else
    var rq := history[|history|-1];
    if rq.Io? && rq.sector <= s && (s - rq.sector) * 512 + k < |Fits(size, rq)|
    then Fits(size, rq)[(s - rq.sector) * 512 + k]
    else LastInSector(size, history[..|history|-1], s, k)
  }

  lemma {:induction false} LastWrittenInSector(size: nat, history: seq<Request>, x: nat)
    ensures LastWritten(size, history, x) == LastInSector(size, history, x / 512, x % 512)
    decreases |history|
  {
    if history != [] {
      var rq := history[|history|-1];
      LastWrittenInSector(size, history[..|history|-1], x);
      if rq.Io? {
        WrittenIsFits(size, rq);
        InSector(x, rq.sector, 0);
        NotBefore(x, rq.sector, |Fits(size, rq)|);
      }
    }
  }

  lemma WrittenIsFits(size: nat, rq: Request)
    ensures Written(size, rq) == Fits(size, rq)
  {
    if rq.Io? && rq.write { ConcatIsFlat(rq.segs, Fitting(size, ByteOffset(rq.sector), rq.segs, |rq.segs|)); }
  }

  lemma NotBefore(x: nat, sector: nat, length: nat)
    ensures sector * 512 <= x < sector * 512 + length <==>
            sector <= x / 512 && (x / 512 - sector) * 512 + x % 512 < length
  {
  }

  lemma OneSegment(buffer: seq<Byte>, segs: Segments)
    requires segs == [buffer]
    ensures Total(segs, 0) == 0 && Total(segs, |segs|) == |buffer|
  {
    assert Total(segs, 1) == Total(segs, 0) + |segs[0]|;
  }

  lemma SectorFits(data: seq<Byte>, s: nat, segs: Segments)
    requires |segs| == 1 && Total(segs, 0) == 0 && Total(segs, |segs|) == 512 && (s + 1) * 512 <= |data|
    ensures Serve(data, Io(false, s, segs)).ok && Fitting(|data|, ByteOffset(s), segs, |segs|) == 1
  {
    SucceedsIffFits(data, s, segs, false);
    FittingIs(|data|, ByteOffset(s), segs, |segs|, |segs|);
  }

  lemma PlaceInSector(size: nat, history: seq<Request>, s: nat, k: nat)
    requires k < 512
    ensures LastWritten(size, history, ByteOffset(s) + k) == LastInSector(size, history, s, k)
  {
    var x := s * 512 + k;
    assert x / 512 == s && x % 512 == k;
    LastWrittenInSector(size, history, x);
  }

  /** The segment that lies at the start of the request. */
  lemma ReadsSegmentAt(size: nat, history: seq<Request>, s: nat, segs: Segments, i: nat, k: nat)
    requires i < |segs| && Total(segs, i) == 0 && k < |segs[i]|
    requires i < Fitting(size, ByteOffset(s), segs, |segs|)
    ensures var r := Serve(After(size, history), Io(false, s, segs)).segs;
            |r| == |segs| && |r[i]| == |segs[i]| && r[i][k] == LastWritten(size, history, ByteOffset(s) + k)
  {
    var x := ByteOffset(s) + Total(segs, i) + k;
    assert x == ByteOffset(s) + k;
    ReadsLastWritten(size, history, s, segs, i, k);
  }

  /** After any history a READ of sector s gives, at every place, what was last written there. */
  lemma ReadsTheSector(size: nat, history: seq<Request>, s: nat, buffer: seq<Byte>, k: nat)
    requires (s + 1) * 512 <= size && |buffer| == 512 && k < 512
    ensures var r := Serve(After(size, history), Io(false, s, [buffer]));
            r.ok && |r.segs| == 1 && |r.segs[0]| == 512 && r.segs[0][k] == LastInSector(size, history, s, k)
  {
    var segs := [buffer];
    OneSegment(buffer, segs);
    SectorFits(After(size, history), s, segs);
    ReadsSegmentAt(size, history, s, segs, 0, k);
    PlaceInSector(size, history, s, k);
  }

  // The size arithmetic of blkram_init.

  /** `blkram_mb * 1024 * 1024` in an unsigned long. */
  function DiskSize(mb: nat): (size: nat) {
    mb * 1024 * 1024 % 0x1_0000_0000_0000_0000
  }

  function Sectors(mb: nat): nat {
    DiskSize(mb) / 512
  }

  /** The capacity announced is exactly the buffer, even when the multiplication wraps. */
  lemma CapacityIsExact(mb: nat)
    ensures Sectors(mb) * 512 == DiskSize(mb)
    ensures mb < 0x1000_0000_0000 ==> DiskSize(mb) == 1_048_576 * mb
  {
    var size, q := mb * 1024 * 1024, mb * 1024 * 1024 / 0x1_0000_0000_0000_0000;
    assert DiskSize(mb) == size - q * 0x1_0000_0000_0000_0000;
    assert DiskSize(mb) == 512 * (mb * 2048 - q * 0x80_0000_0000_0000);
  }

  // Offsets in an unsigned long.

  function Ulong(x: nat): (r: nat)
    ensures r < ULONG && (x < ULONG ==> r == x)
  {
    x % 0x1_0000_0000_0000_0000
  }

  /** Status BLK_STS_OK or BLK_STS_IOERR; or a memcpy that leaves the buffer. */
  datatype Status = Good | IoErr | Stray

  /**
   What becomes of a request that starts at byte `start`: the first segment that does not fit
   is noticed unless its end, in an unsigned long, wraps round to one on the disk.
   */
  function Verdict(size: nat, start: nat, segs: Segments): Status {
    var k := Fitting(size, start, segs, |segs|);
    if k == |segs| then Good
    else if Ulong(start + Total(segs, k + 1)) > size then IoErr
    else Stray
  }

  /** The effect of a request from byte `start` on, up to the first segment that does not fit. */
  function ServeFrom(data: seq<Byte>, write: bool, start: nat, segs: Segments): Outcome {
    Copied(data, write, start, segs, Fitting(|data|, start, segs, |segs|))
  }

  /** All before segment i fits. */
  predicate FitsUpTo(size: nat, start: nat, segs: Segments, i: nat)
    requires i < |segs|
  {
    i == 0 || start + Total(segs, i) <= size
  }

  /** Segment i does not fit, but its end in an unsigned long is one on the disk. */
  predicate WrapsAt(size: nat, start: nat, segs: Segments, i: nat)
    requires i < |segs|
  {
    start + Total(segs, i + 1) > size >= Ulong(start + Total(segs, i + 1))
  }

  lemma FirstMisfit(size: nat, start: nat, segs: Segments, i: nat)
    requires i < |segs| && FitsUpTo(size, start, segs, i) && start + Total(segs, i + 1) > size
    ensures Fitting(size, start, segs, |segs|) == i
  {
    if i > 0 { FittingIs(size, start, segs, |segs|, i); }
    FittingIs(size, start, segs, |segs|, i + 1);
  }

  /** What the check of line 62 finds at a segment when all before it have fitted. */
  lemma AtSegment(size: nat, start: nat, segs: Segments, i: nat)
    requires i < |segs| && i <= Fitting(size, start, segs, |segs|)
    ensures var end := start + Total(segs, i + 1);
            if end <= size then i < Fitting(size, start, segs, |segs|)
            else i == Fitting(size, start, segs, |segs|)
                 && Verdict(size, start, segs) == if Ulong(end) > size then IoErr else Stray
  {
    FittingIs(size, start, segs, |segs|, i + 1);
  }

  /**
   A request leaves the buffer if and only if the end of its first segment that does not fit
   wraps round to one on the disk; so never while its end stays below 2^64.
   */
  lemma StaysInside(size: nat, start: nat, segs: Segments)
    ensures Verdict(size, start, segs) == Stray <==>
            exists i :: 0 <= i < |segs| && FitsUpTo(size, start, segs, i) && WrapsAt(size, start, segs, i)
    ensures start + Total(segs, |segs|) < ULONG ==> Verdict(size, start, segs) != Stray
  {
    var k := Fitting(size, start, segs, |segs|);
    if k < |segs| {
      AtSegment(size, start, segs, k);
      TotalGrows(segs, k + 1, |segs|);
      assert Verdict(size, start, segs) == Stray <==> WrapsAt(size, start, segs, k);
      assert FitsUpTo(size, start, segs, k);
    }
    forall i | 0 <= i < |segs| && FitsUpTo(size, start, segs, i) && WrapsAt(size, start, segs, i)
      ensures i == k
    {
      FirstMisfit(size, start, segs, i);
    }
  }

  /** The byte offset of a sector is right exactly below sector 2^55; above, it is that of another. */
  lemma SectorOffset(sector: nat)
    ensures Ulong(ByteOffset(sector)) == ByteOffset(sector) <==> sector < 0x80_0000_0000_0000
    ensures Ulong(ByteOffset(sector)) == Ulong(ByteOffset(sector + 0x80_0000_0000_0000))
  {
    assert ByteOffset(sector + 0x80_0000_0000_0000) == ByteOffset(sector) + 0x1_0000_0000_0000_0000;
  }

  /** A request of n sectors within the announced capacity never fails. */
  lemma WithinCapacity(mb: nat, data: seq<Byte>, sector: nat, segs: Segments, n: nat, write: bool)
    requires |data| == DiskSize(mb) && Total(segs, |segs|) == n * 512 && sector + n <= Sectors(mb)
    ensures Serve(data, Io(write, sector, segs)).ok
    ensures Ulong(ByteOffset(sector)) == ByteOffset(sector) && Verdict(|data|, ByteOffset(sector), segs) == Good
  {
    CapacityIsExact(mb);
    SucceedsIffFits(data, sector, segs, write);
  }

  // One round of the segment loop.

  lemma OverwriteMore(data: seq<Byte>, offset: nat, segs: Segments, n: nat)
    requires n < |segs|
    ensures Overwrite(Overwrite(data, offset, Concat(segs, n)), offset + Total(segs, n), segs[n])
         == Overwrite(data, offset, Concat(segs, n + 1))
  {
  }

  /** The memcpy of segment n, which lies at byte `at` of the disk. */
  function Segment(o: Outcome, write: bool, at: nat, n: nat): Outcome
    requires n < |o.segs| && at + |o.segs[n]| <= |o.data|
  {
    if write
    then Outcome(n + 1 == |o.segs|, Overwrite(o.data, at, o.segs[n]), o.segs)
    else Outcome(n + 1 == |o.segs|, o.data, o.segs[n := Slice(o.data, at, |o.segs[n]|)])
  }

  /** The memcpys of the first n segments, one after the other. */
  function CopyFirst(data: seq<Byte>, write: bool, start: nat, segs: Segments, n: nat): (r: Outcome)
    requires n <= |segs| && (n > 0 ==> start + Total(segs, n) <= |data|)
    ensures |r.data| == |data| && |r.segs| == |segs| && forall i :: n <= i < |segs| ==> r.segs[i] == segs[i]
    decreases n
  {
    if n == 0 then Outcome(|segs| == 0, data, segs)
    else Segment(CopyFirst(data, write, start, segs, n - 1), write, start + Total(segs, n - 1), n - 1)
  }

  lemma CopyOneMore(data: seq<Byte>, write: bool, offset: nat, segs: Segments, n: nat)
    requires n < |segs| && offset + Total(segs, n + 1) <= |data| && offset + Total(segs, n) <= |data|
    ensures Copied(data, write, offset, segs, n).segs[n] == segs[n]
    ensures Copied(data, write, offset, segs, n + 1)
         == Segment(Copied(data, write, offset, segs, n), write, offset + Total(segs, n), n)
  {
    if write {
      OverwriteMore(data, offset, segs, n);
    }
  }

  lemma CopyNext(data: seq<Byte>, write: bool, start: nat, segs: Segments, n: nat)
    requires n < |segs| && start + Total(segs, n + 1) <= |data|
    ensures CopyFirst(data, write, start, segs, n + 1)
         == Segment(CopyFirst(data, write, start, segs, n), write, start + Total(segs, n), n)
  {
  }

  /** Copying segment by segment gives the specified state. */
  lemma {:induction false} CopyFirstIs(data: seq<Byte>, write: bool, start: nat, segs: Segments, n: nat)
    requires n <= |segs| && (n > 0 ==> start + Total(segs, n) <= |data|)
    ensures CopyFirst(data, write, start, segs, n) == Copied(data, write, start, segs, n)
    decreases n
  {
    if n > 0 {
      CopyFirstIs(data, write, start, segs, n - 1);
      CopyOneMore(data, write, start, segs, n - 1);
    }
  }

  class Disk {
    const data: array<Byte>
    const size: nat
    var started: nat  // blk_mq_start_request calls
    var ended: nat    // blk_mq_end_request calls

    ghost predicate Valid()
      reads this
    {
      data.Length == size < ULONG
    }

    /** vzalloc'd: all zero. */
    constructor (mb: nat)
      ensures Valid() && size == DiskSize(mb) && data[..] == After(size, []) && started == ended == 0
      ensures fresh(data)
    {
      var n := DiskSize(mb);
      data := new Byte[n](_ => 0);
      size := n;
      started, ended := 0, 0;
    }

    /** Lines 67 to 80: one memcpy, in the direction of the request. */
    method CopySegment(write: bool, offset: nat, segs: Segments, n: nat) returns (out: Segments)
      requires Valid() && n < |segs| && offset + |segs[n]| <= size
      modifies data
      ensures Outcome(n + 1 == |segs|, data[..], out)
           == Segment(Outcome(false, old(data[..]), segs), write, offset, n)
    {
      out := segs;
      if write {
        forall k | 0 <= k < |segs[n]| { data[offset + k] := segs[n][k]; }
      } else {
        out := out[n := data[offset..offset + |segs[n]|]];
        assert data[offset..offset + |segs[n]|] == Slice(data[..], offset, |segs[n]|);
      }
    }

    /**
     The loop of lines 57 to 83, from the first byte `start` of the request on. It stops, here,
     before a memcpy that would leave the buffer.
     */
    method CopySegments(write: bool, start: nat, segs: Segments) returns (status: Status, out: Segments)
      requires Valid() && start < ULONG
      modifies data
      ensures status == Verdict(size, start, segs)
      ensures Outcome(status == Good, data[..], out) ==
              CopyFirst(old(data[..]), write, start, segs, Fitting(size, start, segs, |segs|))
    {
      ghost var before := data[..];
      ghost var n := Fitting(size, start, segs, |segs|);
      var offset := start;
      out := segs;
      var i := 0;
      while i < |segs|
        invariant 0 <= i <= n && offset == start + Total(segs, i) && offset < ULONG
        invariant i > 0 ==> start + Total(segs, i) <= size
        invariant Outcome(i == |segs|, data[..], out) == CopyFirst(before, write, start, segs, i)
      {
        AtSegment(size, start, segs, i);
        assert Total(segs, i + 1) == Total(segs, i) + |segs[i]|;
        var end := Ulong(offset + |segs[i]|);
        if end > size {
          return IoErr, out;
        }
        if offset + |segs[i]| > size {
          return Stray, out;
        }
        CopyNext(before, write, start, segs, i);
        assert Outcome(false, data[..], out) == CopyFirst(before, write, start, segs, i);
        out := CopySegment(write, offset, out, i);
        offset := end;
        i := i + 1;
      }
      status := Good;
    }

    /** `blkram_transfer`: the specified transfer, from the byte offset as an unsigned long has it. */
    method Transfer(write: bool, sector: nat, segs: Segments) returns (status: Status, out: Segments)
      requires Valid()
      modifies data
      ensures status == Verdict(size, Ulong(ByteOffset(sector)), segs)
      ensures Outcome(status == Good, data[..], out) ==
              ServeFrom(old(data[..]), write, Ulong(ByteOffset(sector)), segs)
      ensures sector < 0x80_0000_0000_0000 ==>
                Outcome(status == Good, data[..], out) == Serve(old(data[..]), Io(write, sector, segs))
    {
      SectorOffset(sector);
      var start := Ulong(ByteOffset(sector));
      CopyFirstIs(data[..], write, start, segs, Fitting(size, start, segs, |segs|));
      status, out := CopySegments(write, start, segs);
    }

    /** `blkram_queue_rq`: started and ended exactly once, whatever the outcome. */
    method QueueRq(rq: Request) returns (status: Status, out: Segments)
      requires Valid()
      modifies this, data
      ensures Valid()
      ensures rq.Passthrough? ==> status == IoErr && data[..] == old(data[..])
      ensures rq.Io? ==> status == Verdict(size, Ulong(ByteOffset(rq.sector)), rq.segs)
      ensures rq.Io? ==> Outcome(status == Good, data[..], out) ==
                         ServeFrom(old(data[..]), rq.write, Ulong(ByteOffset(rq.sector)), rq.segs)
      ensures started == old(started) + 1 && ended == old(ended) + 1
    {
      started := started + 1;
      match rq {
        case Passthrough => status, out := IoErr, [];
        case Io(write, sector, segs) => status, out := Transfer(write, sector, segs);
      }
      ended := ended + 1;
    }
  }

  /**
   Lines 130 to 137: without memory, or for a size of 0, which vzalloc refuses, there is no
   disk. The size is 0 exactly for the multiples of 2^44 MiB.
   */
  method Create(mb: nat, memory: bool) returns (disk: Disk?)
    ensures disk == null <==> !memory || mb % 0x1000_0000_0000 == 0
    ensures disk != null ==> fresh(disk) && fresh(disk.data) && disk.Valid() && disk.size == DiskSize(mb) > 0
                             && disk.data[..] == After(disk.size, []) && disk.started == disk.ended == 0
  {
    SizeIsZero(mb);
    if !memory || DiskSize(mb) == 0 { return null; }
    disk := new Disk(mb);
  }

  lemma SizeIsZero(mb: nat)
    ensures DiskSize(mb) == 0 <==> mb % 0x1000_0000_0000 == 0
  {
    var q, r := mb / 0x1000_0000_0000, mb % 0x1000_0000_0000;
    assert mb * 1024 * 1024 == q * 0x1_0000_0000_0000_0000 + r * 1024 * 1024;
    assert DiskSize(mb) == r * 1024 * 1024;
  }
}
