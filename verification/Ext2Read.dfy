/** Reading an Ext2 file, second/fs_ext2.c: the fast version, a callback that merges contiguous blocks
    into ranges, and the slow version that reads one block at a time.

    libext2fs calls the callback with the mapped logical blocks in ascending order and with negative
    numbers for indirect blocks, until it returns BLOCK_ABORT.  The specification of a file is its
    image: the bytes of the mapped blocks, zeros in between.
 */
module Ext2Read {
  import opened Common

  const MAX_READ_RANGE := 256

  // ---------- Arithmetic on blocks and bytes ----------

  function Bytes(blocks: nat, bs: nat): nat {
    blocks * bs
  }

  lemma BytesAdd(a: nat, b: nat, bs: nat)
    ensures Bytes(a + b, bs) == Bytes(a, bs) + Bytes(b, bs)
  {
  }

  lemma BytesLess(a: nat, b: nat, bs: nat)
    requires a < b
    ensures Bytes(a, bs) + bs <= Bytes(b, bs)
  {
    BytesAdd(a + 1, b - a - 1, bs);
    BytesAdd(a, 1, bs);
  }

  lemma BytesMonotone(a: nat, b: nat, bs: nat)
    requires a <= b
    ensures Bytes(a, bs) <= Bytes(b, bs)
  {
    BytesAdd(a, b - a, bs);
  }

  lemma BytesSmall(bs: nat)
    ensures Bytes(0, bs) == 0 && Bytes(1, bs) == bs
  {
  }

  function BlockOf(pos: nat, bs: nat): nat
    requires bs > 0
  {
    pos / bs
  }

  function OffsetIn(pos: nat, bs: nat): nat
    requires bs > 0
  {
    pos % bs
  }

  lemma Split(pos: nat, bs: nat)
    requires bs > 0
    ensures pos == Bytes(BlockOf(pos, bs), bs) + OffsetIn(pos, bs) && OffsetIn(pos, bs) < bs
  {
  }

  lemma SplitUnique(q: nat, r: nat, bs: nat)
    requires r < bs
    ensures BlockOf(Bytes(q, bs) + r, bs) == q && OffsetIn(Bytes(q, bs) + r, bs) == r
  {
    hide Bytes;
    var pos := Bytes(q, bs) + r;
    Split(pos, bs);
    if BlockOf(pos, bs) < q {
      BytesLess(BlockOf(pos, bs), q, bs);
    } else if q < BlockOf(pos, bs) {
      BytesLess(q, BlockOf(pos, bs), bs);
    }
  }

  // Number of blocks that the bytes before pos touch.
  function BlocksUpTo(pos: nat, bs: nat): nat
    requires bs > 0
  {
    if OffsetIn(pos, bs) == 0 then BlockOf(pos, bs) else BlockOf(pos, bs) + 1
  }

  // ---------- Files ----------

  // Mapped logical blocks and the physical blocks that hold them.
  type BlockMap = map<nat, nat>

  // Logical blocks logical .. logical+count-1 are in physical blocks start .. start+count-1.
  ghost predicate Contiguous(m: BlockMap, logical: nat, start: nat, count: nat) {
    forall l | logical <= l < logical + count :: l in m && m[l] == start + (l - logical)
  }

  // 1024 << s_log_block_size: a power of two.
  predicate IsBlockSize(bs: nat) {
    bs > 0 && WORDS % bs == 0
  }

  datatype Volume = Volume(bs: nat, disk: seq<seq<byte>>) {
    ghost predicate Holds(m: BlockMap) {
      && IsBlockSize(bs)
      && (forall p | 0 <= p < |disk| :: |disk[p]| == bs)
      && forall l | l in m :: 0 < m[l] < |disk|
    }

    // The byte of the file at offset i.
    ghost function ImageByte(m: BlockMap, i: nat): byte
      requires Holds(m)
    {
      Split(i, bs);
      if BlockOf(i, bs) in m then disk[m[BlockOf(i, bs)]][OffsetIn(i, bs)] else 0
    }

    // The contents of count physical blocks.
    function Contents(start: nat, count: nat): seq<byte>
      requires start + count <= |disk|
    {
      if count == 0 then [] else Contents(start, count - 1) + disk[start + count - 1]
    }

    lemma {:induction false} ContentsLength(m: BlockMap, start: nat, count: nat)
      requires Holds(m) && start + count <= |disk|
      ensures |Contents(start, count)| == Bytes(count, bs)
    {
      hide Bytes;
      BytesSmall(bs);
      if count > 0 {
        ContentsLength(m, start, count - 1);
        BytesAdd(count - 1, 1, bs);
      }
    }

    /** Physically contiguous blocks that are logically contiguous hold a slice of the image. */
    lemma {:induction false} ContentsAreImage(m: BlockMap, start: nat, count: nat, logical: nat, i: nat)
      requires Holds(m) && start + count <= |disk|
      requires Contiguous(m, logical, start, count)
      requires i < Bytes(count, bs)
      ensures i < |Contents(start, count)| && Contents(start, count)[i] == ImageByte(m, Bytes(logical, bs) + i)
    {
      hide Bytes, BlockOf, OffsetIn;
      BytesSmall(bs);
      ContentsLength(m, start, count);
      ContentsLength(m, start, count - 1);
      BytesAdd(count - 1, 1, bs);
      if i < Bytes(count - 1, bs) {
        ContentsAreImage(m, start, count - 1, logical, i);
      } else {
        var r := i - Bytes(count - 1, bs);
        assert m[logical + (count - 1)] == start + (count - 1);
        BytesAdd(logical, count - 1, bs);
        SplitUnique(logical + (count - 1), r, bs);
      }
    }
  }

  lemma OffsetOrder(a: nat, p: nat, b: nat, bs: nat)
    requires bs > 0 && Bytes(a, bs) <= p
    ensures p < Bytes(b, bs) ==> a <= BlockOf(p, bs) < b
    ensures p <= Bytes(b, bs) ==> a <= BlocksUpTo(p, bs) <= b
  {
    hide Bytes, BlockOf, OffsetIn;
    Split(p, bs);
    var q := BlockOf(p, bs);
    if q < a {
      BytesLess(q, a, bs);
    }
    if b < q {
      BytesLess(b, q, bs);
    }
  }

  lemma ZerosInHole(v: Volume, m: BlockMap, a: nat, b: nat, p: nat, n: nat)
    requires v.Holds(m) && NoneMapped(m, a, b) && Bytes(a, v.bs) <= p && p + n <= Bytes(b, v.bs)
    ensures forall i: nat | p <= i < p + n :: v.ImageByte(m, i) == 0
  {
    forall i: nat | p <= i < p + n ensures v.ImageByte(m, i) == 0 {
      OffsetOrder(a, i, b, v.bs);
    }
  }

  ghost predicate NoneMapped(m: BlockMap, a: nat, b: nat) {
    forall l | l in m :: !(a <= l < b)
  }

  /** All mapped blocks are before block `end`, and the last one is right before it. */
  ghost predicate IsEnd(m: BlockMap, end: nat) {
    && (forall l | l in m :: l < end)
    && (end > 0 ==> end - 1 in m)
  }

  // A number of bytes as an unsigned long holds it.
  function Cut(n: nat): nat {
    n % WORDS
  }

  lemma CutTakes(n: nat)
    ensures Cut(n) <= n && Cut(n) < WORDS
    ensures Cut(n) == n <==> n < WORDS
    ensures Cut(n) < n ==> n - Cut(n) >= WORDS && Cut(n - Cut(n)) == 0
  {
  }

  // Where a read from `from` on can enter a hole: at the first whole block, or behind a mapped one.
  ghost predicate Begins(m: BlockMap, bs: nat, from: nat, a: nat)
    requires bs > 0
  {
    a == BlocksUpTo(from, bs) || (a > 0 && a - 1 in m)
  }

  /** The callback counts the bytes of a hole in 32 bits.  A hole of 4 GiB or more that a read enters at block a
      overruns if the count, thus cut, ends before what is wanted. */
  ghost predicate Overruns(m: BlockMap, bs: nat, from: nat, size: nat, a: nat, b: nat)
    requires bs > 0
  {
    && a < b && b in m && NoneMapped(m, a, b) && Begins(m, bs, from, a) && from <= Bytes(a, bs)
    && Bytes(b - a, bs) >= WORDS
    && Bytes(a, bs) + Cut(Bytes(b - a, bs)) < from + size
  }

  /** No hole overruns for a read of `size` bytes at `from`. */
  ghost predicate HolesFit(m: BlockMap, bs: nat, from: nat, size: nat)
    requires bs > 0
  {
    forall a: nat, b: nat :: !Overruns(m, bs, from, size, a, b)
  }

  /** What a read of `wanted` bytes at position `start` can deliver: nothing behind the last mapped block. */
  function Deliverable(bs: nat, end: nat, start: nat, wanted: nat): nat {
    Min(wanted, if start < Bytes(end, bs) then Bytes(end, bs) - start else 0)
  }

  /** What a read without faults delivers. */
  ghost predicate Delivers(v: Volume, m: BlockMap, end: nat, start: nat, wanted: nat, data: seq<byte>)
    requires v.Holds(m)
  {
    && |data| == Deliverable(v.bs, end, start, wanted)
    && forall j | 0 <= j < |data| :: data[j] == v.ImageByte(m, start + j)
  }

  /** What two reads in a row deliver is what one read of both sizes delivers. */
  lemma DeliversBoth(v: Volume, m: BlockMap, end: nat, start: nat, a: nat, b: nat, first: seq<byte>, second: seq<byte>)
    requires v.Holds(m)
    requires Delivers(v, m, end, start, a, first) && Delivers(v, m, end, start + |first|, b, second)
    ensures Delivers(v, m, end, start, a + b, first + second)
  {
    hide Volume.ImageByte, Volume.Holds;
    var data := first + second;
    forall j | 0 <= j < |data| ensures data[j] == v.ImageByte(m, start + j) {
      if j >= |first| {
        var k := j - |first|;
        assert second[k] == v.ImageByte(m, start + |first| + k);
      }
    }
  }

  /** From byte k on, the data are those of a place d bytes further on in the file. */
  ghost predicate Shifted(v: Volume, m: BlockMap, end: nat, from: nat, data: seq<byte>, k: nat, d: nat)
    requires v.Holds(m)
  {
    && k < |data| && d > 0 && d % WORDS == 0 && from + |data| + d <= Bytes(end, v.bs)
    && forall j | k <= j < |data| :: data[j] == v.ImageByte(m, from + d + j)
  }

  ghost predicate Misplaced(v: Volume, m: BlockMap, end: nat, from: nat, data: seq<byte>)
    requires v.Holds(m)
  {
    exists k: nat, d: nat :: Shifted(v, m, end, from, data, k, d)
  }

  // ---------- Holes of a read in two parts ----------

  // Where the run of unmapped blocks in front of x begins, but not before lo.
  lemma HoleStart(m: BlockMap, lo: nat, x: nat) returns (h: nat)
    requires lo <= x
    ensures lo <= h <= x && NoneMapped(m, h, x) && (h == lo || (h > 0 && h - 1 in m))
    decreases x
  {
    if x == lo || x - 1 in m {
      h := x;
    } else {
      h := HoleStart(m, lo, x - 1);
    }
  }

  // The cut count of whole blocks is a number of whole blocks.
  lemma CutBlocks(k: nat, bs: nat) returns (c: nat)
    requires IsBlockSize(bs)
    ensures Cut(Bytes(k, bs)) == Bytes(c, bs)
  {
    var n := Bytes(k, bs);
    var (q, w) := (n / WORDS, WORDS / bs);
    assert n == q * WORDS + Cut(n);
    assert q * WORDS == (q * w) * bs;
    if k < q * w {
      BytesLess(k, q * w, bs);
      assert false;
    }
    c := k - q * w;
    BytesAdd(c, q * w, bs);
  }

  lemma CutLess(n: nat, d: nat)
    requires d <= Cut(n)
    ensures Cut(n - d) == Cut(n) - d
  {
  }

  // A hole that overruns when the read begins inside it, at x, also overruns when it is entered before, at h.
  lemma OverrunsBefore(bs: nat, h: nat, x: nat, y: nat, p: nat, limit: nat)
    requires IsBlockSize(bs) && h <= x < y && x == BlocksUpTo(p, bs) && p <= limit
    requires Bytes(x, bs) + Cut(Bytes(y - x, bs)) < limit
    ensures Bytes(h, bs) + Cut(Bytes(y - h, bs)) < limit
  {
    hide Bytes, Cut, BlockOf, OffsetIn;
    var hole := Bytes(y - h, bs);
    BytesAdd(y - x, x - h, bs);
    BytesAdd(h, x - h, bs);
    if limit <= Bytes(h, bs) + Cut(hole) {
      var c := CutBlocks(y - h, bs);
      Split(p, bs);
      BytesAdd(h, c, bs);
      if h + c < x {
        BytesLess(h + c, x, bs);
      }
      BytesMonotone(x - h, c, bs);
      CutLess(hole, Bytes(x - h, bs));
    }
  }

  /** If no hole overruns for a read of a + b bytes, then none does for a read of a bytes and, from there on, one
      of b bytes. */
  lemma PartsFit(m: BlockMap, bs: nat, end: nat, from: nat, a: nat, b: nat)
    requires IsBlockSize(bs) && IsEnd(m, end) && HolesFit(m, bs, from, a + b)
    ensures HolesFit(m, bs, from, a) && HolesFit(m, bs, from + Deliverable(bs, end, from, a), b)
  {
    hide Bytes, Cut, BlocksUpTo, NoneMapped;
    forall x: nat, y: nat ensures !Overruns(m, bs, from, a, x, y) {
      assert !Overruns(m, bs, from, a + b, x, y);
    }
    var p := from + Deliverable(bs, end, from, a);
    forall x: nat, y: nat ensures !Overruns(m, bs, p, b, x, y) {
      if Overruns(m, bs, p, b, x, y) {
        PartOverruns(m, bs, end, from, a, b, x, y);
        assert false;
      }
    }
  }

  lemma PartOverruns(m: BlockMap, bs: nat, end: nat, from: nat, a: nat, b: nat, x: nat, y: nat)
    requires IsBlockSize(bs) && IsEnd(m, end)
    requires Overruns(m, bs, from + Deliverable(bs, end, from, a), b, x, y)
    ensures !HolesFit(m, bs, from, a + b)
  {
    hide Bytes, Cut, BlocksUpTo, NoneMapped, HolesFit;
    var p := from + Deliverable(bs, end, from, a);
    BytesLess(x, y, bs);
    BytesLess(y, end, bs);
    assert p == from + a;
    var lo := BlocksUpTo(from, bs);
    FirstBefore(from, x, bs);
    var h := x;
    if x == BlocksUpTo(p, bs) {
      h := HoleStart(m, lo, x);
      OverrunsBefore(bs, h, x, y, p, p + b);
      JoinHoles(m, h, x, y);
      BytesMonotone(y - x, y - h, bs);
      BytesMonotone(lo, h, bs);
    }
    UpToIsBehind(from, bs);
    assert Overruns(m, bs, from, a + b, h, y);
    assert !HolesFit(m, bs, from, a + b) by { OverrunTells(m, bs, from, a + b, h, y); }
  }

  lemma OverrunTells(m: BlockMap, bs: nat, from: nat, size: nat, a: nat, b: nat)
    requires bs > 0 && Overruns(m, bs, from, size, a, b)
    ensures !HolesFit(m, bs, from, size)
  {
    hide NoneMapped, Begins;
  }

  lemma JoinHoles(m: BlockMap, a: nat, b: nat, c: nat)
    requires NoneMapped(m, a, b) && NoneMapped(m, b, c)
    ensures NoneMapped(m, a, c)
  {
  }

  lemma FirstBefore(p: nat, x: nat, bs: nat)
    requires bs > 0 && p <= Bytes(x, bs)
    ensures BlocksUpTo(p, bs) <= x
  {
    BytesSmall(bs);
    OffsetOrder(0, p, x, bs);
  }

  lemma UpToIsBehind(p: nat, bs: nat)
    requires bs > 0
    ensures p <= Bytes(BlocksUpTo(p, bs), bs)
  {
    Split(p, bs);
    BytesAdd(BlockOf(p, bs), 1, bs);
    BytesSmall(bs);
  }

  // ---------- What libext2fs does ----------

  datatype Visit = Visit(logical: int, physical: nat)

  ghost predicate Ascending(visits: seq<Visit>) {
    forall i, j | 0 <= i < j < |visits| && 0 <= visits[i].logical && 0 <= visits[j].logical ::
      visits[i].logical < visits[j].logical
  }

  /** The calls made for a file: every mapped block once, in ascending order, indirect blocks in between. */
  ghost predicate VisitsOf(visits: seq<Visit>, m: BlockMap) {
    && Ascending(visits)
    && (forall i | 0 <= i < |visits| && 0 <= visits[i].logical ::
          visits[i].logical in m && m[visits[i].logical] == visits[i].physical)
    && forall l | l in m :: exists i :: 0 <= i < |visits| && visits[i].logical == l
  }

  /** The first i calls have seen exactly the mapped blocks before `next`. */
  ghost predicate Seen(visits: seq<Visit>, m: BlockMap, i: nat, next: nat) {
    && VisitsOf(visits, m) && i <= |visits|
    && (forall j | 0 <= j < i && 0 <= visits[j].logical :: visits[j].logical < next)
    && (forall j | i <= j < |visits| && 0 <= visits[j].logical :: next <= visits[j].logical)
    && (next > 0 ==> next - 1 in m)
  }

  lemma NextVisit(visits: seq<Visit>, m: BlockMap, i: nat, next: nat)
    requires Seen(visits, m, i, next) && i < |visits|
    ensures Seen(visits, m, i + 1, if visits[i].logical < 0 then next else visits[i].logical + 1)
    ensures visits[i].logical >= 0 ==>
              && next <= visits[i].logical && visits[i].logical in m && m[visits[i].logical] == visits[i].physical
              && NoneMapped(m, next, visits[i].logical)
  {
  }

  // ---------- Requests ----------

  datatype Request = Request(start: nat, count: nat)

  function Range(start: nat, count: nat): seq<nat> {
    seq(count, (j: nat) => start + j)
  }

  // The blocks fetched by a list of requests.
  ghost function Fetched(rs: seq<Request>): seq<nat> {
    if rs == [] then [] else Fetched(rs[..|rs| - 1]) + Range(rs[|rs| - 1].start, rs[|rs| - 1].count)
  }

  // The physical blocks of the mapped logical blocks a .. b-1, in ascending order.
  ghost function Mapped(m: BlockMap, a: nat, b: nat): seq<nat> {
    if b <= a then [] else Mapped(m, a, b - 1) + if b - 1 in m then [m[b - 1]] else []
  }

  lemma {:induction false} MappedHole(m: BlockMap, a: nat, b: nat, c: nat)
    requires a <= b <= c && NoneMapped(m, b, c)
    ensures Mapped(m, a, c) == Mapped(m, a, b)
  {
    if b < c {
      MappedHole(m, a, b, c - 1);
    }
  }

  lemma {:induction false} MappedRange(m: BlockMap, a: nat, b: nat, start: nat, count: nat)
    requires a <= b && Contiguous(m, b, start, count)
    ensures Mapped(m, a, b + count) == Mapped(m, a, b) + Range(start, count)
  {
    if count > 0 {
      MappedRange(m, a, b, start, count - 1);
      assert m[b + (count - 1)] == start + (count - 1);
      assert Range(start, count) == Range(start, count - 1) + [start + (count - 1)];
    }
  }

  lemma {:induction false} MappedLonger(m: BlockMap, a: nat, x: nat, l: nat, y: nat)
    requires a <= x <= l < y && l in m
    ensures |Mapped(m, a, x)| < |Mapped(m, a, y)|
    decreases y
  {
    if l + 1 < y {
      MappedLonger(m, a, x, l, y - 1);
    } else {
      MappedGrows(m, a, x, l);
    }
  }

  lemma {:induction false} MappedGrows(m: BlockMap, a: nat, x: nat, y: nat)
    requires a <= x <= y
    ensures |Mapped(m, a, x)| <= |Mapped(m, a, y)|
  {
    if x < y {
      MappedGrows(m, a, x, y - 1);
    }
  }

  lemma FetchedOneMore(rs: seq<Request>, q: Request)
    ensures Fetched(rs + [q]) == Fetched(rs) + Range(q.start, q.count)
  {
    assert (rs + [q])[..|rs|] == rs;
  }

  // ---------- Failures ----------

  /** None of the requests from number `base` on fails. */
  ghost predicate Unbroken(rs: seq<Request>, faults: set<nat>, base: nat) {
    forall i | base <= i < |rs| :: i !in faults
  }

  /** Of the requests from number `base` on, r is the first that fails; it was for block l of the file. */
  ghost predicate Breaks(rs: seq<Request>, faults: set<nat>, m: BlockMap, base: nat, r: nat, l: nat) {
    && base <= r < |rs| && r in faults && (forall i | base <= i < r :: i !in faults)
    && l in m && m[l] == rs[r].start
  }

  /** Where a read from `from` to `limit` stops when request r, for block l, is the first that fails.  It is the last
      one, unless the library does not report the end of the iteration: then, if the request was for a whole range
      inside of what is wanted, it is repeated, once, and with it the range is read as far as it goes. */
  ghost predicate StopsAt(rs: seq<Request>, faults: set<nat>, bs: nat, end: nat, from: nat, limit: nat,
                          reported: bool, r: nat, l: nat, pos: nat)
    requires r < |rs|
  {
    var c := rs[r].count;
    if |rs| == r + 1 then
      && pos == Max(from, Bytes(l, bs))
      && (reported || Bytes(l, bs) < from || end <= l + c + 1 || limit <= Bytes(l + c + 1, bs))
    else
      && !reported && from <= Bytes(l, bs) && rs[r + 1] == rs[r]
      && if |rs| == r + 2 then
           pos == if r + 1 in faults then Bytes(l, bs) else Min(limit, Bytes(l + c, bs))
         else
           && |rs| == r + 3 && r + 1 !in faults && rs[r + 2] == Request(rs[r].start + c, 1)
           && pos == if r + 2 in faults then Bytes(l + c, bs) else limit
  }

  /** The static variables of the reader.  `faults` are the numbers of the device requests that fail. */
  class Ext2Reader {
    const v: Volume
    const faults: set<nat>
    var pos: nat
    var rangeStart: nat
    var rangeCount: nat
    var lastLogical: nat
    var total: nat
    var max: nat
    var result: int
    var buffer: array<byte>
    // The device requests made so far.
    var requests: seq<Request>

    // The file being read, where its last block ends, and what the current call was asked for.
    ghost var m: BlockMap
    ghost var end: nat
    ghost var from: nat
    ghost var size: nat
    ghost var base: nat
    // Bytes of holes that were left out because of overruns, the bytes delivered before the last one, and the
    // block behind it.
    ghost var skipped: nat
    ghost var since: nat
    ghost var lost: nat

    constructor (v: Volume, faults: set<nat>)
      ensures this.v == v && this.faults == faults && pos == 0 && requests == []
    {
      this.v, this.faults := v, faults;
      pos, rangeStart, rangeCount, lastLogical, total, max, result := 0, 0, 0, 0, 0, 0, 0;
      buffer := new byte[0];
      requests := [];
      m, end, from, size, base := map[], 0, 0, 0, 0;
      skipped, since, lost := 0, 0, 0;
    }

    // The file and the request do not change during a read.
    ghost predicate File()
      reads `m, `end
    {
      v.Holds(m) && IsEnd(m, end)
    }

    /** The place in the file that comes next; it is ahead of the file position once a hole has overrun. */
    ghost function Next(): nat
      reads `pos, `skipped
    {
      pos + skipped
    }

    // What is left out is a multiple of 4 GiB, and it is left out only if a hole overruns.
    ghost predicate Losses()
      requires v.bs > 0
      reads `m, `from, `size, `skipped, `since, `lost
    {
      && skipped % WORDS == 0
      && (skipped == 0 ==> since == 0)
      && (skipped > 0 ==>
            && lost in m && Bytes(lost, v.bs) == from + since + skipped && from + WORDS <= Bytes(lost, v.bs)
            && if size > 0 then since < size && !HolesFit(m, v.bs, from, size)
               else since == 0 && NoneMapped(m, BlocksUpTo(from, v.bs), lost))
    }

    // Up to p no hole that overruns has been entered, unless something was left out.
    ghost predicate Unlost(p: nat)
      requires v.bs > 0
      reads `m, `from, `size, `skipped
    {
      skipped == 0 ==> forall a: nat, b: nat :: Overruns(m, v.bs, from, size, a, b) ==> p <= Bytes(a, v.bs)
    }

    // No request of this call has failed.
    ghost predicate Clean(rs: seq<Request>)
      reads `base
    {
      Unbroken(rs, faults, base)
    }

    /** What has been delivered so far is the file's image from `from` on, or, since a hole has overrun, from a
        place behind it. */
    ghost predicate Progress()
      reads `m, `end, `from, `size, `total, `max, `pos, `buffer, `base, `requests, `result, `skipped, `since, `lost,
            buffer
    {
      && File() && Losses()
      && total + max == size <= buffer.Length && size < WORDS
      && pos == from + total
      && (total > 0 || skipped > 0 ==> Next() <= Bytes(end, v.bs))
      && since <= total
      && (forall j | since <= j < total :: buffer[j] == v.ImageByte(m, from + skipped + j))
      && base <= |requests|
      && (Clean(requests) ==> result == 0)
      && forall i | base <= i < |requests| :: 1 <= requests[i].count <= MAX_READ_RANGE
    }

    /** The pending range: blocks in physical and logical order from the file position on, of which all
        but the last fit strictly in what is still wanted. */
    ghost predicate Pending()
      reads this
    {
      if rangeStart == 0 then rangeCount == 0
      else
        && 1 <= rangeCount <= MAX_READ_RANGE
        && Next() == Bytes(lastLogical, v.bs)
        && Contiguous(m, lastLogical, rangeStart, rangeCount)
        && rangeStart + rangeCount <= |v.disk|
        && (rangeCount > 1 ==> Bytes(rangeCount - 1, v.bs) < max)
    }

    /** If none of them has failed, the requests of this call have fetched the mapped blocks of the file from `from`
        to block b. */
    ghost predicate FetchedIn(rs: seq<Request>, b: nat)
      requires v.bs > 0
      reads `base, `m, `from
    {
      Clean(rs) && base <= |rs| ==> Fetched(rs[base..]) == Mapped(m, BlockOf(from, v.bs), b)
    }

    ghost predicate FetchedTo(b: nat)
      requires v.bs > 0
      reads `requests, `base, `m, `from
    {
      FetchedIn(requests, b)
    }

    // One device request; its outcome depends on nothing but its number.
    method ReadBlk(start: nat, count: nat) returns (data: seq<byte>)
      requires start + count <= |v.disk|
      modifies `requests, `result
      ensures requests == old(requests) + [Request(start, count)]
      ensures result == 0 <==> |old(requests)| !in faults
      ensures result == 0 ==> data == v.Contents(start, count)
    {
      result := if |requests| in faults then 1 else 0;
      requests := requests + [Request(start, count)];
      data := if result == 0 then v.Contents(start, count) else [];
    }

    // A request during a read.
    method Fetch(start: nat, count: nat) returns (data: seq<byte>)
      requires Progress() && start + count <= |v.disk| && 1 <= count <= MAX_READ_RANGE
      modifies `requests, `result
      ensures Progress() && requests == old(requests) + [Request(start, count)]
      ensures result == 0 <==> |old(requests)| !in faults
      ensures result == 0 ==> data == v.Contents(start, count)
    {
      hide Volume.Holds, IsEnd, Ext2Reader.Losses, Volume.ImageByte, Bytes;
      data := ReadBlk(start, count);
    }

    // memcpy or memset at read_buffer.
    method Store(data: seq<byte>)
      requires total + |data| <= buffer.Length
      modifies buffer
      ensures forall j | 0 <= j < total :: buffer[j] == old(buffer[j])
      ensures forall j | 0 <= j < |data| :: buffer[total + j] == data[j]
    {
      var i := 0;
      while i < |data|
        invariant 0 <= i <= |data|
        invariant forall j | 0 <= j < total :: buffer[j] == old(buffer[j])
        invariant forall j | 0 <= j < i :: buffer[total + j] == data[j]
      {
        buffer[total + i] := data[i];
        i := i + 1;
      }
    }

    /** Delivers `data`, the next bytes of the file. */
    method Deliver(data: seq<byte>)
      requires Progress() && |data| <= max
      requires forall j | 0 <= j < |data| :: data[j] == v.ImageByte(m, Next() + j)
      requires data != [] ==> Next() + |data| <= Bytes(end, v.bs)
      modifies `pos, `total, `max, buffer
      ensures Progress()
      ensures Next() == old(Next()) + |data| && total == old(total) + |data| && max == old(max) - |data|
    {
      hide Volume.Holds, IsEnd, Ext2Reader.Losses, Volume.ImageByte, Bytes;
      Store(data);
      forall j | since <= j < total + |data| ensures buffer[j] == v.ImageByte(m, from + skipped + j) {
        if total <= j {
          assert data[j - total] == v.ImageByte(m, Next() + (j - total));
        }
      }
      total := total + |data|;
      max := max - |data|;
      pos := pos + |data|;
    }

    // One request, logged: what has been fetched grows by the blocks asked for.
    lemma FetchedMore(before: seq<Request>, start: nat, count: nat, logical: nat)
      requires v.bs > 0 && base <= |before| && requests == before + [Request(start, count)]
      requires FetchedIn(before, logical)
      requires Contiguous(m, logical, start, count) && BlockOf(from, v.bs) <= logical
      ensures FetchedTo(logical + count)
    {
      assert requests[base..] == before[base..] + [Request(start, count)];
      FetchedOneMore(before[base..], Request(start, count));
      MappedRange(m, BlockOf(from, v.bs), logical, start, count);
    }

    // Within the pending range the file position is a block boundary of the file, and the file goes on.
    lemma RangeInFile(count: nat)
      requires Progress() && Next() == Bytes(lastLogical, v.bs) && 1 <= count
      requires Contiguous(m, lastLogical, rangeStart, count)
      ensures Next() + Bytes(count, v.bs) <= Bytes(end, v.bs)
      ensures BlockOf(Next(), v.bs) == lastLogical && BlockOf(from, v.bs) <= lastLogical
    {
      hide Bytes, BlockOf, OffsetIn;
      assert lastLogical + (count - 1) in m;
      BytesAdd(lastLogical, count, v.bs);
      if lastLogical + count < end {
        BytesLess(lastLogical + count, end, v.bs);
      }
      SplitUnique(lastLogical, 0, v.bs);
      Split(from, v.bs);
      if lastLogical < BlockOf(from, v.bs) {
        BytesLess(lastLogical, BlockOf(from, v.bs), v.bs);
      }
    }

    static lemma BlockMapped(m: BlockMap, logical: nat, start: nat, count: nat, l: nat)
      requires Contiguous(m, logical, start, count) && logical <= l < logical + count
      ensures l in m
    {
    }

    /** Reading mapped blocks enters no hole. */
    lemma PassBlocks(logical: nat, start: nat, count: nat, p: nat)
      requires v.bs > 0 && Unlost(Next()) && Contiguous(m, logical, start, count)
      requires Bytes(logical, v.bs) <= Next() && p <= Bytes(logical + count, v.bs)
      ensures Unlost(p)
    {
      hide Bytes, BlocksUpTo, Begins;
      forall a: nat, b: nat | skipped == 0 && Overruns(m, v.bs, from, size, a, b) ensures p <= Bytes(a, v.bs) {
        assert Next() <= Bytes(a, v.bs);
        if a < logical {
          BytesLess(a, logical, v.bs);
        } else if a < logical + count {
          BlockMapped(m, logical, start, count, a);
          assert false;
        } else {
          BytesMonotone(logical + count, a, v.bs);
        }
      }
    }

    lemma ContentsDelivered(start: nat, count: nat)
      requires v.Holds(m) && start + count <= |v.disk| && Next() == Bytes(lastLogical, v.bs)
      requires Contiguous(m, lastLogical, start, count)
      ensures |v.Contents(start, count)| == Bytes(count, v.bs)
      ensures forall j | 0 <= j < Bytes(count, v.bs) :: v.Contents(start, count)[j] == v.ImageByte(m, Next() + j)
    {
      v.ContentsLength(m, start, count);
      forall j | 0 <= j < Bytes(count, v.bs)
        ensures v.Contents(start, count)[j] == v.ImageByte(m, Next() + j)
      {
        v.ContentsAreImage(m, start, count, lastLogical, j);
      }
    }

    lemma BaseKnown()
      requires Progress()
      ensures base <= |requests|
    {
    }

    static lemma PartOfRange(m: BlockMap, logical: nat, start: nat, count: nat, k: nat)
      requires Contiguous(m, logical, start, count) && k <= count
      ensures Contiguous(m, logical, start, k)
    {
    }

    // The blocks of the range that are wanted whole, in one request.
    method DumpWhole(count: nat) returns (ok: bool)
      requires Progress() && Pending() && rangeStart != 0 && FetchedTo(lastLogical)
      requires 1 <= count <= rangeCount && Bytes(count, v.bs) <= max && Unlost(Next())
      modifies `pos, `rangeStart, `rangeCount, `lastLogical, `total, `max, `result, `requests, buffer
      ensures Progress() && Unlost(Next())
      ensures ok <==> result == 0
      ensures requests == old(requests) + [Request(old(rangeStart), count)] && (ok <==> |old(requests)| !in faults)
      ensures !ok ==> unchanged(`rangeStart, `rangeCount, `lastLogical, `max, `pos, `total)
      ensures ok ==>
                && rangeStart == old(rangeStart) + count && rangeCount == old(rangeCount) - count
                && lastLogical == old(lastLogical) + count && Next() == Bytes(lastLogical, v.bs)
                && total == old(total) + Bytes(count, v.bs) && max == old(max) - Bytes(count, v.bs)
                && FetchedTo(lastLogical)
    {
      hide Bytes, BlockOf, BlocksUpTo, Ext2Reader.Losses, IsEnd, Ext2Reader.Progress, Ext2Reader.Unlost,
           Volume.ImageByte, Ext2Reader.FetchedIn, Unbroken, Volume.Holds, Fetched, Mapped, Volume.Contents,
           Contiguous;
      ProgressFile();
      BaseKnown();
      PartOfRange(m, lastLogical, rangeStart, rangeCount, count);
      RangeInFile(count);
      ContentsDelivered(rangeStart, count);
      ghost var before := requests;
      var data := Fetch(rangeStart, count);
      if result != 0 {
        return false;
      }
      FetchedMore(before, rangeStart, count, lastLogical);
      BytesAdd(lastLogical, count, v.bs);
      PassBlocks(lastLogical, rangeStart, count, Bytes(lastLogical + count, v.bs));
      Deliver(data);
      rangeCount := rangeCount - count;
      rangeStart := rangeStart + count;
      lastLogical := lastLogical + count;
      ok := true;
    }

    // The last block of the range, of which only a part is wanted.
    method DumpPart() returns (ok: bool)
      requires Progress() && Unlost(Next()) && FetchedTo(lastLogical)
      requires rangeStart < |v.disk| && Next() == Bytes(lastLogical, v.bs) && 0 < max < v.bs
      requires Contiguous(m, lastLogical, rangeStart, 1)
      modifies `pos, `total, `max, `result, `requests, buffer
      ensures Progress() && Unlost(Next())
      ensures ok <==> result == 0
      ensures requests == old(requests) + [Request(rangeStart, 1)] && (ok <==> |old(requests)| !in faults)
      ensures !ok ==> unchanged(`max, `pos, `total)
      ensures ok ==> total == old(total) + old(max) && max == 0 && FetchedTo(BlocksUpTo(Next(), v.bs))
    {
      hide Bytes, BlockOf, OffsetIn, Ext2Reader.Losses, IsEnd, Ext2Reader.Progress, Ext2Reader.Unlost,
           Volume.ImageByte, Ext2Reader.FetchedIn;
      ProgressFile();
      BaseKnown();
      BytesSmall(v.bs);
      RangeInFile(1);
      ContentsDelivered(rangeStart, 1);
      SplitUnique(lastLogical, max, v.bs);
      ghost var before := requests;
      var data := Fetch(rangeStart, 1);
      if result != 0 {
        return false;
      }
      FetchedMore(before, rangeStart, 1, lastLogical);
      BytesAdd(lastLogical, 1, v.bs);
      PassBlocks(lastLogical, rangeStart, 1, Next() + max);
      Deliver(data[..max]);
      ok := true;
    }

    // A range whose reading failed is still pending, from the file position on.
    lemma DumpFailed(rs: seq<Request>, first: Request, wanted: nat, moved: int)
      requires Progress() && Pending() && base <= |rs| && Clean(rs) && Dumped(rs, first, wanted, moved)
      requires |requests| > |rs| && result != 0
      ensures Failure()
    {
      hide Bytes, Ext2Reader.Losses, IsEnd, Volume.Holds, Volume.ImageByte, Ext2Reader.NextRequest;
      NextIs();
      RangeStartMapped();
    }

    // If nothing failed before, the outcome tells whether something has failed now.
    lemma AfterDump(rs: seq<Request>, first: Request, wanted: nat, moved: int)
      requires Progress() && Pending() && base <= |rs| && Clean(rs) && Dumped(rs, first, wanted, moved)
      requires |requests| == |rs| ==> result == 0
      ensures if result == 0 then Clean(requests) else Failure()
    {
      hide Bytes, Ext2Reader.Losses, IsEnd, Volume.Holds, Volume.ImageByte, Ext2Reader.NextRequest, Ext2Reader.Failure;
      if result != 0 {
        DumpFailed(rs, first, wanted, moved);
      }
    }

    lemma RangeStartMapped()
      requires rangeCount >= 1 && Contiguous(m, lastLogical, rangeStart, rangeCount)
      ensures lastLogical in m && m[lastLogical] == rangeStart
    {
    }

    // What is left of a pending range when its first blocks have been read.
    lemma RangePieces()
      requires Pending() && v.bs > 0 && FetchedTo(lastLogical)
      ensures rangeStart != 0 ==> Contiguous(m, lastLogical + (rangeCount - 1), rangeStart + (rangeCount - 1), 1)
      ensures forall l: nat {:trigger Bytes(l, v.bs)} :: BlocksUpTo(Bytes(l, v.bs), v.bs) == l
    {
      forall l: nat ensures BlocksUpTo(Bytes(l, v.bs), v.bs) == l {
        SplitUnique(l, 0, v.bs);
      }
    }

    // What reading the pending range asks for first.
    ghost function NextRequest(): Request
      reads `rangeStart, `rangeCount, `max
    {
      Request(rangeStart, if Bytes(rangeCount, v.bs) <= max || rangeCount == 1 then rangeCount else Less(rangeCount))
    }

    static function Less(n: nat): nat {
      if n == 0 then 0 else n - 1
    }

    /** What reading the pending range adds to the requests rs, if `wanted` bytes were wanted and `first` was the next
        request: at most two requests, and none behind one that fails; and by how many bytes the read went on. */
    ghost predicate Dumped(rs: seq<Request>, first: Request, wanted: nat, moved: int)
      reads `requests, `result, `rangeStart, `rangeCount, `max
    {
      && |rs| <= |requests| <= |rs| + 2 && requests[..|rs|] == rs
      && (wanted > 0 <==> |requests| > |rs|)
      && (|requests| == |rs| ==> moved == 0)
      && (|requests| > |rs| ==> requests[|rs|] == first && (result == 0 <==> |requests| - 1 !in faults))
      && (|requests| == |rs| + 1 ==> moved == if result == 0 then Min(Bytes(first.count, v.bs), wanted) else 0)
      && (|requests| == |rs| + 2 ==>
            && |rs| !in faults && requests[|rs| + 1] == Request(first.start + first.count, 1)
            && moved == (if result == 0 then wanted else Bytes(first.count, v.bs)))
      && (|requests| > |rs| && result != 0 ==>
            rangeStart != 0 && max > 0 && requests[|requests| - 1] == NextRequest())
    }

    lemma NoRequest(rs: seq<Request>, first: Request)
      requires requests == rs
      ensures Dumped(rs, first, 0, 0)
    {
    }

    lemma OneRequest(rs: seq<Request>, first: Request, wanted: nat, moved: int)
      requires requests == rs + [first] && wanted > 0 && (result == 0 <==> |rs| !in faults)
      requires moved == if result == 0 then Min(Bytes(first.count, v.bs), wanted) else 0
      requires result != 0 ==> rangeStart != 0 && max > 0 && first == NextRequest()
      ensures Dumped(rs, first, wanted, moved)
    {
      hide Bytes, Ext2Reader.NextRequest;
    }

    lemma TwoRequests(rs: seq<Request>, first: Request, wanted: nat, moved: int)
      requires requests == rs + [first] + [Request(first.start + first.count, 1)] && wanted > 0
      requires |rs| !in faults && (result == 0 <==> |rs| + 1 !in faults)
      requires moved == if result == 0 then wanted else Bytes(first.count, v.bs)
      requires result != 0 ==> rangeStart != 0 && max > 0 && Request(first.start + first.count, 1) == NextRequest()
      ensures Dumped(rs, first, wanted, moved)
    {
      hide Bytes, Ext2Reader.NextRequest;
    }

    lemma NextIs()
      ensures NextRequest().start == rangeStart
      ensures NextRequest().count ==
        if Bytes(rangeCount, v.bs) <= max || rangeCount == 1 then rangeCount else Less(rangeCount)
    {
    }

    // What is left of the range when `count` whole blocks have been read: nothing, or a block wanted in part.
    method DumpRest(ghost count: nat, ghost rs: seq<Request>, ghost first: Request, ghost wanted: nat)
      returns (abort: bool)
      requires Progress() && Unlost(Next()) && FetchedTo(lastLogical) && Next() == Bytes(lastLogical, v.bs)
      requires rangeCount <= 1 && wanted == max + Bytes(count, v.bs)
      requires rangeCount == 1 ==>
                 0 < rangeStart < |v.disk| && max < v.bs && Contiguous(m, lastLogical, rangeStart, 1)
      requires if count == 0 then requests == rs && rangeCount == 1 && first == Request(rangeStart, 1)
               else
                 && requests == rs + [first] && |rs| !in faults && result == 0 && wanted > 0 && rangeStart >= count
                 && first == Request(rangeStart - count, count)
      modifies `pos, `rangeStart, `rangeCount, `total, `max, `result, `requests, buffer
      ensures Progress() && Unlost(Next()) && Pending()
      ensures result == 0 ==>
                && rangeStart == 0 && (abort <==> max == 0)
                && total == old(total) + if old(rangeCount) == 1 then old(max) else 0
      ensures old(rangeCount) == 0 ==> result == 0 && pos == old(pos) && FetchedTo(lastLogical)
      ensures result == 0 && max == 0 ==> FetchedTo(BlocksUpTo(Next(), v.bs))
      ensures Dumped(rs, first, wanted, Bytes(count, v.bs) + total - old(total))
      ensures |requests| >= |old(requests)| && (|requests| == |rs| ==> result == old(result))
      ensures result != 0 ==> abort && (rangeStart != 0 ==> rangeCount == old(rangeCount))
    {
      hide Bytes, BlockOf, OffsetIn, Ext2Reader.Losses, IsEnd, Volume.ImageByte, Ext2Reader.FetchedIn,
           Ext2Reader.Progress, Ext2Reader.Unlost, Ext2Reader.Dumped, Ext2Reader.NextRequest, Volume.Holds,
           Ext2Reader.Clean, Ext2Reader.FetchedTo, BlocksUpTo, Fetched, Mapped;
      ProgressFile();
      BytesSmall(v.bs);
      AlignedEnd(lastLogical);
      ghost var part := max > 0 && rangeCount > 0;
      if max > 0 && rangeCount > 0 {
        var ok := DumpPart();
        if !ok {
          NextIs();
          if count > 0 {
            TwoRequests(rs, first, wanted, Bytes(count, v.bs));
          } else {
            OneRequest(rs, first, wanted, 0);
          }
          return true;
        }
      }
      rangeCount, rangeStart := 0, 0;
      if part && count > 0 {
        TwoRequests(rs, first, wanted, wanted);
      } else if part || count > 0 {
        OneRequest(rs, first, wanted, Min(Bytes(first.count, v.bs), wanted));
      } else {
        NoRequest(rs, first);
      }
      return max == 0;
    }

    /** `read_dump_range`: reads the pending range, all of it or as much as is wanted; the last block goes
        through the block buffer when only a part of it is wanted. */
    method DumpRange() returns (abort: bool)
      requires Progress() && Unlost(Next()) && Pending() && rangeStart != 0 && FetchedTo(lastLogical)
      modifies `pos, `rangeStart, `rangeCount, `lastLogical, `total, `max, `result, `requests, buffer
      ensures Progress() && Unlost(Next()) && Pending()
      ensures result == 0 ==>
                && rangeStart == 0 && (abort <==> max == 0)
                && total == old(total) + Min(Bytes(old(rangeCount), v.bs), old(max))
      ensures result == 0 && Bytes(old(rangeCount), v.bs) <= old(max) ==>
                && lastLogical == old(lastLogical + rangeCount) && Next() == Bytes(lastLogical, v.bs)
                && FetchedTo(lastLogical)
      ensures result == 0 && max == 0 ==> FetchedTo(BlocksUpTo(Next(), v.bs))
      ensures Dumped(old(requests), old(NextRequest()), old(max), total - old(total))
      ensures |requests| == |old(requests)| ==> result == old(result)
      ensures result != 0 ==> abort && (rangeStart != 0 ==> lastLogical + rangeCount == old(lastLogical + rangeCount))
    {
      hide Bytes, BlockOf, OffsetIn, Ext2Reader.Losses, IsEnd, Volume.ImageByte, Ext2Reader.FetchedIn, Contiguous,
           Ext2Reader.Progress, Ext2Reader.Unlost, Ext2Reader.Dumped, Ext2Reader.NextRequest, Volume.Holds,
           Ext2Reader.Clean, Ext2Reader.FetchedTo, BlocksUpTo, Fetched, Mapped;
      ProgressFile();
      BytesSmall(v.bs);
      BytesAdd(rangeCount - 1, 1, v.bs);
      RangePieces();
      NextIs();
      ghost var (rs, first, wanted) := (requests, NextRequest(), max);
      var count := rangeCount;
      if Bytes(count, v.bs) > max {
        count := count - 1;
      }
      if count > 0 {
        var ok := DumpWhole(count);
        if !ok {
          OneRequest(rs, first, wanted, 0);
          return true;
        }
      }
      abort := DumpRest(count, rs, first, wanted);
    }

    // ---------- The callback ----------

    /** Between two calls that did not stop the iteration; every mapped block before `next` has been seen. */
    ghost predicate Between(next: nat)
      reads this, buffer
    {
      && Progress() && Unlost(Next()) && Pending() && result == 0 && Clean(requests)
      && FetchedTo(lastLogical)
      && (next > 0 ==> next - 1 in m)
      && (max == 0 ==> total == 0 && skipped == 0)
      && if rangeStart == 0 then
           && next <= lastLogical == BlockOf(Next(), v.bs)
           && (total > 0 || skipped > 0 ==> next == lastLogical && Next() == Bytes(lastLogical, v.bs))
         else next == lastLogical + rangeCount && Bytes(rangeCount, v.bs) < max
    }

    /** The last request has failed, and it was for the block at the file position; if a range is still pending, it
        was for that range. */
    ghost predicate Failure()
      reads this
    {
      && base < |requests| && |requests| - 1 in faults && Clean(requests[..|requests| - 1])
      && lastLogical in m && m[lastLogical] == requests[|requests| - 1].start
      && Next() == Max(from, Bytes(lastLogical, v.bs)) && (size == 0 ==> skipped == 0)
      && (rangeStart == 0 ==> Bytes(lastLogical, v.bs) < from)
      && (rangeStart != 0 ==> max > 0 && requests[|requests| - 1] == NextRequest())
    }

    /** After a call that did stop it: a read has failed, or the pending range, or what has been delivered,
        is all that is wanted. */
    ghost predicate Stopped()
      reads this, buffer
    {
      && Progress() && Unlost(Next()) && Pending()
      && if result != 0 then Failure()
         else
           && Clean(requests)
           && (|| (rangeStart != 0 && max <= Bytes(rangeCount, v.bs) && FetchedTo(lastLogical))
               || (rangeStart == 0 && max == 0 && FetchedTo(BlocksUpTo(Next(), v.bs))))
    }

    // No range is pending and the file position is in block lastLogical.
    ghost predicate Idle()
      reads this, buffer
    {
      && Progress() && Unlost(Next()) && Pending() && rangeStart == 0 && result == 0 && Clean(requests)
      && lastLogical == BlockOf(Next(), v.bs) && FetchedTo(lastLogical)
    }

    // If a hole follows, it is entered at block a.
    ghost predicate Entering(a: nat)
      requires v.bs > 0
      reads `m, `from, `skipped
    {
      skipped == 0 ==> Begins(m, v.bs, from, a)
    }

    // What is left out consists of whole blocks.
    lemma SameOffset()
      requires v.Holds(m) && Losses()
      ensures OffsetIn(pos, v.bs) == OffsetIn(Next(), v.bs)
    {
      hide Volume.ImageByte;
      var (k, q) := (skipped / WORDS, WORDS / v.bs);
      WholeBlocks(pos, k, q, v.bs);
    }

    static lemma WholeBlocks(p: nat, k: nat, q: nat, bs: nat)
      requires bs > 0 && q * bs == WORDS
      ensures OffsetIn(p + k * WORDS, bs) == OffsetIn(p, bs)
    {
      hide Bytes, BlockOf, OffsetIn;
      Split(p, bs);
      assert k * WORDS == (k * q) * bs;
      BytesAdd(BlockOf(p, bs), k * q, bs);
      BytesOf(k * q, bs);
      SplitUnique(BlockOf(p, bs) + k * q, OffsetIn(p, bs), bs);
    }

    static lemma BytesOf(n: nat, bs: nat)
      ensures Bytes(n, bs) == n * bs
    {
    }

    lemma StillFetched(a: nat, b: nat, c: nat)
      requires v.bs > 0 && BlockOf(from, v.bs) <= a <= c <= b && NoneMapped(m, a, b)
      ensures FetchedTo(a) ==> FetchedTo(c)
    {
      MappedHole(m, BlockOf(from, v.bs), a, c);
    }

    // memset of the next n bytes.
    method DeliverZeros(n: nat, ghost a: nat, ghost b: nat)
      requires Progress() && n <= max && NoneMapped(m, a, b) && b in m
      requires Bytes(a, v.bs) <= Next() && Next() + n <= Bytes(b, v.bs)
      modifies `pos, `total, `max, buffer
      ensures Progress()
      ensures Next() == old(Next()) + n && total == old(total) + n && max == old(max) - n
    {
      hide Volume.ImageByte, Bytes, Ext2Reader.Losses, IsEnd, NoneMapped;
      BlockInFile(b);
      ZerosInHole(v, m, a, b, Next(), n);
      Deliver(seq(n, _ => 0));
    }

    lemma BlockInFile(b: nat)
      requires File() && b in m
      ensures Bytes(b, v.bs) + v.bs <= Bytes(end, v.bs)
    {
      BytesLess(b, end, v.bs);
    }

    // The end of a hole that starts in block lastLogical, counted from the file position.
    lemma HoleSizes(logical: nat)
      requires Idle() && lastLogical < logical && logical in m && NoneMapped(m, lastLogical, logical)
      ensures OffsetIn(pos, v.bs) == OffsetIn(Next(), v.bs) < v.bs
      ensures Next() == Bytes(lastLogical, v.bs) + OffsetIn(Next(), v.bs)
      ensures BlocksUpTo(Next(), v.bs) == if OffsetIn(Next(), v.bs) == 0 then lastLogical else lastLogical + 1
      ensures Bytes(lastLogical + 1, v.bs) == Bytes(lastLogical, v.bs) + v.bs
      ensures Bytes(logical, v.bs) == Bytes(lastLogical, v.bs) + Bytes(logical - lastLogical, v.bs)
      ensures Bytes(logical, v.bs) == Bytes(lastLogical + 1, v.bs) + Bytes(logical - (lastLogical + 1), v.bs)
      ensures BlockOf(from, v.bs) <= lastLogical
    {
      hide Bytes, BlockOf, OffsetIn, Ext2Reader.Losses, IsEnd, NoneMapped;
      SameOffset();
      Split(Next(), v.bs);
      BytesSmall(v.bs);
      BytesAdd(lastLogical, 1, v.bs);
      BytesAdd(lastLogical, logical - lastLogical, v.bs);
      BytesAdd(lastLogical + 1, logical - (lastLogical + 1), v.bs);
      FromBefore();
      OffsetOrder(BlockOf(from, v.bs), Next(), lastLogical + 1, v.bs);
    }

    lemma FromBefore()
      requires v.bs > 0 && pos == from + total
      ensures Bytes(BlockOf(from, v.bs), v.bs) <= from <= Next()
    {
      Split(from, v.bs);
    }

    /** Going on to the end of a block that is not at its start enters no hole. */
    lemma PassBlock(p: nat)
      requires v.bs > 0 && Unlost(Next()) && Bytes(lastLogical, v.bs) < Next() && p <= Bytes(lastLogical + 1, v.bs)
      ensures Unlost(p)
    {
      hide Bytes, BlocksUpTo, Begins, NoneMapped;
      forall a: nat, b: nat | skipped == 0 && Overruns(m, v.bs, from, size, a, b) ensures p <= Bytes(a, v.bs) {
        assert Next() <= Bytes(a, v.bs);
        if a <= lastLogical {
          BytesMonotone(a, lastLogical, v.bs);
        } else {
          BytesMonotone(lastLogical + 1, a, v.bs);
        }
      }
    }

    // A hole is entered at its beginning only.
    lemma OneHole(a: nat, b: nat, logical: nat)
      requires v.bs > 0 && Overruns(m, v.bs, from, size, a, b) && BlocksUpTo(from, v.bs) <= lastLogical <= a < logical
      requires logical in m && NoneMapped(m, lastLogical, logical)
      ensures a == lastLogical && b == logical
    {
      hide Bytes, BlocksUpTo;
    }

    /** Going on inside a hole that does not overrun, either. */
    lemma PassHole(logical: nat, p: nat)
      requires v.bs > 0 && pos == from + total && Next() == Bytes(lastLogical, v.bs) && lastLogical < logical
      requires logical in m && NoneMapped(m, lastLogical, logical)
      requires Unlost(Next()) && p <= Bytes(logical, v.bs)
      requires skipped == 0 ==> !Overruns(m, v.bs, from, size, lastLogical, logical)
      ensures Unlost(p)
    {
      hide Bytes;
      BytesSmall(v.bs);
      OffsetOrder(0, from, lastLogical, v.bs);
      forall a: nat, b: nat | skipped == 0 && Overruns(m, v.bs, from, size, a, b) ensures p <= Bytes(a, v.bs) {
        assert Next() <= Bytes(a, v.bs);
        if a < lastLogical {
          BytesLess(a, lastLogical, v.bs);
        } else if a < logical {
          OneHole(a, b, logical);
          assert false;
        } else {
          BytesMonotone(logical, a, v.bs);
        }
      }
    }

    // Having stopped inside a hole, or right behind it, nothing more needs to be fetched.
    lemma StopInHole(first: nat, logical: nat)
      requires File() && BlockOf(from, v.bs) <= first <= logical && NoneMapped(m, first, logical) && FetchedTo(first)
      requires Bytes(first, v.bs) <= Next() <= Bytes(logical, v.bs)
      ensures FetchedTo(BlocksUpTo(Next(), v.bs))
      ensures FetchedTo(logical)
      ensures BlockOf(Bytes(logical, v.bs), v.bs) == logical
    {
      OffsetOrder(first, Next(), logical, v.bs);
      StillFetched(first, logical, BlocksUpTo(Next(), v.bs));
      StillFetched(first, logical, logical);
      SplitUnique(logical, 0, v.bs);
    }

    // Inside the hole [first, logical), before whole blocks of zeros are delivered.
    ghost predicate InHole(first: nat, logical: nat)
      reads this, buffer
    {
      && Progress() && Unlost(Next()) && Pending() && rangeStart == 0 && result == 0 && Clean(requests)
      && BlockOf(from, v.bs) <= first <= lastLogical <= logical && logical in m
      && NoneMapped(m, first, logical) && FetchedTo(first)
      && Next() == Bytes(lastLogical, v.bs) && Entering(lastLogical)
      && (max == 0 ==> total == 0 && skipped == 0)
    }

    // Zeros up to the end of the block the file position is in.
    method FillBlock(logical: nat) returns (abort: bool)
      requires Idle() && lastLogical < logical && logical in m && NoneMapped(m, lastLogical, logical)
      requires Entering(BlocksUpTo(Next(), v.bs)) && (max == 0 ==> total == 0 && skipped == 0)
      modifies `pos, `total, `max, `lastLogical, buffer
      ensures abort ==> Stopped()
      ensures !abort ==> InHole(old(lastLogical), logical)
    {
      hide Bytes, BlockOf, OffsetIn, BlocksUpTo, Ext2Reader.Losses, IsEnd, NoneMapped, Volume.ImageByte,
           Ext2Reader.FetchedIn, Ext2Reader.Unlost, Ext2Reader.Entering;
      HoleSizes(logical);
      ghost var first := lastLogical;
      if OffsetIn(pos, v.bs) > 0 {
        var offset := OffsetIn(pos, v.bs);
        var n := v.bs - offset;
        if n > max {
          n := max;
        }
        PassBlock(Next() + n);
        DeliverZeros(n, first, logical);
        lastLogical := lastLogical + 1;
        if max == 0 {
          StopInHole(first, logical);
          return true;
        }
      }
      abort := false;
    }

    /** Of the bytes of a hole that the read enters, the cut count is too small exactly if the hole overruns. */
    lemma HoleCount(logical: nat)
      requires v.bs > 0 && pos == from + total && total + max == size && skipped == 0
      requires Next() == Bytes(lastLogical, v.bs) && lastLogical < logical && logical in m
      requires NoneMapped(m, lastLogical, logical) && Entering(lastLogical)
      ensures var hole := Bytes(logical - lastLogical, v.bs);
        Overruns(m, v.bs, from, size, lastLogical, logical) <==> hole >= WORDS && Cut(hole) < max
    {
      hide Bytes, Cut, BlocksUpTo, NoneMapped;
    }

    // The count was too small: the rest of the hole is left out.
    ghost method LeaveOut(logical: nat, cut: nat)
      requires Progress() && cut > 0 && Cut(cut) == 0 && Next() + cut == Bytes(logical, v.bs) && logical in m
      requires max > 0 && skipped == 0 ==> !HolesFit(m, v.bs, from, size)
      requires max == 0 ==> total == 0 && skipped == 0 && NoneMapped(m, BlocksUpTo(from, v.bs), logical)
      modifies `skipped, `since, `lost
      ensures Progress() && Unlost(Next()) && skipped > 0 && Next() == Bytes(logical, v.bs)
    {
      hide Bytes, IsEnd, HolesFit, Volume.ImageByte, NoneMapped, BlocksUpTo;
      BlockInFile(logical);
      MoreWords(skipped, cut);
      skipped := skipped + cut;
      since := total;
      lost := logical;
    }

    static lemma MoreWords(a: nat, b: nat)
      requires a % WORDS == 0 && b % WORDS == 0 && b > 0
      ensures (a + b) % WORDS == 0 && a + b >= WORDS
    {
    }

    // Zeros up to the start of block `logical`, or as many as are wanted, or as many as the cut count says.
    method FillHole(logical: nat) returns (abort: bool)
      requires Idle() && lastLogical < logical && logical in m && NoneMapped(m, lastLogical, logical)
      requires Entering(BlocksUpTo(Next(), v.bs)) && (max == 0 ==> total == 0 && skipped == 0)
      modifies `pos, `total, `max, `lastLogical, `skipped, `since, `lost, buffer
      ensures abort ==> Stopped()
      ensures !abort ==> Idle() && lastLogical == logical && Next() == Bytes(logical, v.bs)
    {
      hide Bytes, BlockOf, OffsetIn, BlocksUpTo, Ext2Reader.Losses, IsEnd, NoneMapped, Volume.ImageByte,
           Ext2Reader.FetchedIn, Ext2Reader.Progress, Ext2Reader.Unlost, Ext2Reader.Entering, Overruns, HolesFit;
      ghost var first := lastLogical;
      abort := FillBlock(logical);
      if abort {
        return;
      }
      abort := FillBlocks(first, logical);
    }

    static lemma InnerHole(m: BlockMap, first: nat, a: nat, b: nat)
      requires NoneMapped(m, first, b) && first <= a
      ensures NoneMapped(m, a, b)
    {
    }

    /** Whether the hole overruns, or the count cut to 32 bits does as well as the exact one. */
    lemma JudgeHole(first: nat, logical: nat) returns (overruns: bool)
      requires InHole(first, logical)
      ensures v.bs > 0 && NoneMapped(m, lastLogical, logical) && Bytes(first, v.bs) <= Next()
      ensures var hole := Bytes(logical - lastLogical, v.bs);
        && Next() + hole == Bytes(logical, v.bs) && Cut(hole) <= hole
        && (!overruns ==>
              && Unlost(Next() + Min(hole, max)) && Min(Cut(hole), max) == Min(hole, max)
              && (Cut(hole) == hole || (Cut(hole) > 0 && max <= Cut(hole))))
        && (overruns ==>
              && lastLogical < logical && hole - Cut(hole) > 0 && Cut(hole - Cut(hole)) == 0
              && (Cut(hole) < max || (max == 0 && Cut(hole) == 0))
              && (max > 0 && skipped == 0 ==> !HolesFit(m, v.bs, from, size))
              && (max == 0 ==> NoneMapped(m, BlocksUpTo(from, v.bs), logical)))
    {
      hide Bytes, BlocksUpTo, Ext2Reader.Losses, IsEnd, NoneMapped, Volume.ImageByte, Volume.Holds,
           Ext2Reader.FetchedIn, Ext2Reader.Unlost, Ext2Reader.Entering, Overruns, HolesFit, Cut, Ext2Reader.Progress;
      var hole := Bytes(logical - lastLogical, v.bs);
      ProgressFile();
      BytesSmall(v.bs);
      BytesMonotone(first, lastLogical, v.bs);
      BytesAdd(lastLogical, logical - lastLogical, v.bs);
      CutTakes(hole);
      InnerHole(m, first, lastLogical, logical);
      // With nothing wanted, a count cut to 0 does not stop the iteration at once.
      overruns := hole >= WORDS && (Cut(hole) < max || (max == 0 && Cut(hole) == 0));
      if lastLogical < logical {
        if skipped == 0 {
          HoleCount(logical);
        }
        if !overruns {
          PassHole(logical, Next() + Min(hole, max));
        } else if max == 0 {
          AlignedEnd(lastLogical);
        } else if skipped == 0 {
          OverrunTells(m, v.bs, from, size, lastLogical, logical);
        }
      }
    }

    // Whole blocks of zeros.
    method FillBlocks(ghost first: nat, logical: nat) returns (abort: bool)
      requires InHole(first, logical)
      modifies `pos, `total, `max, `lastLogical, `skipped, `since, `lost, buffer
      ensures abort ==> Stopped()
      ensures !abort ==> Idle() && lastLogical == logical && Next() == Bytes(logical, v.bs)
    {
      hide Bytes, BlockOf, OffsetIn, BlocksUpTo, Ext2Reader.Losses, IsEnd, NoneMapped, Volume.ImageByte,
           Ext2Reader.FetchedIn, Ext2Reader.Unlost, Ext2Reader.Entering, Ext2Reader.Progress, HolesFit, Cut, Overruns,
           Unbroken, Fetched, Mapped, Contiguous, Volume.Holds, Ext2Reader.Failure, Ext2Reader.NextRequest, Begins;
      ghost var overruns := JudgeHole(first, logical);
      var hole := Bytes(logical - lastLogical, v.bs);
      var nzero := Cut(hole);
      if nzero > 0 {
        if nzero > max {
          nzero := max;
        }
        DeliverZeros(nzero, lastLogical, logical);
        if max == 0 {
          ProgressFile();
          StopInHole(first, logical);
          return true;
        }
      }
      if overruns {
        LeaveOut(logical, hole - Cut(hole));
      }
      ProgressFile();
      StopInHole(first, logical);
      lastLogical := logical;
      abort := false;
    }

    lemma ProgressFile()
      requires Progress()
      ensures v.bs > 0 && File() && Losses() && total + max == size && pos == from + total
    {
    }

    // The block the file position is in, read through the block buffer because the position is inside it.
    method ReadUnaligned(physical: nat, logical: nat) returns (abort: bool)
      requires Idle() && logical == lastLogical && logical in m && m[logical] == physical
      requires OffsetIn(pos, v.bs) > 0 && (total > 0 || skipped > 0 ==> Next() == Bytes(lastLogical, v.bs))
      modifies `pos, `total, `max, `lastLogical, `result, `requests, buffer
      ensures abort ==> Stopped()
      ensures !abort ==> Between(logical + 1)
    {
      hide Bytes, BlockOf, OffsetIn, BlocksUpTo, Ext2Reader.Losses, IsEnd, NoneMapped, Contiguous, Volume.Holds,
           Volume.ImageByte, Ext2Reader.FetchedIn, Fetched, Mapped, Volume.Contents, Overruns, HolesFit,
           Ext2Reader.NextRequest, Ext2Reader.Between, Ext2Reader.Stopped, Ext2Reader.Progress, Ext2Reader.Unlost;
      IdleOffset();
      var offset := OffsetIn(pos, v.bs);
      var n := v.bs - offset;
      if n > max {
        n := max;
      }
      UnalignedBlock(physical);
      UnalignedEnd(n);
      BaseKnown();
      ghost var before := requests;
      var data := Fetch(physical, 1);
      if result != 0 {
        UnalignedFailed(before, physical);
        return true;
      }
      FetchedMore(before, physical, 1, lastLogical);
      PassBlock(Next() + n);
      data := data[offset..offset + n];
      UnalignedData(physical, n, data);
      Deliver(data);
      lastLogical := logical + 1;
      UnalignedDone(logical);
      return max == 0;
    }

    lemma UnalignedFailed(before: seq<Request>, physical: nat)
      requires Progress() && Unlost(Next()) && rangeStart == 0 && rangeCount == 0 && result != 0
      requires base <= |before| && Clean(before) && requests == before + [Request(physical, 1)]
      requires |before| in faults && lastLogical in m && m[lastLogical] == physical
      requires total == 0 && skipped == 0 && Next() > Bytes(lastLogical, v.bs)
      ensures Stopped()
    {
      hide Bytes, BlockOf, BlocksUpTo, IsEnd, Volume.Holds, Volume.ImageByte, Ext2Reader.FetchedIn, Ext2Reader.Losses,
           Ext2Reader.Unlost;
      assert requests[..|requests| - 1] == before;
    }

    lemma UnalignedDone(logical: nat)
      requires Progress() && Unlost(Next()) && rangeStart == 0 && rangeCount == 0 && result == 0 && Clean(requests)
      requires lastLogical == logical + 1 && logical in m && FetchedTo(lastLogical)
      requires BlocksUpTo(Next(), v.bs) == lastLogical
      requires max > 0 ==> Next() == Bytes(lastLogical, v.bs) && BlockOf(Next(), v.bs) == lastLogical
      ensures if max == 0 then Stopped() else Between(logical + 1)
    {
      hide Bytes, BlockOf, BlocksUpTo, IsEnd, Volume.Holds, Volume.ImageByte, Ext2Reader.FetchedIn, Ext2Reader.Losses,
           Ext2Reader.Unlost;
    }

    lemma IdleOffset()
      requires Idle()
      ensures v.Holds(m) && v.bs > 0 && OffsetIn(pos, v.bs) == OffsetIn(Next(), v.bs) < v.bs
      ensures Next() == Bytes(lastLogical, v.bs) + OffsetIn(Next(), v.bs)
    {
      hide Bytes, OffsetIn, BlockOf, Ext2Reader.Losses;
      SameOffset();
      Split(Next(), v.bs);
    }

    lemma UnalignedBlock(physical: nat)
      requires Idle() && lastLogical in m && m[lastLogical] == physical
      ensures 0 < physical < |v.disk| && Contiguous(m, lastLogical, physical, 1) && BlockOf(from, v.bs) <= lastLogical
      ensures v.Contents(physical, 1) == v.disk[physical] && |v.disk[physical]| == v.bs
    {
      hide Bytes, BlockOf, OffsetIn, Ext2Reader.Losses, Ext2Reader.Unlost;
      Split(Next(), v.bs);
      BytesSmall(v.bs);
      BytesAdd(lastLogical, 1, v.bs);
      FromBefore();
      OffsetOrder(BlockOf(from, v.bs), Next(), lastLogical + 1, v.bs);
    }

    lemma UnalignedData(physical: nat, n: nat, x: seq<byte>)
      requires v.Holds(m) && lastLogical == BlockOf(Next(), v.bs)
      requires lastLogical in m && m[lastLogical] == physical && OffsetIn(Next(), v.bs) + n <= v.bs
      requires x == v.disk[physical][OffsetIn(Next(), v.bs)..OffsetIn(Next(), v.bs) + n]
      ensures forall j | 0 <= j < |x| :: x[j] == v.ImageByte(m, Next() + j)
    {
      hide Bytes, BlockOf, OffsetIn, IsEnd;
      var off := OffsetIn(Next(), v.bs);
      Split(Next(), v.bs);
      forall j | 0 <= j < n ensures x[j] == v.ImageByte(m, Next() + j) {
        SplitUnique(lastLogical, off + j, v.bs);
      }
    }

    lemma UnalignedEnd(n: nat)
      requires Idle() && lastLogical in m && OffsetIn(Next(), v.bs) > 0 && OffsetIn(Next(), v.bs) + n <= v.bs
      ensures Next() + (v.bs - OffsetIn(Next(), v.bs)) == Bytes(lastLogical + 1, v.bs) <= Bytes(end, v.bs)
      ensures BlockOf(Bytes(lastLogical + 1, v.bs), v.bs) == lastLogical + 1
      ensures BlocksUpTo(Next() + n, v.bs) == lastLogical + 1
    {
      hide Bytes, BlockOf, OffsetIn, Ext2Reader.Losses, Ext2Reader.Unlost;
      var off := OffsetIn(Next(), v.bs);
      Split(Next(), v.bs);
      BytesSmall(v.bs);
      BytesAdd(lastLogical, 1, v.bs);
      SplitUnique(lastLogical + 1, 0, v.bs);
      if off + n < v.bs {
        SplitUnique(lastLogical, off + n, v.bs);
      }
      BlockInFile(lastLogical);
    }

    // Where the next block to be seen stands to the file position.
    lemma WhereNow(next: nat)
      requires Between(next)
      ensures v.Holds(m) && Bytes(1, v.bs) == v.bs && OffsetIn(pos, v.bs) == OffsetIn(Next(), v.bs)
      ensures Next() == Bytes(BlockOf(Next(), v.bs), v.bs) + OffsetIn(Next(), v.bs)
      ensures rangeStart != 0 ==> BlockOf(Next(), v.bs) == lastLogical && lastLogical < next
      ensures rangeStart == 0 && (total > 0 || skipped > 0) ==> BlockOf(Next(), v.bs) == next
      ensures BlockOf(pos, v.bs) <= BlockOf(Next(), v.bs)
    {
      hide Bytes, OffsetIn, BlockOf, Ext2Reader.Losses, Ext2Reader.Unlost, Ext2Reader.FetchedIn, Volume.ImageByte;
      ProgressFile();
      SameOffset();
      Split(Next(), v.bs);
      Split(pos, v.bs);
      BytesSmall(v.bs);
      SplitUnique(lastLogical, 0, v.bs);
      if BlockOf(Next(), v.bs) < BlockOf(pos, v.bs) {
        BytesLess(BlockOf(Next(), v.bs), BlockOf(pos, v.bs), v.bs);
      }
    }

    lemma EnteringNext(next: nat)
      requires Between(next) && rangeStart == 0
      ensures Entering(BlocksUpTo(Next(), v.bs))
    {
      hide Bytes, OffsetIn, BlockOf, Ext2Reader.Losses, Ext2Reader.Unlost, Ext2Reader.FetchedIn, Volume.ImageByte;
      BytesSmall(v.bs);
      SplitUnique(lastLogical, 0, v.bs);
    }

    // A position at the start of a block.
    lemma Aligned()
      requires Progress() && Next() == Bytes(lastLogical, v.bs)
      ensures BlockOf(Next(), v.bs) == lastLogical == BlocksUpTo(Next(), v.bs) && OffsetIn(pos, v.bs) == 0
    {
      SameOffset();
      SplitUnique(lastLogical, 0, v.bs);
    }

    lemma LastOfRange()
      requires rangeCount >= 1 && Contiguous(m, lastLogical, rangeStart, rangeCount)
      ensures lastLogical + rangeCount - 1 in m
    {
      assert lastLogical + (rangeCount - 1) in m;
    }

    /** `read_iterator`: the callback of ext2fs_block_iterate. */
    method ReadIterator(physical: nat, logical: int, ghost next: nat) returns (abort: bool)
      requires Between(next)
      requires logical >= 0 ==>
                 next <= logical && logical in m && m[logical] == physical && NoneMapped(m, next, logical)
      modifies `pos, `rangeStart, `rangeCount, `lastLogical, `total, `max, `result, `requests,
               `skipped, `since, `lost, buffer
      ensures abort ==> Stopped()
      ensures !abort ==> Between(if logical < 0 then next else logical + 1)
    {
      hide Bytes, BlockOf, OffsetIn, Ext2Reader.Losses, IsEnd, Volume.ImageByte, Ext2Reader.FetchedIn,
           Ext2Reader.Progress, Ext2Reader.Unlost, Overruns, Ext2Reader.Entering, BlocksUpTo;
      if logical < 0 {
        return false;
      }
      WhereNow(next);
      if logical < BlockOf(pos, v.bs) {
        return false;
      }
      if rangeStart != 0 && rangeCount < MAX_READ_RANGE
         && physical == rangeStart + rangeCount && logical == lastLogical + rangeCount {
        rangeCount := rangeCount + 1;
        InDisk(logical);
        return Bytes(rangeCount, v.bs) >= max;
      }
      abort := FinishBefore(logical, next);
      if abort {
        return;
      }
      if OffsetIn(pos, v.bs) > 0 {
        abort := ReadUnaligned(physical, logical);
        return;
      }
      InDisk(logical);
      StartsHere();
      rangeStart := physical;
      rangeCount := 1;
      return v.bs >= max;
    }

    lemma InDisk(logical: nat)
      requires Progress() && logical in m
      ensures 0 < m[logical] < |v.disk| && v.bs > 0 && Bytes(1, v.bs) == v.bs
    {
      hide Volume.ImageByte;
      BytesSmall(v.bs);
    }

    lemma StartsHere()
      requires Idle() && OffsetIn(pos, v.bs) == 0
      ensures Next() == Bytes(lastLogical, v.bs)
    {
      hide Bytes, OffsetIn, BlockOf;
      IdleOffset();
    }

    // The pending range and the hole in front of a block that does not extend the range.
    method FinishBefore(logical: nat, ghost next: nat) returns (abort: bool)
      requires Between(next) && next <= logical && logical in m && NoneMapped(m, next, logical)
      requires BlockOf(pos, v.bs) <= logical
      modifies `pos, `rangeStart, `rangeCount, `lastLogical, `total, `max, `result, `requests,
               `skipped, `since, `lost, buffer
      ensures abort ==> Stopped()
      ensures !abort ==> Idle() && lastLogical == logical
      ensures !abort && (total > 0 || skipped > 0) ==> Next() == Bytes(lastLogical, v.bs)
    {
      hide Bytes, BlockOf, OffsetIn, Ext2Reader.Losses, IsEnd, Volume.ImageByte, Ext2Reader.FetchedIn,
           Ext2Reader.Progress, Ext2Reader.Unlost, Overruns, BlocksUpTo;
      WhereNow(next);
      if rangeStart == 0 {
        EnteringNext(next);
      } else {
        LastOfRange();
        BaseKnown();
        ghost var (rs, first, wanted, before) := (requests, NextRequest(), max, total);
        abort := DumpRange();
        AfterDump(rs, first, wanted, total - before);
        if abort {
          return;
        }
        Aligned();
      }
      if logical != 0 && logical != lastLogical {
        InnerHole(m, next, lastLogical, logical);
        abort := FillHole(logical);
        if abort {
          return;
        }
      }
      abort := false;
    }

    // ---------- ext2_read ----------

    /** ext2fs_block_iterate: the callback for each block in turn, until it asks to stop. */
    method Iterate(visits: seq<Visit>) returns (aborted: bool)
      requires Between(0) && VisitsOf(visits, m)
      modifies `pos, `rangeStart, `rangeCount, `lastLogical, `total, `max, `result, `requests,
               `skipped, `since, `lost, buffer
      ensures aborted ==> Stopped()
      ensures !aborted ==> Between(end)
    {
      hide Ext2Reader.Between, Ext2Reader.Stopped, IsEnd, Ext2Reader.Losses, VisitsOf;
      ghost var next: nat := 0;
      var i := 0;
      SeenNone(visits);
      while i < |visits|
        invariant 0 <= i <= |visits|
        invariant Between(next) && Seen(visits, m, i, next)
      {
        NextVisit(visits, m, i, next);
        aborted := ReadIterator(visits[i].physical, visits[i].logical, next);
        if aborted {
          return;
        }
        next := if visits[i].logical < 0 then next else visits[i].logical + 1;
        i := i + 1;
      }
      SeenAll(visits, next);
      aborted := false;
    }

    lemma SeenNone(visits: seq<Visit>)
      requires VisitsOf(visits, m)
      ensures Seen(visits, m, 0, 0)
    {
    }

    lemma SeenAll(visits: seq<Visit>, next: nat)
      requires Between(next) && VisitsOf(visits, m) && Seen(visits, m, |visits|, next)
      ensures next == end
    {
      assert IsEnd(m, end);
    }

    /** Nothing is left to do: without faults all that the file has and the caller wants is delivered. */
    ghost predicate Done()
      reads this, buffer
    {
      && Progress() && Unlost(Next())
      && (Clean(requests) ==>
            total == Deliverable(v.bs, end, from + skipped, size) && FetchedTo(BlocksUpTo(Next(), v.bs)))
    }

    // The pending range is the end of the file or of what is wanted.
    ghost predicate LastRange()
      reads this, buffer
    {
      && Progress() && Unlost(Next()) && Pending() && rangeStart != 0 && FetchedTo(lastLogical)
      && (Clean(requests) ==> lastLogical + rangeCount == end || max <= Bytes(rangeCount, v.bs))
    }

    lemma Outcome(aborted: bool)
      requires if aborted then Stopped() else Between(end)
      ensures rangeStart == 0 || result != 0 ==> Done()
      ensures rangeStart != 0 ==> LastRange()
      ensures if result == 0 then Clean(requests) else Failure() && aborted
    {
      hide Bytes, BlockOf, OffsetIn, Ext2Reader.Losses, Volume.ImageByte, Ext2Reader.FetchedIn, Ext2Reader.Unlost;
      if result != 0 {
        Failed();
      } else if rangeStart == 0 {
        if !aborted {
          EndReached();
        } else {
          Enough();
        }
      }
    }

    lemma Failed()
      requires Progress() && Unlost(Next()) && result != 0
      ensures Done() && FetchedTo(lastLogical)
    {
    }

    lemma EndReached()
      requires Between(end) && rangeStart == 0
      ensures Done()
    {
      hide Bytes, BlockOf, OffsetIn, Ext2Reader.Losses, Volume.ImageByte, Ext2Reader.FetchedIn, Ext2Reader.Unlost;
      Split(Next(), v.bs);
      if total > 0 || skipped > 0 {
        SplitUnique(lastLogical, 0, v.bs);
      } else {
        if end < lastLogical {
          BytesLess(end, lastLogical, v.bs);
        }
        StillFetched(lastLogical, lastLogical + 1, BlocksUpTo(Next(), v.bs));
      }
    }

    lemma Enough()
      requires Progress() && Unlost(Next()) && max == 0 && (Clean(requests) ==> FetchedTo(BlocksUpTo(Next(), v.bs)))
      ensures Done()
    {
      hide Bytes, BlockOf, OffsetIn, Ext2Reader.Losses, Volume.ImageByte, Ext2Reader.FetchedIn, Ext2Reader.Unlost;
    }

    /** If a request of this call has failed, the read has come to where StopsAt says. */
    ghost predicate Told(reported: bool)
      reads this
    {
      Clean(requests) || ((size == 0 ==> skipped == 0) && exists r: nat, l: nat :: ToldOf(reported, r, l))
    }

    ghost predicate ToldOf(reported: bool, r: nat, l: nat)
      reads this
    {
      && Breaks(requests, faults, m, base, r, l)
      && StopsAt(requests, faults, v.bs, end, from, from + skipped + size, reported, r, l, Next())
    }

    // The failure that ended the iteration is all there is to tell, unless its range is read again.
    lemma FailureTold(reported: bool)
      requires Failure() && (reported || rangeStart == 0)
      ensures Told(reported)
    {
      hide Bytes;
      assert ToldOf(reported, |requests| - 1, lastLogical);
    }

    // A range at the end of the file, or of what is wanted, whose reading fails.
    lemma LastTold(reported: bool, place: nat, count: nat, wanted: nat)
      requires Failure() && rangeStart != 0 && lastLogical + rangeCount == place + count
      requires place + count == end || wanted <= Bytes(count, v.bs)
      requires from + skipped + size == Bytes(place, v.bs) + wanted
      ensures Told(reported)
    {
      hide Bytes;
      var (r, l) := (|requests| - 1, lastLogical);
      NextIs();
      BytesAdd(place, count, v.bs);
      BytesMonotone(place + count, l + requests[r].count + 1, v.bs);
      assert ToldOf(reported, r, l);
    }

    // A range whose reading failed and that has been read again.
    lemma RetryTold(rs: seq<Request>, first: Request, l: nat, wanted: nat, moved: int)
      requires Dumped(rs, first, wanted, moved) && wanted > 0
      requires base < |rs| && |rs| - 1 in faults && Clean(rs[..|rs| - 1]) && rs[|rs| - 1] == first
      requires l in m && m[l] == first.start && (size == 0 ==> skipped == 0)
      requires Next() == Bytes(l, v.bs) + moved && from <= Bytes(l, v.bs)
      requires from + skipped + size == Bytes(l, v.bs) + wanted
      ensures Told(false)
    {
      hide Bytes;
      BytesAdd(l, first.count, v.bs);
      assert ToldOf(false, |rs| - 1, l);
    }

    // The range left pending at the end, or the one whose reading failed.
    method FinishRange(ghost reported: bool)
      requires LastRange() && if result == 0 then Clean(requests) else !reported && Failure()
      modifies `pos, `rangeStart, `rangeCount, `lastLogical, `total, `max, `result, `requests,
               `skipped, `since, `lost, buffer
      ensures Done() && Told(reported)
    {
      hide Bytes, BlockOf, OffsetIn, Ext2Reader.Losses, IsEnd, Volume.ImageByte, Ext2Reader.FetchedIn,
           Ext2Reader.Unlost, Ext2Reader.Dumped, Ext2Reader.Told, Ext2Reader.Failure, Ext2Reader.NextRequest;
      BytesAdd(lastLogical, rangeCount, v.bs);
      AlignedEnd(end);
      ghost var (rs, first, wanted, before) := (requests, NextRequest(), max, total);
      ghost var (place, count) := (lastLogical, rangeCount);
      ghost var failed := result != 0;
      if failed {
        FailurePlace();
      }
      var abort := DumpRange();
      if failed {
        RetryTold(rs, first, place, wanted, total - before);
        StillBroken(rs, first, wanted, total - before);
      } else {
        AfterDump(rs, first, wanted, total - before);
        if result == 0 {
          CleanTold(reported);
        } else {
          StillPending(rs, first, wanted, total - before);
          LastTold(reported, place, count, wanted);
        }
      }
    }

    lemma StillBroken(rs: seq<Request>, first: Request, wanted: nat, moved: int)
      requires Dumped(rs, first, wanted, moved) && base < |rs| && |rs| - 1 in faults
      ensures !Clean(requests)
    {
      assert |rs| - 1 < |requests|;
    }

    lemma CleanTold(reported: bool)
      requires Clean(requests)
      ensures Told(reported)
    {
    }

    lemma StillPending(rs: seq<Request>, first: Request, wanted: nat, moved: int)
      requires Dumped(rs, first, wanted, moved) && Clean(rs) && Failure()
      ensures rangeStart != 0
    {
    }

    lemma FailurePlace()
      requires Failure() && Pending() && rangeStart != 0 && pos == from + total
      ensures base < |requests| && |requests| - 1 in faults && Clean(requests[..|requests| - 1])
      ensures requests[|requests| - 1] == NextRequest() && max > 0 && (size == 0 ==> skipped == 0)
      ensures lastLogical in m && m[lastLogical] == NextRequest().start
      ensures Next() == Bytes(lastLogical, v.bs) >= from
    {
      hide Bytes;
    }

    lemma AlignedEnd(b: nat)
      requires v.bs > 0
      ensures BlocksUpTo(Bytes(b, v.bs), v.bs) == b
    {
      SplitUnique(b, 0, v.bs);
    }

    // The iteration, and the range that it leaves pending.
    method ReadBlocks(visits: seq<Visit>, abortReported: bool)
      requires Between(0) && VisitsOf(visits, m)
      modifies `pos, `rangeStart, `rangeCount, `lastLogical, `total, `max, `result, `requests,
               `skipped, `since, `lost, buffer
      ensures Done() && Told(abortReported)
    {
      hide Bytes, BlockOf, OffsetIn, BlocksUpTo, VisitsOf, Ext2Reader.Between, Ext2Reader.Stopped, Ext2Reader.Done,
           Ext2Reader.LastRange, Ext2Reader.Failure, Ext2Reader.Told, Ext2Reader.Clean;
      var aborted := Iterate(visits);
      var retval := if aborted && abortReported then result else 0;
      Outcome(aborted);
      if retval == 0 && rangeStart != 0 {
        FinishRange(abortReported);
      } else if result == 0 {
        CleanTold(abortReported);
      } else {
        FailureTold(abortReported);
      }
    }

    /** `ext2_read`.  Some versions of libext2fs report that the iteration was aborted, others do not
        (`abortReported`); in the second case a range whose read failed is tried again.

        Where no hole overruns, the file's image is delivered.  If no request of the call fails, all that is there is
        delivered, and exactly then each mapped block of the bytes delivered is fetched once; otherwise bytes from
        behind a hole stand where they do not belong.  If one fails, what has been delivered before it stays. */
    method Read(wanted: word, out: array<byte>, visits: seq<Visit>, abortReported: bool,
                ghost blockMap: BlockMap, ghost endBlock: nat)
      returns (n: nat)
      requires v.Holds(blockMap) && IsEnd(blockMap, endBlock)
      requires VisitsOf(visits, blockMap) && wanted <= out.Length
      modifies this, out
      ensures n <= wanted && pos == old(pos) + n
      ensures |old(requests)| <= |requests|
      ensures forall i | |old(requests)| <= i < |requests| :: 1 <= requests[i].count <= MAX_READ_RANGE
      ensures HolesFit(blockMap, v.bs, old(pos), wanted) ==>
                && (forall j | 0 <= j < n :: out[j] == v.ImageByte(blockMap, old(pos) + j))
                && (n > 0 ==> old(pos) + n <= Bytes(endBlock, v.bs))
                && (if Unbroken(requests, faults, |old(requests)|) then
                      n == Deliverable(v.bs, endBlock, old(pos), wanted)
                    else
                      exists r: nat, l: nat ::
                        && Breaks(requests, faults, blockMap, |old(requests)|, r, l)
                        && StopsAt(requests, faults, v.bs, endBlock, old(pos), old(pos) + wanted, abortReported,
                                   r, l, pos))
      ensures Unbroken(requests, faults, |old(requests)|) ==>
                (Fetched(requests[|old(requests)|..])
                 == Mapped(blockMap, BlockOf(old(pos), v.bs), BlocksUpTo(old(pos) + n, v.bs))
                 <==> HolesFit(blockMap, v.bs, old(pos), wanted))
      ensures Unbroken(requests, faults, |old(requests)|) && !HolesFit(blockMap, v.bs, old(pos), wanted) ==>
                Misplaced(v, blockMap, endBlock, old(pos), out[..n])
    {
      hide Bytes, BlockOf, OffsetIn, BlocksUpTo, Volume.ImageByte, Ext2Reader.Done, Deliverable, HolesFit, Misplaced,
           Fetched, Mapped, IsEnd, VisitsOf, Volume.Holds, Unbroken, Breaks, StopsAt, Ext2Reader.Told;
      n := ReadAll(wanted, out, visits, abortReported, blockMap, endBlock);
      DoneMeans(abortReported);
    }

    lemma HasBlocks(blockMap: BlockMap)
      requires v.Holds(blockMap)
      ensures v.bs > 0
    {
    }

    // The variables at the beginning of a read.
    method Start(wanted: word, out: array<byte>, ghost blockMap: BlockMap, ghost endBlock: nat)
      requires v.Holds(blockMap) && IsEnd(blockMap, endBlock) && wanted <= out.Length
      modifies this
      ensures m == blockMap && end == endBlock && from == old(pos) && size == wanted && base == |old(requests)|
      ensures buffer == out && Between(0)
    {
      hide BlockOf, IsEnd, Volume.Holds, Ext2Reader.Between;
      HasBlocks(blockMap);
      m, end, from, size, base := blockMap, endBlock, pos, wanted, |requests|;
      skipped, since, lost := 0, 0, 0;
      rangeStart := 0;
      rangeCount := 0;
      lastLogical := BlockOf(pos, v.bs);
      total, max, result := 0, wanted, 0;
      buffer := out;
      ReadStarts();
    }

    method ReadAll(wanted: word, out: array<byte>, visits: seq<Visit>, abortReported: bool,
                   ghost blockMap: BlockMap, ghost endBlock: nat)
      returns (n: nat)
      requires v.Holds(blockMap) && IsEnd(blockMap, endBlock)
      requires VisitsOf(visits, blockMap) && wanted <= out.Length
      modifies this, out
      ensures m == blockMap && end == endBlock && from == old(pos) && size == wanted && base == |old(requests)|
      ensures buffer == out && n == total && Done() && Told(abortReported)
    {
      hide Volume.Holds, IsEnd, VisitsOf, Ext2Reader.Between, Ext2Reader.Done, Ext2Reader.Told;
      Start(wanted, out, blockMap, endBlock);
      ReadBlocks(visits, abortReported);
      n := total;
    }

    /** Reading a and then b bytes delivers what reading a + b bytes delivers. */
    method ReadTwice(a: word, b: word, out: array<byte>, visits: seq<Visit>, abortReported: bool,
                     ghost blockMap: BlockMap, ghost endBlock: nat)
      returns (data: seq<byte>)
      requires v.Holds(blockMap) && IsEnd(blockMap, endBlock) && faults == {}
      requires VisitsOf(visits, blockMap) && a <= out.Length && b <= out.Length
      requires HolesFit(blockMap, v.bs, pos, a + b)
      modifies this, out
      ensures Delivers(v, blockMap, endBlock, old(pos), a + b, data) && pos == old(pos) + |data|
    {
      hide Bytes, BlockOf, BlocksUpTo, Volume.ImageByte, HolesFit, Fetched, Mapped, IsEnd, VisitsOf, Misplaced,
           Deliverable;
      PartsFit(blockMap, v.bs, endBlock, pos, a, b);
      ghost var start := pos;
      var n := Read(a, out, visits, abortReported, blockMap, endBlock);
      data := out[..n];
      n := Read(b, out, visits, abortReported, blockMap, endBlock);
      DeliversBoth(v, blockMap, endBlock, start, a, b, data, out[..n]);
      data := data + out[..n];
    }

    // All of what a finished read means.
    lemma DoneMeans(reported: bool)
      requires Done() && Told(reported)
      ensures v.bs > 0 && total <= size <= buffer.Length && pos == from + total && base <= |requests|
      ensures forall i | base <= i < |requests| :: 1 <= requests[i].count <= MAX_READ_RANGE
      ensures HolesFit(m, v.bs, from, size) ==>
                && (forall j | 0 <= j < total :: buffer[j] == v.ImageByte(m, from + j))
                && (total > 0 ==> pos <= Bytes(end, v.bs))
                && if Unbroken(requests, faults, base) then total == Deliverable(v.bs, end, from, size)
                   else
                     exists r: nat, l: nat ::
                       && Breaks(requests, faults, m, base, r, l)
                       && StopsAt(requests, faults, v.bs, end, from, from + size, reported, r, l, pos)
      ensures Unbroken(requests, faults, base) ==>
                (Fetched(requests[base..]) == Mapped(m, BlockOf(from, v.bs), BlocksUpTo(pos, v.bs))
                 <==> HolesFit(m, v.bs, from, size))
      ensures Unbroken(requests, faults, base) && !HolesFit(m, v.bs, from, size) ==>
                Misplaced(v, m, end, from, buffer[..total])
    {
      hide Bytes, BlockOf, OffsetIn, BlocksUpTo, IsEnd, Volume.ImageByte, HolesFit, Deliverable, Misplaced, Unbroken,
           Breaks, StopsAt;
      if size == 0 {
        NothingWanted();
      } else if Clean(requests) {
        if skipped == 0 {
          NothingLost();
        } else {
          SomethingLost();
          LostFetches();
          LostMisplaces();
        }
      }
    }

    lemma NothingWanted()
      requires Done() && size == 0
      ensures HolesFit(m, v.bs, from, size)
      ensures Clean(requests) ==>
                Deliverable(v.bs, end, from, size) == 0
                && Fetched(requests[base..]) == Mapped(m, BlockOf(from, v.bs), BlocksUpTo(pos, v.bs))
    {
      hide Bytes, BlockOf, OffsetIn, IsEnd, Volume.ImageByte, Mapped, Begins, NoneMapped;
      if Clean(requests) && skipped > 0 {
        AlignedEnd(lost);
        Split(from, v.bs);
        OffsetOrder(BlockOf(from, v.bs), from, lost, v.bs);
        MappedHole(m, BlockOf(from, v.bs), BlocksUpTo(from, v.bs), lost);
      }
    }

    // A finished read that left out nothing has met no hole that overruns.
    lemma NothingLost()
      requires Done() && Clean(requests) && skipped == 0
      ensures HolesFit(m, v.bs, from, size)
    {
      hide Bytes, BlocksUpTo, Volume.ImageByte, NoneMapped, Begins, Ext2Reader.FetchedIn;
      forall a: nat, b: nat ensures !Overruns(m, v.bs, from, size, a, b) {
        if Overruns(m, v.bs, from, size, a, b) {
          assert Next() <= Bytes(a, v.bs);
          BytesAdd(a, b - a, v.bs);
          BlockInFile(b);
          assert false;
        }
      }
    }

    // One that left out something has gone on behind the hole.
    lemma SomethingLost()
      requires Done() && Clean(requests) && skipped > 0 && size > 0
      ensures lost in m && since < total && Bytes(lost, v.bs) == from + since + skipped
      ensures pos < Bytes(lost, v.bs) < Next() && !HolesFit(m, v.bs, from, size)
    {
      hide Bytes, BlocksUpTo, Volume.ImageByte, Ext2Reader.FetchedIn, HolesFit;
      BlockInFile(lost);
    }

    // It has fetched the block behind the hole, which does not belong to the bytes delivered.
    lemma LostFetches()
      requires Done() && Clean(requests) && skipped > 0
      requires lost in m && pos < Bytes(lost, v.bs) < Next()
      ensures Fetched(requests[base..]) != Mapped(m, BlockOf(from, v.bs), BlocksUpTo(pos, v.bs))
    {
      hide Bytes, BlockOf, OffsetIn, IsEnd, Volume.ImageByte, Ext2Reader.Losses, Ext2Reader.Unlost, HolesFit, Mapped;
      Split(from, v.bs);
      OffsetOrder(BlockOf(from, v.bs), pos, lost, v.bs);
      Split(Next(), v.bs);
      if BlockOf(Next(), v.bs) < lost {
        BytesLess(BlockOf(Next(), v.bs), lost, v.bs);
      } else if BlockOf(Next(), v.bs) == lost {
        assert OffsetIn(Next(), v.bs) > 0;
      }
      MappedLonger(m, BlockOf(from, v.bs), BlocksUpTo(pos, v.bs), lost, BlocksUpTo(Next(), v.bs));
    }

    // The bytes delivered last are from behind the hole.
    lemma LostMisplaces()
      requires Done() && Clean(requests) && skipped > 0 && since < total
      ensures Misplaced(v, m, end, from, buffer[..total])
    {
      hide Bytes, BlocksUpTo, Volume.ImageByte, Ext2Reader.FetchedIn, HolesFit, IsEnd, Ext2Reader.Unlost;
      assert Shifted(v, m, end, from, buffer[..total], since, skipped);
    }

    lemma ReadStarts()
      requires File() && pos == from && total == 0 && max == size <= buffer.Length && base == |requests|
      requires size < WORDS && skipped == 0 && since == 0
      requires rangeStart == 0 && rangeCount == 0 && result == 0 && lastLogical == BlockOf(pos, v.bs)
      ensures Between(0)
    {
      hide BlockOf, IsEnd, Bytes, BlocksUpTo;
    }

    // ---------- The slow version ----------

    /** ext2_read without FAST_VERSION: one block at a time, found with ext2fs_bmap; it reads zeros behind
        the end of the file too. */
    method SlowRead(wanted: nat, blockMap: BlockMap) returns (data: seq<byte>)
      requires v.Holds(blockMap)
      modifies `pos, `requests, `result
      ensures |data| <= wanted && pos == old(pos) + |data|
      ensures IsImage(blockMap, old(pos), data)
      ensures if Unbroken(requests, faults, |old(requests)|) then |data| == wanted
              else
                exists l: nat ::
                  && Breaks(requests, faults, blockMap, |old(requests)|, |requests| - 1, l)
                  && pos == Max(old(pos), Bytes(l, v.bs))
    {
      hide Bytes, BlockOf, OffsetIn, Volume.ImageByte, Ext2Reader.IsImage;
      NothingIsImage(blockMap, pos);
      ghost var base0 := |requests|;
      data := [];
      var size: nat := wanted;
      while size > 0
        invariant |data| + size == wanted && pos == old(pos) + |data|
        invariant IsImage(blockMap, old(pos), data)
        invariant |requests| >= base0 && Unbroken(requests, faults, base0)
        invariant data != [] && size > 0 ==> OffsetIn(pos, v.bs) == 0
      {
        Split(pos, v.bs);
        var fblock := BlockOf(pos, v.bs);
        var b := pos - Bytes(fblock, v.bs);
        var n := if v.bs - b > size then size else v.bs - b;
        var block := seq(v.bs, _ => 0);
        if fblock in blockMap {
          block := ReadBlk(blockMap[fblock], 1);
          if result != 0 {
            assert Breaks(requests, faults, blockMap, base0, |requests| - 1, fblock);
            return;
          }
          OneBlock(blockMap, fblock);
        }
        BlockIsImage(blockMap, pos, block, n, block[b..b + n]);
        AppendImage(blockMap, old(pos), data, block[b..b + n]);
        data := data + block[b..b + n];
        size := size - n;
        NextBlockStart(fblock);
        pos := pos + n;
      }
    }

    lemma NextBlockStart(l: nat)
      requires v.bs > 0
      ensures OffsetIn(Bytes(l, v.bs) + v.bs, v.bs) == 0
    {
      BytesSmall(v.bs);
      BytesAdd(l, 1, v.bs);
      SplitUnique(l + 1, 0, v.bs);
    }

    /** Reading the same bytes with both: they agree as far as both deliver, and without faults the slow version
        delivers at least as many. */
    method FastAndSlow(wanted: word, out: array<byte>, visits: seq<Visit>, abortReported: bool, blockMap: BlockMap,
                       ghost endBlock: nat)
      returns (n: nat, data: seq<byte>)
      requires v.Holds(blockMap) && IsEnd(blockMap, endBlock)
      requires VisitsOf(visits, blockMap) && wanted <= out.Length
      requires HolesFit(blockMap, v.bs, pos, wanted)
      modifies this, out
      ensures n <= wanted && |data| <= wanted && pos == old(pos) + |data|
      ensures forall j | 0 <= j < n && j < |data| :: out[j] == data[j]
      ensures faults == {} ==> n <= |data|
    {
      hide Bytes, BlockOf, BlocksUpTo, Volume.ImageByte, HolesFit, Fetched, Mapped, IsEnd, VisitsOf, Misplaced,
           Deliverable;
      var start := pos;
      n := Read(wanted, out, visits, abortReported, blockMap, endBlock);
      pos := start;
      data := SlowRead(wanted, blockMap);
    }

    // `data` is the file's image from `start` on.
    ghost predicate IsImage(blockMap: BlockMap, start: nat, data: seq<byte>) {
      v.Holds(blockMap) && forall j | 0 <= j < |data| :: data[j] == v.ImageByte(blockMap, start + j)
    }

    lemma NothingIsImage(blockMap: BlockMap, start: nat)
      requires v.Holds(blockMap)
      ensures IsImage(blockMap, start, [])
    {
    }

    lemma AppendImage(blockMap: BlockMap, start: nat, data: seq<byte>, more: seq<byte>)
      requires IsImage(blockMap, start, data) && IsImage(blockMap, start + |data|, more)
      ensures IsImage(blockMap, start, data + more)
    {
      hide Volume.ImageByte, Volume.Holds;
      forall j | 0 <= j < |data + more| ensures (data + more)[j] == v.ImageByte(blockMap, start + j) {
        if |data| <= j {
          assert more[j - |data|] == v.ImageByte(blockMap, start + |data| + (j - |data|));
        }
      }
    }

    lemma OneBlock(blockMap: BlockMap, l: nat)
      requires v.Holds(blockMap) && l in blockMap
      ensures v.Contents(blockMap[l], 1) == v.disk[blockMap[l]]
    {
    }

    lemma BlockIsImage(blockMap: BlockMap, p: nat, block: seq<byte>, n: nat, x: seq<byte>)
      requires v.Holds(blockMap) && |block| == v.bs && OffsetIn(p, v.bs) + n <= v.bs
      requires if BlockOf(p, v.bs) in blockMap then block == v.disk[blockMap[BlockOf(p, v.bs)]]
               else forall j | 0 <= j < v.bs :: block[j] == 0
      requires x == block[OffsetIn(p, v.bs)..OffsetIn(p, v.bs) + n]
      ensures IsImage(blockMap, p, x)
    {
      hide Bytes, BlockOf, OffsetIn;
      Split(p, v.bs);
      forall j | 0 <= j < n ensures x[j] == v.ImageByte(blockMap, p + j) {
        SplitUnique(BlockOf(p, v.bs), OffsetIn(p, v.bs) + j, v.bs);
      }
    }
  }

  // ---------- A hole that overruns ----------

  const LARGE_BLOCK := 0x40_0000

  /** Blocks of 1024 bytes; one of zeros, which no file uses, and one of sevens. */
  function LargeHoleVolume(): Volume {
    Volume(1024, [seq(1024, _ => 0), seq(1024, _ => 7)])
  }

  // A file with a hole of 4 GiB and a block of sevens.
  function LargeHoleMap(): BlockMap {
    map[LARGE_BLOCK := 1]
  }

  lemma LargeHoleOverruns()
    ensures LargeHoleVolume().Holds(LargeHoleMap()) && IsEnd(LargeHoleMap(), LARGE_BLOCK + 1)
    ensures Overruns(LargeHoleMap(), 1024, 0, 1, 0, LARGE_BLOCK) && !HolesFit(LargeHoleMap(), 1024, 0, 1)
    ensures forall d: nat | d > 0 && d % WORDS == 0 && d < Bytes(LARGE_BLOCK + 1, 1024) :: d == WORDS
    ensures LargeHoleVolume().ImageByte(LargeHoleMap(), 0) == 0
    ensures LargeHoleVolume().ImageByte(LargeHoleMap(), WORDS) == 7
  {
    assert Bytes(LARGE_BLOCK, 1024) == WORDS;
    SplitUnique(LARGE_BLOCK, 0, 1024);
  }

  /** The first byte of that file is 0, and the reader delivers a 7. */
  method ReadLargeHole() returns (n: nat, b: byte)
    ensures n == 1 && b == 7 && LargeHoleVolume().ImageByte(LargeHoleMap(), 0) == 0
  {
    hide LargeHoleVolume, LargeHoleMap, Bytes, Volume.ImageByte, Volume.Holds, IsEnd, Overruns, HolesFit, Mapped,
         Fetched;
    LargeHoleOverruns();
    var reader := new Ext2Reader(LargeHoleVolume(), {});
    var out := new byte[1];
    OneVisit();
    n := reader.Read(1, out, [Visit(LARGE_BLOCK, 1)], true, LargeHoleMap(), LARGE_BLOCK + 1);
    b := out[0];
  }

  lemma OneVisit()
    ensures VisitsOf([Visit(LARGE_BLOCK, 1)], LargeHoleMap()) && LargeHoleVolume().bs == 1024
  {
    var visits := [Visit(LARGE_BLOCK, 1)];
    assert visits[0].logical == LARGE_BLOCK;
  }
}
