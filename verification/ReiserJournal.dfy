/** The ReiserFS journal reader of second/fs_reiserfs.c: `journal_init` finds the transactions that
    were committed but not flushed and caches as many of their block numbers as fit; `block_read`
    consults cache and journal on every metadata read.

    The specification is the replayed disk: the disk one would get by copying the logged blocks of
    all accepted transactions to their home positions, in order.  `block_read` delivers it exactly as
    long as nothing is cached; the reader that was intended delivers it always.
 */
module ReiserJournal {
  import opened Bits
  import opened Common
  import opened ReiserDisk

  // ---------- Layout of the circular log ----------

  // `x & (count - 1)` for a power of two: what is left of x after taking `count` away while possible.
  function Mask(x: nat, count: nat): (r: nat)
    ensures count > 0 ==> r < count
  {
    if count == 0 || x < count then x else Mask(x - count, count)
  }

  lemma {:induction false} MaskIs(x: nat, count: nat)
    requires count > 0
    ensures Mask(x, count) == x % count
  {
    if x >= count {
      MaskIs(x - count, count);
      var q, r := (x - count) / count, (x - count) % count;
      assert x == (q + 1) * count + r;
      QuotientIs(x, count, q + 1, r);
    }
  }

  lemma {:induction false} MaskTwice(x: nat, y: nat, count: nat)
    requires count > 0
    ensures Mask(Mask(x, count) + y, count) == Mask(x + y, count)
  {
    if x >= count {
      MaskTwice(x - count, y, count);
      assert Mask(x + y, count) == Mask(x - count + y, count);
    }
  }

  predicate HasJournal(v: Volume) {
    IsPowerOfTwo(v.journalCount)
  }

  function LogBlock(v: Volume, pos: nat): Block {
    DiskBlock(v, v.journalBlock + pos)
  }

  function HeaderOf(v: Volume): Header {
    LogBlock(v, v.journalCount).header
  }

  // A transaction whose descriptor is at `pos` fills the log positions pos .. pos + len + 1.
  function CommitPos(v: Volume, pos: nat): nat
  {
    Mask(pos + LogBlock(v, pos).desc.len + 1, v.journalCount)
  }

  // Position of the i-th descriptor from the first unflushed offset.
  function DescPos(v: Volume, i: nat): nat
  {
    if i == 0 then HeaderOf(v).firstUnflushedOffset
    else
      var pos := DescPos(v, i - 1);
      Mask(pos + LogBlock(v, pos).desc.len + 2, v.journalCount)
  }

  function TransLen(v: Volume, i: nat): nat
  {
    LogBlock(v, DescPos(v, i)).desc.len
  }

  // Home position of the k-th block logged by the transaction whose descriptor is at `pos`.
  function LoggedAt(v: Volume, pos: nat, k: nat): word
  {
    if k < JOURNAL_TRANS_HALF then LogBlock(v, pos).desc.realblock[k]
    else if k < 2 * JOURNAL_TRANS_HALF then LogBlock(v, CommitPos(v, pos)).commit.realblock[k - JOURNAL_TRANS_HALF]
    else 0
  }

  function RealBlock(v: Volume, i: nat, k: nat): word
  {
    LoggedAt(v, DescPos(v, i), k)
  }

  // The k-th block logged by transaction i follows its descriptor, wrapping around.
  function CopyNr(v: Volume, i: nat, k: nat): nat
  {
    v.journalBlock + Mask(DescPos(v, i) + 1 + k, v.journalCount)
  }

  // ---------- Which transactions count ----------

  function ExpectedId(v: Volume, i: nat): word {
    (HeaderOf(v).lastFlushTransId + 1 + i) % WORDS
  }

  predicate ValidTransaction(v: Volume, i: nat)
  {
    var pos := DescPos(v, i);
    var desc := LogBlock(v, pos).desc;
    var commit := LogBlock(v, CommitPos(v, pos)).commit;
    && desc.magic == JOURNAL_DESC_MAGIC
    && desc.transId == ExpectedId(v, i)
    && desc.mountId == HeaderOf(v).mountId
    && commit.transId == desc.transId
    && commit.len == desc.len
  }

  ghost predicate IsRun(v: Volume, n: nat)
  {
    forall i: nat | i < n :: ValidTransaction(v, i)
  }

  ghost predicate IsMaximalRun(v: Volume, n: nat)
  {
    IsRun(v, n) && !ValidTransaction(v, n)
  }

  lemma SameIdFarApart(v: Volume, i: nat, j: nat)
    requires i < j && ExpectedId(v, i) == ExpectedId(v, j)
    ensures j - i >= WORDS
  {
  }

  /** Two descriptors of a run never share a log position: their ids differ. */
  lemma RunPositionsDistinct(v: Volume, n: nat, i: nat, j: nat)
    requires IsRun(v, n)
    requires i < j < n && j - i < WORDS
    ensures DescPos(v, i) != DescPos(v, j)
  {
    assert ValidTransaction(v, i) && ValidTransaction(v, j);
    if DescPos(v, i) == DescPos(v, j) {
      SameIdFarApart(v, i, j);
      assert false;
    }
  }

  ghost function RunPositions(v: Volume, n: nat): set<nat>
  {
    set i: nat | i < n :: DescPos(v, i)
  }

  lemma RunPositionsCount(v: Volume, n: nat)
    requires IsRun(v, n) && n <= WORDS
    ensures |RunPositions(v, n)| == n
  {
    if n > 0 {
      RunPositionsCount(v, n - 1);
      forall i: nat | i < n - 1 ensures DescPos(v, i) != DescPos(v, n - 1) {
        RunPositionsDistinct(v, n, i, n - 1);
      }
      assert RunPositions(v, n) == RunPositions(v, n - 1) + {DescPos(v, n - 1)};
    }
  }

  lemma {:induction false} BoundedSetCount(a: set<nat>, n: nat)
    requires forall x | x in a :: x < n
    ensures |a| <= n
  {
    if n == 0 {
      assert a == {};
    } else {
      BoundedSetCount(a - {n - 1}, n - 1);
    }
  }

  ghost predicate StartsInside(v: Volume) {
    HeaderOf(v).firstUnflushedOffset < v.journalCount
  }

  /** The scan cannot go round for ever, whatever the log holds: a run is no longer than the log. */
  lemma RunBounded(v: Volume, n: nat)
    requires StartsInside(v) && IsRun(v, n)
    ensures n <= v.journalCount
  {
    if n > v.journalCount {
      var m := v.journalCount + 1;
      RunPositionsCount(v, m);
      BoundedSetCount(RunPositions(v, m), v.journalCount);
    }
  }

  lemma MaximalRunExists(v: Volume, n: nat)
    requires StartsInside(v) && IsRun(v, n)
    ensures exists m: nat :: IsMaximalRun(v, m)
    decreases v.journalCount - n
  {
    RunBounded(v, n);
    if ValidTransaction(v, n) {
      RunBounded(v, n + 1);
      MaximalRunExists(v, n + 1);
    } else {
      assert IsMaximalRun(v, n);
    }
  }

  lemma MaximalRunUnique(v: Volume, m: nat, n: nat)
    requires IsMaximalRun(v, m) && IsMaximalRun(v, n)
    ensures m == n
  {
  }

  /** Number of transactions to replay: the maximal run from the first unflushed offset.  An offset
      outside the log makes the loader ignore the journal. */
  ghost function Accepted(v: Volume): (n: nat)
    ensures StartsInside(v) ==> IsMaximalRun(v, n)
    ensures !StartsInside(v) ==> n == 0
  {
    if StartsInside(v) then
      MaximalRunExists(v, 0);
      var n: nat :| IsMaximalRun(v, n);
      n
    else 0
  }

  lemma NextDesc(v: Volume, n: nat)
    requires v.journalCount > 0
    ensures Mask(CommitPos(v, DescPos(v, n)) + 1, v.journalCount) == DescPos(v, n + 1)
    ensures Mask(DescPos(v, n) + 2 + TransLen(v, n), v.journalCount) == DescPos(v, n + 1)
  {
    MaskTwice(DescPos(v, n) + TransLen(v, n) + 1, 1, v.journalCount);
  }

  /** One turn of the scan: a valid transaction extends the run, and its successor starts behind its commit block. */
  lemma RunGrows(v: Volume, n: nat, descBlock: nat, commitBlock: nat, nextTransId: word)
    requires StartsInside(v) && IsRun(v, n) && ValidTransaction(v, n)
    requires descBlock == DescPos(v, n) && commitBlock == CommitPos(v, descBlock) && nextTransId == ExpectedId(v, n)
    ensures IsRun(v, n + 1) && n < Accepted(v) && n + 1 <= v.journalCount
    ensures Mask(commitBlock + 1, v.journalCount) == DescPos(v, n + 1)
    ensures (nextTransId + 1) % WORDS == ExpectedId(v, n + 1)
    ensures LogBlock(v, descBlock).desc.len == TransLen(v, n)
  {
    NextDesc(v, n);
    RunInsideAccepted(v, n);
    NextId(HeaderOf(v).lastFlushTransId, n);
  }

  lemma RunInsideAccepted(v: Volume, n: nat)
    requires StartsInside(v) && IsRun(v, n) && ValidTransaction(v, n)
    ensures IsRun(v, n + 1) && n < Accepted(v) && n + 1 <= v.journalCount
  {
    RunBounded(v, n + 1);
    assert !ValidTransaction(v, Accepted(v));
  }

  // The two tests of the scan, in the scan's own terms.
  lemma ValidityTests(v: Volume, n: nat, descBlock: nat, nextTransId: word)
    requires descBlock == DescPos(v, n) && nextTransId == ExpectedId(v, n)
    ensures CommitPos(v, descBlock) == Mask(descBlock + LogBlock(v, descBlock).desc.len + 1, v.journalCount)
    ensures var desc, commit := LogBlock(v, descBlock).desc, LogBlock(v, CommitPos(v, descBlock)).commit;
      ValidTransaction(v, n) <==>
        && desc.magic == JOURNAL_DESC_MAGIC && desc.transId == nextTransId && desc.mountId == HeaderOf(v).mountId
        && desc.transId == commit.transId && desc.len == commit.len
  {
  }

  lemma RunStarts(v: Volume)
    ensures IsRun(v, 0) && DescPos(v, 0) == HeaderOf(v).firstUnflushedOffset
    ensures (HeaderOf(v).lastFlushTransId + 1) % WORDS == ExpectedId(v, 0)
  {
  }

  lemma RunEnds(v: Volume, n: nat, nextTransId: word)
    requires StartsInside(v) && IsRun(v, n) && !ValidTransaction(v, n) && nextTransId == ExpectedId(v, n)
    ensures n == Accepted(v) <= v.journalCount
    ensures (nextTransId - HeaderOf(v).lastFlushTransId - 1) % WORDS == n
  {
    RunBounded(v, n);
    MaximalRunUnique(v, n, Accepted(v));
    IdsCount(HeaderOf(v).lastFlushTransId, n);
  }

  lemma NextId(last: word, n: nat)
    ensures ((last + 1 + n) % WORDS + 1) % WORDS == (last + 1 + (n + 1)) % WORDS
  {
  }

  lemma SixteenBits(n: nat)
    ensures n % 0x10000 == n <==> n < 0x10000
  {
  }

  lemma IdsCount(last: word, n: nat)
    requires n < WORDS
    ensures ((last + 1 + n) % WORDS - last - 1) % WORDS == n
  {
  }

  /** The format of the first n transactions: no more blocks than descriptor and commit block can name. */
  ghost predicate LengthsFit(v: Volume, n: nat)
  {
    forall i: nat | i < n :: TransLen(v, i) <= 2 * JOURNAL_TRANS_HALF
  }

  /** None of the first n transactions logs a block twice. */
  ghost predicate BlocksDistinct(v: Volume, n: nat) {
    forall i: nat | i < n :: TransactionDistinct(v, i)
  }

  ghost predicate TransactionDistinct(v: Volume, i: nat) {
    forall k: nat, l: nat | k < l < TransLen(v, i) :: RealBlock(v, i, k) != RealBlock(v, i, l)
  }

  // Transaction i logs block nr.
  ghost predicate Logs(v: Volume, i: nat, nr: nat) {
    exists k: nat | k < TransLen(v, i) :: RealBlock(v, i, k) == nr
  }

  // ---------- Replay ----------

  // Blocks copied home so far.
  type Overlay = map<nat, Block>

  function Read(v: Volume, copied: Overlay, nr: nat): Block {
    if nr in copied then copied[nr] else DiskBlock(v, nr)
  }

  // `copied` after the first k logged blocks of transaction i have been copied home.
  ghost function ReplayBlocks(v: Volume, i: nat, k: nat, copied: Overlay): Overlay
  {
    if k == 0 then copied
    else ReplayBlocks(v, i, k - 1, copied)[RealBlock(v, i, k - 1) as nat := DiskBlock(v, CopyNr(v, i, k - 1))]
  }

  // The first n transactions, replayed one after the other.
  ghost function Replay(v: Volume, n: nat): Overlay
  {
    if n == 0 then map[] else ReplayBlocks(v, n - 1, TransLen(v, n - 1), Replay(v, n - 1))
  }

  // What the replayed disk holds at block nr.
  ghost function Replayed(v: Volume, n: nat, nr: nat): Block
  {
    Read(v, Replay(v, n), nr)
  }

  lemma {:induction false} ReplayMiss(v: Volume, i: nat, k: nat, copied: Overlay, nr: nat)
    requires forall l: nat | l < k :: RealBlock(v, i, l) != nr
    ensures Read(v, ReplayBlocks(v, i, k, copied), nr) == Read(v, copied, nr)
  {
    if k > 0 {
      ReplayMiss(v, i, k - 1, copied, nr);
    }
  }

  lemma {:induction false} ReplayHit(v: Volume, i: nat, k: nat, copied: Overlay, nr: nat, hit: nat)
    requires hit < k
    requires RealBlock(v, i, hit) == nr
    requires forall l: nat | hit < l < k :: RealBlock(v, i, l) != nr
    ensures Read(v, ReplayBlocks(v, i, k, copied), nr) == DiskBlock(v, CopyNr(v, i, hit))
  {
    if hit < k - 1 {
      assert RealBlock(v, i, k - 1) != nr;
      ReplayHit(v, i, k - 1, copied, nr, hit);
    }
  }

  lemma NothingReplayed(v: Volume, nr: nat)
    ensures Replayed(v, 0, nr) == DiskBlock(v, nr)
  {
  }

  /** Finding the block in transaction t replaces the address found so far; the copy follows the descriptor. */
  lemma HitStep(v: Volume, t: nat, descBlock: nat, i: nat, nr: nat)
    requires TransactionDistinct(v, t)
    requires descBlock == DescPos(v, t) && 1 <= i <= TransLen(v, t) && RealBlock(v, t, i - 1) == nr
    ensures DiskBlock(v, v.journalBlock + Mask(descBlock + i, v.journalCount)) == Replayed(v, t + 1, nr)
  {
    ReplayHit(v, t, TransLen(v, t), Replay(v, t), nr, i - 1);
  }

  lemma MissStep(v: Volume, t: nat, nr: nat)
    requires !Logs(v, t, nr)
    ensures Replayed(v, t, nr) == Replayed(v, t + 1, nr)
  {
    ReplayMiss(v, t, TransLen(v, t), Replay(v, t), nr);
  }

  // ---------- The cached part of the journal ----------

  const END_OF_CACHE: word := 0xffffffff

  // Where the entry of transaction m starts: behind a length word and the block numbers of each predecessor.
  ghost function Offset(v: Volume, m: nat): nat {
    if m == 0 then 0 else Offset(v, m - 1) + 1 + TransLen(v, m - 1)
  }

  lemma {:induction false} OffsetMonotone(v: Volume, m: nat, n: nat)
    requires m <= n
    ensures Offset(v, m) <= Offset(v, n)
  {
    if m < n {
      OffsetMonotone(v, m, n - 1);
    }
  }

  /** Of a transaction that goes into a cache of that size, the block numbers are looked at, so there must be
      that many; the length of any other one is just counted. */
  ghost predicate CachedLengthsFit(v: Volume, words: nat) {
    forall i: nat | i < Accepted(v) && Offset(v, i + 1) < words :: TransLen(v, i) <= 2 * JOURNAL_TRANS_HALF
  }

  ghost predicate HoldsEntry(table: seq<word>, v: Volume, i: nat) {
    && Offset(v, i) + 1 + TransLen(v, i) <= |table|
    && table[Offset(v, i)] == TransLen(v, i)
    && forall l: nat | l < TransLen(v, i) :: table[Offset(v, i) + 1 + l] == RealBlock(v, i, l)
  }

  /** `table` holds the first m transactions of a run of n, and the end marker if there is no room for all. */
  ghost predicate TableHolds(table: seq<word>, v: Volume, m: nat, n: nat) {
    && m <= n
    && Offset(v, m) < |table|
    && (forall i: nat | i < m :: HoldsEntry(table, v, i))
    && (m < n ==> table[Offset(v, m)] == END_OF_CACHE && |table| <= Offset(v, m + 1))
  }

  // Words behind the cached entries may change.
  lemma EntriesKept(table: seq<word>, table': seq<word>, v: Volume, n: nat)
    requires TableHolds(table, v, n, n) && |table'| == |table|
    requires table'[..Offset(v, n)] == table[..Offset(v, n)]
    ensures forall i: nat | i < n :: HoldsEntry(table', v, i)
  {
    hide HoldsEntry, Offset;
    SameFront(table, table', Offset(v, n));
    forall i: nat | i < n ensures HoldsEntry(table', v, i) {
      OffsetMonotone(v, i + 1, n);
      EntryKept(table, table', v, i, Offset(v, n));
    }
  }

  lemma SameFront(a: seq<word>, b: seq<word>, n: nat)
    requires n <= |a| == |b| && a[..n] == b[..n]
    ensures forall j: nat | j < n :: a[j] == b[j]
  {
    assert forall j: nat | j < n :: a[j] == a[..n][j] && b[j] == b[..n][j];
  }

  lemma EntryKept(table: seq<word>, table': seq<word>, v: Volume, i: nat, end: nat)
    requires HoldsEntry(table, v, i) && Offset(v, i + 1) <= end <= |table| == |table'|
    requires forall j: nat | j < end :: table[j] == table'[j]
    ensures HoldsEntry(table', v, i)
  {
  }

  // ---------- Reading as it is written ----------

  /** What a scan for a block comes to: the block, nothing, or a look behind the words that are there. */
  datatype Scan = Found(i: nat) | Missed | Behind

  // Looks for a block among `len` words of the table, from p + i on.
  function ScanTable(table: seq<word>, p: nat, len: nat, nr: nat, i: nat): Scan
    decreases len - i
  {
    if i >= len then Missed
    else if p + i >= |table| then Behind
    else if table[p + i] == nr then Found(i + 1)
    else ScanTable(table, p, len, nr, i + 1)
  }

  // A transaction's length is compared as a signed number: one with the top bit set is negative.
  function Turns(len: word): nat {
    if len < 0x8000_0000 then len else 0
  }

  // Looks for a block in the two tables of a transaction on disk.
  function ScanLog(v: Volume, pos: nat, nr: nat, i: nat): Scan
    decreases Turns(LogBlock(v, pos).desc.len) - i
  {
    if i >= Turns(LogBlock(v, pos).desc.len) then Missed
    else if i >= 2 * JOURNAL_TRANS_HALF then Behind
    else if LoggedAt(v, pos, i) == nr then Found(i + 1)
    else ScanLog(v, pos, nr, i + 1)
  }

  // `le32_to_cpu`, on a machine of the other byte order.
  function Swap(w: word): word {
    var high := w / 0x100;
    var higher := high / 0x100;
    (((w % 0x100) * 0x100 + high % 0x100) * 0x100 + higher % 0x100) * 0x100 + higher / 0x100
  }

  // The table is kept in the byte order of the disk, but the machine increments in its own.
  function Increment(w: word): word {
    Swap((Swap(w) + 1) % WORDS)
  }

  const INCREMENT := 0x100_0000

  /** Decoded, it is the top byte that counts. */
  lemma IncrementMeans(w: word)
    requires w < WORDS - INCREMENT
    ensures Increment(w) == w + INCREMENT
  {
    hide Swap;
    var a, b, c, d := Digits(w);
    SwapDigits(a, b, c, d, w);
    SwapDigits(d, c, b, a, Swap(w));
    SwapDigits(d, c, b, a + 1, Swap(w) + 1);
  }

  lemma Digits(w: word) returns (a: byte, b: byte, c: byte, d: byte)
    ensures w == ((a * 0x100 + b) * 0x100 + c) * 0x100 + d
  {
    var high := w / 0x1_0000;
    a, b, c, d := high / 0x100, high % 0x100, w % 0x1_0000 / 0x100, w % 0x100;
  }

  lemma SwapDigits(a: byte, b: byte, c: byte, d: byte, w: word)
    requires w == ((a * 0x100 + b) * 0x100 + c) * 0x100 + d
    ensures Swap(w) == ((d * 0x100 + c) * 0x100 + b) * 0x100 + a
  {
    var high := (a * 0x100 + b) * 0x100 + c;
    assert w / 0x100 == high && w % 0x100 == d;
    assert high / 0x100 == a * 0x100 + b && high % 0x100 == c;
  }

  /** One transaction.  `j_len = (*journal_table)++` takes the length from the table, increments it there, and
      leaves the pointer where it is, so that the length is also the first word compared. */
  datatype Turn = Turn(scan: Scan, len: word, table: seq<word>, p: nat)

  function TakeTurn(v: Volume, table: seq<word>, p: nat, pos: nat, nr: nat): Turn {
    if p >= |table| then Turn(Behind, 0, table, p)
    else if table[p] != END_OF_CACHE then
      var len := table[p];
      var table' := table[p := Increment(len)];
      Turn(ScanTable(table', p, Turns(len), nr, 0), len, table', p + Turns(len))
    else
      Turn(ScanLog(v, pos, nr, 0), LogBlock(v, pos).desc.len, table, p)
  }

  // Where the block found in place i behind the descriptor is.
  function CopyAt(v: Volume, pos: nat, i: nat): nat {
    v.journalBlock + Mask(pos + i, v.journalCount)
  }

  /** The loop of `block_read` over the remaining transactions: the address read in the end, None after a look
      behind the tables, and the table it leaves. */
  function Walk(v: Volume, table: seq<word>, p: nat, pos: nat, remaining: nat, address: nat, nr: nat)
    : (r: (Option<nat>, seq<word>))
    ensures |r.1| == |table|
    decreases remaining
  {
    if remaining == 0 then (Some(address), table)
    else
      var t := TakeTurn(v, table, p, pos, nr);
      if t.scan == Behind then (None, t.table)
      else
        Walk(v, t.table, t.p, Mask(pos + 2 + t.len, v.journalCount), remaining - 1,
             if t.scan.Found? then CopyAt(v, pos, t.scan.i) else address, nr)
  }

  // A read that starts with the given table.
  function ReadWith(v: Volume, n: nat, table: seq<word>, nr: nat): (r: (Option<nat>, seq<word>))
    ensures |r.1| == |table|
  {
    Walk(v, table, 0, HeaderOf(v).firstUnflushedOffset, n, nr, nr)
  }

  // ---------- Where the replayed disk has a block ----------

  // The last of the first k blocks of transaction t that is block nr.
  function LastLogged(v: Volume, t: nat, nr: nat, k: nat): (r: Option<nat>)
    ensures r.Some? ==> r.value < k && RealBlock(v, t, r.value) == nr
    ensures r.Some? ==> forall l: nat | r.value < l < k :: RealBlock(v, t, l) != nr
    ensures r.None? ==> forall l: nat | l < k :: RealBlock(v, t, l) != nr
  {
    if k == 0 then None
    else if RealBlock(v, t, k - 1) == nr then Some(k - 1)
    else LastLogged(v, t, nr, k - 1)
  }

  /** The copy in the last of n transactions that logged the block, or its home. */
  function Address(v: Volume, n: nat, nr: nat): nat {
    if n == 0 then nr
    else
      match LastLogged(v, n - 1, nr, TransLen(v, n - 1))
      case Some(k) => CopyNr(v, n - 1, k)
      case None => Address(v, n - 1, nr)
  }

  lemma {:induction false} AddressReplayed(v: Volume, n: nat, nr: nat)
    ensures Replayed(v, n, nr) == DiskBlock(v, Address(v, n, nr))
  {
    if n == 0 {
      NothingReplayed(v, nr);
    } else {
      var t, len := n - 1, TransLen(v, n - 1);
      match LastLogged(v, t, nr, len)
      case Some(k) => ReplayHit(v, t, len, Replay(v, t), nr, k);
      case None =>
        ReplayMiss(v, t, len, Replay(v, t), nr);
        AddressReplayed(v, t, nr);
    }
  }

  // ---------- Nothing cached ----------

  /** There is nothing to replay, or the first transaction does not fit into a cache of that size. */
  predicate Uncached(v: Volume, n: nat, words: nat) {
    n == 0 || words <= TransLen(v, 0) + 1
  }

  lemma CachedOrNot(v: Volume, table: seq<word>, m: nat, n: nat)
    requires TableHolds(table, v, m, n) && n > 0
    ensures m == 0 <==> |table| <= TransLen(v, 0) + 1
    ensures m == 0 ==> |table| > 0 && table[0] == END_OF_CACHE
    ensures m > 0 ==> HoldsEntry(table, v, 0) && TransLen(v, 0) + 1 < |table|
  {
    assert Offset(v, 1) == 1 + TransLen(v, 0);
    if m > 0 {
      OffsetMonotone(v, 1, m);
    }
  }

  lemma {:induction false} ScanLogMeans(v: Volume, t: nat, nr: nat, i: nat)
    requires TransLen(v, t) <= 2 * JOURNAL_TRANS_HALF
    requires forall l: nat | l < i && l < TransLen(v, t) :: RealBlock(v, t, l) != nr
    ensures match ScanLog(v, DescPos(v, t), nr, i)
      case Found(k) => 1 <= k <= TransLen(v, t) && RealBlock(v, t, k - 1) == nr
      case Missed => !Logs(v, t, nr)
      case Behind => false
    decreases TransLen(v, t) - i
  {
    if i < TransLen(v, t) && RealBlock(v, t, i) != nr {
      ScanLogMeans(v, t, nr, i + 1);
    }
  }

  // On disk, one turn finds the copy that replaying the transaction would.
  lemma TurnUncached(v: Volume, table: seq<word>, t: nat, nr: nat)
    requires |table| > 0 && table[0] == END_OF_CACHE && v.journalCount > 0
    requires TransLen(v, t) <= 2 * JOURNAL_TRANS_HALF && TransactionDistinct(v, t)
    ensures var u := TakeTurn(v, table, 0, DescPos(v, t), nr);
      && u.scan != Behind && u.table == table && u.p == 0
      && Mask(DescPos(v, t) + 2 + u.len, v.journalCount) == DescPos(v, t + 1)
      && Address(v, t + 1, nr) == if u.scan.Found? then CopyAt(v, DescPos(v, t), u.scan.i) else Address(v, t, nr)
  {
    ScanLogMeans(v, t, nr, 0);
    NextDesc(v, t);
  }

  lemma {:induction false} WalkUncached(v: Volume, table: seq<word>, t: nat, remaining: nat, nr: nat)
    requires |table| > 0 && table[0] == END_OF_CACHE && v.journalCount > 0
    requires LengthsFit(v, t + remaining) && BlocksDistinct(v, t + remaining)
    ensures Walk(v, table, 0, DescPos(v, t), remaining, Address(v, t, nr), nr)
         == (Some(Address(v, t + remaining, nr)), table)
    decreases remaining
  {
    hide TakeTurn, DescPos, Address, TransactionDistinct;
    if remaining > 0 {
      TurnUncached(v, table, t, nr);
      WalkUncached(v, table, t + 1, remaining - 1, nr);
    }
  }

  /** With nothing cached a read is right and leaves the table alone. */
  lemma ReadUncached(v: Volume, table: seq<word>, m: nat, n: nat, nr: nat)
    requires n > 0 ==> v.journalCount > 0 && n <= Accepted(v) && TableHolds(table, v, m, Accepted(v))
    requires LengthsFit(v, n) && BlocksDistinct(v, n) && Uncached(v, n, |table|)
    ensures ReadWith(v, n, table, nr) == (Some(Address(v, n, nr)), table)
  {
    if n > 0 {
      CachedOrNot(v, table, m, Accepted(v));
      WalkUncached(v, table, 0, n, nr);
    }
  }

  // ---------- Something cached ----------

  lemma {:induction false} ScanTableMeans(table: seq<word>, p: nat, len: nat, nr: nat, i: nat)
    requires i <= len && p + len <= |table|
    ensures match ScanTable(table, p, len, nr, i)
      case Found(k) => i < k <= len && table[p + k - 1] == nr && forall j | p + i <= j < p + k - 1 :: table[j] != nr
      case Missed => forall j | p + i <= j < p + len :: table[j] != nr
      case Behind => false
    decreases len - i
  {
    if i < len && table[p + i] != nr {
      ScanTableMeans(table, p, len, nr, i + 1);
    }
  }

  /** The scan of a cached transaction is off by one: the length, incremented, is taken for a block number, a block
      is taken for the one behind it, and the last one is not found.  The entry is destroyed, and the next one is
      looked for a word too early. */
  lemma CachedTurn(v: Volume, table: seq<word>, t: nat, nr: nat)
    requires HoldsEntry(table, v, t) && 0 < TransLen(v, t) < INCREMENT
    ensures var u := TakeTurn(v, table, Offset(v, t), DescPos(v, t), nr);
      && u.len == TransLen(v, t) && u.p == Offset(v, t) + TransLen(v, t) == Offset(v, t + 1) - 1
      && |u.table| == |table| && u.table[Offset(v, t)] == TransLen(v, t) + INCREMENT && !HoldsEntry(u.table, v, t)
      && match u.scan
         case Found(i) =>
           && 1 <= i <= TransLen(v, t) && CopyAt(v, DescPos(v, t), i) == CopyNr(v, t, i - 1)
           && (if nr == TransLen(v, t) + INCREMENT then i == 1 else i > 1 && RealBlock(v, t, i - 2) == nr)
         case Missed =>
           && nr != TransLen(v, t) + INCREMENT
           && forall k: nat | k < TransLen(v, t) - 1 :: RealBlock(v, t, k) != nr
         case Behind => false
  {
    hide DescPos, LoggedAt, Mask, Increment;
    var p, len := Offset(v, t), TransLen(v, t);
    var now := table[p := Increment(table[p])];
    IncrementMeans(len);
    ScanTableMeans(now, p, len, nr, 0);
    forall k: nat | k < len - 1 ensures now[p + 1 + k] == RealBlock(v, t, k) {
    }
    assert now[p] == len + INCREMENT;
    match ScanTable(now, p, len, nr, 0)
    case Found(i) =>
      if i > 1 {
        assert now[p + 1 + (i - 2)] == RealBlock(v, t, i - 2);
      }
    case _ =>
  }

  /** The only transaction, cached: what a first read comes to. */
  lemma OnlyTransaction(v: Volume, table: seq<word>, nr: nat)
    requires HoldsEntry(table, v, 0) && 0 < TransLen(v, 0) < INCREMENT && TransactionDistinct(v, 0)
    ensures nr == TransLen(v, 0) + INCREMENT ==> ReadWith(v, 1, table, nr).0 == Some(CopyNr(v, 0, 0))
    ensures forall k: nat | k + 1 < TransLen(v, 0) && RealBlock(v, 0, k) == nr && nr != TransLen(v, 0) + INCREMENT ::
              ReadWith(v, 1, table, nr).0 == Some(CopyNr(v, 0, k + 1))
    ensures nr != TransLen(v, 0) + INCREMENT && (forall k: nat | k + 1 < TransLen(v, 0) :: RealBlock(v, 0, k) != nr) ==>
              ReadWith(v, 1, table, nr).0 == Some(nr)
  {
    hide TakeTurn, LoggedAt, Mask;
    CachedTurn(v, table, 0, nr);
    var u := TakeTurn(v, table, 0, DescPos(v, 0), nr);
    assert ReadWith(v, 1, table, nr).0 == Some(if u.scan.Found? then CopyAt(v, DescPos(v, 0), u.scan.i) else nr);
    forall k: nat | k + 1 < TransLen(v, 0) && RealBlock(v, 0, k) == nr && nr != TransLen(v, 0) + INCREMENT
      ensures ReadWith(v, 1, table, nr).0 == Some(CopyNr(v, 0, k + 1))
    {
      assert u.scan.Found? && RealBlock(v, 0, u.scan.i - 2) == nr;
      assert u.scan == Found(k + 2);
    }
  }

  /** A second transaction in the table: the last block number of the first one is taken for its length. */
  lemma SecondTurn(v: Volume, table: seq<word>, nr: nat)
    requires HoldsEntry(table, v, 0) && 0 < TransLen(v, 0) < INCREMENT
    requires RealBlock(v, 0, TransLen(v, 0) - 1) != END_OF_CACHE
    ensures NthTurn(v, table, nr, 1).len == RealBlock(v, 0, TransLen(v, 0) - 1)
  {
    hide LoggedAt, Mask, DescPos, ScanTable, ScanLog, Increment, HeaderOf;
    var last := TransLen(v, 0) - 1;
    assert table[Offset(v, 0) + 1 + last] == RealBlock(v, 0, last);
    assert BeforeTurn(v, table, nr, 1).p == 1 + last;
  }

  // ---------- What decides the address ----------

  /** Where a read stands before a turn. */
  datatype Standing = Standing(table: seq<word>, p: nat, pos: nat)

  function BeforeTurn(v: Volume, table: seq<word>, nr: nat, i: nat): (s: Standing)
    ensures |s.table| == |table|
    decreases i, 0
  {
    if i == 0 then Standing(table, 0, HeaderOf(v).firstUnflushedOffset)
    else
      var (s, t) := (BeforeTurn(v, table, nr, i - 1), NthTurn(v, table, nr, i - 1));
      Standing(t.table, t.p, Mask(s.pos + 2 + t.len, v.journalCount))
  }

  function NthTurn(v: Volume, table: seq<word>, nr: nat, i: nat): (t: Turn)
    ensures |t.table| == |table|
    decreases i, 1
  {
    var s := BeforeTurn(v, table, nr, i);
    TakeTurn(v, s.table, s.p, s.pos, nr)
  }

  // The copy found in turn i.
  function CopyFound(v: Volume, table: seq<word>, nr: nat, i: nat): Option<nat> {
    var t := NthTurn(v, table, nr, i);
    if t.scan.Found? then Some(CopyAt(v, BeforeTurn(v, table, nr, i).pos, t.scan.i)) else None
  }

  // The last one found in n turns, or the block's home.
  function LastFound(v: Volume, table: seq<word>, nr: nat, n: nat): nat {
    if n == 0 then nr
    else match CopyFound(v, table, nr, n - 1)
      case Some(a) => a
      case None => LastFound(v, table, nr, n - 1)
  }

  lemma {:induction false} LastFoundIs(v: Volume, table: seq<word>, nr: nat, n: nat, i: nat)
    requires i <= n && forall j: nat | i <= j < n :: CopyFound(v, table, nr, j) == None
    ensures LastFound(v, table, nr, n) == LastFound(v, table, nr, i)
  {
    hide CopyFound;
    if i < n {
      LastFoundIs(v, table, nr, n - 1, i);
    }
  }

  // One turn of the loop, if it does not look behind the table.
  lemma WalkStep(v: Volume, table: seq<word>, nr: nat, i: nat, n: nat)
    requires i < n && NthTurn(v, table, nr, i).scan != Behind
    ensures var s, s' := BeforeTurn(v, table, nr, i), BeforeTurn(v, table, nr, i + 1);
      Walk(v, s.table, s.p, s.pos, n - i, LastFound(v, table, nr, i), nr)
      == Walk(v, s'.table, s'.p, s'.pos, n - (i + 1), LastFound(v, table, nr, i + 1), nr)
  {
    hide TakeTurn, Mask, CopyAt;
  }

  lemma {:induction false} WalkFrom(v: Volume, table: seq<word>, nr: nat, i: nat, n: nat)
    requires i <= n && forall j: nat | i <= j < n :: NthTurn(v, table, nr, j).scan != Behind
    ensures var s := BeforeTurn(v, table, nr, i);
      Walk(v, s.table, s.p, s.pos, n - i, LastFound(v, table, nr, i), nr).0 == Some(LastFound(v, table, nr, n))
    decreases n - i
  {
    hide NthTurn, BeforeTurn, LastFound;
    if i < n {
      WalkStep(v, table, nr, i, n);
      WalkFrom(v, table, nr, i + 1, n);
    }
  }

  lemma ReadStarts(v: Volume, table: seq<word>, nr: nat, n: nat)
    ensures var s := BeforeTurn(v, table, nr, 0);
      ReadWith(v, n, table, nr) == Walk(v, s.table, s.p, s.pos, n - 0, LastFound(v, table, nr, 0), nr)
  {
    hide Walk;
  }

  /** For any number of transactions, cached or not: a read that never looks behind the table comes to the copy found
      in turn i if no later turn finds one ... */
  lemma LastTurnDecides(v: Volume, table: seq<word>, nr: nat, n: nat, i: nat)
    requires forall j: nat | j < n :: NthTurn(v, table, nr, j).scan != Behind
    requires i < n && CopyFound(v, table, nr, i).Some?
    requires forall j: nat | i < j < n :: CopyFound(v, table, nr, j) == None
    ensures ReadWith(v, n, table, nr).0 == CopyFound(v, table, nr, i)
  {
    hide Walk, NthTurn, BeforeTurn, CopyFound, ReadWith;
    ReadStarts(v, table, nr, n);
    WalkFrom(v, table, nr, 0, n);
    LastFoundIs(v, table, nr, n, i + 1);
  }

  /** ... and to the block's home if no turn does. */
  lemma NoTurnFinds(v: Volume, table: seq<word>, nr: nat, n: nat)
    requires forall j: nat | j < n :: NthTurn(v, table, nr, j).scan == Missed
    ensures ReadWith(v, n, table, nr).0 == Some(nr)
  {
    hide Walk, NthTurn, BeforeTurn, ReadWith;
    ReadStarts(v, table, nr, n);
    WalkFrom(v, table, nr, 0, n);
    LastFoundIs(v, table, nr, n, 0);
  }

  // What is in front of the pointer stays as it is.
  lemma {:induction false} WalkKeeps(v: Volume, table: seq<word>, p: nat, pos: nat, remaining: nat, address: nat,
                                     nr: nat, j: nat)
    requires j < p && j < |table|
    ensures Walk(v, table, p, pos, remaining, address, nr).1[j] == table[j]
    decreases remaining
  {
    hide ScanTable, ScanLog, Increment;
    if remaining > 0 {
      var t := TakeTurn(v, table, p, pos, nr);
      if t.scan != Behind {
        WalkKeeps(v, t.table, t.p, Mask(pos + 2 + t.len, v.journalCount), remaining - 1,
                  if t.scan.Found? then CopyAt(v, pos, t.scan.i) else address, nr, j);
      }
    }
  }

  /** A read with a transaction cached increments the first word of the table, twice if it was 0. */
  lemma {:induction false} WalkIncrements(v: Volume, table: seq<word>, pos: nat, remaining: nat, address: nat, nr: nat)
    requires |table| > 0 && remaining > 0 && table[0] < 0x8000_0000
    ensures var first := Walk(v, table, 0, pos, remaining, address, nr).1[0];
      first == table[0] + INCREMENT || (table[0] == 0 && first == 2 * INCREMENT)
    decreases 0x8000_0000 - table[0]
  {
    hide ScanTable, ScanLog, Increment;
    IncrementMeans(table[0]);
    var t := TakeTurn(v, table, 0, pos, nr);
    if t.scan != Behind && remaining > 1 {
      var pos' := Mask(pos + 2 + t.len, v.journalCount);
      var address' := if t.scan.Found? then CopyAt(v, pos, t.scan.i) else address;
      if t.p > 0 {
        WalkKeeps(v, t.table, t.p, pos', remaining - 1, address', nr, 0);
      } else {
        WalkIncrements(v, t.table, pos', remaining - 1, address', nr);
      }
    }
  }

  // The table after a number of reads.
  function After(v: Volume, n: nat, table: seq<word>, nrs: seq<word>): (r: seq<word>)
    ensures |r| == |table|
    decreases |nrs|
  {
    if nrs == [] then table else After(v, n, ReadWith(v, n, table, nrs[0]).1, nrs[1..])
  }

  /** Whatever has been read before, every read comes to the address of the replayed disk. */
  ghost predicate Reliable(v: Volume, n: nat, table: seq<word>) {
    forall nrs: seq<word>, nr: word :: ReadWith(v, n, After(v, n, table, nrs), nr).0 == Some(Address(v, n, nr))
  }

  lemma {:induction false} MissingNumber(a: set<nat>, n: nat) returns (x: nat)
    requires |a| < n
    ensures x < n && x !in a
  {
    if n - 1 in a {
      x := MissingNumber(a - {n - 1}, n - 1);
    } else {
      x := n - 1;
    }
  }

  function Numbers(s: seq<word>): (a: set<nat>)
    ensures |a| <= |s| && forall x: word | x in s :: x in a
  {
    if s == [] then {} else Numbers(s[1..]) + {s[0]}
  }

  // A number that is not in the table.
  lemma FreshNumber(s: seq<word>) returns (x: nat)
    requires |s| < WORDS
    ensures x <= |s| && x !in s
  {
    x := MissingNumber(Numbers(s), |s| + 1);
  }

  lemma {:induction false} ScanLeaves(table: seq<word>, len: nat, nr: nat, i: nat)
    requires |table| < len && i <= |table| && nr !in table
    ensures ScanTable(table, 0, len, nr, i) == Behind
    decreases |table| - i
  {
    if i < |table| {
      ScanLeaves(table, len, nr, i + 1);
    }
  }

  // A length that is larger than the table leads the scan for a number that is not there behind its end.
  lemma LeavesTable(v: Volume, n: nat, table: seq<word>, nr: nat)
    requires n > 0 && 0 < |table| < table[0] < 0x8000_0000 && nr !in table[0 := Increment(table[0])]
    ensures ReadWith(v, n, table, nr).0 == None
  {
    hide ScanTable, ScanLog, Increment;
    ScanLeaves(table[0 := Increment(table[0])], table[0], nr, 0);
  }

  /** Once a table that had a transaction has been read, whatever block was read, every look for a block whose
      number it does not hold by chance goes on behind its end; so it is with any table of less than 64 MiB. */
  lemma SecondRead(v: Volume, n: nat, table: seq<word>, first: nat, nr: nat)
    requires n > 0 && 0 < |table| < INCREMENT && table[0] < INCREMENT
    ensures var now := ReadWith(v, n, table, first).1;
      nr !in now[0 := Increment(now[0])] ==> ReadWith(v, n, now, nr).0 == None
  {
    hide Increment;
    WalkIncrements(v, table, HeaderOf(v).firstUnflushedOffset, n, first, first);
    var now := ReadWith(v, n, table, first).1;
    if nr !in now[0 := Increment(now[0])] {
      LeavesTable(v, n, now, nr);
    }
  }

  lemma {:induction false} AfterUncached(v: Volume, table: seq<word>, m: nat, n: nat, nrs: seq<word>)
    requires n > 0 ==> v.journalCount > 0 && n <= Accepted(v) && TableHolds(table, v, m, Accepted(v))
    requires LengthsFit(v, n) && BlocksDistinct(v, n) && Uncached(v, n, |table|)
    ensures After(v, n, table, nrs) == table
    decreases |nrs|
  {
    hide TableHolds, Walk, ReadWith, Uncached;
    if nrs != [] {
      ReadUncached(v, table, m, n, nrs[0]);
      AfterUncached(v, table, m, n, nrs[1..]);
    }
  }

  // All of a 32-bit memory.
  const MAX_TABLE := 0x4000_0000

  /** After enough reads the length is larger than the table. */
  lemma {:induction false} GoesWrong(v: Volume, n: nat, table: seq<word>) returns (nrs: seq<word>, nr: word)
    requires n > 0 && 0 < |table| <= MAX_TABLE && table[0] <= |table| + 2 * INCREMENT
    ensures ReadWith(v, n, After(v, n, table, nrs), nr).0 == None
    decreases |table| + 2 * INCREMENT - table[0]
  {
    hide Walk, Increment;
    if table[0] > |table| {
      nrs := [];
      nr := FreshNumber(table[0 := Increment(table[0])]);
      LeavesTable(v, n, table, nr);
    } else {
      WalkIncrements(v, table, HeaderOf(v).firstUnflushedOffset, n, 0, 0);
      var more;
      more, nr := GoesWrong(v, n, ReadWith(v, n, table, 0).1);
      nrs := [0] + more;
      assert nrs[1..] == more;
    }
  }

  lemma GoesRight(v: Volume, table: seq<word>, m: nat, n: nat)
    requires n > 0 ==> v.journalCount > 0 && n <= Accepted(v) && TableHolds(table, v, m, Accepted(v))
    requires LengthsFit(v, n) && BlocksDistinct(v, n) && Uncached(v, n, |table|)
    ensures Reliable(v, n, table)
  {
    hide TableHolds, ReadWith, Uncached, BlocksDistinct, LengthsFit, Address, After;
    forall nrs: seq<word>, nr: word
      ensures ReadWith(v, n, After(v, n, table, nrs), nr).0 == Some(Address(v, n, nr))
    {
      AfterUncached(v, table, m, n, nrs);
      ReadUncached(v, table, m, n, nr);
    }
  }

  /** The reader is reliable exactly when nothing is cached: when there is nothing to replay, or the first
      transaction does not fit into the table. */
  lemma ReliableUncached(v: Volume, table: seq<word>, m: nat, n: nat)
    requires n > 0 ==> v.journalCount > 0 && n <= Accepted(v) && TableHolds(table, v, m, Accepted(v))
    requires LengthsFit(v, n) && BlocksDistinct(v, n) && 0 < |table| <= MAX_TABLE
    ensures Reliable(v, n, table) <==> Uncached(v, n, |table|)
  {
    hide TableHolds, ReadWith, BlocksDistinct, Address, After;
    if Uncached(v, n, |table|) {
      GoesRight(v, table, m, n);
    } else {
      FirstLength(v, table, m, n);
      var nrs, nr := GoesWrong(v, n, table);
      assert ReadWith(v, n, After(v, n, table, nrs), nr).0 != Some(Address(v, n, nr));
    }
  }

  lemma FirstLength(v: Volume, table: seq<word>, m: nat, n: nat)
    requires n > 0 && n <= Accepted(v) && TableHolds(table, v, m, Accepted(v)) && LengthsFit(v, n)
    requires !Uncached(v, n, |table|)
    ensures 0 < |table| && table[0] == TransLen(v, 0) <= 2 * JOURNAL_TRANS_HALF
    ensures HoldsEntry(table, v, 0)
  {
    CachedOrNot(v, table, m, Accepted(v));
    assert Offset(v, 0) == 0;
    assert TransLen(v, 0) <= 2 * JOURNAL_TRANS_HALF;
  }

  /** A read leaves the table alone exactly when nothing is cached. */
  lemma TableKept(v: Volume, table: seq<word>, m: nat, n: nat, nr: nat)
    requires n > 0 ==> v.journalCount > 0 && n <= Accepted(v) && TableHolds(table, v, m, Accepted(v))
    requires LengthsFit(v, n) && BlocksDistinct(v, n)
    ensures ReadWith(v, n, table, nr).1 == table <==> Uncached(v, n, |table|)
    ensures !Uncached(v, n, |table|) ==> !HoldsEntry(ReadWith(v, n, table, nr).1, v, 0)
  {
    hide TableHolds, Walk;
    if Uncached(v, n, |table|) {
      ReadUncached(v, table, m, n, nr);
      assert ReadWith(v, n, table, nr).1 == table;
    } else {
      FirstLength(v, table, m, n);
      WalkIncrements(v, table, HeaderOf(v).firstUnflushedOffset, n, nr, nr);
      var now := ReadWith(v, n, table, nr).1;
      assert now[0] != table[0];
    }
  }

  class JournalReader {
    const v: Volume
    // JOURNAL_START .. JOURNAL_END, a buffer of any size but zero.
    const table: array<word>
    // journal_transactions is 16 bits wide.
    var transactions: nat
    var firstDesc: nat
    ghost var cached: nat

    /** Ready to read blocks.  Without transactions, as on a volume without a journal, nothing is needed. */
    ghost predicate Valid()
      reads this, table
    {
      ValidWith(table[..])
    }

    ghost predicate ValidWith(words: seq<word>)
      reads this
    {
      transactions > 0 ==>
        && HasJournal(v)
        && LengthsFit(v, transactions)
        && transactions == Accepted(v) % 0x10000
        && firstDesc == HeaderOf(v).firstUnflushedOffset
        && TableHolds(words, v, cached, Accepted(v))
    }

    constructor (v: Volume, cacheWords: nat)
      requires cacheWords >= 1
      ensures this.v == v && fresh(table) && table.Length == cacheWords
      ensures transactions == 0 && Valid()
    {
      this.v := v;
      table := new word[cacheWords];
      transactions, firstDesc, cached := 0, 0, 0;
    }

    /** Terminates on every log and leaves exactly the maximal run in `transactions` (16 bits wide). */
    method JournalInit() returns (ok: bool)
      requires HasJournal(v) && CachedLengthsFit(v, table.Length)
      requires table.Length >= 1 && transactions == 0
      modifies this, table
      ensures LengthsFit(v, transactions) ==> Valid()
      ensures transactions == Accepted(v) % 0x10000
      ensures StartsInside(v) ==> TableHolds(table[..], v, cached, Accepted(v))
      ensures StartsInside(v) ==> firstDesc == HeaderOf(v).firstUnflushedOffset
      ensures ok <==> StartsInside(v)
      ensures Accepted(v) <= v.journalCount
      ensures transactions == Accepted(v) <==> Accepted(v) < 0x10000
    {
      hide TableHolds, CacheCursor, IsRun, ValidTransaction, CommitPos, DescPos, ExpectedId, Mask;
      RunStarts(v);
      var header := LogBlock(v, v.journalCount).header;
      var descBlock: nat := header.firstUnflushedOffset;
      if descBlock >= v.journalCount {
        return false;
      }
      transactions := 0;
      firstDesc := descBlock;
      var nextTransId: word := (header.lastFlushTransId + 1) % WORDS;
      var p := 0;
      ghost var n, m := 0, 0;
      CacheStarts();
      while true
        invariant IsRun(v, n) && n <= Accepted(v) && n <= v.journalCount
        invariant descBlock == DescPos(v, n)
        invariant nextTransId == ExpectedId(v, n)
        invariant TableHolds(table[..], v, m, n)
        invariant CacheCursor(p, m, n)
        invariant transactions == 0 && firstDesc == HeaderOf(v).firstUnflushedOffset
        decreases v.journalCount - n
      {
        ValidityTests(v, n, descBlock, nextTransId);
        var desc := LogBlock(v, descBlock).desc;
        if desc.magic != JOURNAL_DESC_MAGIC || desc.transId != nextTransId || desc.mountId != header.mountId {
          break;
        }
        var commitBlock := Mask(descBlock + desc.len + 1, v.journalCount);
        var commit := LogBlock(v, commitBlock).commit;
        if desc.transId != commit.transId || desc.len != commit.len {
          break;
        }
        RunGrows(v, n, descBlock, commitBlock, nextTransId);
        nextTransId := (nextTransId + 1) % WORDS;
        p, m := Remember(p, desc, commit, n, m);
        descBlock := Mask(commitBlock + 1, v.journalCount);
        n := n + 1;
      }
      RunEnds(v, n, nextTransId);
      SixteenBits(n);
      transactions := ((nextTransId - header.lastFlushTransId - 1) % WORDS) % 0x10000;
      cached := m;
      ok := true;
    }

    // Caches transaction n if it fits, or marks the end of the cache, or does nothing behind the mark.
    method Remember(p0: nat, desc: Descriptor, commit: Commit, ghost n: nat, ghost m0: nat)
      returns (p: nat, ghost m: nat)
      requires CachedLengthsFit(v, table.Length) && n < Accepted(v)
      requires desc == LogBlock(v, DescPos(v, n)).desc
      requires commit == LogBlock(v, CommitPos(v, DescPos(v, n))).commit
      requires TableHolds(table[..], v, m0, n)
      requires CacheCursor(p0, m0, n)
      modifies table
      ensures TableHolds(table[..], v, m, n + 1)
      ensures CacheCursor(p, m, n + 1)
    {
      p, m := p0, m0;
      NextOffset(n);
      if p < table.Length {
        if p + 1 + desc.len >= table.Length {
          ghost var before := table[..];
          table[p] := END_OF_CACHE;
          EntriesKept(before, table[..], v, n);
          p := table.Length;
        } else {
          p := CacheTransaction(p, desc, commit, n);
          m := n + 1;
        }
      }
    }

    lemma CacheStarts()
      requires table.Length >= 1
      ensures TableHolds(table[..], v, 0, 0) && CacheCursor(0, 0, 0)
    {
    }

    // `journal_table` is behind what is cached, or at JOURNAL_END once something did not fit.
    ghost predicate CacheCursor(p: nat, m: nat, n: nat) {
      if p < table.Length then m == n && p == Offset(v, m) else p == table.Length && m < n
    }

    // The length of a transaction and the numbers of its blocks.
    method WriteEntry(p0: nat, desc: Descriptor, commit: Commit, ghost n: nat) returns (p: nat)
      requires desc == LogBlock(v, DescPos(v, n)).desc && desc.len == TransLen(v, n) <= 2 * JOURNAL_TRANS_HALF
      requires commit == LogBlock(v, CommitPos(v, DescPos(v, n))).commit
      requires p0 + 1 + desc.len < table.Length
      modifies table
      ensures p == p0 + 1 + desc.len && table[..p0] == old(table[..p0]) && table[p0] == desc.len
      ensures forall l: nat | l < desc.len :: table[p0 + 1 + l] == RealBlock(v, n, l)
    {
      ghost var before := table[..];
      p := p0;
      table[p] := desc.len;
      p := p + 1;
      var i := 0;
      while i < desc.len && i < JOURNAL_TRANS_HALF
        invariant 0 <= i <= desc.len && i <= JOURNAL_TRANS_HALF
        invariant p == p0 + 1 + i
        invariant table[..p0] == before[..p0] && table[p0] == desc.len
        invariant forall l: nat | l < i :: table[p0 + 1 + l] == RealBlock(v, n, l)
      {
        table[p] := desc.realblock[i];
        p := p + 1;
        i := i + 1;
      }
      while i < desc.len
        invariant 0 <= i <= desc.len
        invariant i < desc.len ==> i >= JOURNAL_TRANS_HALF
        invariant p == p0 + 1 + i
        invariant table[..p0] == before[..p0] && table[p0] == desc.len
        invariant forall l: nat | l < i :: table[p0 + 1 + l] == RealBlock(v, n, l)
      {
        table[p] := commit.realblock[i - JOURNAL_TRANS_HALF];
        p := p + 1;
        i := i + 1;
      }
    }

    method CacheTransaction(p0: nat, desc: Descriptor, commit: Commit, ghost n: nat) returns (p: nat)
      requires TransLen(v, n) <= 2 * JOURNAL_TRANS_HALF
      requires desc == LogBlock(v, DescPos(v, n)).desc
      requires commit == LogBlock(v, CommitPos(v, DescPos(v, n))).commit
      requires TableHolds(table[..], v, n, n) && p0 == Offset(v, n)
      requires p0 + 1 + desc.len < table.Length
      modifies table
      ensures TableHolds(table[..], v, n + 1, n + 1)
      ensures p == Offset(v, n + 1) < table.Length
    {
      hide TableHolds, Offset, HoldsEntry, RealBlock, CommitPos;
      ghost var before := table[..];
      NextOffset(n);
      p := WriteEntry(p0, desc, commit, n);
      EntryWritten(before, table[..], n);
    }

    lemma NextOffset(n: nat)
      ensures TransLen(v, n) == LogBlock(v, DescPos(v, n)).desc.len
      ensures Offset(v, n + 1) == Offset(v, n) + 1 + TransLen(v, n)
    {
    }

    lemma EntryWritten(before: seq<word>, now: seq<word>, n: nat)
      requires |now| == |before| && TableHolds(before, v, n, n) && Offset(v, n + 1) < |now|
      requires now[..Offset(v, n)] == before[..Offset(v, n)] && now[Offset(v, n)] == TransLen(v, n)
      requires Offset(v, n + 1) == Offset(v, n) + 1 + TransLen(v, n) && TransLen(v, n) <= 2 * JOURNAL_TRANS_HALF
      requires forall l: nat | l < TransLen(v, n) :: now[Offset(v, n) + 1 + l] == RealBlock(v, n, l)
      ensures TableHolds(now, v, n + 1, n + 1)
    {
      EntriesKept(before, now, v, n);
      assert HoldsEntry(now, v, n);
    }

    /** `block_read` as it is written.  It ends without an answer when it looks behind its tables. */
    method BlockRead(blockNr: word) returns (b: Option<Block>)
      requires transactions > 0 ==> firstDesc == HeaderOf(v).firstUnflushedOffset
      modifies table
      ensures var (a, now) := ReadWith(v, transactions, old(table[..]), blockNr);
        && table[..] == now
        && b == if a.Some? then Some(DiskBlock(v, a.value)) else None
      ensures old(Valid()) && BlocksDistinct(v, transactions) && Uncached(v, transactions, table.Length) ==>
                Valid() && table[..] == old(table[..]) && b == Some(Replayed(v, transactions, blockNr))
    {
      hide TakeTurn, Replayed, TableHolds, BlocksDistinct, Uncached, Address;
      ghost var before := table[..];
      var remaining: nat := transactions;
      var descBlock: nat := firstDesc;
      var translatedNr: nat := blockNr;
      var p: nat := 0;
      while remaining > 0
        invariant remaining <= transactions
        invariant Walk(v, table[..], p, descBlock, remaining, translatedNr, blockNr)
               == ReadWith(v, transactions, before, blockNr)
      {
        remaining := remaining - 1;
        var scan, len;
        scan, len, p := LookUp(p, descBlock, blockNr);
        if scan == Behind {
          AsReplayed(before, blockNr);
          return None;
        }
        if scan.Found? {
          translatedNr := v.journalBlock + Mask(descBlock + scan.i, v.journalCount);
        }
        descBlock := Mask(descBlock + 2 + len, v.journalCount);
      }
      AsReplayed(before, blockNr);
      b := Some(DiskBlock(v, translatedNr));
    }

    // Reading with the table as JournalInit leaves it.
    lemma AsReplayed(before: seq<word>, blockNr: word)
      ensures ValidWith(before) && BlocksDistinct(v, transactions) && Uncached(v, transactions, |before|) ==>
                && ReadWith(v, transactions, before, blockNr) == (Some(Address(v, transactions, blockNr)), before)
                && Replayed(v, transactions, blockNr) == DiskBlock(v, Address(v, transactions, blockNr))
    {
      hide ReadWith, Replayed, TableHolds, BlocksDistinct, Uncached;
      if ValidWith(before) && BlocksDistinct(v, transactions) && Uncached(v, transactions, |before|) {
        ReadUncached(v, before, cached, transactions, blockNr);
        AddressReplayed(v, transactions, blockNr);
      }
    }

    // Looks for the block in one transaction, in the table or else on disk.
    method LookUp(p0: nat, descBlock: nat, blockNr: word) returns (scan: Scan, len: word, p: nat)
      modifies table
      ensures Turn(scan, len, table[..], p) == TakeTurn(v, old(table[..]), p0, descBlock, blockNr)
    {
      p := p0;
      if p >= table.Length {
        return Behind, 0, p;
      }
      if table[p] != END_OF_CACHE {
        len := table[p];
        table[p] := Increment(table[p]);
        scan, p := SearchTable(p, len, blockNr);
      } else {
        len := LogBlock(v, descBlock).desc.len;
        scan := SearchLog(descBlock, blockNr);
      }
    }

    // Compares the words from p0 on; `p` ends up behind them whether or not the block was found.
    method SearchTable(p0: nat, len: word, blockNr: word) returns (scan: Scan, p: nat)
      ensures scan == ScanTable(table[..], p0, Turns(len), blockNr, 0)
      ensures p == p0 + Turns(len)
    {
      var i: nat := 0;
      p := p0;
      while i < Turns(len)
        invariant i <= Turns(len) && p == p0 + i
        invariant ScanTable(table[..], p0, Turns(len), blockNr, i) == ScanTable(table[..], p0, Turns(len), blockNr, 0)
      {
        if p >= table.Length {
          return Behind, p0 + Turns(len);
        }
        i := i + 1;
        p := p + 1;
        if table[p - 1] == blockNr {
          return Found(i), p + (Turns(len) - i);
        }
      }
      scan := Missed;
    }

    // Scans the block numbers of a transaction on disk.
    method SearchLog(descBlock: nat, blockNr: nat) returns (scan: Scan)
      ensures scan == ScanLog(v, descBlock, blockNr, 0)
    {
      hide Mask;
      var desc := LogBlock(v, descBlock).desc;
      var len := Turns(desc.len);
      var i: nat := 0;
      while i < len && i < JOURNAL_TRANS_HALF
        invariant i <= len && i <= JOURNAL_TRANS_HALF
        invariant ScanLog(v, descBlock, blockNr, i) == ScanLog(v, descBlock, blockNr, 0)
      {
        i := i + 1;
        if desc.realblock[i - 1] == blockNr {
          return Found(i);
        }
      }
      if len >= JOURNAL_TRANS_HALF {
        var commitBlock := Mask(descBlock + len + 1, v.journalCount);
        var commit := LogBlock(v, commitBlock).commit;
        while i < len
          invariant JOURNAL_TRANS_HALF <= i <= len
          invariant ScanLog(v, descBlock, blockNr, i) == ScanLog(v, descBlock, blockNr, 0)
        {
          if i >= 2 * JOURNAL_TRANS_HALF {
            return Behind;
          }
          i := i + 1;
          if commit.realblock[i - 1 - JOURNAL_TRANS_HALF] == blockNr {
            return Found(i);
          }
        }
      }
      scan := Missed;
    }

    /** `block_read` as it is meant, with the pointer instead of the length moved on: the block the replayed disk
        holds at `blockNr`, whatever part of the journal is cached, that is for every size of `table`. */
    method IntendedBlockRead(blockNr: nat) returns (b: Block)
      requires Valid() && BlocksDistinct(v, transactions)
      ensures b == Replayed(v, transactions, blockNr)
    {
      hide Replayed, TransactionDistinct, Logs, TableHolds, HoldsEntry, JournalReader.AtTransaction;
      NothingReplayed(v, blockNr);
      AtFirst();
      var remaining: nat := transactions;
      var descBlock := firstDesc;
      var translatedNr: nat := blockNr;
      var p := 0;
      ghost var t := 0;
      while remaining > 0
        invariant t + remaining == transactions
        invariant DiskBlock(v, translatedNr) == Replayed(v, t, blockNr)
        invariant remaining > 0 ==> AtTransaction(t, descBlock, p)
      {
        remaining := remaining - 1;
        var found, i, len;
        found, i, len, p := IntendedLookUp(p, descBlock, blockNr, t);
        if found {
          translatedNr := v.journalBlock + Mask(descBlock + i, v.journalCount);
          HitStep(v, t, descBlock, i, blockNr);
        } else {
          MissStep(v, t, blockNr);
        }
        descBlock := Mask(descBlock + 2 + len, v.journalCount);
        t := t + 1;
      }
      b := DiskBlock(v, translatedNr);
    }

    // Offset of transaction t in the cache, or of the end marker.
    ghost function CacheOffset(t: nat): nat
      reads this
    {
      Offset(v, if t < cached then t else cached)
    }

    ghost predicate AtTransaction(t: nat, descBlock: nat, p: nat)
      reads this
    {
      descBlock == DescPos(v, t) && p == CacheOffset(t)
    }

    lemma AtFirst()
      requires Valid()
      ensures transactions > 0 ==> AtTransaction(0, firstDesc, 0)
      ensures forall t, d, p :: AtTransaction(t, d, p) ==> d == DescPos(v, t)
    {
      hide TableHolds, HoldsEntry;
    }

    // Looks for the block in transaction t, in the cache or else on disk.
    method IntendedLookUp(p0: nat, descBlock: nat, blockNr: nat, ghost t: nat)
      returns (found: bool, i: nat, len: nat, p: nat)
      requires Valid() && t < transactions && AtTransaction(t, descBlock, p0)
      ensures len == TransLen(v, t)
      ensures AtTransaction(t + 1, Mask(descBlock + 2 + len, v.journalCount), p)
      ensures found ==> 1 <= i <= len && RealBlock(v, t, i - 1) == blockNr
      ensures !found ==> !Logs(v, t, blockNr)
    {
      hide TableHolds, HoldsEntry, Logs, DescPos, Mask;
      p := p0;
      CacheEntry(t);
      NextDesc(v, t);
      if table[p] != END_OF_CACHE {
        len := table[p];
        p := p + 1;
        found, i, p := IntendedSearchTable(p, len, blockNr, t);
      } else {
        len := LogBlock(v, descBlock).desc.len;
        var scan := SearchLog(descBlock, blockNr);
        ScanLogMeans(v, t, blockNr, 0);
        found, i := scan.Found?, if scan.Found? then scan.i else len;
      }
    }

    // Reading the cache at the offset of transaction t tells whether it is cached.
    lemma CacheEntry(t: nat)
      requires Valid() && t < transactions
      ensures CacheOffset(t) < table.Length
      ensures table[CacheOffset(t)] == END_OF_CACHE <==> t >= cached
      ensures t >= cached ==> CacheOffset(t + 1) == CacheOffset(t)
      ensures t < cached ==> CacheOffset(t + 1) == CacheOffset(t) + 1 + TransLen(v, t) <= table.Length
      ensures t < cached ==> table[CacheOffset(t)] == TransLen(v, t)
      ensures t < cached ==>
                forall l | 0 <= l < TransLen(v, t) :: table[CacheOffset(t) + 1 + l] == RealBlock(v, t, l)
    {
      if t < cached {
        assert HoldsEntry(table[..], v, t);
        assert TransLen(v, t) <= 2 * JOURNAL_TRANS_HALF;
      }
    }

    // Scans a cached transaction; `p` ends up behind it whether or not the block was found.
    method IntendedSearchTable(p0: nat, len: nat, blockNr: nat, ghost t: nat) returns (found: bool, i: nat, p: nat)
      requires Valid() && t < transactions && len == TransLen(v, t)
      requires p0 + len <= table.Length
      requires forall l | 0 <= l < len :: table[p0 + l] == RealBlock(v, t, l)
      ensures p == p0 + len
      ensures found ==> 1 <= i <= len && RealBlock(v, t, i - 1) == blockNr
      ensures !found ==> !Logs(v, t, blockNr)
    {
      i, p := 0, p0;
      while i < len
        invariant i <= len && p == p0 + i
        invariant forall l: nat | l < i :: RealBlock(v, t, l) != blockNr
      {
        i := i + 1;
        p := p + 1;
        if table[p - 1] == blockNr {
          p := p + (len - i);
          return true, i, p;
        }
      }
      return false, i, p;
    }
  }

  // ---------- A read that goes wrong ----------

  function SampleBlock(i: nat): Block {
    var none: HalfTable := seq(JOURNAL_TRANS_HALF, _ => 0);
    Block([i % 0x100], Leaf([], Key(0, 0, 0, 0)),
          if i == 8 then Descriptor(JOURNAL_DESC_MAGIC, 1, 1, 0, none[0 := 5]) else Descriptor("", 0, 0, 0, none),
          if i == 10 then Commit(1, 1, none) else Commit(0, 0, none),
          Header(0, 0, 0))
  }

  // The journal has room for four blocks, from block 8 on; one transaction in it logs block 5, with the copy in 9.
  function SampleVolume(): Volume {
    Volume(seq(INCREMENT + 2, i requires i >= 0 => SampleBlock(i)), SampleBlock(0), 8, 4)
  }

  lemma SampleJournal()
    ensures var v := SampleVolume();
      && HasJournal(v) && StartsInside(v) && Accepted(v) == 1
      && DescPos(v, 0) == 0 && TransLen(v, 0) == 1 && RealBlock(v, 0, 0) == 5
  {
    var v := SampleVolume();
    SampleLog();
    assert IsMaximalRun(v, 1) by {
      hide LogBlock, SampleBlock, SampleVolume;
      assert DescPos(v, 0) == 0 && CommitPos(v, 0) == 2 && DescPos(v, 1) == 3;
    }
    MaximalRunUnique(v, 1, Accepted(v));
  }

  lemma SampleLog()
    ensures var v := SampleVolume();
      && v.journalCount == 4 && HeaderOf(v) == Header(0, 0, 0)
      && LogBlock(v, 0).desc.magic == JOURNAL_DESC_MAGIC && LogBlock(v, 0).desc.transId == 1
      && LogBlock(v, 0).desc.len == 1 && LogBlock(v, 0).desc.mountId == 0 && LogBlock(v, 0).desc.realblock[0] == 5
      && LogBlock(v, 2).commit.transId == 1 && LogBlock(v, 2).commit.len == 1
      && LogBlock(v, 3).desc.magic != JOURNAL_DESC_MAGIC
  {
  }

  lemma SampleReplayed()
    ensures var v := SampleVolume();
      && |v.disk| == INCREMENT + 2 && v.disk[9] != v.disk[5] && v.disk[9] != v.disk[10]
      && Replayed(v, 1, 5) == v.disk[9] && Replayed(v, 1, INCREMENT + 1) == v.disk[INCREMENT + 1] != v.disk[9]
  {
    SampleJournal();
    AddressReplayed(SampleVolume(), 1, 5);
    AddressReplayed(SampleVolume(), 1, INCREMENT + 1);
  }

  lemma SampleReads(table: seq<word>)
    requires |table| >= 3 && HoldsEntry(table, SampleVolume(), 0)
    ensures var v, now := SampleVolume(), table[0 := 1 + INCREMENT];
      && ReadWith(v, 1, table, 5) == (Some(5), now)
      && ReadWith(v, 1, now, 5).0 == Some(10)
      && ReadWith(v, 1, table, INCREMENT + 1).0 == Some(9)
  {
    hide SampleVolume, Increment, CopyAt, ReadWith, HeaderOf, DescPos, TransLen, RealBlock, HoldsEntry;
    var v, now := SampleVolume(), table[0 := 1 + INCREMENT];
    SampleJournal();
    SamplePlaces();
    IncrementMeans(1);
    IncrementMeans(1 + INCREMENT);
    SampleEntry(table);
    assert TakeTurn(v, table, 0, 0, 5) == Turn(Missed, 1, now, 1);
    assert TakeTurn(v, table, 0, 0, INCREMENT + 1).scan == Found(1);
    var later := now[0 := 1 + 2 * INCREMENT];
    assert ScanTable(later, 0, 1 + INCREMENT, 5, 1) == Found(2);
    assert TakeTurn(v, now, 0, 0, 5).scan == Found(2);
    OneTurn(v, table, 5);
    OneTurn(v, table, INCREMENT + 1);
    OneTurn(v, now, 5);
  }

  lemma SampleEntry(table: seq<word>)
    requires |table| >= 3 && HoldsEntry(table, SampleVolume(), 0)
    ensures table[0] == 1 && table[1] == 5
  {
    hide SampleVolume;
    SampleJournal();
    assert table[Offset(SampleVolume(), 0) + 1 + 0] == 5;
  }

  lemma SamplePlaces()
    ensures var v := SampleVolume();
      HeaderOf(v).firstUnflushedOffset == 0 && CopyAt(v, 0, 1) == 9 && CopyAt(v, 0, 2) == 10
  {
    hide SampleBlock;
    SampleLog();
  }

  // A journal with a single transaction takes a single turn.
  lemma OneTurn(v: Volume, table: seq<word>, nr: nat)
    ensures var pos := HeaderOf(v).firstUnflushedOffset;
      var u := TakeTurn(v, table, 0, pos, nr);
      ReadWith(v, 1, table, nr) ==
        if u.scan == Behind then (None, u.table)
        else (Some(if u.scan.Found? then CopyAt(v, pos, u.scan.i) else nr), u.table)
  {
    hide TakeTurn, CopyAt, HeaderOf, Mask;
  }

  /** With one block logged and its transaction cached, the first read of that block delivers what was there before,
      the second one the commit block of the transaction; and its copy is delivered for a block that is not logged. */
  method ReadCachedJournal(cacheWords: nat)
    returns (v: Volume, first: Option<Block>, second: Option<Block>, other: Option<Block>)
    requires cacheWords >= 3
    ensures Accepted(v) == 1 && TransLen(v, 0) == 1 && RealBlock(v, 0, 0) == 5 && |v.disk| == INCREMENT + 2
    ensures first == Some(v.disk[5]) && second == Some(v.disk[10]) && Replayed(v, 1, 5) == v.disk[9]
    ensures v.disk[9] != v.disk[5] && v.disk[9] != v.disk[10]
    ensures other == Some(v.disk[9]) && Replayed(v, 1, INCREMENT + 1) == v.disk[INCREMENT + 1] != v.disk[9]
  {
    hide ReadWith, Replayed, HoldsEntry, Increment, TableHolds, BlocksDistinct, SampleBlock, RealBlock;
    v := SampleVolume();
    SampleJournal();
    SampleReplayed();
    var reader := new JournalReader(v, cacheWords);
    var _ := reader.JournalInit();
    FirstLength(v, reader.table[..], reader.cached, 1);
    SampleReads(reader.table[..]);
    first := reader.BlockRead(5);
    second := reader.BlockRead(5);
    reader := new JournalReader(v, cacheWords);
    var _ := reader.JournalInit();
    FirstLength(v, reader.table[..], reader.cached, 1);
    SampleReads(reader.table[..]);
    other := reader.BlockRead(INCREMENT + 1);
  }
}
