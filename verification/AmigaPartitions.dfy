/** The walk along the Amiga partition list in second/partition.c.  Each partition block names the next one, so a
    damaged disk can make the list loop; a bit array of the blocks seen stops the walk.
 */
module AmigaPartitions {
  import opened Common

  const MAX_INT := 0x7fff_ffff

  // MAX_BLOCK_SIZE bytes
  const BUFFER_WORDS := 512

  const ID := 0
  const LENGTH := 1
  const NEXT := 4
  const PARTITIONS := 7
  const SECTORS := 17
  const HEADS := 18
  const RDB_LIMIT := 33
  const LOW_CYLINDER := 41
  const HIGH_CYLINDER := 42

  const ID_PARTITION: word := 0x50415254
  const END: word := 0xffffffff

  /** The contents of `block_buffer`. */
  type Buffer = b: seq<word> | |b| == BUFFER_WORDS witness Zeros(BUFFER_WORDS)

  function Zeros(n: nat): (r: seq<word>)
    ensures |r| == n
  {
    seq(n, _ => 0)
  }

  /** The blocks that can be read; one need not fill the buffer. */
  type Disk = map<word, seq<word>>

  datatype Partition = Partition(number: nat, start: word, size: word, blockSize: nat)

  // ---------- One block ----------

  predicate IsDisk(disk: Disk) {
    forall n <- disk :: |disk[n]| <= BUFFER_WORDS
  }

  /** A block read into the buffer leaves what is behind it. */
  function Overlay(block: seq<word>, b: Buffer): Buffer
    requires |block| <= BUFFER_WORDS
  {
    block + b[|block|..]
  }

  function Sum(s: seq<word>): nat {
    if s == [] then 0 else Sum(s[..|s| - 1]) + s[|s| - 1]
  }

  lemma SumStep(s: seq<word>, i: nat)
    requires i < |s|
    ensures Sum(s[..0]) == 0 && Sum(s[..i + 1]) == Sum(s[..i]) + s[i]
    ensures (Sum(s[..i]) % WORDS + s[i]) % WORDS == Sum(s[..i + 1]) % WORDS
  {
    assert s[..i + 1][..i] == s[..i];
  }

  // How many words are summed: the block's own idea of its length, at most its size in bytes.
  function Summed(b: Buffer, blockSize: nat): int {
    Min(b[LENGTH], blockSize)
  }

  /** The sum of the words, the first one always among them. */
  function Checksum(b: Buffer, blockSize: nat): word {
    var n := Min(Summed(b, blockSize), BUFFER_WORDS);
    Sum(b[..if n < 1 then 1 else n]) % WORDS
  }

  function PerCylinder(b: Buffer): word {
    b[SECTORS] * b[HEADS] % WORDS
  }

  function Described(b: Buffer, perCylinder: word, number: nat, blockSize: nat): Partition {
    Partition(number, perCylinder * b[LOW_CYLINDER] % WORDS,
              perCylinder * ((b[HIGH_CYLINDER] - b[LOW_CYLINDER] + 1) % WORDS) % WORDS, blockSize)
  }

  /** Where nothing wraps around, a partition starts with its low cylinder and ends right behind its high one. */
  lemma Cylinders(b: Buffer, number: nat, blockSize: nat, per: nat)
    requires per == b[SECTORS] as int * b[HEADS]
    requires b[LOW_CYLINDER] <= b[HIGH_CYLINDER] && (b[HIGH_CYLINDER] as int + 1) * per < WORDS
    ensures var p := Described(b, PerCylinder(b), number, blockSize);
      per * b[LOW_CYLINDER] == p.start as int && per * (b[HIGH_CYLINDER] as int + 1) == p.start as int + p.size
  {
    var low: nat, high: nat := b[LOW_CYLINDER], b[HIGH_CYLINDER];
    ProductFits(1, high + 1, per);
    ProductFits(low, high + 1, per);
    ProductFits(high - low + 1, high + 1, per);
    assert per * low + per * (high - low + 1) == per * (high + 1);
    assert (high - low + 1) % WORDS == high - low + 1 || per == 0;
  }

  lemma ProductFits(a: nat, b: nat, c: nat)
    requires a <= b && b * c < WORDS
    ensures a * c < WORDS && c * a == a * c && (c * a) % WORDS == a * c
  {
    assert b * c == a * c + (b - a) * c;
  }

  // ---------- The chain ----------

  /** A place in the list: the number of the block to read, and the buffer it is read into. */
  datatype Place = Place(part: word, buffer: Buffer)

  function First(b: Buffer): Place {
    Place(b[PARTITIONS], b)
  }

  /** The buffer when the block of a place has been read; a block that cannot be read changes nothing. */
  function Loaded(disk: Disk, p: Place): Buffer
    requires IsDisk(disk)
  {
    if p.part in disk then Overlay(disk[p.part], p.buffer) else p.buffer
  }

  /** The chain from the buffer `b` on. */
  function At(disk: Disk, b: Buffer, i: nat): Place
    requires IsDisk(disk)
  {
    if i == 0 then First(b)
    else var l := Loaded(disk, At(disk, b, i - 1)); Place(l[NEXT], l)
  }

  predicate IsPartition(disk: Disk, p: Place, blockSize: nat)
    requires IsDisk(disk)
  {
    && p.part != END && p.part in disk
    && Loaded(disk, p)[ID] == ID_PARTITION
    && Checksum(Loaded(disk, p), blockSize) == 0
  }

  /** The first `k` blocks of the chain are partition blocks, and no two of them are the same. */
  predicate ValidPrefix(disk: Disk, b: Buffer, blockSize: nat, k: nat)
    requires IsDisk(disk)
  {
    && (forall i :: 0 <= i < k ==> IsPartition(disk, At(disk, b, i), blockSize))
    && (forall i, j :: 0 <= i < j < k ==> At(disk, b, i).part != At(disk, b, j).part)
  }

  /** No block that the walk comes to is numbered above the limit, or sums more words than the buffer holds. */
  ghost predicate InBounds(disk: Disk, b: Buffer, blockSize: nat)
    requires IsDisk(disk)
  {
    forall i: nat :: ValidPrefix(disk, b, blockSize, i) ==>
      var p := At(disk, b, i);
      p.part != END && p.part in disk ==>
        p.part <= Min(b[RDB_LIMIT], MAX_INT) && Summed(Loaded(disk, p), blockSize) <= BUFFER_WORDS
  }

  /** The partitions of the first `k` blocks, the last one first. */
  function Listed(disk: Disk, b: Buffer, blockSize: nat, k: nat): (r: seq<Partition>)
    requires IsDisk(disk)
    ensures |r| == k
    ensures forall i :: 0 <= i < k ==>
      r[i] == Described(Loaded(disk, At(disk, b, k - 1 - i)), PerCylinder(b), k - i, blockSize)
  {
    if k == 0 then []
    else
      [Described(Loaded(disk, At(disk, b, k - 1)), PerCylinder(b), k, blockSize)] + Listed(disk, b, blockSize, k - 1)
  }

  /** The numbers of the first `k` blocks. */
  ghost function Parts(disk: Disk, b: Buffer, k: nat): set<int>
    requires IsDisk(disk)
  {
    if k == 0 then {} else Parts(disk, b, k - 1) + {At(disk, b, k - 1).part}
  }

  lemma {:induction false} InParts(disk: Disk, b: Buffer, k: nat, p: int)
    requires IsDisk(disk)
    ensures p in Parts(disk, b, k) <==> exists i: nat :: i < k && At(disk, b, i).part == p
  {
    hide At;
    if k > 0 {
      InParts(disk, b, k - 1, p);
      assert At(disk, b, k - 1).part == p ==> exists i: nat :: i < k && At(disk, b, i).part == p;
    }
  }

  lemma PrefixShorter(disk: Disk, b: Buffer, blockSize: nat, k: nat, i: nat)
    requires IsDisk(disk) && ValidPrefix(disk, b, blockSize, k) && i <= k
    ensures ValidPrefix(disk, b, blockSize, i)
  {
  }

  /** A prefix goes on as long as the next block is a partition block not seen before. */
  lemma PrefixLonger(disk: Disk, b: Buffer, blockSize: nat, k: nat)
    requires IsDisk(disk) && ValidPrefix(disk, b, blockSize, k)
    ensures ValidPrefix(disk, b, blockSize, k + 1) <==>
      IsPartition(disk, At(disk, b, k), blockSize) && At(disk, b, k).part !in Parts(disk, b, k)
  {
    hide IsPartition, At, Parts;
    InParts(disk, b, k, At(disk, b, k).part);
    if At(disk, b, k).part in Parts(disk, b, k) {
      var i: nat :| i < k && At(disk, b, i).part == At(disk, b, k).part;
    } else {
      assert forall i: nat :: i < k ==> At(disk, b, i).part != At(disk, b, k).part;
    }
  }

  // The numbers from 0 to n - 1.
  ghost function Below(n: nat): (r: set<int>)
    ensures |r| == n && forall p :: p in r <==> 0 <= p < n
  {
    if n == 0 then {} else Below(n - 1) + {n - 1}
  }

  /** A prefix without repetition cannot be longer than there are numbers up to the limit. */
  lemma {:induction false} PrefixBounded(disk: Disk, b: Buffer, blockSize: nat, k: nat)
    requires IsDisk(disk) && InBounds(disk, b, blockSize) && ValidPrefix(disk, b, blockSize, k)
    ensures k <= b[RDB_LIMIT] as int + 1
  {
    hide At, IsPartition, InBounds, ValidPrefix;
    PartsCounted(disk, b, blockSize, k);
    SubsetSize(Parts(disk, b, k), Below(b[RDB_LIMIT] as int + 1));
  }

  lemma {:induction false} PartsCounted(disk: Disk, b: Buffer, blockSize: nat, k: nat)
    requires IsDisk(disk) && InBounds(disk, b, blockSize) && ValidPrefix(disk, b, blockSize, k)
    ensures |Parts(disk, b, k)| == k && Parts(disk, b, k) <= Below(b[RDB_LIMIT] as int + 1)
  {
    hide At, InBounds, ValidPrefix, Loaded, Checksum;
    if k > 0 {
      PrefixShorter(disk, b, blockSize, k, k - 1);
      PartsCounted(disk, b, blockSize, k - 1);
      PrefixLonger(disk, b, blockSize, k - 1);
      InsideLimit(disk, b, blockSize, k - 1);
    }
  }

  lemma InsideLimit(disk: Disk, b: Buffer, blockSize: nat, k: nat)
    requires IsDisk(disk) && InBounds(disk, b, blockSize) && ValidPrefix(disk, b, blockSize, k)
    ensures var p := At(disk, b, k);
      p.part != END && p.part in disk ==>
        p.part <= Min(b[RDB_LIMIT], MAX_INT) && Summed(Loaded(disk, p), blockSize) <= BUFFER_WORDS
  {
    hide At, ValidPrefix, Loaded, Summed;
  }

  lemma SubsetSize(a: set<int>, b: set<int>)
    requires a <= b
    ensures |a| <= |b|
  {
    assert b == a + (b - a);
  }

  // ---------- The bit array ----------

  predicate Has(x: bv32, bit: bv5) {
    x & (1 << bit) != 0
  }

  function With(x: bv32, bit: bv5): bv32 {
    x | (1 << bit)
  }

  // The place of a number in its word.
  function Place32(p: nat): bv5 {
    (p % 32) as bv5
  }

  predicate IsSet(used: seq<bv32>, p: nat)
    requires p / 32 < |used|
  {
    Has(used[p / 32], Place32(p))
  }

  lemma ToBits(n: nat)
    requires n < 32
    ensures (n as bv5) as nat == n
  {
  }

  lemma SetShift(x: bv32, y: bv32, a: bv5, c: bv5)
    requires y == x | (1 << a)
    ensures y & (1 << c) != 0 <==> a == c || x & (1 << c) != 0
  {
  }

  lemma HasIs(x: bv32, bit: bv5)
    ensures Has(x, bit) <==> x & (1 << bit) != 0
    ensures x == 0 ==> !Has(x, bit)
  {
  }

  lemma WithIs(x: bv32, bit: bv5)
    ensures With(x, bit) == x | (1 << bit)
  {
  }

  lemma SetHas(x: bv32, a: bv5, c: bv5)
    ensures Has(With(x, a), c) <==> a == c || Has(x, c)
  {
    hide Has, With;
    var y := With(x, a);
    WithIs(x, a);
    HasIs(x, c);
    HasIs(y, c);
    SetShift(x, y, a, c);
  }

  /** The bit array holds a set of numbers. */
  ghost predicate Holds(used: seq<bv32>, limit: nat, parts: set<int>)
    requires limit / 32 < |used|
  {
    forall p: nat :: p <= limit ==> p / 32 < |used| && (IsSet(used, p) <==> p in parts)
  }

  /** Marking a block adds it to the set and nothing else. */
  lemma Marked(used: seq<bv32>, limit: nat, parts: set<int>, q: nat)
    requires limit / 32 < |used| && q <= limit && Holds(used, limit, parts)
    ensures Holds(used[q / 32 := With(used[q / 32], Place32(q))], limit, parts + {q})
  {
    hide Has, With, IsSet, Place32;
    var now := used[q / 32 := With(used[q / 32], Place32(q))];
    forall p: nat | p <= limit ensures p / 32 < |now| && (IsSet(now, p) <==> p in parts + {q}) {
      MarkedOne(used, q, p);
    }
  }

  lemma MarkedOne(used: seq<bv32>, q: nat, p: nat)
    requires q / 32 < |used| && p / 32 < |used|
    ensures IsSet(used[q / 32 := With(used[q / 32], Place32(q))], p) <==> p == q || IsSet(used, p)
  {
    hide Has, With, Place32;
    SamePlace(p, q);
    SetHas(used[q / 32], Place32(q), Place32(p));
  }

  lemma SamePlace(p: nat, q: nat)
    ensures p == q <==> p / 32 == q / 32 && Place32(p) == Place32(q)
  {
    ToBits(p % 32);
    ToBits(q % 32);
  }

  lemma Empty(used: seq<bv32>, limit: nat)
    requires limit / 32 < |used| && forall i :: 0 <= i <= limit / 32 ==> used[i] == 0
    ensures Holds(used, limit, {})
  {
    hide Has, Place32;
    forall p: nat | p <= limit ensures p / 32 < |used| && !IsSet(used, p) {
      assert p / 32 <= limit / 32;
      HasIs(used[p / 32], Place32(p));
    }
  }

  // ---------- The walk ----------

  predicate Fits(used: array<bv32>, b: Buffer) {
    b[RDB_LIMIT] / 32 < used.Length
  }

  lemma HoldsAt(used: seq<bv32>, limit: nat, parts: set<int>, p: nat)
    requires limit / 32 < |used| && Holds(used, limit, parts) && p <= limit
    ensures p / 32 < |used| && (Has(used[p / 32], Place32(p)) <==> p in parts)
  {
    hide Has, Place32;
  }

  lemma PartsLonger(disk: Disk, b: Buffer, k: nat)
    requires IsDisk(disk)
    ensures Parts(disk, b, k + 1) == Parts(disk, b, k) + {At(disk, b, k).part}
  {
  }

  lemma Beginning(disk: Disk, b: Buffer, blockSize: nat)
    requires IsDisk(disk)
    ensures At(disk, b, 0) == Place(b[PARTITIONS], b) && Parts(disk, b, 0) == {}
    ensures ValidPrefix(disk, b, blockSize, 0) && Listed(disk, b, blockSize, 0) == []
  {
  }

  lemma NextPlace(disk: Disk, b: Buffer, blockSize: nat, k: nat)
    requires IsDisk(disk)
    ensures var l := Loaded(disk, At(disk, b, k));
      && At(disk, b, k + 1) == Place(l[NEXT], l)
      && Listed(disk, b, blockSize, k + 1)
         == [Described(l, PerCylinder(b), k + 1, blockSize)] + Listed(disk, b, blockSize, k)
  {
  }

  lemma EndsPrefix(disk: Disk, b: Buffer, blockSize: nat, k: nat)
    requires IsDisk(disk) && At(disk, b, k).part == END
    ensures !ValidPrefix(disk, b, blockSize, k + 1)
  {
    hide At;
    assert ValidPrefix(disk, b, blockSize, k + 1) ==> IsPartition(disk, At(disk, b, k), blockSize);
  }

  /** There is just one longest prefix. */
  lemma LongestPrefix(disk: Disk, b: Buffer, blockSize: nat, k: nat, j: nat)
    requires IsDisk(disk) && ValidPrefix(disk, b, blockSize, k) && !ValidPrefix(disk, b, blockSize, k + 1)
    ensures ValidPrefix(disk, b, blockSize, j) <==> j <= k
  {
    hide ValidPrefix;
    if j <= k {
      PrefixShorter(disk, b, blockSize, k, j);
    } else if ValidPrefix(disk, b, blockSize, j) {
      PrefixShorter(disk, b, blockSize, j, k + 1);
    }
  }

  class PartitionReader {
    const disk: Disk
    // In bytes.
    const blockSize: nat
    const buffer: array<word>
    // The partitions found, the last one first.
    var list: seq<Partition>
    ghost var readCount: nat

    predicate Valid()
    {
      IsDisk(disk) && buffer.Length == BUFFER_WORDS
    }

    constructor (disk: Disk, blockSize: nat)
      requires IsDisk(disk)
      ensures Valid() && this.disk == disk && this.blockSize == blockSize && list == [] && fresh(buffer)
    {
      this.disk, this.blockSize := disk, blockSize;
      buffer := new word[BUFFER_WORDS];
      list, readCount := [], 0;
    }

    /** `prom_readblocks` for one block */
    method ReadBlock(part: word) returns (ok: bool)
      requires Valid()
      modifies buffer, `readCount
      ensures ok <==> part in disk
      ensures ok ==> buffer[..] == Overlay(disk[part], old(buffer[..]))
      ensures !ok ==> buffer[..] == old(buffer[..])
      ensures readCount == old(readCount) + 1
    {
      readCount := readCount + 1;
      if part !in disk {
        return false;
      }
      var block := disk[part];
      var i := 0;
      while i < |block|
        invariant 0 <= i <= |block| && readCount == old(readCount) + 1
        invariant forall k :: 0 <= k < buffer.Length ==> buffer[k] == if k < i then block[k] else old(buffer[k])
      {
        buffer[i] := block[i];
        i := i + 1;
      }
      assert buffer[..] == Overlay(disk[part], old(buffer[..]));
      return true;
    }

    /** `_amiga_checksum` */
    method AmigaChecksum() returns (sum: word)
      requires Valid() && Summed(buffer[..], blockSize) <= BUFFER_WORDS
      ensures sum == Checksum(buffer[..], blockSize)
    {
      hide Sum;
      sum := buffer[0];
      var end: int := buffer[LENGTH];
      if end > blockSize {
        end := blockSize;
      }
      var i := 1;
      SumStep(buffer[..], 0);
      while i < end
        invariant 1 <= i && (i <= end || i == 1)
        invariant sum == Sum(buffer[..][..i]) % WORDS
      {
        SumStep(buffer[..], i);
        sum := (sum + buffer[i]) % WORDS;
        i := i + 1;
      }
    }

    /** `add_new_partition` */
    method AddNewPartition(p: Partition)
      modifies `list
      ensures list == [p] + old(list)
    {
      list := [p] + list;
    }

    // Reads the block of a place and decides whether it is a partition block; only then it is marked.
    method Visit(part: word, used: array<bv32>, ghost b: Buffer, ghost k: nat) returns (good: bool)
      requires Valid() && used != (buffer as object) && Fits(used, b)
      requires InBounds(disk, b, blockSize) && ValidPrefix(disk, b, blockSize, k)
      requires Place(part, buffer[..]) == At(disk, b, k) && part != END
      requires Holds(used[..], b[RDB_LIMIT], Parts(disk, b, k))
      modifies buffer, used, `readCount
      ensures readCount == old(readCount) + 1
      ensures good <==> ValidPrefix(disk, b, blockSize, k + 1)
      ensures good ==> buffer[..] == Loaded(disk, At(disk, b, k))
      ensures good ==> Holds(used[..], b[RDB_LIMIT], Parts(disk, b, k + 1))
    {
      hide InBounds, ValidPrefix, At, Parts, Holds, Overlay, Checksum, Has, With, Place32, Summed;
      PrefixLonger(disk, b, blockSize, k);
      InsideLimit(disk, b, blockSize, k);
      var ok := ReadBlock(part);
      if !ok {
        return false;
      }
      assert buffer[..] == Loaded(disk, At(disk, b, k));
      var checksum := AmigaChecksum();
      HoldsAt(used[..], b[RDB_LIMIT], Parts(disk, b, k), part);
      if buffer[ID] != ID_PARTITION || checksum != 0 || Has(used[part / 32], Place32(part)) {
        return false;
      }
      Marked(used[..], b[RDB_LIMIT], Parts(disk, b, k), part);
      used[part / 32] := With(used[part / 32], Place32(part));
      PartsLonger(disk, b, k);
      return true;
    }

    /** `partition_amiga_lookup`: lists the longest prefix of the chain that is valid and repeats no block. */
    method AmigaLookup(memory: bool) returns (ghost k: nat)
      requires Valid() && InBounds(disk, buffer[..], blockSize)
      modifies buffer, `list, `readCount
      ensures !memory ==> list == old(list) && readCount == old(readCount)
      ensures memory ==>
        && ValidPrefix(disk, old(buffer[..]), blockSize, k) && !ValidPrefix(disk, old(buffer[..]), blockSize, k + 1)
        && list == Listed(disk, old(buffer[..]), blockSize, k) + old(list)
        && readCount <= old(readCount) + old(buffer[RDB_LIMIT]) + 2
    {
      hide InBounds, ValidPrefix, At, Parts, Holds, Overlay, Checksum, Has, With, Place32, Summed, Listed, Loaded,
           Described;
      ghost var b: Buffer := buffer[..];
      k := 0;
      if !memory {
        return;
      }
      var perCylinder := buffer[SECTORS] * buffer[HEADS] % WORDS;
      var possible := buffer[RDB_LIMIT] / 32 + 1;
      var used := new bv32[possible + 1];
      var i := 0;
      while i < possible
        invariant 0 <= i <= possible && forall j :: 0 <= j < i ==> used[j] == 0
        invariant buffer[..] == b && list == old(list) && readCount == old(readCount)
      {
        used[i] := 0;
        i := i + 1;
      }
      Empty(used[..], b[RDB_LIMIT]);
      Beginning(disk, b, blockSize);
      var part := buffer[PARTITIONS];
      var partition := 1;
      while part != END
        invariant k == partition - 1 && ValidPrefix(disk, b, blockSize, k) && Place(part, buffer[..]) == At(disk, b, k)
        invariant Fits(used, b) && Holds(used[..], b[RDB_LIMIT], Parts(disk, b, k))
        invariant list == Listed(disk, b, blockSize, k) + old(list) && readCount == old(readCount) + k
        decreases b[RDB_LIMIT] + 1 - k
      {
        PrefixBounded(disk, b, blockSize, k);
        var good := Visit(part, used, b, k);
        if !good {
          return;
        }
        PrefixBounded(disk, b, blockSize, k + 1);
        AddNewPartition(Described(buffer[..], perCylinder, partition, blockSize));
        NextPlace(disk, b, blockSize, k);
        part := buffer[NEXT];
        partition := partition + 1;
        k := k + 1;
      }
      PrefixBounded(disk, b, blockSize, k);
      EndsPrefix(disk, b, blockSize, k);
    }
  }
}
