/** `reiserfs_read_data` of second/fs_reiserfs.c: reading a file by walking the tree cursor over its
    direct and indirect items.

    The specification of a file is the concatenation of what its items hold.
 */
module ReiserFile {
  import opened Bits
  import opened Common
  import opened ReiserDisk
  import opened ReiserJournal
  import opened ReiserTree

  /** What the superblock fixes for the interpretation of items. */
  datatype Format = Format(v: Volume, version: nat, blockSize: nat)

  // ---------- Items ----------

  // IH_KEY_OFFSET: 32 bits in version 1, the low 60 of 64 bits in version 2.
  function KeyOffset(f: Format, version: nat, key: Key): nat {
    if f.version < 2 || version == 0 then key.low else key.low + (key.high % 0x1000_0000) * WORDS
  }

  // IH_KEY_ISTYPE for TYPE_DIRECT and TYPE_INDIRECT.
  predicate IsDirect(f: Format, it: Item) {
    if f.version < 2 || it.version == 0 then it.key.high == 0xffffffff else it.key.high / 0x1000_0000 == 2
  }

  predicate IsIndirect(f: Format, it: Item) {
    if f.version < 2 || it.version == 0 then it.key.high == 0xfffffffe else it.key.high / 0x1000_0000 == 1
  }

  // The k-th little-endian block number of an indirect item.
  function Pointer(body: seq<byte>, k: nat): nat
    requires 4 * k + 3 < |body|
  {
    body[4 * k] as int + 0x100 * body[4 * k + 1] as int + 0x1_0000 * body[4 * k + 2] as int
      + 0x100_0000 * body[4 * k + 3] as int
  }

  /** Block numbers as they lie in an indirect item. */
  function Layout(numbers: seq<word>): (r: seq<byte>)
    ensures |r| == 4 * |numbers|
  {
    if numbers == [] then [] else LeBytes(numbers[0], 4) + Layout(numbers[1..])
  }

  lemma {:induction false} PointerLaidOut(numbers: seq<word>, k: nat)
    requires k < |numbers|
    ensures Pointer(Layout(numbers), k) == numbers[k]
  {
    hide Pointer, LeBytes;
    var first, rest := LeBytes(numbers[0], 4), Layout(numbers[1..]);
    if k == 0 {
      PointerReads(first, numbers[0]);
      PointerShifted(first + rest, first, 0, 0);
    } else {
      PointerLaidOut(numbers[1..], k - 1);
      PointerShifted(first + rest, rest, 1, k - 1);
    }
  }

  lemma PointerShifted(body: seq<byte>, part: seq<byte>, from: nat, k: nat)
    requires 4 * from + |part| <= |body| && body[4 * from..4 * from + |part|] == part && 4 * k + 3 < |part|
    ensures Pointer(body, from + k) == Pointer(part, k)
  {
    var p := 4 * k;
    assert part[p] == body[4 * from + p] && part[p + 1] == body[4 * from + p + 1];
    assert part[p + 2] == body[4 * from + p + 2] && part[p + 3] == body[4 * from + p + 3];
  }

  lemma PointerReads(body: seq<byte>, n: word)
    requires |body| == 4 && body == LeBytes(n, 4)
    ensures Pointer(body, 0) == n
  {
    var high := n / 0x100;
    var higher := high / 0x100;
    assert LeBytes(n, 4) == [n % 0x100, high % 0x100, higher % 0x100, higher / 0x100 % 0x100] by {
      assert LeBytes(higher / 0x100, 1) == [higher / 0x100 % 0x100];
      assert LeBytes(higher, 2) == [higher % 0x100] + LeBytes(higher / 0x100, 1);
      assert LeBytes(high, 3) == [high % 0x100] + LeBytes(higher, 2);
    }
  }

  // A pointer of 0 is a hole.
  function DataBlock(f: Format, nr: nat): seq<byte> {
    if nr == 0 then seq(f.blockSize, _ => 0) else DiskBlock(f.v, nr).bytes
  }

  /** Every block an indirect item points to is there. */
  ghost predicate Present(f: Format, body: seq<byte>) {
    forall k: nat | k < |body| / 4 :: Pointer(body, k) != 0 && |DataBlock(f, Pointer(body, k))| == f.blockSize
  }

  // The data of the first n blocks of an indirect item.
  ghost function Blocks(f: Format, body: seq<byte>, n: nat): seq<byte>
    requires n <= |body| / 4
  {
    if n == 0 then [] else Blocks(f, body, n - 1) + DataBlock(f, Pointer(body, n - 1))
  }

  ghost function ItemBytes(f: Format, it: Item): seq<byte> {
    if IsDirect(f, it) then it.body
    else if IsIndirect(f, it) then Blocks(f, it.body, |it.body| / 4)
    else []
  }

  // The contents of those blocks of the device, one after the other.
  function DeviceBytes(v: Volume, numbers: seq<word>): seq<byte> {
    if numbers == [] then [] else DeviceBytes(v, numbers[..|numbers| - 1]) + DiskBlock(v, numbers[|numbers| - 1]).bytes
  }

  /** An indirect item stands for the blocks whose numbers it holds. */
  lemma IndirectBytes(f: Format, it: Item, numbers: seq<word>)
    requires IsIndirect(f, it) && it.body == Layout(numbers) && 0 !in numbers
    ensures ItemBytes(f, it) == DeviceBytes(f.v, numbers)
  {
    hide IsDirect, IsIndirect, Layout, Blocks, DeviceBytes, Pointer;
    NotBoth(f, it);
    BlocksOfDevice(f, numbers, |numbers|);
    assert numbers[..|numbers|] == numbers;
  }

  lemma NotBoth(f: Format, it: Item)
    ensures !(IsDirect(f, it) && IsIndirect(f, it))
  {
  }

  lemma {:induction false} BlocksOfDevice(f: Format, numbers: seq<word>, n: nat)
    requires n <= |numbers| && 0 !in numbers
    ensures Blocks(f, Layout(numbers), n) == DeviceBytes(f.v, numbers[..n])
  {
    hide Layout, Pointer, DiskBlock;
    if n > 0 {
      BlocksOfDevice(f, numbers, n - 1);
      PointerLaidOut(numbers, n - 1);
      assert numbers[..n][..n - 1] == numbers[..n - 1];
    }
  }

  /** A key of version 2 is a 64-bit number: the offset in 60 bits, and above it the type, 1 for indirect and 2 for
      direct items. */
  lemma KeyVersion2(f: Format, it: Item, offset: nat, kind: nat)
    requires f.version >= 2 && it.version != 0
    requires offset < 0x1000_0000 * WORDS && kind < 16
    requires it.key.low + it.key.high * WORDS == offset + kind * (0x1000_0000 * WORDS)
    ensures KeyOffset(f, it.version, it.key) == offset
    ensures IsDirect(f, it) <==> kind == 2
    ensures IsIndirect(f, it) <==> kind == 1
  {
    var key := it.key;
    assert key.high / 0x1000_0000 == kind && key.high % 0x1000_0000 == offset / WORDS;
  }

  /** In version 1, offset and type are a 32-bit number each. */
  lemma KeyVersion1(f: Format, it: Item)
    requires f.version < 2 || it.version == 0
    ensures KeyOffset(f, it.version, it.key) == it.key.low
    ensures IsDirect(f, it) <==> it.key.high == WORDS - 1
    ensures IsIndirect(f, it) <==> it.key.high == WORDS - 2
  {
  }

  // What the items s .. k-1 hold.
  ghost function BytesBefore(f: Format, all: seq<Item>, s: nat, k: nat): seq<byte>
    requires k <= |all|
  {
    if k <= s then [] else BytesBefore(f, all, s, k - 1) + ItemBytes(f, all[k - 1])
  }

  // ---------- Files ----------

  /** The items s .. s+m of the tree are those of the file: its stat item and m body items, each
      numbered (from 1) by the position of its first byte, without holes.  `endKey` is the key of the
      end marker. */
  ghost predicate IsFile(f: Format, all: seq<Item>, s: nat, m: nat, dirId: word, objectId: word, endKey: Key) {
    && s + m < |all|
    && all[s].key == StatKey(dirId, objectId)
    && endKey.objectId != objectId
    && (forall k: nat | k < |all| :: all[k].key.objectId == objectId <==> s <= k <= s + m)
    && (forall k: nat | s < k <= s + m :: IsBody(f, all, s, k))
    && |BytesBefore(f, all, s, s + m + 1)| < WORDS
  }

  ghost predicate IsBody(f: Format, all: seq<Item>, s: nat, k: nat)
    requires s < k < |all|
  {
    && (IsDirect(f, all[k]) || (IsIndirect(f, all[k]) && Present(f, all[k].body)))
    && KeyOffset(f, all[k].version, all[k].key) == |BytesBefore(f, all, s, k)| + 1
  }

  // Body items are direct or indirect, so their keys are not stat keys.
  lemma StatOnlyFirst(f: Format, all: seq<Item>, s: nat, m: nat, dirId: word, objectId: word)
    requires s + m < |all| && forall k: nat | s < k <= s + m :: IsBody(f, all, s, k)
    ensures forall k: nat | s < k <= s + m :: all[k].key != StatKey(dirId, objectId)
  {
    forall k: nat | s < k <= s + m ensures all[k].key != StatKey(dirId, objectId) {
      assert IsBody(f, all, s, k);
    }
  }

  ghost function FileBytes(f: Format, all: seq<Item>, s: nat, m: nat): seq<byte>
    requires s + m < |all|
  {
    BytesBefore(f, all, s, s + m + 1)
  }

  lemma PrefixTrans(a: seq<byte>, b: seq<byte>, c: seq<byte>)
    requires a <= b <= c
    ensures a <= c
  {
  }

  lemma BytesNext(f: Format, all: seq<Item>, s: nat, k: nat)
    requires k < |all|
    ensures BytesBefore(f, all, s, k) <= BytesBefore(f, all, s, k + 1)
    ensures s <= k ==> BytesBefore(f, all, s, k + 1) == BytesBefore(f, all, s, k) + ItemBytes(f, all[k])
  {
    hide ItemBytes;
  }

  lemma {:induction false} BytesPrefix(f: Format, all: seq<Item>, s: nat, k: nat, n: nat)
    requires k <= n <= |all|
    ensures BytesBefore(f, all, s, k) <= BytesBefore(f, all, s, n)
  {
    hide ItemBytes;
    if k < n {
      BytesPrefix(f, all, s, k, n - 1);
      PrefixTrans(BytesBefore(f, all, s, k), BytesBefore(f, all, s, n - 1), BytesBefore(f, all, s, n));
    }
  }

  // `bytes` are the bytes of `d` from `start` on.
  ghost predicate Inside(bytes: seq<byte>, d: seq<byte>, start: nat) {
    start + |bytes| <= |d| && forall i | 0 <= i < |bytes| :: d[start + i] == bytes[i]
  }

  /** The bytes of a body item are a slice of the file. */
  lemma ItemInFile(f: Format, all: seq<Item>, s: nat, m: nat, k: nat)
    requires s < k + 1 <= s + m + 1 <= |all|
    ensures Inside(ItemBytes(f, all[k]), FileBytes(f, all, s, m), |BytesBefore(f, all, s, k)|)
    ensures |BytesBefore(f, all, s, k + 1)| == |BytesBefore(f, all, s, k)| + |ItemBytes(f, all[k])|
  {
    BytesPrefix(f, all, s, k + 1, s + m + 1);
    BytesNext(f, all, s, k);
    hide BytesBefore, ItemBytes;
    AppendedInside(BytesBefore(f, all, s, k), ItemBytes(f, all[k]), FileBytes(f, all, s, m));
  }

  lemma AppendedInside(a: seq<byte>, b: seq<byte>, whole: seq<byte>)
    requires a + b <= whole
    ensures Inside(b, whole, |a|)
  {
    forall i | 0 <= i < |b| ensures whole[|a| + i] == b[i] {
      assert (a + b)[|a| + i] == b[i];
    }
  }

  lemma InsideInside(a: seq<byte>, b: seq<byte>, d: seq<byte>, i: nat, j: nat)
    requires Inside(a, b, i) && Inside(b, d, j)
    ensures Inside(a, d, j + i)
  {
    forall k | 0 <= k < |a| ensures d[j + i + k] == a[k] {
      assert b[i + k] == a[k];
    }
  }

  lemma InsideSlice(bytes: seq<byte>, d: seq<byte>, start: nat, o: nat, t: nat)
    requires Inside(bytes, d, start) && o + t <= |bytes|
    ensures start + o + t <= |d| && d[start + o..start + o + t] == bytes[o..o + t]
  {
    var x, y := d[start + o..start + o + t], bytes[o..o + t];
    forall i | 0 <= i < t ensures x[i] == y[i] {
      assert d[start + (o + i)] == bytes[o + i];
    }
  }

  lemma {:induction false} BlocksLength(f: Format, body: seq<byte>, n: nat)
    requires n <= |body| / 4 && Present(f, body)
    ensures |Blocks(f, body, n)| == n * f.blockSize
  {
    if n > 0 {
      BlocksLength(f, body, n - 1);
      assert n * f.blockSize == (n - 1) * f.blockSize + f.blockSize;
    }
  }

  /** Block q of an indirect item holds the bytes from q * blockSize on. */
  lemma BlockInside(f: Format, body: seq<byte>, n: nat, q: nat)
    requires q < n <= |body| / 4 && Present(f, body)
    ensures Inside(DataBlock(f, Pointer(body, q)), Blocks(f, body, n), q * f.blockSize)
    ensures DataBlock(f, Pointer(body, q)) == DiskBlock(f.v, Pointer(body, q)).bytes
    ensures |DataBlock(f, Pointer(body, q))| == f.blockSize
  {
    hide Blocks, Pointer, DataBlock, Present, Inside, DiskBlock;
    BlocksLength(f, body, q);
    BlockFollows(f, body, n, q);
    NextBlock(f, body, q);
  }

  lemma BlockFollows(f: Format, body: seq<byte>, n: nat, q: nat)
    requires q < n <= |body| / 4 && Present(f, body)
    ensures Inside(DataBlock(f, Pointer(body, q)), Blocks(f, body, n), |Blocks(f, body, q)|)
  {
    hide Blocks, Pointer, DataBlock, Present, Inside;
    BlocksPrefix(f, body, q + 1, n);
    NextBlock(f, body, q);
    AppendedInside(Blocks(f, body, q), DataBlock(f, Pointer(body, q)), Blocks(f, body, n));
  }

  lemma NextBlock(f: Format, body: seq<byte>, q: nat)
    requires q < |body| / 4 && Present(f, body)
    ensures Blocks(f, body, q + 1) == Blocks(f, body, q) + DataBlock(f, Pointer(body, q))
    ensures DataBlock(f, Pointer(body, q)) == DiskBlock(f.v, Pointer(body, q)).bytes
    ensures |DataBlock(f, Pointer(body, q))| == f.blockSize
  {
    hide Pointer;
  }

  lemma {:induction false} BlocksPrefix(f: Format, body: seq<byte>, k: nat, n: nat)
    requires k <= n <= |body| / 4
    ensures Blocks(f, body, k) <= Blocks(f, body, n)
  {
    hide DataBlock, Pointer;
    if k < n {
      BlocksPrefix(f, body, k, n - 1);
      PrefixTrans(Blocks(f, body, k), Blocks(f, body, n - 1), Blocks(f, body, n));
    }
  }

  /** Block number and offset in the block: `o >> shift` and `o & (size - 1)`, the size being a power of two. */
  method SplitOffset(o: nat, size: nat, ghost n: nat) returns (q: nat, r: nat)
    requires size > 0 && o < n * size
    ensures o == q * size + r && r < size && q < n
  {
    q, r := o / size, o % size;
    if q >= n {
      MulMonotone(n, q, size);
    }
  }

  lemma {:induction false} MulMonotone(a: nat, b: nat, c: nat)
    requires a <= b
    ensures a * c <= b * c
  {
    assert b * c == a * c + (b - a) * c;
  }

  /** `out` is the part of `d` from `from` on. */
  ghost predicate Delivered(d: seq<byte>, from: nat, out: seq<byte>) {
    out != [] ==> from + |out| <= |d| && out == d[from..from + |out|]
  }

  lemma DeliverMore(d: seq<byte>, from: nat, out: seq<byte>, t: nat)
    requires Delivered(d, from, out) && from + |out| + t <= |d|
    ensures Delivered(d, from, out + d[from + |out|..from + |out| + t])
  {
  }

  class FileReader {
    const tree: TreeReader
    const f: Format
    var pos: nat
    // INFO->fileinfo, set when the file was opened.
    const dirId: word
    const objectId: word
    // Index of the file's stat item in the tree, and the number of its other items.
    ghost const first: nat
    ghost const count: nat

    constructor (tree: TreeReader, f: Format, dirId: word, objectId: word, ghost first: nat, ghost count: nat)
      ensures this.tree == tree && this.f == f && this.dirId == dirId && this.objectId == objectId
      ensures pos == 0 && this.first == first && this.count == count
    {
      this.tree, this.f, this.dirId, this.objectId := tree, f, dirId, objectId;
      pos := 0;
      this.first, this.count := first, count;
    }

    /** The tree below `root` is sorted, its items are `all`, and those from `first` on are the file,
        whose data is `d`. */
    ghost predicate FileOf(root: Node, depth: nat, all: seq<Item>, d: seq<byte>) {
      && WellFormed(tree.nodes, root, depth) && Sorted(tree.nodes, root, depth)
      && all == Items(tree.nodes, root, depth)
      && LastLeaf(tree.nodes, root, depth).Leaf?
      && IsFile(f, all, first, count, dirId, objectId, LastLeaf(tree.nodes, root, depth).rightDelimKey)
      && d == FileBytes(f, all, first, count)
    }

    /** An open file, with the cursor anywhere in the tree. */
    ghost predicate FileState(all: seq<Item>, d: seq<byte>)
      reads tree, tree.journal, tree.journal.table
    {
      && tree.Valid() && tree.AtItem()
      && f.v == tree.journal.v && IsPowerOfTwo(f.blockSize)
      && FileOf(tree.slots[0], tree.treeDepth, all, d)
    }

    method Seek(newpos: word)
      modifies `pos
      ensures pos == newpos
    {
      pos := newpos;
    }

    /** What copying `data` and wanting `len` more means: `len0` bytes were asked for at position `from`. */
    ghost predicate Copied(d: seq<byte>, from: nat, len0: nat, len: nat, data: seq<byte>)
      reads `pos
    {
      Delivered(d, from, data) && pos == from + |data| && |data| + len == len0
    }

    /** Copies what is wanted of `bytes`, from `offset` on, and moves the file position (the label
        update_buf_len). */
    method CopyFrom(bytes: seq<byte>, offset: nat, len0: nat, data0: seq<byte>,
                    ghost d: seq<byte>, ghost from: nat, ghost asked: nat)
      returns (toRead: nat, len: nat, data: seq<byte>)
      requires Copied(d, from, asked, len0, data0) && offset < |bytes|
      requires pos >= offset && Inside(bytes, d, pos - offset)
      modifies `pos
      ensures Copied(d, from, asked, len, data)
      ensures toRead == Min(len0, |bytes| - offset) && len == len0 - toRead && pos == old(pos) + toRead
    {
      toRead := |bytes| - offset;
      if toRead > len0 {
        toRead := len0;
      }
      InsideSlice(bytes, d, pos - offset, offset, toRead);
      DeliverMore(d, from, data0, toRead);
      data := data0 + bytes[offset..offset + toRead];
      len := len0 - toRead;
      pos := pos + toRead;
    }

    /** The loop over the blocks of an indirect item; `done` when nothing more is wanted. */
    method ReadIndirect(it: Item, offset0: nat, len0: nat, data0: seq<byte>,
                        ghost d: seq<byte>, ghost from: nat, ghost asked: nat)
      returns (done: bool, len: nat, data: seq<byte>)
      requires Copied(d, from, asked, len0, data0) && f.blockSize > 0 && Present(f, it.body)
      requires pos >= offset0 && Inside(Blocks(f, it.body, |it.body| / 4), d, pos - offset0)
      modifies `pos
      ensures Copied(d, from, asked, len, data)
      ensures done ==> len == 0
      ensures !done ==> offset0 + (pos - old(pos)) >= |Blocks(f, it.body, |it.body| / 4)|
    {
      hide Copied, Inside, Present, Blocks, DataBlock, Pointer;
      var n := |it.body| / 4;
      var size := n * f.blockSize;
      var offset := offset0;
      ghost var start := pos - offset0;
      BlocksLength(f, it.body, n);
      done, len, data := false, len0, data0;
      while offset < size && !done
        invariant pos == start + offset
        invariant Copied(d, from, asked, len, data)
        invariant done ==> len == 0
        decreases size - offset, if done then 0 else 1
      {
        var q, blkOffset := SplitOffset(offset, f.blockSize, n);
        BlockInside(f, it.body, n, q);
        InsideInside(DataBlock(f, Pointer(it.body, q)), Blocks(f, it.body, n), d, q * f.blockSize, start);
        var bytes := DiskBlock(f.v, Pointer(it.body, q)).bytes;
        var toRead;
        toRead, len, data := CopyFrom(bytes, blkOffset, len, data, d, from, asked);
        offset := offset + toRead;
        done := len == 0;
      }
    }

    // The cursor stands on item k of the tree, which belongs to the file; `d` is the file.
    ghost predicate AtFileItem(all: seq<Item>, k: nat, d: seq<byte>)
      reads tree
    {
      && first <= k <= first + count < |all| && f.blockSize > 0
      && tree.AtItem() && tree.current.InLeaf? && tree.CurrentItem() == all[k]
      && (k > first ==> IsBody(f, all, first, k))
      && all[first].key == StatKey(dirId, objectId)
      && d == FileBytes(f, all, first, count) && |d| < WORDS
    }

    /** One turn of the loop of reiserfs_read_data: item k is read as far as it is wanted. */
    method ReadItem(len0: nat, data0: seq<byte>,
                    ghost all: seq<Item>, ghost k: nat, ghost d: seq<byte>, ghost from: nat, ghost asked: nat)
      returns (done: bool, len: nat, data: seq<byte>)
      requires AtFileItem(all, k, d) && Copied(d, from, asked, len0, data0) && pos < WORDS
      requires |BytesBefore(f, all, first, k)| <= pos
      modifies `pos
      ensures Copied(d, from, asked, len, data)
      ensures done ==> len == 0
      ensures !done ==> |BytesBefore(f, all, first, k + 1)| <= pos
    {
      hide Copied, Inside, BytesBefore, Present, Cursor.AtItem;
      ItemInFile(f, all, first, count, k);
      var it := tree.CurrentItem();
      var offset := (pos - KeyOffset(f, it.version, it.key) + 1) % WORDS;
      done, len, data := false, len0, data0;
      if IsDirect(f, it) && offset < |it.body| {
        var toRead;
        toRead, len, data := CopyFrom(it.body, offset, len, data, d, from, asked);
        done := len == 0;
      } else if IsIndirect(f, it) {
        done, len, data := ReadIndirect(it, offset, len, data, d, from, asked);
      }
    }

    // The reader stands on an item of the file or on the one behind it; `d` is the file.
    ghost predicate OnFile(all: seq<Item>, d: seq<byte>)
      reads tree, tree.journal, tree.journal.table
    {
      && FileState(all, d)
      && first <= tree.Position() <= first + count + 1
    }

    // The item the cursor stands on, told by its object.
    lemma ObjectTells(all: seq<Item>, d: seq<byte>)
      requires FileState(all, d)
      ensures tree.CurrentObjectId() == objectId <==> first <= tree.Position() <= first + count
      ensures tree.CurrentObjectId() == objectId ==> tree.current.InLeaf?
      ensures tree.current.InLeaf? ==>
                tree.Position() < |all| && all[tree.Position()] == tree.CurrentItem()
    {
      tree.State().CurrentIsAtPosition(tree.nodes, tree.current);
    }

    lemma StandsOnFile(all: seq<Item>, d: seq<byte>)
      requires OnFile(all, d) && tree.CurrentObjectId() == objectId
      ensures AtFileItem(all, tree.Position(), d)
    {
      hide Cursor.AtItem, TreeReader.Mounted, TreeReader.Linked, WellFormed, Sorted, LastLeaf, BytesBefore;
      ObjectTells(all, d);
    }

    lemma BehindFile(all: seq<Item>, d: seq<byte>)
      requires OnFile(all, d) && tree.CurrentObjectId() != objectId
      ensures tree.Position() == first + count + 1 && BytesBefore(f, all, first, tree.Position()) == d
    {
      hide Cursor.AtItem, TreeReader.Mounted, TreeReader.Linked, WellFormed, Sorted, LastLeaf, BytesBefore;
      ObjectTells(all, d);
    }

    /** The cursor is on an item of the file that does not begin behind the file position. */
    ghost predicate Serves(all: seq<Item>)
      requires tree.AtItem()
      reads this, tree, tree.journal, tree.journal.table
    {
      && first <= tree.Position() <= first + count && tree.Position() <= |all|
      && |BytesBefore(f, all, first, tree.Position())| <= pos
    }

    lemma StatOffset(all: seq<Item>)
      ensures forall version: nat :: KeyOffset(f, version, StatKey(dirId, objectId)) == 0
      ensures first <= |all| ==> BytesBefore(f, all, first, first) == []
    {
    }

    lemma SearchTells(all: seq<Item>, d: seq<byte>)
      requires FileState(all, d)
      ensures MustSearch() <==> !Serves(all)
      ensures !MustSearch() ==> OnFile(all, d)
    {
      hide Cursor.AtItem, TreeReader.Mounted, TreeReader.Linked, WellFormed, Sorted, LastLeaf, BytesBefore, KeyOffset,
           IsDirect, IsIndirect, Present;
      StatOffset(all);
      ObjectTells(all, d);
      var k := tree.Position();
      if first < k <= first + count {
        assert IsBody(f, all, first, k);
      }
    }

    lemma StatIsFirst(all: seq<Item>, d: seq<byte>)
      requires FileState(all, d)
      requires tree.current.InLeaf? && tree.CurrentItem().key == StatKey(dirId, objectId)
      ensures tree.Position() == first && OnFile(all, d) && tree.CurrentObjectId() == objectId
      ensures first < |all|
      ensures BytesBefore(f, all, first, first + 1) == []
    {
      hide Cursor.AtItem;
      ObjectTells(all, d);
      StatOnlyFirst(f, all, first, count, dirId, objectId);
      BytesNext(f, all, first, first);
    }

    // The cursor has left the file or stands behind the file position.
    predicate MustSearch()
      requires tree.AtItem()
      reads this, tree
    {
      || tree.CurrentObjectId() != objectId
      || (tree.current.InLeaf? &&
          KeyOffset(f, tree.CurrentItem().version, tree.CurrentItem().key) > pos + 1)
    }

    // The cursor is at the item to look at next: it does not start behind the file position.
    ghost predicate Ready(all: seq<Item>, d: seq<byte>)
      reads `pos, tree, tree.journal, tree.journal.table
    {
      && OnFile(all, d)
      && |BytesBefore(f, all, first, tree.Position())| <= pos
    }

    // The search at the start of reiserfs_read_data; the stat item it finds is skipped at once.
    method SearchFile(ghost all: seq<Item>, ghost d: seq<byte>)
      requires FileState(all, d)
      modifies tree
      ensures Ready(all, d) && tree.errnum == 0
      ensures tree.searches == old(tree.searches) + 1
    {
      hide Cursor.AtItem, FileOf;
      FindStatItem(all, d);
      Advance(all, d);
    }

    method FindStatItem(ghost all: seq<Item>, ghost d: seq<byte>)
      requires FileState(all, d)
      modifies tree
      ensures OnFile(all, d) && tree.CurrentObjectId() == objectId && tree.errnum == 0
      ensures tree.Position() == first && BytesBefore(f, all, first, first + 1) == []
      ensures tree.searches == old(tree.searches) + 1
    {
      hide Cursor.AtItem, FileOf, Sorted;
      StatItemExists(all, d);
      var found := tree.SearchStat(dirId, objectId);
      StatIsFirst(all, d);
    }

    lemma StatItemExists(all: seq<Item>, d: seq<byte>)
      requires FileState(all, d)
      ensures Sorted(tree.nodes, tree.slots[0], tree.treeDepth)
      ensures exists x :: x in tree.All() && x.key == StatKey(dirId, objectId)
    {
      assert all[first] in tree.All();
    }

    // next_key, once the current item has been read.
    method Advance(ghost all: seq<Item>, ghost d: seq<byte>)
      requires OnFile(all, d) && tree.CurrentObjectId() == objectId && tree.errnum == 0
      requires |BytesBefore(f, all, first, tree.Position() + 1)| <= pos
      modifies tree
      ensures Ready(all, d) && tree.errnum == 0
      ensures tree.searches == old(tree.searches) && tree.Position() == old(tree.Position()) + 1
    {
      hide Cursor.AtItem, FileOf, TreeReader.Mounted, TreeReader.Linked, TreeReader.Coherent, WellFormed, Sorted,
           BytesBefore;
      StandsOnFile(all, d);
      var ok := tree.NextKey();
    }

    /** `reiserfs_read_data`: from any cursor and any position, as many bytes of the file as there are,
        up to the number asked for; the tree is searched again only when the cursor has passed the position. */
    method ReadData(len0: word, ghost all: seq<Item>, ghost d: seq<byte>) returns (data: seq<byte>)
      requires FileState(all, d) && pos < WORDS
      modifies `pos, tree
      ensures FileState(all, d) && tree.errnum == 0
      ensures |data| == Min(len0, if old(pos) <= |d| then |d| - old(pos) else 0)
      ensures data != [] ==> data == d[old(pos)..old(pos) + |data|]
      ensures pos == old(pos) + |data|
      ensures tree.searches == old(tree.searches) + if old(Serves(all)) then 0 else 1
    {
      hide Cursor.AtItem, FileOf;
      SearchTells(all, d);
      tree.errnum := 0;
      if MustSearch() {
        SearchFile(all, d);
      }
      FileFits(all, d);
      data := ReadOn(len0, all, d);
    }

    lemma FileFits(all: seq<Item>, d: seq<byte>)
      requires FileState(all, d)
      ensures |d| < WORDS
    {
    }

    // The loop of reiserfs_read_data.
    method ReadOn(len0: word, ghost all: seq<Item>, ghost d: seq<byte>) returns (data: seq<byte>)
      requires Ready(all, d) && pos < WORDS && |d| < WORDS && tree.errnum == 0
      modifies `pos, tree
      ensures FileState(all, d) && tree.errnum == 0 && tree.searches == old(tree.searches)
      ensures |data| == Min(len0, if old(pos) <= |d| then |d| - old(pos) else 0)
      ensures data != [] ==> data == d[old(pos)..old(pos) + |data|]
      ensures pos == old(pos) + |data|
    {
      hide Cursor.AtItem, FileOf, AtFileItem, TreeReader.Mounted, TreeReader.Linked, BytesBefore;
      ghost var from := pos;
      var len: nat := len0;
      data := [];
      while tree.errnum == 0
        invariant Ready(all, d) && tree.errnum == 0 && tree.searches == old(tree.searches)
        invariant Copied(d, from, len0, len, data) && pos < WORDS
        decreases first + count + 1 - tree.Position()
      {
        ghost var k := tree.Position();
        if tree.CurrentObjectId() != objectId {
          BehindFile(all, d);
          return;
        }
        StandsOnFile(all, d);
        var done;
        done, len, data := ReadItem(len, data, all, k, d, from, len0);
        assert OnFile(all, d);
        if done {
          return;
        }
        Advance(all, d);
      }
    }
  }
}
