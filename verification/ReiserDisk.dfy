/** The ReiserFS on-disk formats, as the boot loader sees them after decoding.

    The same block of bytes can be interpreted in several ways (file data, tree node, journal
    descriptor, ...); a `Block` carries the result of every interpretation, and each reader picks
    the one it asks for.  Nothing relates the interpretations to each other, so what is proved holds
    for every decoding.
 */
module ReiserDisk {
  import opened Common

  // ---------- journal ----------

  // Real block numbers held by a descriptor or by a commit block.
  const JOURNAL_TRANS_HALF := 1018
  const JOURNAL_DESC_MAGIC := "ReIsErLB"

  type HalfTable = t: seq<word> | |t| == JOURNAL_TRANS_HALF witness seq(JOURNAL_TRANS_HALF, _ => 0)

  datatype Descriptor = Descriptor(magic: string, transId: word, len: word, mountId: word, realblock: HalfTable)
  datatype Commit = Commit(transId: word, len: word, realblock: HalfTable)
  datatype Header = Header(lastFlushTransId: word, firstUnflushedOffset: word, mountId: word)

  // ---------- tree ----------

  /** The last eight bytes of a key are either two 32-bit numbers (version 1) or a 60-bit offset
      and a 4-bit type packed into one 64-bit number (version 2); `low` and `high` are its halves. */
  datatype Key = Key(dirId: word, objectId: word, low: word, high: word)

  datatype Item = Item(key: Key, version: nat, body: seq<byte>)

  /** A leaf has level 1 and holds items; an internal node holds keys that separate its children. */
  datatype Node =
    | Leaf(items: seq<Item>, rightDelimKey: Key)
    | Internal(level: nat, keys: seq<Key>, children: seq<word>)

  datatype Block = Block(bytes: seq<byte>, node: Node, desc: Descriptor, commit: Commit, header: Header)

  /** The device and the two journal fields of the superblock; `beyond` is whatever a buffer holds
      after a read past the end of the device. */
  datatype Volume = Volume(disk: seq<Block>, beyond: Block, journalBlock: nat, journalCount: word)

  // `read_disk_block` for a whole block.
  function DiskBlock(v: Volume, nr: nat): Block {
    if nr < |v.disk| then v.disk[nr] else v.beyond
  }
}
