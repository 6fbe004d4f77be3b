# A verified model of yaboot's readers, allocator, digest and configuration parser

yaboot is a boot loader for PowerPC machines.  It brings its own file system drivers, memory allocator, MD5 and
configuration parser, written as loops over global state.  This project models that code in Dafny: the state that a
C file keeps in static variables is a class, each operation is a method with the loops of the original, and each is
proved against a specification that does not follow the code: a disk after replaying its journal, the leaves of a
tree in order, the image of a file, the leftmost occurrence of a string, the digest of RFC 1321, the longest prefix
of a chain.  `dafny verify dfyconfig.toml` checks everything.

| file | what it models |
|---|---|
| `ReiserDisk.dfy` | the blocks of a ReiserFS volume, each with its decodings |
| `ReiserJournal.dfy` | finding the transactions of the journal, caching them, and reading blocks through it |
| `ReiserTree.dfy` | the node cache, the search for a stat item, and the cursor that walks the leaves |
| `ReiserFile.dfy` | reading the data of a file with that cursor |
| `Ext2Read.dfy` | the ext2 reader that merges blocks into ranges, and the slow one beside it |
| `StrStr.dfy` | the substring search with jumps |
| `Malloc.dfy` | the bump allocator |
| `Common.dfy`, `Bits.dfy` | bytes, words and stock definitions; powers of two |
| `BitVectors.dfy` | 32-bit words, bit by bit and as numbers |
| `Md5.dfy`, `Md5Sample.dfy`, `Md5Crypt.dfy` | MD5, the digest of the empty message worked out, and making and checking md5-crypt entries |
| `ConfigTokens.dfy`, `ConfigImages.dfy` | the tokenizer, and what the entries do to the options and images |
| `NumberFormat.dfy` | printing numbers in a field, and parsing them |
| `AmigaPartitions.dfy` | the walk along the Amiga partition list |

## How the source is read

* Numbers on disk are taken as decoded, and so are the words of the journal cache, which are kept in the byte order of
  the disk; incrementing one of those in place is modelled as the machine does it, in its own byte order.  The source
  compares one number undecoded (`second/fs_reiserfs.c:312`); the decoded comparison is modelled.
  `x & (count - 1)` for a power of two is modelled as taking away `count` as often as it fits.
* `le32_to_cpu` is taken as a function.  In the source it is a macro, `swab32`, that evaluates its argument four times
  (`include/byteorder.h:8`, `include/swab.h:8`), also where the argument has side effects (lines 221, 224, 243 and 255
  of `second/fs_reiserfs.c`); C leaves the result undefined there.
* `unsigned long` has 32 bits (`Makefile:37`, `-m32`), and characters are signed (`-fsigned-char`), so the byte 0xff
  in a configuration file is the end of the file.
* The number of journal transactions is kept in 16 bits, as in the source.  `JournalInit` says exactly when that
  number is the number of accepted transactions.
* The journal cache has at least one word.  With the sizes that are shipped it has none
  (`second/fs_reiserfs.c:61`, `include/reiserfs/reiserfs.h:401-402`), and the marker of the end of the cache would be
  looked for behind it.
* Ext2 block sizes are powers of two (`include/linux/ext2_fs.h:81-87`), so 4 GiB are whole blocks.  The size of a read
  is an unsigned int.
* The iterator of libext2fs calls back for the mapped blocks in ascending order, with negative numbers for indirect
  blocks in between, until it is told to stop.  Both versions of its behaviour then, reporting the abort or not, are
  modelled.
* The block buffer of the partition code is larger than a block.  The checksum may go beyond the block that was read
  and then sums what earlier reads left there; the model keeps these words.
* Where C works on a global through a pointer, the model has a field.  Linked lists (images, partitions) are
  sequences, in the order of the list.

## Results that qualify what the code promises

* `block_read` is reliable if and only if no transaction is cached, that is, there is none or the first one does not
  fit the cache (`ReiserJournal.ReliableUncached`).  Line 221 of `second/fs_reiserfs.c`, `(*journal_table)++`,
  increments the length of a cached transaction and leaves the pointer where it is.  So the length is taken for a block
  number, each block for the one logged behind it, the last one is missed, and the cache is destroyed
  (`ReiserJournal.CachedTurn`); every later read of a block whose number the cache does not happen to hold looks behind
  its end (`ReiserJournal.SecondRead`, for caches of less than 64 MiB).  `ReiserJournal.ReadCachedJournal` reads such a volume: of the one block logged,
  the first read delivers the old contents, the second one the commit block.
* The tree and file results therefore stand on `IntendedBlockRead`, the reader with the pointer moved on in line 221
  (`TreeReader.Linked`).  It is right for every cache, and where nothing is cached `BlockRead` delivers the same.
* `md5_final` pads as RFC 1321 does if and only if the length of the message, modulo 2^61 bytes, is less than 2^29
  (`Md5.PaddingIsRfc1321`): the upper half of the length is always written as zero.
* A printed list of entries is read back if and only if each of its texts has fewer than 511 characters, has no NUL,
  carriage return or 0xff in it, and is not a single equals sign, which quotes do not protect
  (`ConfigTokens.RoundTrip`).
* A printed number is parsed again if and only if it has no plus sign and its prefix is recognised
  (`NumberFormat.RoundTrip`): a plus sign is not understood, and of a hexadecimal prefix only the zero is read when
  base 16 is asked for, or when it is `0X`.
* An ext2 read delivers each block of the file where it belongs if and only if no hole overruns
  (`Ext2Read.Ext2Reader.Read`).  The size of a hole is counted in 32 bits; a hole of 4 GiB or more that the read enters
  overruns when the count, thus cut, ends before what is wanted.  `Ext2Read.ReadLargeHole` is such a read: of a file
  that begins with 4 GiB of zeros, the byte delivered first is a 7.
* An image in use is found by its label if and only if nothing in front of it is in the way: an alias, the path of an
  image without a label, or an image without either (`ConfigImages.FoundByLabel`).  An `image` line without a path
  makes an image of the last kind (`ConfigImages.BareImage`).
* An image is made obsolete if and only if another image in use takes a label that it goes by
  (`ConfigImages.WhoOutdates`).

## Model

| member | source | states |
|---|---|---|
| ReiserJournal.RunPositionsDistinct | second/fs_reiserfs.c:308-369 | two transactions of a run never begin at the same place of the circular journal, because their ids differ |
| ReiserJournal.RunBounded | second/fs_reiserfs.c:308-369 | a run of consecutive transactions is no longer than the journal has blocks, so the scan ends on every journal |
| ReiserJournal.MaximalRunExists | second/fs_reiserfs.c:286-379 | from the first unflushed offset there is a longest run of valid transactions, whatever the journal holds |
| ReiserJournal.MaximalRunUnique | second/fs_reiserfs.c:286-379 | there is only one such run |
| ReiserJournal.JournalReader.JournalInit | second/fs_reiserfs.c:286-379 | ends on every journal, damaged ones included, refuses an offset outside it, counts exactly the maximal run (modulo 2^16), and leaves a cache that agrees with the journal as far as it goes; the block numbers of a transaction matter only if it goes into the cache |
| ReiserJournal.RunGrows | second/fs_reiserfs.c:310-322 | the tests on descriptor and commit block are exactly what lets a run grow by one transaction |
| ReiserJournal.RunEnds | second/fs_reiserfs.c:311-322 | when a test fails the run so far is the maximal one |
| ReiserJournal.NextDesc | second/fs_reiserfs.c:271 | block_read recomputes from the lengths alone where journal_init found each descriptor |
| ReiserJournal.JournalReader.WriteEntry | second/fs_reiserfs.c:347-365 | writes the length and the block numbers of a transaction, the first half from the descriptor, the others from the commit block |
| ReiserJournal.JournalReader.CacheTransaction | second/fs_reiserfs.c:340-366 | the cache then holds one transaction more, and those before it unchanged |
| ReiserJournal.JournalReader.Remember | second/fs_reiserfs.c:331-367 | caches a transaction that fits the table, else writes the end marker once and caches no more, however long the transaction claims to be |
| ReiserJournal.ReplayHit | second/fs_reiserfs.c:262-263 | replaying a transaction that logs a block makes the copy in the journal that block's contents |
| ReiserJournal.ReplayMiss | second/fs_reiserfs.c:259-271 | replaying a transaction that does not log a block leaves it |
| ReiserJournal.AddressReplayed | second/fs_reiserfs.c:262-274 | the replayed disk has at a block what is stored at its last copy in the journal, or at home |
| ReiserJournal.JournalReader.SearchTable | second/fs_reiserfs.c:221-230 | as written: compares as many words as the length says, from the length word itself on |
| ReiserJournal.JournalReader.SearchLog | second/fs_reiserfs.c:231-258 | scans the block numbers of a transaction on disk, in the descriptor's and then in the commit block's half, as many as its signed length says |
| ReiserJournal.ScanLogMeans | second/fs_reiserfs.c:239-258 | that scan finds a block if and only if the transaction logged it |
| ReiserJournal.JournalReader.LookUp | second/fs_reiserfs.c:213-259 | as written: one turn on the cache, which increments the length word, or on the disk |
| ReiserJournal.JournalReader.BlockRead | second/fs_reiserfs.c:203-275 | as written: the address it comes to and the cache it leaves; with nothing cached, what the disk holds at that block after replaying the transactions found, in order, and the cache unchanged; without a journal, the home block |
| ReiserJournal.ReadUncached | second/fs_reiserfs.c:231-274 | with nothing cached, each read comes to the last copy of the block and leaves the cache alone |
| ReiserJournal.CachedTurn | second/fs_reiserfs.c:218-230 | for every cached transaction: its length, incremented, is found as the first block, every block but the last as the next one, the last not at all; its entry is destroyed and the next one is looked for a word too early |
| ReiserJournal.OnlyTransaction | second/fs_reiserfs.c:213-274 | what a first read comes to when the one transaction is cached: the copy of the next block for each block logged but the last, home for the last one and for all that are not logged, but for the number that the incremented length is taken for |
| ReiserJournal.SecondTurn | second/fs_reiserfs.c:218-230 | with two transactions cached, the last block number of the first one is taken for the length of the second |
| ReiserJournal.LastTurnDecides | second/fs_reiserfs.c:213-274 | for any number of transactions, cached or not: unless a turn looks behind the cache, the read comes to the copy found in the last turn that found one |
| ReiserJournal.NoTurnFinds | second/fs_reiserfs.c:213-274 | and to the home block if no turn did |
| ReiserJournal.SecondRead | second/fs_reiserfs.c:218-230 | after any read with a transaction cached in less than 64 MiB, every read of a block whose number is not in the cache looks behind its end |
| ReiserJournal.ReliableUncached | second/fs_reiserfs.c:203-275 | all reads, after whatever reads, come to the right address if and only if nothing is cached |
| ReiserJournal.TableKept | second/fs_reiserfs.c:218-221 | a read leaves the cache as it is if and only if nothing is cached, and otherwise destroys the entry of the first transaction |
| ReiserJournal.ReadCachedJournal | second/fs_reiserfs.c:218-274 | reads that go wrong: of a block whose only transaction is cached the home block, then the commit block; of a block that is not logged, the copy of another one |
| ReiserJournal.JournalReader.IntendedSearchTable | second/fs_reiserfs.c:218-230 | with the pointer moved on in line 221: finds a block in a cached transaction if and only if it was logged, and moves on to the next transaction either way |
| ReiserJournal.JournalReader.IntendedLookUp | second/fs_reiserfs.c:218-259 | with the pointer moved on in line 221: cached and uncached search give the same answer for every transaction |
| ReiserJournal.JournalReader.IntendedBlockRead | second/fs_reiserfs.c:203-275 | with the pointer moved on in line 221: what the disk holds at that block after replaying the transactions found, in order, for every size of the cache |
| ReiserTree.TreeReader.ReadTreeNode | second/fs_reiserfs.c:531-571 | returns the node of the replayed disk, cached or not, and keeps every cached slot equal to its block; a node of the wrong level is an error |
| ReiserTree.TreeReader.ReadRoot | second/fs_reiserfs.c:474-503 | reads the root into slot 0, which no other read touches |
| ReiserTree.SeparatorsLead | second/fs_reiserfs.c:698-718 | in a sorted tree the stat item looked for is below the child left of the first separator behind it |
| ReiserTree.NarrowOnce | second/fs_reiserfs.c:694-721 | one step down keeps every occurrence of the key below the chosen node |
| ReiserTree.DescendOnce | second/fs_reiserfs.c:717-718 | one step down keeps the cursor in step with the leaves that follow in order |
| ReiserTree.TreeReader.Descend | second/fs_reiserfs.c:690-721 | the loop over the internal levels ends in a leaf, with the cursor standing for all items behind it |
| ReiserTree.TreeReader.SearchStat | second/fs_reiserfs.c:677-749 | stands on the stat item when it succeeds; on a sorted tree it succeeds if and only if some leaf has that item |
| ReiserTree.Cursor.CurrentIsAtPosition | second/fs_reiserfs.c:576-664 | the cursor, with 0 for both an exhausted node and its first child, encodes one position in the in-order sequence of items |
| ReiserTree.Cursor.StepInLeaf | second/fs_reiserfs.c:580-592 | the next item of a leaf is the next item of the tree |
| ReiserTree.Cursor.AllExhausted | second/fs_reiserfs.c:597-613 | when every level is exhausted nothing follows, and the leaf is the last one |
| ReiserTree.EnterOnce | second/fs_reiserfs.c:629-648 | one turn of the descent goes to the leftmost leaf that has not been visited |
| ReiserTree.EnteredLeaf | second/fs_reiserfs.c:648-650 | the leaf reached begins with the item that follows |
| ReiserTree.TreeReader.Unexhausted | second/fs_reiserfs.c:597-613 | finds the lowest level that has another child |
| ReiserTree.TreeReader.EnterLeaf | second/fs_reiserfs.c:615-650 | goes down to the leaf of the next item |
| ReiserTree.TreeReader.NextKey | second/fs_reiserfs.c:577-664 | moves on by exactly one item of the in-order sequence; the end marker appears exactly behind the last one |
| ReiserFile.StatOnlyFirst | second/fs_reiserfs.c:727-733 | only the first item of a file has the stat key |
| ReiserFile.PointerLaidOut | second/fs_reiserfs.c:800-801 | the reader's view of block number k in a list of block numbers, each stored least significant byte first, is the k-th of the list |
| ReiserFile.IndirectBytes | second/fs_reiserfs.c:794-821 | an indirect item stands for the contents of the device blocks whose numbers it stores, one after the other |
| ReiserFile.KeyVersion2 | include/reiserfs/reiserfs.h:98-119 | from the 64-bit number offset + type * 2^60 of a version 2 key the offset comes back; direct and indirect mean types 2 and 1 |
| ReiserFile.BlockInside | second/fs_reiserfs.c:800-803 | block q of an indirect item holds the bytes of the file from q blocks behind the item's start |
| ReiserFile.ItemInFile | second/fs_reiserfs.c:776-777 | the bytes of item k are the bytes of the file from that item's offset on |
| ReiserFile.KeyVersion1 | include/reiserfs/reiserfs.h:98-114 | in a version 1 key the offset is a number of its own, and direct and indirect are 0xffffffff and 0xfffffffe |
| ReiserFile.FileReader.Seek | second/fs_reiserfs.c:139-143 | sets the position and nothing else |
| ReiserFile.FileReader.ReadIndirect | second/fs_reiserfs.c:794-821 | appends the bytes of an indirect item from the offset on, as far as they are wanted |
| ReiserFile.FileReader.ReadItem | second/fs_reiserfs.c:776-822 | appends what one item, direct or indirect, has of the bytes that are wanted |
| ReiserFile.FileReader.SearchFile | second/fs_reiserfs.c:764-769 | searching again leaves the cursor in the file, not behind the position |
| ReiserFile.FileReader.Advance | second/fs_reiserfs.c:823-824 | going on to the next item keeps the cursor at or before the position, or behind the file |
| ReiserFile.FileReader.ReadOn | second/fs_reiserfs.c:771-827 | the loop delivers exactly the bytes wanted, up to the end of the file |
| ReiserFile.FileReader.ReadData | second/fs_reiserfs.c:752-828 | from any cursor and after any seek: the bytes of the file from the position on, as many as wanted and there; the tree is searched again if and only if the cursor is not on an item of the file, or on one that begins behind the position |
| Ext2Read.Volume.ContentsAreImage | second/fs_ext2.c:298-321 | the contents of a contiguous range of blocks are the image of the file there |
| Ext2Read.Ext2Reader.ReadBlk | second/fs_ext2.c:620-646 | one request of the device: all the blocks or a failure, and the request is recorded |
| Ext2Read.Ext2Reader.DumpWhole | second/fs_ext2.c:300-312 | whole blocks of the range go straight to the buffer; the file and the counters move with them |
| Ext2Read.Ext2Reader.DumpPart | second/fs_ext2.c:313-322 | the last block is cut to the bytes still wanted |
| Ext2Read.Ext2Reader.DumpRange | second/fs_ext2.c:288-326 | delivers the pending range in ascending order, at most its last block in part, and asks to stop exactly when nothing more is wanted or a read failed |
| Ext2Read.Ext2Reader.FillBlock | second/fs_ext2.c:378-391 | the rest of a block inside a hole is delivered as zeros |
| Ext2Read.Ext2Reader.FillHole | second/fs_ext2.c:373-405 | a hole up to the next mapped block is delivered as zeros, as far as wanted; if its count overruns the rest of it is left out |
| Ext2Read.Ext2Reader.JudgeHole | second/fs_ext2.c:392-405 | the count of a hole cut to 32 bits does as well as the exact one unless the hole overruns |
| Ext2Read.Ext2Reader.PassBlocks | second/fs_ext2.c:298-321 | reading mapped blocks meets no hole that overruns |
| Ext2Read.Ext2Reader.PassHole | second/fs_ext2.c:392-405 | going on inside a hole that does not overrun meets none either |
| Ext2Read.Ext2Reader.LeaveOut | second/fs_ext2.c:392-405 | after an overrun the reader goes on as if the file were shorter by a multiple of 4 GiB |
| Ext2Read.Ext2Reader.ReadUnaligned | second/fs_ext2.c:408-426 | a start inside a block delivers that block's image from the offset on |
| Ext2Read.Ext2Reader.ReadIterator | second/fs_ext2.c:329-442 | each callback keeps the state between callbacks: bytes delivered are the image, the pending range is contiguous, at most 256 blocks and, but for its last block, fits strictly in what is wanted |
| Ext2Read.Ext2Reader.Iterate | second/fs_ext2.c:470 | the callbacks for all mapped blocks in ascending order, until one asks to stop |
| Ext2Read.Ext2Reader.FinishRange | second/fs_ext2.c:473-480 | the range left pending at the end completes the read |
| Ext2Read.Ext2Reader.Read | second/fs_ext2.c:447-484 | for every block map, position, size and set of failing requests: the position moves by the number of bytes returned, at most 256 blocks go into a request, and if no hole overruns the bytes are the image of the file; if no request of the call fails, their number is then exactly what the file has, and the requests fetch each mapped block of them exactly once, in ascending order, if and only if no hole overruns; otherwise the bytes delivered last are those of a place a multiple of 4 GiB further on; if a request fails, the read stops at its block, or, where the end of the iteration is not reported, at the end of its range, which is read once more |
| Ext2Read.Ext2Reader.SlowRead | second/fs_ext2.c:486-533 | the version without ranges delivers bytes of the same image: all that is wanted, unless a request fails; that one is the last, and the read stops at its block |
| Ext2Read.Ext2Reader.DumpRest | second/fs_ext2.c:313-325 | at most one more request behind the whole blocks, and none behind a failed one |
| Ext2Read.Ext2Reader.FastAndSlow | second/fs_ext2.c:447-533 | where no hole overruns, both versions deliver the same bytes as far as both deliver, and without failures the fast one no more than the slow one, which goes on with zeros behind the end of the file |
| Ext2Read.Ext2Reader.ReadTwice | second/fs_ext2.c:447-484 | reading a and then b bytes delivers what reading a + b bytes delivers |
| Ext2Read.PartsFit | second/fs_ext2.c:392-405 | if no hole overruns for a read of a + b bytes, none does for reading a bytes and then b |
| Ext2Read.ReadLargeHole | second/fs_ext2.c:392-405 | a read that goes wrong: one byte at the start of a file that begins with a hole of 4 GiB |
| Ext2Read.LargeHoleOverruns | second/fs_ext2.c:392-405 | the hole of that file overruns, and its first byte is 0 |
| StrStr.StrStr | lib/strstr.c:36-120 | ends, and returns the least position at which the needle occurs, or the null pointer exactly when it occurs nowhere |
| StrStr.Skip | lib/strstr.c:65-88 | a character that differs rules out one candidate position and no other |
| StrStr.MatchRest | lib/strstr.c:90-113 | the unrolled comparison accepts exactly when the whole needle occurs at the candidate |
| Malloc.Allocator.MallocInit | lib/malloc.c:37-41 | the heap is empty between bottom and top |
| Malloc.Allocator.MallocDispose | lib/malloc.c:43-47 | no block is live, and nothing can be allocated until the heap is set up again |
| Malloc.Allocator.Malloc | lib/malloc.c:49-65 | a block of the size asked for above all others, with its size in the header, or nothing changed exactly when there is no room; live blocks and their headers stay disjoint and unchanged |
| Malloc.Allocator.PosixMemalign | lib/malloc.c:69-108 | the block is the least address behind what is in use and its header that is a multiple of the alignment and of the size of a pointer, less than one alignment further on; it fails exactly for a bad alignment or when no such address leaves room, and then changes nothing |
| Bits.PowersOfTwo | lib/malloc.c:82-83 | the test on the alignment accepts exactly the powers of two |
| Malloc.Allocator.Realloc | lib/malloc.c:110-129 | fails exactly when there is no room; the newest block changes its size where it is; an older one becomes a new block; contents up to the smaller size and all other blocks stay |
| Malloc.Allocator.Free | lib/malloc.c:131-137 | only the newest block gives its space back; the others stay as they are |
| Malloc.Allocator.MemCpy | lib/malloc.c:126-127 | the old contents are copied and nothing outside the new block is written |
| Malloc.OthersKept | lib/malloc.c:59-63 | writing between blocks leaves every live block and its header |
| Malloc.AlignUp | lib/malloc.c:91-94 | the least multiple of the alignment not below the address |
| BitVectors.Bitwise | second/md5.c:54-57 | and, or, exclusive or and not work on each bit by itself |
| BitVectors.RotatedBits | second/md5.c:61 | bit k of a word rotated left by n is bit k - n, modulo 32, of the word |
| Md5.BasicFunctions | second/md5.c:54-57 | in each bit, F picks y or z by x, G picks x or y by z, H is the parity, and I tells x from y where z is set and inverts y elsewhere |
| Md5.WordBack | second/md5.c:115-139 | a word read from four bytes stores them again |
| Md5.WordBytesAreLe | second/md5.c:115-139 | they are the bytes of its number, least significant first |
| Md5Sample.EmptyDigest | second/md5.c:354 | the digest of the empty message is d41d8cd98f00b204e9800998ecf8427e, through all 64 operations and their constants |
| Md5.RotateOnce | second/md5.c:113-143 | one step of the rotating registers is one named operation of section 3.4 of RFC 1321 |
| Md5.WordOrder | second/md5.c:121-138 | the running index of each round picks the word that section 3.4 of RFC 1321 names |
| Md5.Context.Round1 | second/md5.c:112-119 | the loop is the 16 operations of round 1 |
| Md5.Context.Round2 | second/md5.c:120-127 | the loop is the 16 operations of round 2 |
| Md5.Context.Round3 | second/md5.c:128-135 | the loop is the 16 operations of round 3 |
| Md5.Context.Round4 | second/md5.c:136-143 | the loop is the 16 operations of round 4 |
| Md5.Context.TransformBlock | second/md5.c:101-149 | the state after a block is the result of the 64 named operations added to the old state |
| Md5.Context.Init | second/md5.c:152-156 | an empty message |
| Md5.Context.Update | second/md5.c:159-182 | appends to the message, however it is cut: the state is the fold over its whole blocks and the buffer holds the rest |
| Md5.PadOneBlock | second/md5.c:189-199 | with fewer than 56 bytes in the last block the padding completes that block |
| Md5.PadTwoBlocks | second/md5.c:191-199 | with more it needs one block more |
| Md5.PaddingIsRfc1321 | second/md5.c:198-199 | the padding is that of sections 3.1 and 3.2 of RFC 1321 if and only if the length modulo 2^61 is less than 2^29 |
| Md5.Context.Final | second/md5.c:185-205 | the digest of the padded message, which is its MD5 for lengths below 2^29 modulo 2^61 |
| Md5Crypt.UpdateTiled | second/md5.c:248-250 | the digest is repeated to the length of the key |
| Md5Crypt.UpdateDigits | second/md5.c:252-253 | one byte for each binary digit of the key's length |
| Md5Crypt.TiledAt | second/md5.c:248-250 | byte k of the repeated digest is byte k modulo 16 of the digest |
| Md5Crypt.DigitsAt | second/md5.c:252-253 | byte k stands for binary digit k of the key's length, and there is one for each digit |
| Md5Crypt.RoundMessage | second/md5.c:256-278 | the old digest comes first in even rounds and last in odd ones; the salt is left out in every third round and the key in between in every seventh |
| Md5Crypt.ComputeRound | second/md5.c:256-278 | the message of each of the thousand rounds |
| Md5Crypt.ComputeDigest | second/md5.c:237-278 | the digest of md5-crypt |
| Md5Crypt.FindSalt | second/md5.c:224-235 | the salt ends at the first dollar, or after 8 characters when an entry is made |
| Md5Crypt.PutDigest | second/md5.c:280-316 | writes, or compares, the 22 characters of the digest |
| Md5Crypt.Base64InAlphabet | second/md5.c:93-94 | each six bits become the character at that place of "./0-9A-Za-z" |
| Md5Crypt.EncodedBytes | second/md5.c:281-316 | each four characters are the digits to the base 64, lowest first, of three bytes of the digest: 12 6 0, 13 7 1, 14 8 2, 15 9 3 and 5 10 4; the last two are those of byte 11 |
| Md5Crypt.EncodeInjective | second/md5.c:281-316 | two digests with the same 22 characters are equal |
| Md5Crypt.Md5Password | second/md5.c:214-322 | making writes the entry and changes nothing else; checking changes nothing and returns 0 exactly for entries that the password fits |
| Md5Crypt.MadeIsAccepted | second/md5.c:224-322 | an entry made with a password is accepted with that password |
| Md5Crypt.AcceptedIffSameDigest | second/md5.c:280-322 | an entry made with one password is accepted with another if and only if both give the same digest |
| Md5Crypt.MakeAndCheck | second/md5.c:214-322 | making an entry with one password and then checking it with another returns 0 exactly when both give the same digest, and always for the same password |
| ConfigTokens.ConfigReader.NextChar | second/cfg.c:136-152 | the character pushed back, else the next one of the buffer |
| ConfigTokens.ConfigReader.SkipToToken | second/cfg.c:170-182 | stops at the first character that is neither blank nor in a comment |
| ConfigTokens.ConfigReader.ReadEscape | second/cfg.c:194-213 | what stands behind a backslash in quotes, continued lines included |
| ConfigTokens.ConfigReader.ReadQuoted | second/cfg.c:185-219 | the text in quotes, or an error for a line end, the end of the file or too many characters |
| ConfigTokens.ConfigReader.ReadPlain | second/cfg.c:221-246 | the text up to a blank, comment or equals sign, which is pushed back |
| ConfigTokens.ConfigReader.GetNextToken | second/cfg.c:159-246 | the token pushed back, else the next one of the input |
| ConfigTokens.ConfigReader.NextEntry | second/cfg.c:253-279 | item and value; a token that belongs to the next item is pushed back |
| ConfigTokens.TokenShortens | second/cfg.c:159-246 | every token uses up some of the input, ends of input pushed back not counted |
| ConfigTokens.NextShortens | second/cfg.c:253-279 | so does every entry, with the token pushed back counted as one: repeated reading ends on every input |
| ConfigTokens.ConfigReader.Parse | second/cfg.c:456-467 | ends on every input, with all entries in front of the first error |
| ConfigTokens.CommentIsSkipped | second/cfg.c:170-182 | a comment line in front of a token changes nothing |
| ConfigTokens.QuotedBack | second/cfg.c:185-219 | a text printed in quotes is read without an error, up to its first NUL, if and only if it has fewer than 511 characters, no carriage return and no 0xff |
| ConfigTokens.SpelledIsToken | second/cfg.c:221-246 | however a text is written without quotes, with a backslash in front of any of its characters, it is read back if and only if it has fewer than 511 characters, an escaped line end counting as nothing and an escaped tab as a space |
| ConfigTokens.ContinuedLine | second/cfg.c:199-207 | in quotes, a backslash, the line end and the blanks behind it are read as one space |
| ConfigTokens.ValueExpected | second/cfg.c:262-279 | an item and an equals sign need a value: the end of the input or another equals sign is an error, and so is an equals sign without an item |
| ConfigTokens.RoundTrip | second/cfg.c:143-279 | a list of items with and without values, printed in quotes, is read back unchanged through both pushbacks if and only if every text has fewer than 511 characters, no NUL, carriage return or 0xff, and is not just "=" |
| ConfigImages.Configuration.GetStrgI | second/cfg.c:281-289 | the data of the first option of that name |
| ConfigImages.Configuration.MatchArch | second/cfg.c:301-322 | whether the machine is compatible with a name |
| ConfigImages.Configuration.MatchAny | second/cfg.c:366-373 | whether it is compatible with one of the names between bars |
| ConfigImages.Configuration.CheckForObsolete | second/cfg.c:324-349 | marks the other images called by the label, unless the current one is obsolete itself |
| ConfigImages.Configuration.SetEntry | second/cfg.c:351-420 | starts an image, or ignores it, or sets an option of the current table; without memory nothing changes |
| ConfigImages.Configuration.Reset | second/cfg.c:422-444 | all options unset and no images, whatever was there |
| ConfigImages.Configuration.Parse | second/cfg.c:446-468 | the effect of setting the entries read, up to the first error, one by one on a fresh configuration |
| ConfigImages.Configuration.GetStrg | second/cfg.c:470-498 | the option of the first image in use that answers to the name, else the global one |
| ConfigImages.AssignedKeepsDistinct | second/cfg.c:393-412 | setting any option keeps labels of images in use distinct |
| ConfigImages.RunDistinct | second/cfg.c:324-420 | after every sequence of calls no two images in use have labels equal up to case |
| ConfigImages.ObsoleteStays | second/cfg.c:324-420 | over every sequence of calls obsolete is never undone and no image goes away |
| ConfigImages.WhoOutdates | second/cfg.c:324-420 | a call makes an image obsolete if and only if another image, itself in use, takes a label that the image goes by; an ignored one never does |
| ConfigImages.LastLabelWins | second/cfg.c:401-409 | an image in use that takes a label has it, and no other image in use goes by it |
| ConfigImages.CaseIgnored | second/cfg.c:395 | names are the same if they differ in the case of letters only |
| ConfigImages.BracketedHeader | second/cfg.c:358-377 | a header with names in brackets is for other machines if and only if none of the names between bars is compatible |
| ConfigImages.SetMeans | second/cfg.c:351-420 | an entry that fits an option of the current table sets it to its value, for every name equal up to case, and no other option of any table; an entry that does not fit changes no option; a header stores its path as the image option of a new table |
| ConfigImages.LastEntryWins | second/cfg.c:351-468 | over a whole run every option, global or of any image, has the value of the last entry that set it |
| ConfigImages.NeverSet | second/cfg.c:351-468 | and an option that no entry sets is not set |
| ConfigImages.BaseNameIs | second/cfg.c:483-486 | an image without a label goes by what follows the last slash of its path |
| ConfigImages.LookUpSet | second/cfg.c:470-498 | looked up by a label, an option is what the last entry about that image says, or else the last global one |
| ConfigImages.FoundByLabel | second/cfg.c:470-498 | after a whole run an image in use is the first to answer to its label, and the search is safe up to it, if and only if no image in use in front of it has that name as alias or, without a label, as path, or has neither label nor path |
| ConfigImages.LookUpByLabel | second/cfg.c:470-498 | the look-up then gives the option of that image, else the global one |
| ConfigImages.BareImage | second/cfg.c:351-391 | an image line without a path leaves an image in use that has no name, so that no look-up gets past it |
| ConfigImages.PrintedRun | second/cfg.c:446-468 | parsing a printed list of entries has the effect of setting them |
| NumberFormat.FieldWidth | lib/vsprintf.c:135-189 | the field is as wide as asked for, or as sign, prefix and digits or precision need |
| NumberFormat.DigitsAre | lib/vsprintf.c:126-130 | large digits are capital letters, the others small ones |
| NumberFormat.Signs | lib/vsprintf.c:135-150 | a field has a plus sign if and only if one is asked for and the number is not negative, and a minus sign if and only if signs are asked for and it is |
| NumberFormat.PutDigits | lib/vsprintf.c:156-164 | the digits, least significant first, never more than tmp holds |
| NumberFormat.Number | lib/vsprintf.c:123-191 | writes exactly the field, padded as the flags say, nothing else, and returns its end; a bad base writes nothing |
| NumberFormat.SimpleStrToUl | lib/vsprintf.c:24-46 | the value, modulo 2^32, of the longest run of digits of the base, and where it ends |
| NumberFormat.SimpleStrToL | lib/vsprintf.c:55-60 | the same with a minus sign in front |
| NumberFormat.RoundTrip | lib/vsprintf.c:24-191 | for every number, base 2 to 16, width, precision and flags: parsing the field from its first non-blank, with its base or with base 0 if it has a prefix, gives the number modulo 2^32 and stops right behind its digits if and only if there is no plus sign and the prefix is recognised |
| NumberFormat.PlusIsNotRead | lib/vsprintf.c:55-60 | of a field with a plus sign nothing is read |
| NumberFormat.PrefixIsNotRead | lib/vsprintf.c:28-43 | of a hexadecimal prefix only the zero is read when base 16 is asked for, and of 0X always |
| NumberFormat.DigitsFit | lib/vsprintf.c:125 | numbers of 63 bits never need more than the 66 places of tmp |
| AmigaPartitions.PartitionReader.ReadBlock | second/partition.c:294-297 | a block read overlays the buffer and leaves what is behind it |
| AmigaPartitions.PartitionReader.AmigaChecksum | second/partition.c:225-240 | the sum modulo 2^32 over the length that the block claims, at most the block size |
| AmigaPartitions.Marked | second/partition.c:303 | setting a bit adds that block to the set of visited ones and no other |
| AmigaPartitions.PrefixLonger | second/partition.c:294-313 | a valid prefix goes on exactly with a readable partition block of good checksum that was not visited |
| AmigaPartitions.PrefixBounded | second/partition.c:290-327 | a prefix without repetition is no longer than there are block numbers up to the limit |
| AmigaPartitions.LongestPrefix | second/partition.c:290-327 | the longest valid prefix of a chain is unique |
| AmigaPartitions.Cylinders | second/partition.c:318-326 | where nothing wraps around, a partition starts with its low cylinder and ends right behind its high one |
| AmigaPartitions.PartitionReader.Visit | second/partition.c:294-313 | one turn of the walk accepts a block exactly when the prefix goes on with it |
| AmigaPartitions.PartitionReader.AmigaLookup | second/partition.c:267-330 | ends on every chain, cyclic or not, after at most RDBLIMIT + 2 reads; lists, last one first and numbered from 1, exactly the blocks of the longest valid prefix that repeats none |

## Left out

- Open Firmware: `second/prom.c` and its retries are not part of this model; the disk is a value, and only ext2 reads and partition blocks can fail.
- ReiserFS device reads do not fail; a read behind the end of the disk gives an arbitrary block.
- Paths, symbolic links, directories and the superblock checks of `second/fs_reiserfs.c`: they would add easy members.
- ReiserFS files with holes (block number 0) or of 4 GiB and more: the reader does not support them either.
- ReiserJournal.JournalReader.BlockRead: what it delivers after looking behind its tables is not part of this model. For the comparison with the replayed disk, and for IntendedBlockRead, transactions that claim more block numbers than descriptor and commit block hold (LengthsFit), or name a block twice (BlocksDistinct), are excluded for those replayed; the source would look behind its tables. JournalInit excludes the first kind only for transactions that fit the cache.
- Trees deeper than the node cache (`second/fs_reiserfs.c:619-627`): no block size up to 4096 has them.
- ReiserTree.TreeReader.ReadTreeNode: after a node of the wrong level the cache no longer agrees with its block numbers, because the source overwrites the slot before it looks at the level; the contract says so, and reading on from there is not modelled.
- ReiserFile.FileReader.ReadData: returns the bytes as a sequence, so it does not say that the caller's buffer is otherwise untouched.
- ReiserTree.TreeReader.SearchStat: only the order of separators against stat items is used; the order of the other keys is not modelled.
- libext2fs itself: only the contract of its iterator is modelled.
- `mark`, `release` and `strdup` of `lib/malloc.c`, `realloc` of the null pointer before any allocation, shrinking an older block, and addresses that wrap around: outside the contract of the allocator.
- The MD5 table of sines is taken as given; it is not derived from the sine function.
- Md5Crypt.Md5Password: passwords and salts have fewer than 2^30 characters, because the source counts in `int`. Also left out are checking an entry with no '$' behind its header, where the source takes a negative salt length (`second/md5.c:225`), and making one from a salt of less than 8 characters with no '$' behind it, where the source looks behind its end (HasDollar, HasSalt).
- ConfigTokens.ConfigReader.GetNextToken: a failing strdup is not modelled; in the source its null pointer would be taken for the end of the file.
- Line numbers, warnings and error messages of the configuration parser; `last_item` is never set, so that branch of `cfg_next` is left out.
- ConfigImages.Configuration.MatchArch: the "compatible" property of the machine is a constant list of names; reading it, and cutting it at 256 bytes, is not modelled.
- ConfigImages.Configuration.GetStrg: images without label and path in front of the one looked for are excluded; the source would search a null pointer for a slash.
- Printing menus and choosing a default image (`second/cfg.c:500-640`): user interface.
- NumberFormat.Number: the most negative 64-bit number, and negative numbers printed as unsigned, are excluded; the source has no defined result for them.
- Format strings of `vsprintf`, and `simple_strtoull`, which is `simple_strtoul` with more bits: they would add easy members.
- AmigaPartitions.PartitionReader.AmigaLookup: block numbers above RDBLIMIT, and checksums longer than the buffer, are excluded (InBounds), because the source does not check them; a failing malloc for a list entry is not modelled.
- Finding the Amiga disk block, and Mac, DOS and ISO partitions: they would add easy members.
- `second/fs_xfs.c`, `second/fs_iso.c`, ELF loading, network boot, `lib/strtol.c` and the assembly files: other or simpler code.
