# Verification models of the concentrator's algorithms

The repository is the firmware of a heat-meter concentrator. It keeps records in append-only
log files, indexes them with a size-balanced tree, uploads them to a portal, and carries a copy
of zlib. This project models its algorithms in Dafny and proves what they are for.

**Tree and storage**

- `SizeBalancedTree`, `SearchTree`: the tree as a value; balance, termination, order, depth and deletion.
- `TreeNodes`: the same operations on heap nodes rewritten in place, tied to the values.
- `LogFile`, `LogQueue`: a file as bytes and a position, and the FIFO kept in three files.
- `Portal`: the upload queues over whole runs with failing sends, failing writes and crashes.
- `LogDb`: the generation log, saved and loaded through the tree.

**zlib**

- `Words`, `Remainders`: 32-bit words as naturals, exclusive or bit by bit, division in small steps.
- `Crc32`, `Crc32Check`, `Crc32Fast`, `Crc32Combine`: the shift register of section 8 of RFC 1952 and what it
  detects, its check value, the table-driven and word-wise loops, and combination with matrices over GF(2).
- `Adler32`: deferred reduction, the reductions without division, combination.
- `Lz77`: what tokens mean (section 3.2.5 of RFC 1951).
- `DeflateHash`, `DeflateDictionary`: the rolling hash and the hash chains over stream positions.
- `DeflateState`, `DeflateWindow`, `DeflateMatch`, `DeflateTally`: the compressor's state, `fill_window`,
  `longest_match`, and the tally and flush macros.
- `DeflateRule`: what a match search has to find, and what a turn of each compression function does, said of
  the input alone.
- `DeflateGreedy`, `DeflateLazy`, `DeflateStoring`, `DeflateRle`: the five compression functions.
- `DeflateRun`: one call of `deflate`, and any sequence of calls; `DeflateTokens`: the tokens of some runs;
  `DeflateExamples`: two runs with unexpected ends.

**Small refinements**

- `RingBuffer`: the single-producer, single-consumer ring.
- `Calendar`: seconds to broken-down time and back.
- `CsvParser`: the field machine against a writer.
- `Options`: the option datatype.

## How the model reads the source

- Integers are unbounded; a 32-bit wrap-around is written as a remainder by 2^32 or an explicit
  case (`Count`, `Next`, `NextKey`, the match start after a slide, `mktime_new`'s result). A shift is
  a division or a multiplication, a mask of low bits a remainder; for the ring's mask this is proved
  (`AndMask`). Signed overflow of the field products in `mktime_new` is taken as not happening.
- Methods are the source's loops and in-place updates, cut at natural points into smaller methods.
  Ghost fields name what the fields stand for: the input read so far, the stream position of
  window[0], the positions in the dictionary and those missed, the places of the window not yet written
  (a copy of an unwritten byte is not written either), the tokens already in blocks, and the point from
  which decompression can restart.
- What the program has no influence on is an arbitrary schedule given beforehand, so that every result
  is a function of it: which writes to a file fail, how each send ends, after how many steps a drain is
  cut off by a crash, which compressed block fills the output, and whether a call brings room for output.
- `_tr_flush_block` appends the tallied tokens to the flushed ones; the schedule says whether the block
  fills the output. A call of `deflate` without room does nothing.
- `size_t`, `off_t` and `unsigned long` are 32 bits wide, as on the board.
- A write to a file is all or nothing. A crash between two writes leaves the files in the state that
  a failure of the second write leaves. A send that fails may have reached the server.
- `sbtree_insert` sends equal keys left and rotations can move them right, so order is weak: the
  in-order sequence is nondecreasing.

## What the proofs found

- `sbtree_delete` searches the left subtree for key + 1. When the key is the largest `size_t` value,
  this wraps to 0 and the order is lost exactly when deletion stops at a node with two children whose
  left subtree holds different keys (`DeleteKeepsOrder`, with a concrete tree in `DeleteWrapExample`).
- The one-byte path of `adler32` subtracts the modulus once from the second sum. For a starting value
  whose upper half is not reduced this can fall short; `Adler32` states the condition exactly, and
  `OneByteExample` is an instance. Checksums that `adler32` itself produced are reduced.
- `dbput` does not report a failed write of the index record (`Put`: its result depends on the data
  writes alone): the pair is in the tree until the program ends, and lost on the next load.
- When the pointer write of DB_NEW fails, which is not reported either, the next load finds the old
  generation and the new one as one (`SmoothSave`). Of equal keys the tree visits the one inserted first
  last, so the old data overwrite the new ones (`OlderWins`, with an instance in `StaleDatum`). A save whose
  puts all go through is loaded as it was saved if and only if the pointer write went through or the old
  generation agrees with it (`RebuiltExactly`). With the pointer written, a save is complete if and only if
  no write of a put failed (`SaveExact`).
- `lqdequeue`'s result is ignored by the drain loops, so a record whose dequeue fails or is cut off
  is delivered again. Order and completeness hold with such repetitions collapsed, and these are the
  only repetitions among the acknowledged records (`Repetitions`, with an instance in `RepeatedExample`).
- Lazy matching does not enter every string. When a call returns because a block filled the output
  after the last bytes of its input were passed, the strings of the last two bytes are not left over
  for insertion and stay out of the dictionary. A run in which that happens is `MissedStrings`: 128
  different bytes at level 4 and memory level 1 with a sync flush whose block, complete at 127 tokens,
  fills the output; with the next input the strings at 126 and 127 are missed. This costs compression only.
  `DictionaryComplete` and `DeflateSlow` say exactly which strings are missed, `StrandedNone` when
  there are none.
- `fill_window` clears bytes ahead of the data so that the comparisons read no memory never written. A
  slide also copies bytes beyond the high-water mark, which it leaves where it is, so up to four such bytes
  come to lie below it and within reach (`ReadsWritten`; `StaleNone` says exactly when). `UnwrittenByte` is
  a run: 762 bytes are consumed from a window of 1024, and then come three more. What is found does not
  depend on these bytes (`SameBeyond`).

## Model

| member | source | states |
|---|---|---|
| SizeBalancedTree.Rotate | src/sbtree.c:25-51 | Each of the four rotations keeps the in-order sequence and the size and strictly lowers the sum of all subtree sizes, on any tree |
| SizeBalancedTree.Maintain | src/sbtree.c:25-56 | Maintenance terminates on every tree, balanced or not, and changes neither the node sequence nor the size |
| SizeBalancedTree.TallInnerSettleable | src/sbtree.c:28-31 | When inner grandchild > outer grandchild > other child, the opposite-flag call after the single rotation performs the double rotation that the first call left undone |
| SizeBalancedTree.MaintainBalances | src/sbtree.c:25-56 | One flagged call, which looks at one side only, makes every tree with balanced children and a bounded lean balanced, and does not enlarge its larger child |
| SizeBalancedTree.SettleBalances | src/sbtree.c:52-55 | The four calls after a rotation balance every tree that a rotation can leave behind |
| SearchTree.InsertBalances | src/sbtree.c:58-69 | Inserting any key into a size-balanced tree leaves every child at least as large as both children of its sibling |
| SearchTree.InsertAllBalances | src/sbtree.c:58-69 | Every sequence of insertions from empty yields a size-balanced tree with as many nodes as insertions |
| SearchTree.InsertOrder | src/sbtree.c:66 | Insertion places the node before the first node whose key is not smaller, whatever the rotations do |
| SearchTree.InsertAllSequence | src/sbtree.c:58-69 | After any insertions the sequence is sorted, and the nodes of one key stand in the reverse of their insertion order |
| SearchTree.HeightBound | src/sbtree.c:25-69 | A size-balanced tree of height h has at least Fib(h + 2) - 1 nodes |
| SearchTree.SearchFinds | src/sbtree.c:97-106 | Search finds a node with the key if and only if one is in the tree |
| SearchTree.SearchIsLogarithmic | src/sbtree.c:58-106 | After n insertions a search that looks at p nodes has Fib(p + 2) <= n + 1 |
| SearchTree.DeleteConserves | src/sbtree.c:71-95 | On every tree and for every key, exactly the returned node leaves the tree |
| SearchTree.DeleteRemoves | src/sbtree.c:71-95 | Unless key + 1 wraps, the remaining sequence is the old one without one entry, which has the key if any entry does and otherwise stands next to it |
| SearchTree.DeleteKeepsOrder | src/sbtree.c:77-93 | A node with a present key is returned, and the result is ordered if and only if the wrap does not meet a left subtree with different keys |
| SearchTree.DeleteWrapExample | src/sbtree.c:83 | A concrete ordered tree whose order the wrap of key + 1 destroys |
| TreeNodes.RotateLeftInPlace | src/sbtree.c:3-12 | The pointer rewrite is the left rotation, with exact sizes, touching two nodes |
| TreeNodes.RotateRightInPlace | src/sbtree.c:14-23 | The pointer rewrite is the right rotation, with exact sizes, touching two nodes |
| TreeNodes.MaintainInPlace | src/sbtree.c:25-56 | The in-place recursion computes the value-level maintenance on the same nodes, with every size field exact and no node shared |
| TreeNodes.InsertInPlace | src/sbtree.c:58-69 | The in-place insertion computes the value-level insertion and writes only the tree and the new node |
| TreeNodes.DeleteInPlace | src/sbtree.c:71-95 | The in-place deletion computes the value-level deletion; the node returned is no longer among the tree's nodes |
| TreeNodes.Find | src/sbtree.c:97-106 | Search on nodes returns the node the value-level search finds, or null |
| TreeNodes.Sequence | src/sbtree.c:108-115 | The walk visits every node once, in the in-order sequence |
| LogQueue.RecordWritten | src/logqueue.c:73-85 | At byte level, data plus index record append exactly one string to the queue and leave all earlier ones as they were |
| LogQueue.DataWritten | src/logqueue.c:77 | After the first write alone the queue reads as before |
| LogQueue.PointerWritten | src/logqueue.c:99-104 | The one write of a dequeue drops exactly the first queued string |
| LogQueue.FirstQueued | src/logqueue.c:127-133 | The record at the recorded head offset names the bytes of the first queued string |
| LogQueue.Queue.IsEmpty | src/logqueue.c:58-71 | Says whether the queue is empty, for every state of the files |
| LogQueue.Queue.Enqueue | src/logqueue.c:73-85 | Succeeds if and only if both writes go through, and then appends the string; otherwise the queue is as it was, and the files hold exactly what the writes that went through left |
| LogQueue.Queue.Front | src/logqueue.c:119-141 | Returns the oldest string, or fails if and only if the queue is empty |
| LogQueue.Queue.Dequeue | src/logqueue.c:87-117 | Removes and returns the oldest string; fails if and only if the queue is empty or the pointer write fails, and then the queue is as it was |
| Portal.Deliver | src/CPortal.cpp:868-917 | Delivering the head of the queue once more, or the next record, keeps the delivered numbers a gapless run when repetitions are collapsed |
| Portal.Portal.Insert | src/CPortal.cpp:854-861 | The record joins the queue's history if and only if neither its data write nor its index write fails, whatever was inserted before; on the files that is the step of the record-level protocol |
| Portal.InsertAccepts | src/CPortal.cpp:854-861 | In every state of the protocol an insertion is accepted if and only if neither of its two writes fails, and changes nothing else but the counts of writes |
| Portal.AcceptedExactly | src/CPortal.cpp:854-861 | Over every run, with drains and restarts in between, the accepted records are the data of exactly those insertions whose two writes go through, in order |
| Portal.AllAccepted | src/CPortal.cpp:854-861 | If no write to the data or index file fails, the accepted records are the data of all insertions, in order |
| Portal.Portal.Send | src/CPortal.cpp:910-914 | The bytes sent are those of the accepted record at the head; they arrive unless the send is lost, and it succeeds if and only if it is confirmed |
| Portal.SendDoes | src/CPortal.cpp:910-914 | One send: the head record arrives unless the send is lost, is acknowledged if and only if it is confirmed, and nothing else changes |
| Portal.Portal.Discard | src/CPortal.cpp:915 | A dequeue whose result is ignored moves to the next record if and only if its pointer write goes through |
| Portal.Portal.Drain | src/CPortal.cpp:863-919 | The drain loop on the files is the drain of the record-level protocol, whose sends DrainSends and FailedSendEnds describe, with the same outcome, cut off by a crash after any number of sends and dequeues |
| Portal.DeliveredInOrder | src/CPortal.cpp:863-919 | In every run the records that reached the server, and those acknowledged, with repetitions collapsed, are a prefix of the accepted records, and the bytes that arrived are theirs |
| Portal.AlwaysInOrder | src/CPortal.cpp:854-986 | In every state of every run, every dequeued record was confirmed, only the head of the queue can have arrived early, and each record was confirmed once for its dequeue and once for each dequeue of it that was lost |
| Portal.Repetitions | src/CPortal.cpp:910-915 | The acknowledged records are, counted with multiplicity, each dequeued record once and each record once more for every lost dequeue of it; there are no repetitions if and only if no dequeue was lost, or only that of the record now at the head |
| Portal.RepeatedExample | src/CPortal.cpp:910-915 | One record and one drain whose first dequeue fails: it is acknowledged twice |
| Portal.DrainEmpties | src/CPortal.cpp:863-919 | If no send and no dequeue fails, a drain with enough steps empties the queue |
| Portal.DrainEnds | src/CPortal.cpp:863-919 | A drain reports an empty queue if and only if every accepted record is dequeued, each then confirmed |
| Portal.FailedSendEnds | src/CPortal.cpp:910-914 | When the send at the head is not confirmed, the drain ends with that one send and reports it, and the record stays at the head |
| Portal.DrainSends | src/CPortal.cpp:863-919 | In a whole drain every send but the last is confirmed, a failed send is reported if and only if the last one was not confirmed, there is one dequeue for each confirmed send that no crash follows, and a crash comes only after the given steps |
| Portal.FailedSendExample | src/CPortal.cpp:910-914 | One record, a lost send and then a good link: the drain sends once, and the record is still queued |
| Portal.Run | src/CPortal.cpp:854-986 | The program on its files, through any insertions, drains and restarts, is in the state that the protocol assigns to these events, and that state is in order |
| LogDb.DecodeEncodeRecord | src/logdb.c:168-179 | An index record reads back as written |
| LogDb.RecordExample | src/logdb.c:168-179 | The sixteen bytes of a record: key, offset, key length and data length, each with its lowest byte first |
| LogDb.PutWrites | src/logdb.c:162-182 | What a put adds to each file for every pattern of failing writes: the key, the data behind it, and a record with the generated key, the old end of the data file and both lengths |
| LogDb.HoldsNext | src/logdb.c:162-182 | The three writes of one put extend the newest generation by exactly that pair |
| LogDb.Db.OpenNew | src/logdb.c:75-83 | Opening anew starts a generation at the end of the index; the pointer file holds that offset if its write goes through and is otherwise as it was |
| LogDb.Db.Put | src/logdb.c:162-182 | Succeeds if and only if both data writes go through, whatever becomes of the index write; the three files hold exactly what the writes that went through left; on success one node with the generated key and the extent is added |
| LogDb.Db.LoadIndex | src/logdb.c:101-117 | Loading makes a node for each record of the recorded generation, in order, and no other |
| LogDb.Db.Visit | src/logdb.c:184-199 | Visits the pair behind every node of the tree, in tree order |
| LogDb.VisitElements | src/logdb.c:184-199 | The visit is a rearrangement of the generation's pairs |
| LogDb.Save | src/CForwarderMonitor.cpp:1711-1722 | A new generation and one put for each pair, with put failures ignored: the files are those of that sequence of writes |
| LogDb.SaveStores | src/CForwarderMonitor.cpp:1711-1722 | Whatever writes fail, the generation recorded in the pointer file holds the pairs whose three writes went through, after those of the old generation if the pointer write failed |
| LogDb.SmoothSave | src/CForwarderMonitor.cpp:1711-1722 | If every put goes through, a load will find the saved pairs, and if only the pointer write failed, the old generation before them |
| LogDb.SaveExact | src/CForwarderMonitor.cpp:1711-1722 | With the pointer written, a load will find exactly the saved pairs if and only if no write of a put failed |
| LogDb.Load | src/CForwarderMonitor.cpp:1701-1709 | Visits the pairs of the generation recorded in the pointer file, in nondecreasing order of generated keys |
| LogDb.RoundTrip | src/CForwarderMonitor.cpp:51-57 | For any pairs and however many generated keys collide: the visit is in key order, and the rebuilt map has for each key the datum put first, which is the saved map if equal keys come with equal data |
| LogDb.FirstWins | src/CForwarderMonitor.cpp:51-57 | Because equal keys are visited in reverse of their insertion, the load rebuilds the map of the reversed pairs, for any pairs |
| LogDb.OlderWins | src/CForwarderMonitor.cpp:1701-1722 | Of two generations loaded as one, the data of the older win |
| LogDb.RebuiltExactly | src/CForwarderMonitor.cpp:1701-1722 | After a save whose puts all go through the rebuilt map is the saved one, overwritten with what the old generation holds if the pointer write failed; so it is the saved one if and only if the pointer write went through or the old generation agrees with it |
| LogDb.StaleDatum | src/CForwarderMonitor.cpp:1701-1722 | From empty files, two saves under one key, the second with a failed pointer write: the load finds the first datum |
| LogDb.SaveManyThenLoad | src/CForwarderMonitor.cpp:1701-1722 | After any number of saves with any writes failing, a load visits exactly the pairs stored since the last recorded generation and rebuilds the map in which the first of equal keys wins; if no put of the last save failed, that is the map saved if and only if its pointer write went through or what was loaded before agrees with it |
| LogDb.LastSave | src/CForwarderMonitor.cpp:1701-1722 | If no put of the last save fails, a load finds its pairs, after those found before if the pointer write failed |
| Crc32.BitsLinear | lib/zlib/crc32.c:111-116 | Shifting zero bits through the register is linear over exclusive or |
| Crc32.TableStep | lib/zlib/crc32.c:200 | The low byte selects a table entry, the rest moves down: that is eight bit steps |
| Crc32.WordAbsorb | lib/zlib/crc32.c:241-243 | Adding a word and shifting 32 bits is adding its four bytes one at a time |
| Crc32.CrcAppend | lib/zlib/crc32.c:204-236 | Checksumming in two pieces is checksumming the whole |
| Crc32.CrcCombines | lib/zlib/crc32.c:355-408 | The first checksum moved past as many zero bytes as the second piece has, plus the second checksum, is the checksum of both pieces |
| Crc32.BitsInjective | lib/zlib/crc32.c:111-116 | Shifting zero bits through the register loses nothing: different registers stay different |
| Crc32.DetectsBurst | lib/zlib/crc32.c:204-236 | Any change within four consecutive bytes changes the checksum, for every start and whatever stands before and after |
| Crc32Check.CheckValue | lib/zlib/crc32.c:227-235 | The checksum of the nine digits "123456789" from 0 is 0xcbf43926 |
| Crc32Check.DetectsLeadingZero | lib/zlib/crc32.c:227-235 | Because of the complement before the message, a zero byte put in front of any string changes its checksum |
| Crc32Fast.MakeCrcTable | lib/zlib/crc32.c:90-133 | The tables hold what each byte contributes after 1 to 4 bytes of shifting, in both byte orders |
| Crc32Fast.PatternValue | lib/zlib/crc32.c:97-108 | The powers listed in the source make the polynomial 0xedb88320 |
| Crc32Fast.Crc32Bytes | lib/zlib/crc32.c:227-235 | The byte-wise loop computes the reference CRC for every starting value and buffer |
| Crc32Fast.Crc32Little | lib/zlib/crc32.c:247-278 | The little-endian word-wise loop computes the reference CRC for every starting value, length and alignment |
| Crc32Fast.Crc32Big | lib/zlib/crc32.c:287-320 | So does the big-endian loop, whose register is byte-swapped throughout |
| Crc32Fast.SwapXor | lib/zlib/zutil.h:250-251 | Byte swapping distributes over exclusive or |
| Crc32Fast.Crc32Any | lib/zlib/crc32.c:204-236 | Whichever loop is chosen, the result is the reference CRC, and 0 for a null buffer |
| Crc32Combine.TimesApplies | lib/zlib/crc32.c:327-341 | A matrix whose columns are the images of the single bits applies the operator to every vector |
| Crc32Combine.MatrixTimes | lib/zlib/crc32.c:327-341 | The scanning loop computes the product and stays within 32 columns |
| Crc32Combine.MatrixSquare | lib/zlib/crc32.c:344-352 | Squaring the operator for n zero bits gives the one for 2n |
| Crc32Combine.Combine | lib/zlib/crc32.c:355-408 | Alternating the two matrices moves the first checksum past any number of zero bytes and adds the second; lengths that are not positive return the first |
| Crc32Combine.CombineChecksums | lib/zlib/crc32.c:355-408 | From the checksums of two strings and the second length the checksum of the concatenation results, for all strings |
| Adler32.Chop | lib/zlib/adler32.c:29-34 | Folding the upper bits in with weight 15 keeps the remainder |
| Adler32.Mod28 | lib/zlib/adler32.c:35-39 | Equals the remainder for every value below 2^28 |
| Adler32.Mod32 | lib/zlib/adler32.c:40-44 | Equals the remainder for every 32-bit value |
| Adler32.Mod63 | lib/zlib/adler32.c:45-57 | Equals the remainder for every value below 2^63 |
| Adler32.AdlerIsPerByte | lib/zlib/adler32.c:104-132 | Deferring the reduction agrees with reducing both sums at every byte, as section 8.2 of RFC 1950 defines |
| Adler32.CheckValue | lib/zlib/adler32.c:104-132 | The checksum of the nine digits "123456789" from 1 is 0x091e01de |
| Adler32.NoOverflow | lib/zlib/adler32.c:14-16 | Within 5552 unreduced bytes both sums stay below 2^32, even from an unreduced start |
| Adler32.LongerOverflows | lib/zlib/adler32.c:15-16 | 5553 bytes of 255 pass 2^32 even from reduced sums, so that 5552 is the largest such number |
| Adler32.Blocks | lib/zlib/adler32.c:104-114 | After every full block the sums are congruent to the exact ones and reduced |
| Adler32.Adler32 | lib/zlib/adler32.c:65-133 | The result is the checksum if and only if the buffer is not a single byte whose one subtraction falls short |
| Adler32.OneByteExample | lib/zlib/adler32.c:77-86 | A starting value and a byte for which the one subtraction falls short |
| Adler32.Adler32Any | lib/zlib/adler32.c:77-90 | The same with the null-buffer test, which yields 1 |
| Adler32.AdlerAppend | lib/zlib/adler32.c:65-133 | Checksumming in two pieces is checksumming the whole |
| Adler32.Combine | lib/zlib/adler32.c:136-162 | For reduced checksums both halves of the result are the stated residues, after at most two subtractions; negative lengths yield all ones |
| Adler32.CombineChecksums | lib/zlib/adler32.c:136-162 | From the checksums of two strings and the second length the checksum of the concatenation results |
| Lz77.CopyRepeats | lib/zlib/deflate.c:1671-1672 | Copying from a distance reproduces a stretch that repeats at that distance, also when it runs into itself |
| Lz77.ExpandNext | lib/zlib/deflate.h:323-339 | A token that describes the next stretch of the input extends a faithful expansion and stays within the format's limits |
| DeflateHash.RollForgets | lib/zlib/deflate.c:167 | After three bytes the rolling hash depends on nothing before them, for every hash size |
| DeflateHash.ThirdByte | lib/zlib/deflate.c:1248-1251 | With at least 8 hash bits, equal hashes and equal first two bytes force an equal third byte |
| DeflateDictionary.LinkedInsert | lib/zlib/deflate.c:185-189 | Entering a string keeps every chain true (earlier positions with the same hash) and complete (none skipped) |
| DeflateDictionary.LinkedSlide | lib/zlib/deflate.c:1419-1448 | After a slide every live entry names the same stream position or ends its chain, and chains stay complete |
| DeflateDictionary.LinkedMore | lib/zlib/deflate.c:1467-1468 | Reading more input changes nothing on the chains |
| DeflateDictionary.CompleteRead | lib/zlib/deflate.c:1470-1489 | When input is read, the left-over strings are entered as far as they are complete now, and exactly the complete ones before them stay out for good |
| DeflateDictionary.StrandedNone | lib/zlib/deflate.c:1470-1489 | Reading strands no string if and only if those before the left-over ones have all their bytes, or there are none, or the input completes none |
| DeflateDictionary.StrandedExample | lib/zlib/deflate.c:1819-1829 | Reading three bytes after 128 with none left over strands the strings at 126 and 127 |
| DeflateState.State.constructor | lib/zlib/deflate.c:1106-1131 | The initial state meets the invariant with nothing read, tallied or entered |
| DeflateState.WindowSizes | lib/zlib/deflate.c:284-302 | Window and tally sizes lie within what 16-bit positions and the block limits need |
| DeflateState.DefaultSizes | lib/zlib/deflate.c:284-302 | The sizes and limits for the default arguments: a window of 32768 bytes, distances up to 32506, 16384 tokens to a block, stored blocks up to 65531 bytes |
| DeflateWindow.Slide | lib/zlib/deflate.c:1419-1451 | A slide moves window, positions and both tables down by the window size; everything keeps its stream position |
| DeflateWindow.ReadBuf | lib/zlib/deflate.c:1076-1101 | Takes as much input as fits and puts it right behind the data in the window |
| DeflateWindow.InsertString | lib/zlib/deflate.c:185-189 | Enters the string under its true hash and hands back the nearest earlier position with that hash, or 0 |
| DeflateWindow.RestartHash | lib/zlib/deflate.c:1470-1489 | The hash is recomputed from the window, and of the left-over strings exactly those with three bytes by now are entered |
| DeflateWindow.MakeRoom | lib/zlib/deflate.c:1401-1465 | After a possible slide at least two bytes of room are left and strstart is far enough from the end |
| DeflateWindow.FillTurn | lib/zlib/deflate.c:1401-1490 | One turn of the refill loop keeps stream positions and the match distance, ends the input or shortens it, and misses exactly the stranded strings |
| DeflateWindow.FillWindow | lib/zlib/deflate.c:1390-1532 | The window stays a copy of the input; it ends with enough lookahead or no input, slides exactly when strstart was far enough, keeps stream positions and the distance to the match start, misses exactly the stranded strings, and forgets none that was entered; the high-water mark is WIN_INIT bytes ahead of the data, or farther, or at the end, and below it exactly those places are unwritten that a slide with a lower mark left so |
| DeflateWindow.StaleNone | lib/zlib/deflate.c:1419-1528 | A slide leaves something unwritten below the mark if and only if the mark is short of the end of the window and the data of its middle |
| DeflateMatch.CompareStrings | lib/zlib/deflate.c:1256-1268 | The comparison in steps of eight finds the exact number of equal bytes, at most 258 |
| DeflateMatch.ThirdByteAgrees | lib/zlib/deflate.c:1248-1254 | On the chain, the third byte that is not compared is equal |
| DeflateMatch.CompareCandidate | lib/zlib/deflate.c:1242-1268 | A candidate is passed over only if it cannot beat the best length so far; otherwise its exact length results |
| DeflateMatch.PickIsLongest | lib/zlib/deflate.c:1195-1285 | The plain search returns the longest of its candidates unless it stops at one that is long enough |
| DeflateMatch.SearchChain | lib/zlib/deflate.c:1195-1285 | The loop with its quick rejections finds the same length and start as comparing every candidate in full |
| DeflateMatch.LongestMatch | lib/zlib/deflate.c:1148-1289 | Called with the head of the current chain, the result is that of the plain search cut to the lookahead; unless the chain limit or the nice length ended the search, no entered position in reach begins a longer match; above the previous length it is a true match within the distance limit |
| DeflateMatch.ChainComplete | lib/zlib/deflate.c:1284-1285 | Following the links visits every entered position with the current hash above the limit, unless the chain limit comes first |
| DeflateMatch.LongestIsLongest | lib/zlib/deflate.c:1135-1142 | If neither the chain limit nor the nice length ends the search, an entered position within reach does not begin a longer match of three or more bytes |
| DeflateMatch.SameBeyond | lib/zlib/deflate.c:1199-1205 | On any window with the same data the length found, cut to the lookahead, is the same, and so is the start unless the match held is as long as the lookahead: what lies beyond the data has no influence |
| DeflateMatch.ReadsWritten | lib/zlib/deflate.c:1496-1503 | A comparison, which may reach strstart + 258, reads an unwritten byte only in the last four places of the lower half, below the mark |
| DeflateMatch.EnterString | lib/zlib/deflate.c:1652-1660 | The string at strstart is entered if it has three bytes; the candidate found is on its chain, and no nearer position with its hash, or none at all when 0 is returned, was entered |
| DeflateRule.EqualInWindow | lib/zlib/deflate.c:1242-1268 | The common length of two strings in the window, cut to the lookahead, is that in the input |
| DeflateRule.ChainInCrowd | lib/zlib/deflate.c:1284-1285 | The chain followed is no longer than there are earlier positions in reach with the hash of the string, so that the chain limit ends no search when these are fewer |
| DeflateRule.PickIsFirst | lib/zlib/deflate.c:1273-1283 | Before the candidate picked there was none as long, nor one that was long enough to stop at |
| DeflateTally.TallyLit | lib/zlib/deflate.h:323-329 | The literal is tallied, the tokens stand for one more byte, and a flush is asked for if and only if the tally is one short of its buffer |
| DeflateTally.TallyDist | lib/zlib/deflate.h:330-339 | The pair is tallied, the tokens stand for its length more bytes, and a flush is asked for if and only if the tally is one short of its buffer |
| DeflateTally.FlushBlock | lib/zlib/deflate.c:1538-1553 | All tallied tokens go into the block, the next block starts at strstart, and an early return happens exactly when the output is full |
| DeflateTally.EndBlock | lib/zlib/deflate.c:1840-1852 | A last block is written if and only if the stream is to be finished or something is tallied, and the four results tell which, and whether the output is full |
| DeflateGreedy.EmitMatch | lib/zlib/deflate.c:1668-1704 | Exactly the match found is output, with its length and distance, and passed over; the strings inside it are entered, all of them, if and only if it is no longer than max_lazy and three bytes follow it; hash and dictionary are right for the next position |
| DeflateGreedy.FastStep | lib/zlib/deflate.c:1649-1711 | One turn outputs one token: a true match, passed over, or the byte; unless as many strings in reach share its hash as the search may look at, or the match has the nice length, no entered string in reach begins a longer one, so a literal means that none has three bytes |
| DeflateGreedy.NoneBeatsLongest | lib/zlib/deflate.c:1659-1667 | The length that the search finds is not beaten by any entered string within reach, said of the input, if the crowd with its hash is small enough |
| DeflateGreedy.FastStepFlush | lib/zlib/deflate.c:1649-1711 | The turn with its flush: a block is written if and only if the tally is one short of its buffer |
| DeflateGreedy.DeflateFast | lib/zlib/deflate.c:1628-1722 | For levels 1 to 3 a call is a sequence of such turns and of refills; no string entered is forgotten; the tokens always expand to the input before strstart; a finished block means all input is expanded and flushed |
| DeflateLazy.FindLazy | lib/zlib/deflate.c:1755-1786 | The string is entered and the held match moves to the previous one; there is a search if and only if the held length is below max_lazy and there are three bytes; beyond the held length it finds only true matches worth having; and unless as many strings in reach share the hash as it may look at, or the nice length is found, no string of the window in reach that was not missed begins a longer one worth having |
| DeflateLazy.NoneBeatsKept | lib/zlib/deflate.c:1765-1786 | What the search keeps is not beaten by any string of the window within reach, save the missed ones, said of the input, if the crowd with its hash is small enough |
| DeflateLazy.NoneWithoutChain | lib/zlib/deflate.c:1765-1766 | When the head of the chain is 0 or out of reach, no string in reach begins a match at all |
| DeflateLazy.TryLonger | lib/zlib/deflate.c:1759-1786 | The match kept is the one the plain search finds, unless it is not worth it; if neither chain limit nor nice length ended the search, no position of the window in reach that was not stranded begins a longer match |
| DeflateLazy.DictionaryComplete | lib/zlib/deflate.c:1730-1853 | What the invariant of lazy matching, which DeflateSlow keeps, says of the dictionary: of all strings since the last full flush it holds all but the stranded ones |
| DeflateLazy.WholeWindow | lib/zlib/deflate.c:1135-1142 | With such a dictionary "no entered position" is "no position of the window" |
| DeflateLazy.EmitHeld | lib/zlib/deflate.c:1790-1813 | Exactly the held match is output, one byte late, at its original distance even if its start wrapped in a slide |
| DeflateLazy.SlowStep | lib/zlib/deflate.c:1752-1837 | One turn: the held match is output, at its distance, if what FindLazy promises of the next byte is no longer; otherwise the byte before, if there is one, and what was found is held; a full tally becomes a block |
| DeflateLazy.DeflateSlow | lib/zlib/deflate.c:1730-1853 | For levels 4 to 9 a call is a sequence of such turns and of refills, with the undecided byte output at the end of the input; the tokens always expand to the input before strstart less the undecided byte, and the dictionary is complete save the missed strings; these are exactly those that reading stranded, and none if the last call did not stop for a full output; a finished block means all input is expanded and flushed |
| DeflateTokens.LazyTokensOf | lib/zlib/deflate.c:1730-1853 | A run of `deflate`: "abcabcabcabc" at once, at every level from 4 to 9 and with every window and memory level: a, b, c, a and a match of eight bytes from three bytes back |
| DeflateTokens.FastTokensOf | lib/zlib/deflate.c:1628-1722 | The same run at levels 1 to 3 has the same tokens, and enters the five strings up to the match only |
| DeflateStoring.RefillStored | lib/zlib/deflate.c:1581-1590 | No slide drops bytes not yet in a block ("slide too late") |
| DeflateStoring.TakeStored | lib/zlib/deflate.c:1591-1609 | The block start never becomes negative ("block gone"); a block is cut off exactly when the bytes not yet in one reach the block limit, which then is its size, or the distance limit, and then it takes them all |
| DeflateStoring.DeflateStored | lib/zlib/deflate.c:1564-1619 | The blocks are consecutive pieces of the input, each at most min(65535, buffer - 5) bytes and, except the last when the input is used up, no less than that or the distance limit; a finished block means all input is written |
| DeflateRle.ScanRun | lib/zlib/deflate.c:1887-1895 | The scan in steps of eight finds the exact length of the run, at most 258 |
| DeflateRle.RunLength | lib/zlib/deflate.c:1882-1900 | The run is a true match at distance 1; its length is exactly how often the byte before is repeated in the input, at most 258 times, or 0 if less than three times or at the beginning of the window |
| DeflateRle.RleStep | lib/zlib/deflate.c:1882-1917 | One turn outputs the run as a match at distance 1 if it has three bytes or more, and otherwise the byte, and passes over it |
| DeflateRle.HuffStep | lib/zlib/deflate.c:1951-1956 | One turn outputs the byte |
| DeflateRle.PlainStep | lib/zlib/deflate.c:1882-1957 | The turn of either loop with its flush: a block is written if and only if the tally is one short of its buffer |
| DeflateRle.DeflatePlain | lib/zlib/deflate.c:1861-1967 | With run-length or literal-only coding a call is a sequence of such turns and of refills; the tokens expand to the input before strstart; a finished block means all input |
| DeflateTokens.PlainTokensOf | lib/zlib/deflate.c:1861-1967 | For every input given to `deflate` at once, with either strategy, the tokens are exactly those that the input determines, however the window is refilled and slid |
| DeflateRule.CourseKept | lib/zlib/deflate.c:1861-1967 | In every sequence of turns and refills, the tokens so far and those of the rest of the input are the tokens of the whole input |
| DeflateRule.OnlyLiterals | lib/zlib/deflate.c:1928-1967 | With literals only the tokens are the bytes |
| DeflateTokens.RunExample | lib/zlib/deflate.c:1882-1917 | Five equal bytes and another: a literal, a match of four at distance 1, a literal |
| DeflateRun.Deflate | lib/zlib/deflate.c:897-946 | For every level, strategy and flush request the output means a prefix of the input, and all of it from which decompression can start at the last full flush, unless more is needed; more is needed only if a block written in this call filled the output, and then the blocks stand for more of the input than before, or nothing was to be flushed and all is read; only a full flush forgets the history; short of one, what the call did to the tokens is a sequence of the turns of the function that the strategy, and then the level, selects |
| DeflateRun.RunCall | lib/zlib/deflate.c:870-946 | Unless the output is full, a call reads all its input, brings all of it out on a flush request, and finishes the stream if and only if it is asked to; one that fills the output has sent more of the input; without room it does nothing |
| DeflateRun.BlocksMean | lib/zlib/deflate.c:1538-1553 | The blocks written mean the beginning of the input up to the start of the next block |
| DeflateRun.Restarts | lib/zlib/deflate.c:926-938 | In every state the tokens since the last full flush expand, without what went before, to the beginning of the input since then |
| DeflateRun.ForgetHistory | lib/zlib/deflate.c:931-938 | A full flush forgets the dictionary and makes the present position a restart point without changing what the output means |
| DeflateRun.FormatLimits | lib/zlib/deflate.h:281-286 | In every state all pairs have lengths 3 to 258 and distances 1 to the window size less 262, and stored blocks fit 16 bits and the buffer |
| DeflateRun.Compress | lib/zlib/deflate.c:897-946 | Over any sequence of calls, chunks, flush requests and output space the output means a prefix of what was fed, and all of it once the stream is finished; a caller who keeps asking to finish, with room in every call, succeeds after at most one call for each byte fed and one more; if the output never fills, the stream is finished if and only if a call asks for it, and lazy matching misses no string |
| DeflateExamples.MissedStrings | lib/zlib/deflate.c:1730-1853 | A run: 128 different bytes at level 4 with a sync flush whose block fills the output, then three bytes; the strings at 126 and 127 are missed |
| DeflateExamples.UnwrittenByte | lib/zlib/deflate.c:1861-1900 | A run: 762 bytes with a window of 1024, consumed, then three; the last byte that the scan for a run can reach is a copy of one never written, below the mark |
| RingBuffer.AndMask | src/cbuffer.c:39-57 | Masking with 2^k - 1 is the remainder by the capacity |
| RingBuffer.WrapKeepsCell | src/cbuffer.h:15-23 | Going around 2^32 does not change the cell a counter means |
| RingBuffer.HeldFill | src/cbuffer.c:48-57 | Writing the cell handed out for writing changes nothing that is queued |
| RingBuffer.HeldPop | src/cbuffer.h:17-19 | Stepping the read counter, also around 2^32, removes exactly the oldest cell |
| RingBuffer.Ring.Read | src/cbuffer.c:39-46 | Hands out the oldest queued cell, or nothing if and only if the ring is empty |
| RingBuffer.Ring.Write | src/cbuffer.c:48-57 | Hands out a free cell, or nothing if and only if the ring is full |
| RingBuffer.Ring.ReadDone | src/cbuffer.h:17-19 | Removes the oldest cell from the queue |
| RingBuffer.Ring.WriteDone | src/cbuffer.h:21-23 | Appends the cell that was filled |
| RingBuffer.RunsAreSound | src/cbuffer.c:39-57 | In every interleaving of one producer and one consumer, what comes out is a prefix of what went in, the cell being filled is never the cell being read, and the latter keeps its content |
| RingBuffer.Interleave | src/cbuffer.c:39-57 | Both sides calling the buffer in any order take it through the steps of the interleaving |
| Calendar.LeapYearsAgree | src/Utils.cpp:270-334 | The two leap-year macros agree on every year |
| Calendar.MonthTable | src/Utils.cpp:331-350 | The table of days before a month, with the leap day added from March on, is the running sum of the month lengths |
| Calendar.MonthRule | src/Utils.cpp:272-275 | The days before each month follow the rule of five months with 153 days, without any table |
| Calendar.DayAfterNumber | src/Utils.cpp:303-322 | Stepping day by day from 1 January 1970 arrives at the date, weekday and day of the year with that number |
| Calendar.YearRule | src/Utils.cpp:270-350 | The days before a year are 365 for each, with one more for each leap year counted by quotients by 4, 100 and 400 |
| Calendar.GregorianNumber | src/Utils.cpp:331-350 | The day number of every real date from 1970 on is the one of the Gregorian calendar's rule |
| Calendar.GregorianDay | src/Utils.cpp:303-322 | The date reached after n days has the number n by that rule |
| Calendar.KnownDates | src/Utils.cpp:272-275 | Ends of months and leap days of 1970, 2000 and 2100 with their weekdays |
| Calendar.GmtimeNew | src/Utils.cpp:284-329 | The loops end, never leave the month table, and yield the day the calendar is at and the time within it |
| Calendar.MktimeNew | src/Utils.cpp:337-362 | The result is the number of seconds since 1970, modulo 2^32 |
| Calendar.SecondsRule | src/Utils.cpp:337-362 | The seconds of a real date, by the rule of the calendar |
| Calendar.KnownTimes | src/Utils.cpp:284-362 | 7689600 is the beginning of 31 March 1970 and 7776000 that of 1 April, both ways for the latter, and a time on 29 February 2000 both ways |
| Calendar.MktimeUndoesGmtime | src/Utils.cpp:284-362 | For every 32-bit time the fields are in range and convert back to it |
| Calendar.GmtimeUndoesMktime | src/Utils.cpp:284-362 | Every real date from 1970 on whose seconds fit 32 bits is recovered |
| CsvParser.Populate | src/csvparser.cpp:3-43 | The loop computes the field machine on every line and delimiter |
| CsvParser.ParseLine | src/csvparser.cpp:12-41 | A line written with any legal choice of quoting reads back as its fields up to the first NUL |
| CsvParser.BehindQuote | src/csvparser.cpp:17-39 | Text behind a closing quote is appended to the field, up to the delimiter or line end |
| CsvParser.Unclosed | src/csvparser.cpp:17-39 | A quote that is never closed takes all the rest up to a NUL, delimiters and line ends included |
| CsvParser.RoundTrip | src/csvparser.cpp:3-43 | Reading undoes writing if and only if no field contains a NUL |

## Left out

- `dbget` and DB_APPEND (src/logdb.c:84-100, 150-160): neither does what its name says (one reads the payload from the index file, the other opens write-only and then reads).
- `lqopen`'s error paths, and record files damaged from outside: a queue is opened on well-formed files, which every operation keeps.
- Torn writes and a disk that fills up within a single write.
- `LogDb.Db.OpenNew`: requires a pointer file of at most four bytes, the only kind the program makes, because DB_NEW overwrites that file from its start.
- `LogQueue.Queue.Enqueue`: requires data and index to stay below 2^32 bytes, where the 32-bit offsets end.
- `Portal.Run`: requires the same of every insertion of the run.
- `LogDb.Save`: requires the same of the data and index files.
- `LogDb.SaveManyThenLoad`: requires the same of every save of the run.
- Huffman coding, the choice of block type, inflate, the gz functions, zlib and gzip headers and trailers.
- `deflateParams`, `deflateSetDictionary`, `deflateCopy`; level and strategy are fixed for a run and no dictionary is preset.
- The API checks and the bookkeeping of output space in `deflate`, with its early return from a call that has nothing to do; the builds FASTEST, UNALIGNED_OK and ASMV.
- The literal CRC tables of crc32.h (the tables here are those `make_crc_table` builds), and the flag that guards concurrent table making.
- Packet headers, node count, time stamp and CRC-16 around an uploaded record, and the serial number `m_SerialIndex`.
- The fetch loops of CValveMonitor, serial and GPRS transport, threads and locks, hardware, CINI, timers and BCD fields.
- Compression ratio: the contracts say what the tokens mean and that a match search is exact, not that a greedy or lazy choice is the best one.
