# libhpack and libchula: a verified model

This project models four parts of the repository in Dafny and proves what they are for.

* **The threaded AVL tree** of `libchula/avl_generic.c` (`AvlSpec`, `AvlLaws`, `AvlRep`, `AvlTree`), with the comparison of
  `avl.c` (`AvlKeys`). Nodes are mutable objects with cached balances and threads; a ghost tree says which nodes hang where.
  Insertion and deletion are proved to keep order, threads, child flags and balances, and to act as updates of a finite map.
* **The Huffman coder** of `libhpack/huffman-gen.py` and `libhpack/huffman.c` (`Bits`, `HuffmanCode`, `HuffmanTable`,
  `HuffmanGen`, `Huffman`), for every complete prefix-free code of 257 symbols with 4 to 30 bits and an EOS of more than
  7 bits. A node of the code tree is named by its path; one bit at a time is the reference for everything else.
* **The HPACK contexts** of `header_table.c`, `bitmap_set.c`, `integer.c`, `header_parser.c` and `header_encoder.c`
  (`BitmapSet`, `Integers`, `HeaderFifo`, `HeaderTable`, `HeaderBlocks`, `HeaderRuns`, `HeaderDraft`, `HeaderAccepts`,
  `HeaderParser`, `HeaderEncoder`). The circular buffers refine a queue of fields; the parser refines a step function over the queue and
  two sets of slots. `HeaderDraft` states the specification without either of them: a list of marked entries, and what the
  octets of a block ask for, read without the shortcuts of the parser. The step function does what is asked for, and keeps
  its references live, if and only if the step is none of ten named departures; whole blocks follow. `HeaderAccepts` adds
  the other direction: what is asked for is done unless it is one of the listed refusals, so that a block is parsed to its
  end, with what the specification says it emits, under a condition on the list of entries and the octets alone.
* **Classic algorithms of libchula**: the merge sort of `list.c` on its circular links (`MergeSort`, `ListSort`), the
  streaming and padding of `sha512.c`, `sha1.c` and `md5.c` (`Hashing`, `Sha512`, `Sha1`, `Md5`), and base64 from
  `buffer.c`, decoded in place (`Base64`). `Sequences` holds the one law about concatenation that all parts use.

Each mutable structure is a class whose methods run the loops of the source and are tied, by their contracts, to
specification functions on values; the laws are lemmas about those functions. `dafny verify dfyconfig.toml` checks
everything.

## Where the code and its intent differ

The model follows the code, unless a line below says otherwise. For each place the members named give the condition under
which the code does what it is meant to do.

References and requests (`HeaderRuns.Upsets` and `HeaderDrafts.Departs` list them; `HeaderRuns.StepInv` and
`HeaderDrafts.StepRefines` prove for every successful step that nothing else departs and that each of these does):

* `libhpack/header_table.c:711-712` clears the table for a limit of zero without reporting evictions, so that references
  dangle if there are any.
* `libhpack/header_parser.c:364-377` references a static entry even if it did not fit in the table.
* `libhpack/header_table.c:814-857` accepts index 0, converts it to the free slot behind the newest entry, and reads what
  was left there. The parser emits that and references the slot (`HeaderRuns.IndexZeroDangles`). Input: a literal with
  indexing, 0x30, 0x20 and 0x80; after the limit of zero the octets are still there (`HeaderTables.UncoverFirst`), and the
  last octet emits the field again.
* `libhpack/header_table.c:573` restores the largest limit when it clears, against the comment at `:554-557`. A field that
  does not fit leaves the context with another limit than it had, unless that was the largest (`HeaderDrafts.InsertSeen`).
* `libhpack/header_parser.c:348` looks up indices above 128 modulo 128 (`HeaderRuns.AliasedIndex`).
* `libhpack/header_parser.c:501` tests four bits even for the prefix of six (`HeaderBlocks.FourBitsAreRight`: 0x50, 0x60 and
  0x70).
* The limit of a table (`header_table.c:697`) and the index of a name (`header_table.c:816`) are cut to 16 bits.
* `libhpack/header_parser.c:585-599` takes 0x31 to 0x3f for limits, although the flag of an emptied reference set is set.
* `libhpack/header_parser.c:260-262` does not look at `accept`, so that a Huffman-encoded string may end in any bits; section
  5.2 of RFC 7541 allows only up to seven first bits of EOS.

Refusals (`HeaderAccepts.Refuses` lists them; `HeaderAccepts.StepCompletes` proves for every request that is in order,
outside 0x50, 0x60 and 0x70, that it is refused if and only if it is one of these):

* an integer that does not end within the length of what is left modulo 256 (`libhpack/integer.c:121`), or within six
  octets, or that exceeds 32 bits;
* a literal with indexing and an empty name (see below).

Elsewhere:

* `libhpack/bitmap_set.c:483` shifts an `int`. The methods use the cast-first form of `:488`. As it is written the test is
  right for every word exactly up to position 30 (`BitmapSets.TestAsWritten`), and a whole iteration returns every member
  exactly if no word has a member from 31 to 62, nor both 30 and 63 (`BitmapSets.WholeIteration`; slots 30 and 40 are the
  example). `HeaderRuns.EmitsAsWritten` and `HeaderRuns.BlockAsWritten` carry that over to what a block emits.
* `libhpack/header_table.c:386` and `:432` subtract `head` from the run to the physical end. The table reads with the
  measure that is used for writing (`:470`); `HeaderTables.AsWrittenIsRight` says for which reads the written measure
  gives the stored octets whatever they are, and that it fails for all others; `HeaderTables.StoredAsWritten` and
  `HeaderTables.OldestAsWritten` say it of the fields of a table.
* `libhpack/integer.c:121` narrows the length of what is left to `unsigned char`. `Integers.NarrowingHarmless` gives the
  exact condition, and `HeaderEncoders.RenderAndParse` what becomes of strings of 127 octets or more.
* `libchula/avl_generic.c:229`, `:415` and `:584` narrow comparison results to `short`. The order of the tree is the
  narrowed one; `AvlLaws.NarrowingFits` says when it is that of the comparator. For the comparator of `avl.c`, which returns
  differences of lengths, `AvlKeys.KeysAgree` gives the condition; keys of 1 and 65537 octets pass for equal.
* `libchula/sha512.c:199-201` carries one bit from the low word of the count, which is enough exactly for pieces of less
  than 2 to the 61 octets (`Sha512Streams.CountStep`).
* `libhpack/header_parser.c:736` ends a block without octets at once if the one before it was finished, so that nothing
  is emitted although the references stay (`HeaderRuns.EmptyBlockAfterBlock`).

## Model

| member | source | states |
|---|---|---|
| AvlSpec.RotLExact | libchula/avl_generic.c:131-167 | a left rotation keeps every stored balance equal to the difference of the heights, for all subtree heights, and keeps the sequence |
| AvlSpec.RotRExact | libchula/avl_generic.c:169-205 | the same for a right rotation |
| AvlSpec.BalancedAvl | libchula/avl_generic.c:208-223 | a node that is off by two between AVL subtrees becomes an AVL tree, one level lower exactly if its new balance is zero |
| AvlSpec.BalancedInorder | libchula/avl_generic.c:208-224 | rebalancing keeps the in-order sequence |
| AvlSpec.AddUpAvl | libchula/avl_generic.c:284-313 | the upward loop of an insertion ends with an AVL tree |
| AvlSpec.AddUpInorder | libchula/avl_generic.c:284-314 | and keeps the sequence |
| AvlSpec.DelUpAvl | libchula/avl_generic.c:548-574 | the upward loop of a deletion ends with an AVL tree |
| AvlSpec.DelUpInorder | libchula/avl_generic.c:548-575 | and keeps the sequence |
| AvlSpec.RemovedAvl | libchula/avl_generic.c:450-574 | removing a node in any of the five cases leaves an AVL tree |
| AvlSpec.RemovedInorder | libchula/avl_generic.c:455-575 | removing a node takes exactly that node out of the sequence |
| AvlLaws.AddFromInorder | libchula/avl_generic.c:247-282 | an insertion puts a new key at its rank, and fails exactly if an equal key is there |
| AvlLaws.AddFromAvl | libchula/avl_generic.c:226-314 | an insertion keeps the tree AVL |
| AvlLaws.SearchFinds | libchula/avl_generic.c:431-448 | the search ends at the node whose key compares equal, or no key does |
| AvlLaws.GetIsMembership | libchula/avl_generic.c:582-615 | looking up a sorted sequence is membership up to equal comparison |
| AvlLaws.AddIsMapUpdate | libchula/avl_generic.c:390-407 | inserting a new key defines that key and changes no other |
| AvlLaws.RemoveIsMapRemoval | libchula/avl_generic.c:413-578 | removing a key undefines that key and changes no other |
| AvlLaws.NarrowingFits | libchula/avl_generic.c:229-229 | the tree orders all keys as the comparator does if and only if each result is zero, or positive with low 16 bits from 1 to 32767, or negative with low 16 bits from 32768 on |
| AvlLaws.ShortFits | libchula/avl_generic.c:415-415 | a result keeps its sign exactly under that condition; 65536 passes for equal and 32768 for less |
| AvlLaws.NarrowedTotal | libchula/avl_generic.c:584-584 | then a total preorder of the comparator is one of the tree |
| AvlKeys.KeysAgree | libchula/buffer.c:1137-1146 | two keys are ordered by length and then by octets if and only if their lengths are equal or differ, modulo 65536, by 1 to 32767, or by 32768 with the shorter one first |
| AvlKeys.OctetsDecide | libchula/buffer.c:1138-1146 | the comparison of keys of one length is negative, positive or zero exactly if the first octet that differs is smaller, is larger or does not exist |
| AvlKeys.EqualByLength | libchula/avl.c:70-80 | a key of 1 octet and one of 65537 octets pass for equal |
| AvlKeys.ShortKeysOrdered | libchula/avl.c:71-79 | among keys whose lengths differ by less than 32768 only equal keys pass for equal, and the order is total |
| AvlLaws.AvlSize | libchula/avl_generic.c:37-37 | an AVL tree of height h has at least the Fibonacci-like least number of nodes |
| AvlLaws.HeightFits | libchula/avl_generic.c:37-38 | with at most 4807526974 nodes no index into the ancestor stack passes 44 |
| AvlLaws.MinNodesAttained | libchula/avl_generic.c:36-37 | any sequence of that many nodes, ascending ones included, is the in-order sequence of an AVL tree of the height |
| AvlLaws.StackOverrun | libchula/avl_generic.c:37-39 | with one node more, some tree in order has height 46, a slot more than the ancestor stack has: the bound is sharp |
| AvlRep.RotateLeft | libchula/avl_generic.c:132-166 | the pointer assignments of a left rotation build the rotated tree, threads and flags included |
| AvlRep.RotateRight | libchula/avl_generic.c:170-204 | the same for a right rotation |
| AvlRep.NodeBalance | libchula/avl_generic.c:209-223 | the single and double rotations build the rebalanced tree in place |
| AvlTree.AvlMap.RebalanceAdd | libchula/avl_generic.c:284-312 | the loop over the ancestor stack does what the upward function of insertion says, within the stack |
| AvlTree.AvlMap.RebalanceDel | libchula/avl_generic.c:548-573 | the same for deletion |
| AvlTree.AvlMap.NodeAdd | libchula/avl_generic.c:227-314 | a node is added at its place with the whole invariant kept, or rejected and freed with the tree as it was |
| AvlTree.AvlMap.UnlinkLeaf | libchula/avl_generic.c:455-466 | a node without children gives its thread to its parent |
| AvlTree.AvlMap.UnlinkSingle | libchula/avl_generic.c:468-496 | a node with one child is replaced by it, and the neighbour's thread moves on |
| AvlTree.AvlMap.RemoveBoth | libchula/avl_generic.c:497-545 | a node with two children is replaced by its successor, near or far |
| AvlTree.AvlMap.Del | libchula/avl_generic.c:413-577 | exactly the node of the key leaves the tree and is freed; order, threads, flags and balances hold |
| AvlTree.AvlMap.GetValue | libchula/avl_generic.c:582-614 | the value of the map, or not found, or an error for an empty key |
| AvlTree.AvlMap.AddValue | libchula/avl_generic.c:390-408 | the map gains one key or, for a duplicate, stays as it is |
| AvlTree.AvlMap.DelKey | libchula/avl_generic.c:412-578 | the map loses exactly the keys that compare equal, and the old value is returned |
| AvlTree.AvlMap.NodeNext | libchula/avl_generic.c:109-117 | the next node in order, reading no freed node |
| AvlTree.AvlMap.NodeFirst | libchula/avl_generic.c:93-106 | the first node in order |
| AvlTree.AvlMap.While | libchula/avl_generic.c:626-654 | the callback sees each key once, ascending, until it declines |
| AvlTree.AvlMap.MrProper | libchula/avl_generic.c:676-702 | every node is freed exactly once and none is read after that |
| HuffmanCode.WalkConcat | libhpack/huffman-gen.py:204-252 | walking along two paths in a row is walking along their concatenation |
| HuffmanCode.WalkWord | libhpack/huffman-gen.py:330-339 | from the root a codeword leads back to the root and yields its symbol: the check of each path in the generator cannot fail |
| HuffmanCode.WalkEncoded | libhpack/huffman-gen.py:341-347 | the codewords of any message yield the message: the check of the stream of all symbols cannot fail |
| HuffmanCode.AtMostOneSymbol | libhpack/huffman-gen.py:305-310 | four bits complete at most one codeword, since none is shorter |
| HuffmanCode.DecodeConcat | libhpack/huffman.c:125-161 | one-bit decoding of two parts with the state carried over is decoding their concatenation, errors included |
| HuffmanCode.DecodeIsWalk | libhpack/huffman.c:147-149 | decoding fails exactly when a walk completes EOS, with the symbols before it |
| HuffmanCode.RoundTrip | libhpack/huffman.c:76-161 | codewords padded with any proper prefix of EOS decode to the message |
| HuffmanTable.PreorderCount | libhpack/huffman-gen.py:266-280 | below any node there is one inner node less than there are leaves |
| HuffmanTable.InnerNodes | libhpack/huffman-gen.py:254-280 | 257 leaves give exactly 256 numbers, one for each inner node, the root first |
| HuffmanTable.NumberUnique | libhpack/huffman-gen.py:272-277 | each number belongs to one inner node |
| HuffmanGen.CodeTree.BuildFromLeaf | libhpack/huffman-gen.py:174-196 | the tree gains exactly the nodes on a path and labels the last; other labels stay |
| HuffmanGen.CodeTree.AssignIds | libhpack/huffman-gen.py:266-281 | the inner nodes are numbered in preorder and the leaves keep their symbols |
| HuffmanGen.CodeTree.GetNodes | libhpack/huffman-gen.py:254-264 | the inner nodes are listed in the order of their numbers |
| HuffmanGen.CodeTree.Traverse | libhpack/huffman-gen.py:204-251 | end node, symbols and visited numbers are those of the walk |
| HuffmanGen.BuildTree | libhpack/huffman-gen.py:312-316 | the nodes are exactly the prefixes of codewords, and the leaves carry their symbols |
| HuffmanGen.EosPadding | libhpack/huffman-gen.py:321-327 | the numbers of the first seven nodes after the root on the way to EOS, and no others |
| HuffmanGen.CellIsRight | libhpack/huffman-gen.py:285-300 | the flags and the symbol of a cell say where four bits lead, what they emit and whether padding may end there |
| HuffmanGen.GenDecodeTable | libhpack/huffman-gen.py:302-384 | refuses exactly the codes with a word of less than four bits; row k is that of the node numbered k and every cell is right |
| Huffman.NibblesAgree | libhpack/huffman.c:143-157 | four bits at a time give the same symbols and the same failure as one bit at a time, on every input |
| Huffman.NibblesConcat | libhpack/huffman.c:126-160 | decoding in portions of whole half bytes is decoding the concatenation |
| Huffman.HuffmanDecode | libhpack/huffman.c:125-160 | the table automaton appends what the reference decoder yields, fails where it fails, and leaves the context at its node |
| Huffman.EncodeSymbol | libhpack/huffman.c:36-62 | the bits of one codeword follow the bits written so far, across octets |
| Huffman.HuffmanEncode | libhpack/huffman.c:76-110 | the octets carry the codewords and then the first bits of EOS; what was in the buffer is kept |
| Huffman.DecodeEncoded | libhpack/huffman.c:99-161 | decoding what was encoded gives the message and ends in an accepting node |
| Huffman.EncodeDecode | libhpack/huffman.c:77-161 | for every message, encoder and then decoder return it, with accept set and no error |
| BitmapSets.BitSet.Add | libhpack/bitmap_set.c:114-124 | the set gains the slot, or the slot is out of range and nothing changes |
| BitmapSets.BitSet.Remove | libhpack/bitmap_set.c:160-170 | the set loses the slot and no other |
| BitmapSets.BitSet.RelativeComp | libhpack/bitmap_set.c:185-191 | set difference, also with the set itself |
| BitmapSets.BitSet.Exists | libhpack/bitmap_set.c:277-285 | membership |
| BitmapSets.BitSet.IsEmpty | libhpack/bitmap_set.c:297-306 | true exactly for the empty set |
| BitmapSets.BitSet.IsFull | libhpack/bitmap_set.c:318-327 | true exactly if all 128 slots are members |
| BitmapSets.BitSet.Clear | libhpack/bitmap_set.c:239-245 | no slot is left |
| BitmapSets.BitSet.Fill | libhpack/bitmap_set.c:257-263 | all slots are members |
| BitmapSets.BitSet.Assign | libhpack/bitmap_set.c:359-366 | the members of the other set, which may be the same object |
| BitmapSets.EmptyAndFull | libhpack/bitmap_set.c:297-327 | comparing words with zero or all ones decides emptiness or fullness |
| BitmapSets.TestRest | libhpack/bitmap_set.c:482-488 | a mask that is widened before the shift says whether a bit is left at or above the position |
| BitmapSets.TestAsWritten | libhpack/bitmap_set.c:483-483 | the mask as it is written does so, for every word, exactly up to position 30 |
| BitmapSets.SetIterator.Next | libhpack/bitmap_set.c:472-508 | with the widened mask: the least member from the present position on, or none, wherever the iterator stopped before |
| BitmapSets.AsWrittenIs | libhpack/bitmap_set.c:480-505 | what the loops as they are written return, by the members of the set: at position 31 of a word only that bit counts, and behind it the result is undefined |
| BitmapSets.WholeIteration | libhpack/bitmap_set.c:473-508 | as it is written, an iteration returns all members in order if and only if no word has a member from 31 to 62 nor both 30 and 63; otherwise it is undefined or leaves one out |
| BitmapSets.FortyIsSkipped | libhpack/bitmap_set.c:483-503 | of the slots 30 and 40 only the first is returned |
| Integers.Encode | libhpack/integer.c:58-96 | the octets of the encoding are written, which RoundTrip and EncodedShortest fix: at most six, with the rest of the memory untouched |
| Integers.Decode | libhpack/integer.c:118-154 | accepted values fit 32 bits and consume between one and six octets, no more than there are |
| Integers.GetGroups | libhpack/integer.c:140-153 | an accepted value is the sum of the prefix and the shifted groups it consumed |
| Integers.AccumulatorFits | libhpack/integer.c:127-142 | that sum stays below 2 to the 36 on every input |
| Integers.RoundTrip | libhpack/integer.c:58-154 | for every prefix, value and trailing octets, decoding returns value and length, and the high bits of the first octet are kept |
| Integers.EncodedShortest | libhpack/integer.c:77-96 | no octets that decode to the value are fewer, and as many with the same high bits are the encoding itself |
| Integers.NarrowingHarmless | libhpack/integer.c:121-141 | narrowing the length is harmless for all contents if and only if it leaves the length or at least six octets |
| HeaderFifo.ExcessIsLeast | libhpack/header_table.c:626-632 | what is evicted is the shortest run of oldest fields whose removal makes room |
| HeaderFifo.SizesAgree | libhpack/header_field.c:279-291 | the size that an addition puts on the account is the one that an eviction takes off, exactly for fields that are not empty |
| HeaderFifo.FewFields | libhpack/macros.h:50-57 | never more than 124 fields |
| HeaderFifo.AddSound | libhpack/header_table.c:597-677 | an addition keeps the bounds, and only a field that cannot fit yields the full evicted set |
| HeaderFifo.SetMaxSound | libhpack/header_table.c:695-728 | a new limit keeps the bounds |
| HeaderFifo.AddKeepsSlots | libhpack/header_table.c:53-70 | all slots but the evicted ones keep their field while the indices shift; the new field has index 1 and a slot that was free |
| HeaderFifo.SetMaxKeepsSlots | libhpack/header_table.c:715-723 | the slots that stay live keep their field |
| HeaderFifo.SwitchIndex | libhpack/header_table.c:852-853 | an index denotes the slot of that newest field |
| HeaderFifo.SwitchSlot | libhpack/header_table.c:900-912 | the conversion of a live slot gives a valid index, and converting twice is the identity |
| HeaderFifo.RunKeepsNewest | libhpack/header_table.c:597-728 | after every run of additions and limits the table holds the newest of all fields ever added, at most 124 |
| HeaderTables.DataRing.Add | libhpack/header_table.c:457-482 | octets follow the content across the physical end, or do not fit and nothing changes |
| HeaderTables.DataRing.Get | libhpack/header_table.c:371-395 | what lies from an offset on, in one or two pieces, with the run to the physical end that is meant |
| HeaderTables.OffsetRing.Add | libhpack/header_table.c:335-350 | an offset is appended unless 127 are there |
| HeaderTables.InfoRoundTrip | libhpack/header_table.c:649-655 | lengths and flags are read as they were stored |
| HeaderTables.StoredRest | libhpack/header_table.c:281-310 | without the oldest record the two buffers hold the remaining fields |
| HeaderTables.StoredAppend | libhpack/header_table.c:638-674 | a field that is accounted for always fits in both buffers, which then hold it as the newest |
| HeaderTables.StoredField | libhpack/header_table.c:766-785 | the offset of each field leads to its record |
| HeaderTables.FlatSize | libhpack/header_table.c:309-310 | the octets in use are the accounted size less 24 for each field |
| HeaderTables.HeaderTable.SlotReads | libhpack/header_table.c:766-786 | reading from the offset of a live slot gives its field |
| HeaderTables.HeaderTable.Evict | libhpack/header_table.c:271-315 | the oldest field leaves the queue and its slot is returned; the consistency check cannot fail |
| HeaderTables.HeaderTable.Add | libhpack/header_table.c:597-677 | never fails; queue and evicted set are those of the specification |
| HeaderTables.HeaderTable.SetMax | libhpack/header_table.c:695-728 | fails exactly above 4096; queue and evicted set are those of the specification |
| HeaderTables.HeaderTable.GetSetIdx | libhpack/header_table.c:750-788 | the field in a live slot; for the free slot behind the newest whatever its octets say, or an error if they give a length above 4096; an error for any other |
| HeaderTables.HeaderTable.Get | libhpack/header_table.c:814-857 | the field of an index in the dynamic or the static table, the remains in the free slot for index 0, or not found |
| HeaderTables.UncoverFirst | libhpack/header_table.c:711-727 | after a limit of zero index 0 finds the field that had the first slot |
| HeaderTables.AsWrittenIsRight | libhpack/header_table.c:386-392 | for which head, offset and length the read as written returns the stored octets, and for which it does not |
| HeaderTables.StoredAsWritten | libhpack/header_table.c:770-785 | for which head, offset and lengths the three reads of a stored field return its octets as they are written |
| HeaderTables.OldestAsWritten | libhpack/header_table.c:298-301 | the information of the oldest field is read right as it is written exactly if the head is below 2045 or from 2049 to 4088 |
| HeaderTables.ReachMiddle | libhpack/header_table.c:271-311 | two additions and an eviction move the head to 2045, where that read is wrong |
| HeaderBlocks.IntConsumes | libhpack/header_parser.c:246-248 | an integer consumes at least one octet and stays in the block |
| HeaderBlocks.FieldAtProgress | libhpack/header_parser.c:721-783 | every successful step consumes octets within the block or advances the iterator |
| HeaderBlocks.FourBitsAreRight | libhpack/header_parser.c:501-511 | the test of four bits agrees with a test of the whole prefix, for all that may follow, except for 0x50, 0x60 and 0x70 |
| HeaderBlocks.NameOfIndex | libhpack/header_parser.c:501-513 | the name of an accepted literal with an index is that of the entry counted from the newest one, or of the static entry behind the oldest, with its origin; an index cut to zero gives what was left behind |
| HeaderRuns.StepInv | libhpack/header_parser.c:170-194 | after a successful step pending is within the references and these are live, if and only if the step is not one of three named kinds; a failing step keeps that too |
| HeaderRuns.ZeroIndex | libhpack/header_parser.c:336-338 | an index is zero exactly if its first octet is 0x80 |
| HeaderRuns.ReferenceInv | libhpack/header_parser.c:375-377 | an index of the table may be referenced exactly if it is not zero |
| HeaderRuns.IndexZeroDangles | libhpack/header_parser.c:346-380 | index 0 emits what is left in the free slot and references it, so that the reference dangles; it fails if nothing whole is left |
| HeaderRuns.AliasedIndex | libhpack/header_parser.c:347-355 | the test for a reference is right exactly unless the index is above 128 and its alias is referenced |
| HeaderRuns.AddFieldInv | libhpack/header_parser.c:178-190 | adding drops the references to what was evicted, and the new entry may be referenced exactly if it was added |
| HeaderRuns.StepKeeps | libhpack/header_parser.c:321-610 | what stays referenced stays pending if it was, and denotes the same field |
| HeaderRuns.DataKeeps | libhpack/header_parser.c:739-780 | behind the octets of a block pending is what was pending and referenced throughout |
| HeaderRuns.FinalEmits | libhpack/header_parser.c:636-673 | the end of a block emits each pending field once, in slot order, and makes all references pending again |
| HeaderRuns.FieldsOfCount | libhpack/header_parser.c:649-672 | there are as many emissions as pending slots |
| HeaderRuns.BlockEmits | libhpack/header_parser.c:829-878 | a block emits what its octets say and then exactly once each field that was referenced at its start and stayed so, unchanged |
| HeaderRuns.EmitsAsWritten | libhpack/header_parser.c:649-672 | with the iterator as it is written the pending fields are emitted, each once, if and only if their slots are safe |
| HeaderRuns.BlockAsWritten | libhpack/header_parser.c:840-878 | so the end of a block emits what was referenced throughout if and only if those slots are safe |
| HeaderRuns.EmptyBlockAfterBlock | libhpack/header_parser.c:646-647 | a block without octets after a finished one emits the references exactly if there are none |
| HeaderDrafts.MarkSeen | libhpack/header_parser.c:347-377 | setting or clearing the bit of an index changes the mark of that entry of the list and of no other |
| HeaderDrafts.InsertSeen | libhpack/header_parser.c:368-377 | adding a field drops the same oldest entries from the list and appends one that is referenced and not pending; an oversized field empties the list, and the limit stays exactly if the field fits or the limit was the largest |
| HeaderDrafts.IntAgrees | libhpack/integer.c:117-154 | an integer that the parser accepts is the one that is meant, without limits on its size or length |
| HeaderDrafts.StringAgrees | libhpack/header_parser.c:228-272 | a string that the parser accepts is the one that is meant, decoded one bit at a time, unless it ends in something else than padding |
| HeaderDrafts.PairAgrees | libhpack/header_parser.c:485-539 | so are name and value, unless the padding is none, the index of the name needs more than 16 bits or four of its six bits are tested |
| HeaderDrafts.StepRefines | libhpack/header_parser.c:739-782 | a successful step leaves live references and is the answer of the specification to what its octets ask for, octets consumed included, if and only if it is none of the named departures |
| HeaderDrafts.DataRefines | libhpack/header_parser.c:839-866 | a block without departures emits what the specification says of its octets, and leaves the list that it says |
| HeaderDrafts.BlockRefines | libhpack/header_parser.c:829-877 | and then the fields of the entries that are still pending, each as often as it occurs, with the list ready for the next block |
| HeaderDrafts.LeftoversIgnored | libhpack/header_parser.c:829-877 | such a block is parsed in the same way whatever is left in the free slot of the table |
| HeaderDrafts.EndRefines | libhpack/header_parser.c:649-673 | at the end of a block exactly the fields of the pending entries of the list are emitted, each as often as it occurs |
| HeaderAccepts.IntCompletes | libhpack/integer.c:117-154 | an integer is read as it is meant, unless it does not end within six octets or the narrowed length, or needs more than 32 bits |
| HeaderAccepts.StringCompletes | libhpack/header_parser.c:228-272 | every string that is meant is read, unless the parser gives up on its length |
| HeaderAccepts.PairCompletes | libhpack/header_parser.c:485-539 | every name and value that are meant are read, unless the parser gives up on one of their integers |
| HeaderAccepts.IndexCompletes | libhpack/header_parser.c:341-380 | every index of an entry, in either table, is accepted |
| HeaderAccepts.StepCompletes | libhpack/header_parser.c:721-784 | a request that is in order is carried out if and only if it is not one of the listed refusals |
| HeaderAccepts.StepDecides | libhpack/header_parser.c:721-784 | a step that is no departure succeeds if and only if its octets ask for something that is in order and not refused |
| HeaderAccepts.StepPitfall | libhpack/header_parser.c:341-377 | of the requests that are in order and not refused, exactly the four listed ones, named on the list of entries, are departures |
| HeaderAccepts.PlainIsUnhindered | libhpack/header_parser.c:829-866 | all steps over a block succeed without departing if and only if its octets are in order and contain no refusal and no such request, whatever is left in the free slot |
| HeaderAccepts.BlockCompletes | libhpack/header_parser.c:829-877 | such a block is parsed to its end, emits what the specification says and then the pending fields, and leaves the list ready for the next one |
| HeaderParsers.HeaderParser.AddFieldProcessEvictions | libhpack/header_parser.c:170-193 | the context after adding a field, and whether it was added |
| HeaderParsers.HeaderParser.ParseString | libhpack/header_parser.c:228-273 | the string, Huffman-decoded or not, or why there is none |
| HeaderParsers.HeaderParser.ParseIndexed | libhpack/header_parser.c:321-381 | the step for an indexed representation, index 0 included; HeaderAccepts.IndexCompletes says when it succeeds |
| HeaderParsers.HeaderParser.ParseHeaderPair | libhpack/header_parser.c:484-539 | name and value of a literal representation, which HeaderBlocks.NameOfIndex and HeaderAccepts.PairCompletes fix |
| HeaderParsers.HeaderParser.ParseContextUpdate | libhpack/header_parser.c:571-610 | the step for a new limit or an emptied reference set |
| HeaderParsers.HeaderParser.FinalReferenceSetProcess | libhpack/header_parser.c:636-674 | the step behind the octets of a block |
| HeaderParsers.HeaderParser.ParseField | libhpack/header_parser.c:721-784 | result, field and context are those of the step function on the old context and what lies in the free slot |
| HeaderParsers.HeaderParser.ParseAll | libhpack/header_parser.c:829-877 | terminates on every buffer; on success exactly the block is consumed; the store receives the emissions of the whole block |
| HeaderEncoders.HeaderEncoder.AddString | libhpack/header_encoder.c:92-130 | a string literal of the text is appended |
| HeaderEncoders.HeaderEncoder.Render | libhpack/header_encoder.c:247-262 | the records of all fields are appended in order |
| HeaderEncoders.LengthDecodes | libhpack/integer.c:120-153 | the length of a rendered string is read back exactly if it is below 127 or the narrowed count leaves all its octets |
| HeaderEncoders.StringParses | libhpack/header_parser.c:229-272 | a rendered string parses to its text, whatever stands around it, if its length survives the narrowing, and is malformed otherwise |
| HeaderEncoders.RecordParses | libhpack/header_parser.c:485-538 | a rendered field parses to itself and leaves the context alone if its strings survive, and fails otherwise |
| HeaderEncoders.RenderedParses | libhpack/header_encoder.c:192-262 | parsing the records from any field on succeeds exactly if all their strings survive, and gives the remaining fields |
| HeaderEncoders.ShortSurvive | libhpack/integer.c:121-121 | strings of less than 127 octets always survive |
| HeaderEncoders.EmitsAll | libhpack/header_parser.c:868-873 | without empty fields there is one emission for each field, at its place |
| HeaderEncoders.RenderAndParse | libhpack/header_encoder.c:92-262 | rendering any fields and parsing with a new parser succeeds if and only if the strings survive; then it gives the same fields in order and consumes everything, and the table stays empty |
| MergeSort.MergeSorts | libchula/list.c:78-110 | merging two sorted runs, the first from further ahead, gives a sorted run with equal elements in their old order |
| MergeSort.MergeMembers | libchula/list.c:78-111 | merging loses and invents nothing |
| MergeSort.PassDoubles | libchula/list.c:61-121 | a pass turns stable sorted runs of k elements into ones of 2 k |
| Lists.MergeTwo | libchula/list.c:77-112 | two runs are merged in place behind what was taken, with prev and next relinked |
| Lists.OnePass | libchula/list.c:62-118 | the ring is rebuilt as one pass says, and at most one merge is counted exactly if one run is left |
| Lists.Sort | libchula/list.c:52-127 | for every list and total preorder the result is a well-formed ring with the nodes as a stable sorted permutation; the passes end |
| Hashing.AbsorbPieces | libchula/sha512.c:192-225 | absorbing a message in two pieces is absorbing it at once |
| Hashing.EachBlock | libchula/sha512.c:203-224 | every block of the message is compressed once, in its order |
| Hashing.PaddedLength | libchula/sha512.c:227-253 | padded messages consist of complete blocks |
| Hashing.Padding64Bits | libchula/sha1.c:276-294 | as bits, the padding is a one, fewer than 512 zeros up to a multiple of 512, and the number of bits of the message in the last 64 |
| Hashing.Padding128Bits | libchula/sha512.c:227-253 | the same with blocks of 1024 bits and a length of 128 |
| Hashing.PaddingMd5Bits | libchula/md5.c:103-127 | the same as for SHA-1 once the last eight octets are reversed |
| Hashing.FinalBlocks | libchula/sha1.c:270-297 | the last one or two blocks that the compression function must see |
| Sha512Streams.CountStep | libchula/sha512.c:199-201 | the low word of the count is always right, and the high word exactly if the piece has less than 2 to the 61 octets |
| Sha512Streams.Sha512.Update | libchula/sha512.c:192-225 | the context stands for the message with the piece appended, for every length; the count stays right exactly below 2 to the 61 octets |
| Sha512Streams.Sha512.Final | libchula/sha512.c:227-269 | the state after the message with the padding that Hashing.Padding128Bits describes |
| Sha512Streams.HashPieces | libchula/sha512.c:192-268 | for every split of a message in pieces whose bits can be counted the result is that of the padded whole (FIPS 180-4) |
| Sha1Streams.Sha1.Update | libchula/sha1.c:206-241 | the context stands for the message with the piece appended |
| Sha1Streams.Sha1.Final | libchula/sha1.c:270-297 | the state after the message with the padding that Hashing.Padding64Bits describes, in one or two last blocks |
| Sha1Streams.HashPieces | libchula/sha1.c:206-297 | for every split of a message the result is that of the padded whole (FIPS 180-4) |
| Md5Streams.Md5.Update | libchula/md5.c:63-97 | the context stands for the message with the piece appended |
| Md5Streams.Md5.Final | libchula/md5.c:103-132 | the state after the message with the padding that Hashing.PaddingMd5Bits describes, the bit count made from two words of octets |
| Md5Streams.BitCount | libchula/md5.c:125-127 | the shifted octet counts are the two words of the bit count |
| Md5Streams.HashPieces | libchula/md5.c:63-132 | for every split of a message the result is that of the padded whole (RFC 1321) |
| Base64.CharIsDigit | libchula/buffer.c:1890-1891 | the character of a value is the one at that place of the alphabet of 64 |
| Base64.DigitIsPlace | libchula/buffer.c:1819-1842 | an octet is skipped exactly if it is not in the alphabet, and otherwise stands for its place there |
| Base64.DecodeBase64 | libchula/buffer.c:1794-1874 | in place, the octets of the bits that the digits of the text carry, for every text; DigitIsPlace says which they are |
| Base64.StagedFlushed | libchula/buffer.c:1861-1865 | a flush of 127 octets leaves all input that is still to be read |
| Base64.NeverAhead | libchula/buffer.c:1838-1866 | there are never more octets than characters read |
| Base64.EncodeBase64 | libchula/buffer.c:1881-1938 | the text that EncodedShape and EncodedBits fix; an empty input leaves the target |
| Base64.EncodedShape | libchula/buffer.c:1910-1932 | four characters for every three octets begun, of the alphabet as far as there are bits and pads behind |
| Base64.EncodedBits | libchula/buffer.c:1910-1932 | the encoded text carries the bits of the octets and at most four zeros |
| Base64.DecodesEncoded | libchula/buffer.c:1794-1938 | only the octets themselves decode from their encoding |
| Base64.RoundTrip | libchula/buffer.c:1795-1938 | encoding and decoding in place is the identity for every byte string |

## Left out

- Allocation, sizes of allocations and out-of-memory results of `libchula/buffer.c` and its users: buffers grow as needed.
- Memory of a table that was never written: offsets read as zero, and octets as anything.
- Literals with indexing and an empty name: the parser of the model rejects them. In the source the outcome depends on whether the name buffer of the field was ever allocated: if not, `header_table.c:464` fails after the offset and the information were stored; if it was, the field is added.
- HeaderFifo.AddSound: without a single octet a field is accounted as 0 when added and as 32 when evicted (HeaderFifo.SizesAgree), so that no bound holds for such fields.
- HeaderFifo.AddKeepsSlots: the same fields without octets.
- HeaderTables.HeaderTable.Add: the same, and a name without octets needs an allocated buffer.
- HeaderParsers.HeaderParser.AddFieldProcessEvictions: the same.
- HeaderTables.DataRing.Get: reads with the run length that is meant; see HeaderTables.AsWrittenIsRight for the one that is written.
- BitmapSets.SetIterator.Next: uses the widened mask; see BitmapSets.WholeIteration for the one that is written.
- BitmapSets.TestRest: the widened mask; see BitmapSets.TestAsWritten.
- HeaderRuns.FinalEmits: rests on the widened mask; see HeaderRuns.EmitsAsWritten.
- HeaderRuns.BlockEmits: rests on the widened mask; see HeaderRuns.BlockAsWritten.
- HeaderParsers.HeaderParser.ParseAll: what lies in the free slot of the table at each step is returned beside the result, not derived from the octets of earlier blocks; it matters only where index 0, or a name index that is a multiple of 65536, is read (HeaderDrafts.LeftoversIgnored).
- HeaderParsers.HeaderParser.ParseString: offset plus length does not wrap at 32 bits.
- HeaderParsers.HeaderParser.ParseField: literals with indexing and an empty name fail, and the flags of a field that is empty, and so never emitted, are those of a clean field.
- HeaderAccepts.StepCompletes: leaves out the octets 0x50, 0x60 and 0x70, of which the parser reads something else than is asked for (HeaderBlocks.FourBitsAreRight).
- The contents of the static table: any 61 entries that are not empty.
- AvlKeys.KeysAgree: `memcmp` returns the difference of the first octets that differ, and the comparison that ignores case is left out.
- The compression functions of SHA-512, SHA-1 and MD5, their constants, and the serialisation of the final words.
- Lists.Sort: run lengths do not wrap at 32 bits, and the comparison is a function of keys that do not change.
- Sha512Streams.HashPieces: says nothing of the result once a piece has 2 to the 61 octets or more.
- `chula_list_invert`, `chula_avl_len`, `hpack_set_union`, `hpack_set_intersection`, `hpack_set_complement` and `hpack_set_equals`: nothing would be learned beyond what is proved.
- `chula_avl_check`, which discards the results of its recursive calls.
- `render_indexed` and `render_indexed_value`: a stub and an unused helper of the encoder.
- Printing of tables and fields, the download and parsing of the specification in `huffman-gen.py`, and the rest of libchula.
