# SWORD, verified models

SWORD finds data races in OpenMP programs.  A runtime library records the memory accesses and
lock operations of every thread into compressed blocks; an offline analysis loads the blocks,
condenses the accesses into interval trees, and intersects the trees of concurrent threads.
This project models the algorithms that the result depends on and proves them, on all inputs
and over whole runs:

- **Augmented red-black tree** (`RbShape`, `RbLinks`, `RbSteps`, `RbSplice`, `RbTree`, `RbWalk`):
  the pointer code of insertion and erasure, with its mirror images, its callbacks for subtree
  maxima, and its traversals, as a class that updates nodes in place.  A ghost tree and a focus
  in it are kept beside the nodes; each loop is proved against them.
- **Interval tree** (`IntervalTree`, `IntervalQuery`, `IntervalRuns`): insertion, removal and the
  pruned iteration over all intervals that meet a query, and every run of them.
- **LZ4, LZO and Snappy** (`Lz77`, `Bits`, `Candidates`, `Lz4*`, `Lzo*`, `Snappy*`): compressors on
  arrays for every hash function, decoders, formats written out byte by byte, and the round trips;
  the LZ4 decoder on every input whatever, the Snappy decoder for every division of the input and
  all three writers.  `Candidates` proves, for all three compressors, that they compress: a
  repetition at the places that the search has to look up is missed only where a hash collision
  hides it.
- **The trace** (`HashSet`, `Recorder`, `TraceFile`, `Pipeline`): the open-addressing set that
  drops repeated accesses, the recorder, the data file with its length headers, and the way of a
  block from one process to the other.
- **The analysis** (`Strided`, `Coverage`, `StridedTree`, `Tournament`): folding of accesses into
  arithmetic progressions, which accesses that keeps and which it drops, the intersection of two
  trees of them with an explicit stack, and the pairwise reduction of all threads to one tree.

`Powers` holds facts about powers of two.  The main results are, in the order of the table
below: `IntervalRuns.Run` with `FieldIsMaximum` and `LogDepth`; `IntervalQuery.Collect` with
`MatchesExact`; `RbWalk.InOrder`; `Lz4.CompressFast`, `Lz4.RoundTrip` and `Lz4.Survives`;
`Lz4Decompress.Decompress`; `Candidates.ScanEnd` with `LzoCompress.Compress`, `Lz4Compress.CompressGeneric`
and `SnappyCompress.CompressFragment`; `Pipeline.StoreAndLoad`; `HashSet.Set.DoAll`; `Recorder.NothingLost`,
`IntervalsApart` and `CompleteIff`; `Tournament.CompareThreads`; `Strided.PreciseIff` and `InsertAll`;
`Coverage.InsertsCover` and `ConflictReported`; `StridedTree.Build` and `IntersectIntervals`; `Snappy.RoundTrip`;
`SnappyDecompress.AllAgree`.

Hash functions are parameters of the compressors, bound only to index the table; for Snappy,
`OwnHash` shows that the library's own is one of them.  Bytes are numbers below 256, and a
machine word is an unbounded number wherever it cannot wrap; where it can, the reduction is
written out.  `dafny verify dfyconfig.toml` checks the project.

## Findings

Where the code does less than its documentation says, the model follows the code.

- **LZ4 loses its input for accelerations that are multiples of 2^26.**  The search starts a
  32-bit counter at `acceleration << 6`; the first step is one, all others come from the counter's
  upper bits (`rtl/lz4/lz4.c:519-526`; the only test between two probes is line 528).  If the
  counter starts at zero, the third probe is at the position of the second, finds the entry that
  the second left there, and a match with offset zero is emitted.  `Lz4.CompressFast` and
  `Lz4.RoundTrip` prove that every input comes back if `StepsOn(Clamped(acceleration))`, that is,
  if the clamped acceleration is not a multiple of 2^26, or if the input is too short for a match;
  `Lz4.Survives` proves, for every hash and acceleration, that 14 given bytes come back just when
  `StepsOn` holds.  Every input comes back if and only if `StepsOn` holds.  For the inputs named in `Lz4.CompressFast` the block decodes to
  zero bytes instead, without an error.  SWORD itself passes 5 (`rtl/sword_rtl.cc:22`).
- **The limited mode of LZ4 writes beyond the limit.**  The test for room counts one length byte
  per 256 where the format takes one per 255, and the bytes are stored four at a time
  (`rtl/lz4/lz4.c:593-602`).  `Lz4Compress.GuardIff`: the test is right for all matches of an
  n-byte input if and only if n < 134665.  `GuardSuffices` and `SlackAttained` give the exact
  distance for every n.  `Lz4.Spill` reaches every distance k with a concrete input and limit: the
  call reports failure after having written k bytes too far.  SWORD passes a limit at which the
  unlimited mode is chosen.
- **The LZ4 decoder reads one or two bytes beyond very short inputs.**  It reads a token before
  it looks at the input's size, and a length byte behind a token of 240 or more
  (`rtl/lz4/lz4.c:1133-1139`).  `Lz4Reads.Extent` is the highest place read, through every loop and
  copy of the decoder; `Lz4Reads.ReadsInside`: it lies beyond the input just when there is room
  for output and the input is empty, or is one such byte.  `Lz4Reads.ReadsAll`: no other place
  matters to the outcome.  `Lz4Reads.ReadsBeyond`: for the empty input, the byte that happens to
  be there decides the return value.
- **The block loop of the analysis relies on the last block.**  After each block it takes the next
  length from the eight bytes that end the block in the buffer (`tools/sword-race-analysis.cc:184`),
  also after the last.  `TraceFile.LoadFile` covers every sequence of blocks.  A last block of one
  to seven bytes is handed over, but some of the eight bytes lie in front of the buffer.  An empty
  last block is never read where it is the first or second, and behind two or more others the
  loop, which tests for more than a header (`tools/sword-race-analysis.cc:185`), goes on with a
  length taken out of the data: `astray` if and only if `Astray(ps)`.  `Pipeline.LongEnough` shows
  that LZO writes no empty block, and eight bytes for every block of at least four; a trace item
  is longer than that.
- **Deduplication by hash value loses accesses.**  `SAVE_ACCESS` asks the set for the hash value of
  the item only (`rtl/sword_rtl.cc:138-145`).  `Recorder.SecondLost`: of two different accesses
  with one hash value the second is not recorded.  `Recorder.CompleteIff`: all runs are recorded
  completely if and only if the hash tells all accesses apart; `CompleteUnlessCollide`: a run in
  which no two accesses collide is.  `AlwaysLoses`: no hash of 64 bits tells all accesses apart that
  the fields of an access can hold (`rtl/sword_common.h:138-144`), so for each some run loses one.
  What every run keeps is `NothingLost`: each access is represented by one with its hash value.
- **A summary of 2^32 bytes or more claims accesses that were not made.**  The end of a summary is
  computed with a 32-bit product (`tools/interval_tree.h:25`), so it falls into the middle of a wide
  one, where an access is then counted as if it were the next (`tools/interval_tree_generic.h:118-122`).
  `Strided.PreciseIff`: folding is precise if and only if the summary is `Narrow`, that is, spans
  less than 2^32 bytes and its 32-bit count can still grow; `WideInvents` gives the access for every
  other.  `InsertAll` proves whole runs precise when accesses of one kind lie within 2^32 of each
  other.
- **Folding drops accesses.**  A node takes every access of its kind that comes by while it has one
  access, and every one inside its hull (`tools/sword_intervaltree.h:119-160`,
  `tools/interval_tree_generic.h:116-151`), also where its summary does not stand for it afterwards:
  at another address that is not less than 64 bytes behind the single access, or between the steps.
  `Coverage.FoldLaw` is the exact rule for one summary, `Coverage.InsertsCover` for whole runs:
  an access is covered if and only if it was once inserted without being lost.  `Coverage.SecondLost`:
  of two accesses of one kind at addresses x and y the second is covered if and only if
  x <= y < x + 64; `Coverage.RaceMissed`: if it is not, a conflicting access to y is not reported.
  What is covered is found: `Coverage.ConflictReported`.

## Model

| member | source | states |
|---|---|---|
| RbShape.HeightBound | tools/rbtree.c:37-40 | the comment's claim about height: a tree of black height B is at most 2B deep below a black root, and holds at least 2^B - 1 nodes |
| RbShape.PlugOrder | tools/rbtree.c:72-195 | the in-order sequence of a whole tree is what lies before the focus, in it, and after it; the fix-up loops climb such a focus |
| RbShape.PlugRb | tools/rbtree.c:24-35 | rules 2, 4 and 5 of the whole tree follow from the subtree at the focus and the path above it |
| RbShape.RotateOrder | tools/rbtree.c:120-160 | a rotation, in either direction and with any colours and cached values, keeps the in-order sequence |
| RbShape.RotateBest | tools/rbtree_augmented.h:87-94 | handing the old subtree maximum to the node that moves up and recomputing only the node that moves down is exact |
| RbShape.ExactIsMaximum | tools/interval_tree_generic.h:81-97 | if every cached value is computed from a node and its children, it bounds every endpoint in the subtree and is attained there |
| RbLinks.ToTop | tools/rbtree.c:72-195 | child and parent links that are right around a focus are right for the whole tree |
| RbSteps.InsertLiftFixed | tools/rbtree.c:119-192 | insertion cases 2 and 3 in both mirror images: links, order, colours, black height and maxima of the rotated subtree are right, and its top is black |
| RbSteps.FlipFixed | tools/rbtree.c:97-118 | insertion case 1: a colour flip keeps black height, order and maxima; only the grandparent turned red |
| RbTree.RbRoot.ChangeChild | tools/rbtree_augmented.h:123-134 | the one link from above, or the root, is redirected |
| RbTree.RbRoot.ComputeSubtreeLast | tools/interval_tree_generic.h:81-97 | the maximum of the node's own endpoint and its children's cached maxima |
| RbTree.RbRoot.FlipColors | tools/rbtree.c:97-118 | the flip rewrites three colours and moves the violation two levels up |
| RbTree.RbRoot.InsertRotateLeft | tools/rbtree.c:119-159 | cases 2 and 3 under a parent that is a left child: the writes produce the rotated subtree |
| RbTree.RbRoot.InsertRotateRight | tools/rbtree.c:172-192 | the mirror image |
| RbTree.RbRoot.InsertStepLeft | tools/rbtree.c:95-159 | one turn of the loop under a parent that is a left child: either it is done, or the red violation is two levels up |
| RbTree.RbRoot.InsertStepRight | tools/rbtree.c:160-193 | the mirror image |
| RbTree.RbRoot.InsertColor | tools/rbtree.c:72-195 | __rb_insert terminates from any red leaf or red violation; the result is a sound red-black tree (black root, no red-red edge, equal black heights, consistent links, exact maxima) with the same in-order sequence |
| RbSteps.SiblingExists | tools/rbtree.c:207-217 | the invariants of the erase loop imply that the node short of a black node has a sibling |
| RbSteps.Erase1Lacking | tools/rbtree.c:218-235 | case 1: after rotating a red sibling away the shortage is one level down, with a black sibling |
| RbSteps.Erase2Result | tools/rbtree.c:239-265 | case 2: recolouring the sibling either ends the shortage or moves it to the parent |
| RbSteps.Erase3Fixed | tools/rbtree.c:266-287 | cases 3 and 4 together end the shortage |
| RbSteps.Erase4Fixed | tools/rbtree.c:289-306 | case 4 ends the shortage |
| RbTree.RbRoot.EraseStepLeft | tools/rbtree.c:216-309 | one turn of the loop on the left side: done, or the shortage is one level up |
| RbTree.RbRoot.EraseStepRight | tools/rbtree.c:310-359 | the mirror image |
| RbTree.RbRoot.EraseColor | tools/rbtree.c:201-361 | ____rb_erase_color terminates with a sound tree and the same in-order sequence whenever it starts with one black node missing below `parent` |
| RbSplice.RefreshExact | tools/rbtree_augmented.h:66-79 | recomputing the maxima along a whole path makes them exact |
| RbSplice.RefreshStops | tools/rbtree_augmented.h:74-75 | stopping at the first ancestor whose maximum does not change leaves the same maxima as going on to the end |
| RbTree.RbRoot.Propagate | tools/rbtree_augmented.h:66-79 | the loop with its early stop leaves the maxima that full recomputation along the path would |
| RbSplice.Spliced | tools/rbtree_augmented.h:168-222 | the writes of erase case 3 together: the successor stands in the erased node's place and its old right child in the successor's |
| RbTree.RbRoot.UnlinkOne | tools/rbtree_augmented.h:147-166 | case 1, no more than one child: everything but the node remains, in order; a black node is missing just when the removed one was black and childless |
| RbTree.RbRoot.UnlinkAboveChild | tools/rbtree_augmented.h:174-183 | case 2, the successor is the right child |
| RbTree.RbRoot.UnlinkAboveDeep | tools/rbtree_augmented.h:188-206 | case 3, the successor is leftmost below the right child; maxima on the path to it are refreshed while it hangs loose |
| RbTree.RbRoot.FindSuccessor | tools/rbtree_augmented.h:198-202 | the walk to the successor keeps the path to it |
| RbTree.RbRoot.EraseAugmented | tools/rbtree_augmented.h:139-234 | __rb_erase_augmented on every sound tree and every node in it: the result is sound without the node, or exactly one black node is missing below the node returned |
| RbTree.RbRoot.Erase | tools/rbtree_augmented.h:236-243 | structural part and fix-up together: a sound tree whose in-order sequence is the old one without the node |
| RbTree.RbRoot.LinkNode | tools/interval_tree_generic.h:187-188 | the new red leaf hangs at the chosen empty place |
| RbWalk.First | tools/rbtree.c:414-424 | the first node in order, or null |
| RbWalk.Last | tools/rbtree.c:426-436 | the last node in order, or null |
| RbWalk.Next | tools/rbtree.c:438-467 | the node after the given one in the in-order sequence, or null at its end |
| RbWalk.Prev | tools/rbtree.c:469-495 | the node before it, or null |
| RbWalk.Neighbours | tools/rbtree.c:438-495 | in a sound tree, what follows a node is the first of its right subtree and what is after its path, and symmetrically |
| RbWalk.InOrder | tools/interval_tree_generic.h:252-252 | the rb_first/rb_next loop visits exactly the in-order sequence |
| RbWalk.LeftDeepest | tools/rbtree.c:513-523 | the first node of a subtree in postorder |
| RbWalk.FirstPostorder | tools/rbtree.c:543-549 | the first node of the tree in postorder |
| RbWalk.NextPostorder | tools/rbtree.c:525-541 | the postorder successor of a node |
| RbWalk.ChildrenFirst | tools/rbtree.c:525-541 | in the postorder sequence a node stands right after all nodes of its two subtrees |
| RbWalk.ChildrenBeforeParents | tools/rbtree.h:102-106 | the postorder loop visits every node exactly once, in postorder |
| IntervalTree.DescendStep | tools/interval_tree_generic.h:176-185 | counting the new interval in on the way down keeps every maximum exact for the tree that will contain it, and the side chosen keeps the order |
| IntervalTree.Insert | tools/interval_tree_generic.h:170-190 | _insert: the tree stays sound, and its sequence is the old one with the node behind all that do not start later |
| IntervalTree.InsertSortedKeeps | tools/interval_tree_generic.h:170-190 | that sequence is sorted by start and holds the old nodes and the new one |
| IntervalTree.Remove | tools/interval_tree_generic.h:192-195 | _remove: the tree stays sound, and its sequence is the old one without the node |
| IntervalTree.DropKeeps | tools/interval_tree_generic.h:192-195 | dropping a node keeps the rest, sorted |
| IntervalRuns.Run | tools/interval_tree_generic.h:170-195 | every sequence of _insert and _remove in which a node is inserted while absent and removed while present leaves a sound tree with the replayed sequence |
| IntervalRuns.ReplayedMembers | tools/interval_tree_generic.h:170-195 | the replayed sequence holds exactly the nodes present, each once, by increasing start |
| IntervalRuns.FieldIsMaximum | tools/interval_tree_generic.h:42-42 | in a sound tree the field of every single node is the greatest endpoint in the subtree below it |
| IntervalRuns.LogDepth | tools/rbtree.c:37-40 | 2 to the depth of a red-black tree of n nodes is at most (n + 1) squared |
| IntervalQuery.PrunedRest | tools/interval_tree_generic.h:217-225 | if a subtree's maximum admits a match but none is in it, nothing after it matches either |
| IntervalQuery.GoLeft | tools/interval_tree_generic.h:213-228 | the first match of a subtree is that of its left child when that child's maximum reaches the query |
| IntervalQuery.SkipLeft | tools/interval_tree_generic.h:230-240 | otherwise the first match is the node itself, in its right subtree, or nowhere |
| IntervalQuery.SubtreeSearch | tools/interval_tree_generic.h:206-242 | the pruned search returns the first match of the subtree in order, or null if there is none |
| IntervalQuery.IterFirst | tools/interval_tree_generic.h:366-377 | _iter_first returns the first match of the whole tree, or null |
| IntervalQuery.RightDecides | tools/interval_tree_generic.h:392-397 | the right subtree's maximum decides whether the next match is in it or beyond it |
| IntervalQuery.ClimbFromRight | tools/interval_tree_generic.h:399-406 | the climb stops at the first node not yet visited |
| IntervalQuery.NextDecides | tools/interval_tree_generic.h:408-412 | that node is the next match, or the search goes on below it, or nothing later matches |
| IntervalQuery.IterNext | tools/interval_tree_generic.h:379-415 | _iter_next returns the first match behind the given node, or null |
| IntervalQuery.Collect | tools/interval_tree_generic.h:197-204 | _iter_first and repeated _iter_next yield all matches of the tree, in order |
| IntervalQuery.MatchesExact | tools/interval_tree_generic.h:200-203 | those are the nodes meeting Cond1 and Cond2, each as often as it is in the tree, nothing else, by increasing start |
| IntervalQuery.ContentsOnce | tools/interval_tree_generic.h:197-204 | a sound tree holds each of its nodes once |
| Lz77.CopyIsPeriodic | rtl/snappy/snappy.cc:113-125 | the byte-at-a-time copy is the only extension in which every new byte repeats the one `offset` places back |
| Lz77.CopyRepeats | rtl/lz4/lz4.c:588-591 | if the input repeats itself at a distance, copying from that distance reproduces it |
| Lz77.ParsesMore | rtl/lz4/lz4.c:512-633 | a further sequence of literals and a verified match extends a correct parse of the input |
| Bits.NbCommonBytes | rtl/lz4/lz4.c:291-347 | for two different words at two places of the input: in how many leading bytes they agree, found from the lowest set bit of their difference |
| Lz77.NumberRead | rtl/sword_rtl.cc:76-81 | a number stored in little-endian bytes is read back |
| Lz4Format.DecodeStep | rtl/lz4/lz4.c:1127-1236 | one encoded sequence is read back as it was meant, whatever follows it |
| Lz4Format.DecodeBlock | rtl/lz4/lz4.c:1088-1247 | a block whose matches keep clear of the last five bytes and start twelve before the end is accepted and decoded to what it stands for |
| Lz4Format.SequenceWritten | rtl/lz4/lz4.c:550-605 | a sequence byte by byte: both halves of the token, the bytes of 255 and the rest, the literals, the offset |
| Lz4Format.EncodeSize | rtl/lz4/lz4.h:153-153 | token and length bytes are paid for by the bytes that the matches cover |
| Lz4Format.BlockSize | rtl/lz4/lz4.h:153-153 | a block for n bytes takes at most n + n/255 + 16 bytes |
| Lz4Decompress.WildCopy | rtl/lz4/lz4.c:248-256 | the copy in strides of eight gives the byte-at-a-time result and writes at most seven bytes too many |
| Lz4Decompress.StillPeriodic | rtl/lz4/lz4.c:1114-1115 | a copy at a multiple of the offset keeps the period of the offset |
| Lz4Decompress.Prime | rtl/lz4/lz4.c:1208-1220 | the dec32/dec64 tables: the first eight bytes are right for every offset, and the copy goes on from a distance of at least eight that is a multiple of the offset |
| Lz4Decompress.CopyMatch | rtl/lz4/lz4.c:1208-1235 | tables and wild copies together give the byte-at-a-time extension for every offset and length, and nothing is written beyond the buffer's end |
| Lz4Decompress.Decompress | rtl/lz4/lz4.c:1088-1253 | LZ4_decompress_safe on every input, valid or not: the return value, with its error position, and the output |
| Lz4Reads.ReadsInside | rtl/lz4/lz4.c:1130-1173 | the highest place the decoder reads, over length bytes, literals with what their wild copy takes along, offsets and error exits, is inside the n input bytes unless there is room for output and the input is empty or a single byte of at least 240 |
| Lz4Reads.ReadsAll | rtl/lz4/lz4.c:1130-1239 | buffers that agree on the places so read give the same outcome: nothing else is looked at |
| Lz4Reads.ReadsBeyond | rtl/lz4/lz4.c:1133-1139 | for no input at all, two different bytes behind the buffer give two different return values |
| Lz4Compress.Count | rtl/lz4/lz4.c:350-367 | the greatest number of equal bytes before the limit |
| Lz4Compress.SearchOn | rtl/lz4/lz4.c:519-542 | no step of the search is zero before the input ends, unless the start of the counter is |
| Lz4Compress.NoWrap | rtl/lz4/lz4.c:521-526 | the 32-bit counter cannot wrap within the largest input |
| Lz4Compress.NearBy | rtl/lz4/lz4.c:519-527 | each step is no longer than it has to be until the first places of a literal run are behind: sixty-four with acceleration 1, two with any other |
| Lz4Compress.FindMatch | rtl/lz4/lz4.c:518-545 | for every hash function a candidate that is accepted holds the same four bytes, at a distance of at most 65535; no place that the search has to look up is left out, and one that becomes a literal had no equal candidate |
| Lz4Compress.CatchUp | rtl/lz4/lz4.c:547-548 | the match is extended backwards over equal bytes and no further than the literals reach |
| Lz4Compress.EmitLiterals | rtl/lz4/lz4.c:550-567 | token, literal length and literals as the format has them, or a refusal for lack of room |
| Lz4Compress.GuardSuffices | rtl/lz4/lz4.c:593-603 | what the test for room lets through never reaches further beyond the limit than Slack of the input size |
| Lz4Compress.SlackAttained | rtl/lz4/lz4.c:593-603 | for every input size from 134665 on some match length reaches exactly that far |
| Lz4Compress.GuardIff | rtl/lz4/lz4.c:593-603 | the test keeps every match length of an n-byte input within the limit if and only if n < 134665 |
| Lz4Compress.EmitMatch | rtl/lz4/lz4.c:569-605 | offset, match length and patched token; the match is the longest before the last five bytes |
| Lz4Compress.CloseSequence | rtl/lz4/lz4.c:569-607 | one more sequence is encoded, and the parse reaches the end of the match |
| Lz4Compress.EmitChain | rtl/lz4/lz4.c:569-629 | immediate further matches, each with an empty literal run; the place behind each match is looked up |
| Lz4Compress.EmitSequences | rtl/lz4/lz4.c:508-633 | the main loop: what is written encodes a correct parse of the input before `anchor`, in which no repetition is missed |
| Lz4Compress.EmitLast | rtl/lz4/lz4.c:635-651 | the last literals complete the block, or there is no room |
| Lz4Compress.UniformBlock | rtl/lz4/lz4.c:508-651 | the size of the block that equal bytes are compressed to: one literal, one match, five literals |
| Lz4Compress.CompressGeneric | rtl/lz4/lz4.c:458-655 | the result is zero, or the size of a block that parses the input under the format's end rules; of two equal places among those always looked up the later one is a literal only if a hash collision between them hides it; in the unlimited mode it is never zero |
| Lz4.CompressFast | rtl/lz4/lz4.c:658-693 | LZ4_compress_fast for every input, hash, acceleration and output size: the size bound; success with a buffer of the published bound; the block gives every decoder buffer with room the input back if the acceleration survives the shift, and on input whose first three positions start with different four-byte words only then, decoding to zero bytes otherwise; n >= 14 equal bytes become exactly 10 + (n - 25)/255 + 1 bytes, 10 below 25 |
| Lz4.RoundTrip | rtl/lz4/lz4.c:658-693 | compression into a buffer of the published bound, then LZ4_decompress_safe: the length and the bytes of the input |
| Lz4.Survives | rtl/lz4/lz4.c:521-526 | for every hash and every acceleration, one particular 14-byte input comes back just when the shifted counter does not start at zero; with RoundTrip: all inputs come back if and only if it does not |
| Lz4.ZerosDiffer | rtl/lz4/lz4.c:521-526 | no input whose first three positions start with different four-byte words equals the zeros that a stalled search makes of it |
| Lz4.Spill | rtl/lz4/lz4.c:593-602 | for every k an input and a limit for which the compressor returns 0 after having written k bytes beyond the limit |
| Lz4.SpillingSizes | rtl/lz4/lz4.c:593-602 | the sizes of these inputs, for which the test passes and the stores reach k bytes beyond the limit |
| Lz4.NoExcess | rtl/lz4/lz4.c:593-595 | below 134664 bytes nothing is written beyond the limit, whatever the acceleration |
| Lz4.ZeroOffsetDecodes | rtl/lz4/lz4.c:521-526 | what the block with the zero offset decodes to |
| Lz4.DecodesOnce | rtl/lz4/lz4.c:1088-1253 | a block decodes to one thing only |
| LzoFormat.MiddleSnoc | rtl/lzo/minilzo.c:4866-5070 | appending a sequence patches the literal count of the one before |
| LzoFormat.MiddlePatch | rtl/lzo/minilzo.c:4871-4880 | the byte two before the end has room for a count of up to three |
| LzoFormat.StreamSize | rtl/sword_common.h:61-61 | a stream for n bytes takes at most n + n/16 + 64 + 3 bytes |
| LzoCompress.EmitLiterals | rtl/lzo/minilzo.c:4867-4916 | up to three literals or-ed into op[-2], up to sixteen in one copy, or a long run |
| LzoCompress.MatchLength | rtl/lzo/minilzo.c:4918-5015 | the match length: equal bytes up to the first difference, or into the margin |
| LzoCompress.EmitMatch | rtl/lzo/minilzo.c:5015-5070 | the three forms of a match, byte by byte |
| LzoCompress.Lookup | rtl/lzo/minilzo.c:4857-4860 | the candidate is the entry under the hash value of the four bytes, whose place the position takes; it lies before the position, in the chunk |
| LzoCompress.EmitSequence | rtl/lzo/minilzo.c:4866-5070 | literals and a match as long as the bytes are equal: what is written stands for the input up to the end of the match, and stays within 17/16 of it |
| LzoCompress.Core | rtl/lzo/minilzo.c:4790-5075 | one chunk, with literals carried in and out: no repetition is missed unless a hash collision hides it; of equal bytes one match is made that reaches the margin |
| LzoCompress.EmitLast | rtl/lzo/minilzo.c:5107-5133 | the literals after the last match in each of their four forms |
| LzoCompress.Compress | rtl/lzo/minilzo.c:5077-5141 | lzo1x_1_compress over all chunks: a stream that parses the input, within the size bound; in every chunk of 32 bytes or more no repetition is missed; n equal bytes take at most 30 (n / 49152) + 40 + n / 255 bytes |
| LzoDecompress.CopyMatch | rtl/lzo/minilzo.c:5595-5640 | the copy in strides of eight or one byte agrees with the byte-at-a-time copy |
| LzoDecompress.ReadMatch | rtl/lzo/minilzo.c:5416-5584 | each form of match, or the end marker, is recognised and read as written; no match reads like the end marker |
| LzoDecompress.RunMatches | rtl/lzo/minilzo.c:5413-5661 | matches with up to three literals between them |
| LzoDecompress.Decompress | rtl/lzo/minilzo.c:5260-5686 | lzo1x_decompress on every stream the compressor writes: LZO_E_OK, all input consumed, the original output, no access outside the buffers |
| Pipeline.RoundTrip | rtl/lzo/minilzo.c:5077-5686 | compress and decompress: LZO_E_OK and the input |
| Pipeline.LongEnough | rtl/sword_rtl.cc:75-81 | no stream is empty, and one for at least four bytes is at least as long as a block header |
| Pipeline.StoreAndLoad | tools/sword-race-analysis.cc:103-191 | blocks of any length compressed, framed, appended to the data file, read back and decompressed: the same blocks in order; nothing in front of the buffer is read if the last has at least four bytes |
| TraceFile.DataFile.DumpAll | rtl/sword_rtl.cc:69-83 | the file grows by the framed payloads, and the recorded offsets delimit them |
| TraceFile.HeaderRead | tools/sword-race-analysis.cc:117-126 | the first eight bytes of a framed sequence give the first payload's length |
| TraceFile.BlockRead | tools/sword-race-analysis.cc:131-188 | reading a block with its lookahead leaves the reader in front of the next block, whose length it then knows |
| TraceFile.LoadFile | tools/sword-race-analysis.cc:103-191 | for all blocks that fit the buffer, of whatever length: which are handed over, how many bytes in front of the buffer are read, and exactly when a length is taken from data instead of a header |
| TraceFile.NoneEmpty | tools/sword-race-analysis.cc:184-190 | without empty blocks all blocks are handed over and every length comes from a header, and with eight bytes in the last block nothing is read in front of the buffer |
| TraceFile.WriteThenRead | rtl/sword_rtl.cc:69-83 | what was written between two offsets is read back in that sense, whatever is written later |
| HashSet.AbsentIf | rtl/sword_hashset.h:561-571 | when probing stops at a never-used bucket or at the cap, the key is in no bucket |
| HashSet.RoomLeft | rtl/sword_hashset.h:605-613 | while fewer keys than buckets are stored, the unbounded probe finds a free bucket |
| HashSet.FillAdds | rtl/sword_hashset.h:317-330 | storing a new key in a reachable free bucket keeps every key reachable within the cap and no key twice |
| HashSet.TombstoneRemoves | rtl/sword_hashset.h:401-412 | a tombstone removes just its key and keeps all others reachable |
| HashSet.CountIsSize | rtl/sword_hashset.h:268-271 | the number of filled buckets is the number of keys |
| HashSet.ProbeDist | rtl/sword_hashset.h:561-562 | every bucket is met at exactly one offset of a key's probe sequence |
| HashSet.Set.FindFilledBucket | rtl/sword_hashset.h:556-572 | a bucket holding the key, or -1 just when the key is absent |
| HashSet.Set.FindOrAllocate | rtl/sword_hashset.h:574-614 | the key's bucket, or a free bucket where the key would be found; the cap grows only as needed |
| HashSet.Set.CheckInsert | rtl/sword_hashset.h:317-330 | true just when the key was absent; the set gains exactly the key |
| HashSet.Set.Erase | rtl/sword_hashset.h:399-412 | true just when the key was present; the set loses exactly the key |
| HashSet.Set.Clear | rtl/sword_hashset.h:427-438 | the set is empty |
| HashSet.Set.FindEmptyBucket | rtl/sword_hashset.h:616-629 | a free bucket where a new key is found |
| HashSet.Set.Reserve | rtl/sword_hashset.h:441-491 | the same set in at least the required number of buckets, a power of two |
| HashSet.Set.Size | rtl/sword_hashset.h:268-271 | the cardinality of the set |
| HashSet.Set.Contains | rtl/sword_hashset.h:303-306 | membership |
| HashSet.Set.DoAll | rtl/sword_hashset.h:317-491 | every run of insertions, erasures, clearings and reservations gives the answers and the final contents of a plain set |
| Powers.WrapThenMask | rtl/sword_hashset.h:562-562 | adding in 64-bit arithmetic before masking changes nothing |
| Recorder.RunSane | rtl/sword_rtl.cc:116-145 | over every run of events the block holds fewer than 25000 items, the set holds the hash values of exactly its accesses, and no two accesses of a block share a hash value |
| Recorder.StepRecords | rtl/sword_rtl.cc:116-145 | a step records its item, or nothing if its hash value is represented already |
| Recorder.NothingLost | rtl/sword_rtl.cc:138-145 | after every run each access has a recorded access with its hash value, and each lock operation is recorded |
| Recorder.NothingInvented | rtl/sword_rtl.cc:116-145 | every recorded item is the item of an event of the run |
| Recorder.BoundaryEnds | rtl/sword_rtl.cc:127-136 | at the end of an interval everything recorded so far is in blocks handed over, nothing is pending and nothing counts as seen |
| Recorder.IntervalsApart | rtl/sword_rtl.cc:127-136 | for all runs a and b: a, the end of an interval, and b record what a records followed by what b records from a fresh start, and hand over the blocks of the one and then of the other |
| Recorder.InOwnInterval | rtl/sword_rtl.cc:116-145 | of any three intervals in a row, every access of the middle one is represented by hash value among the items recorded for that interval |
| Recorder.FullBlocks | rtl/sword_rtl.cc:116-125 | within an interval only blocks of exactly 25000 items are handed over |
| Recorder.CompleteUnlessCollide | rtl/sword_rtl.cc:138-145 | if no two different accesses of a run have one hash value, every access of the run is recorded |
| Recorder.SecondLost | rtl/sword_rtl.cc:138-145 | of two different accesses with one hash value, recorded one after the other, the second is lost |
| Recorder.CompleteIff | rtl/sword_rtl.cc:138-145 | every run is recorded completely if and only if the hash tells all accesses apart |
| Recorder.AlwaysLoses | rtl/sword_common.h:138-144 | whatever the 64-bit hash, there are two accesses that fit the fields of a trace item of which the second is lost |
| Recorder.ReservedBuckets | rtl/sword_rtl.cc:161-161 | the reservation gives 262144 buckets |
| Recorder.Recorder.SaveAccess | rtl/sword_rtl.cc:138-145 | SAVE_ACCESS follows the specification, and the set never fills |
| Recorder.Recorder.SaveLock | rtl/sword_rtl.cc:277-289 | the lock callbacks record unconditionally |
| Recorder.Recorder.EndInterval | rtl/sword_rtl.cc:127-136 | DUMPNOCHECK_TO_FILE: the object follows a Boundary step, of which BoundaryEnds says that it hands over all that is pending and forgets what was seen |
| Recorder.Recorder.Replay | rtl/sword_rtl.cc:116-145 | any run of callbacks hands over exactly the blocks, in order, and leaves exactly the state, that the specification gives for it |
| Tournament.PairStep | tools/sword-race-analysis.cc:94-101 | two threads come into one tree just when the comparison covers them, and are never compared again |
| Tournament.MergeStep | tools/sword-race-analysis.cc:94-101 | a comparison with merge keeps the trees a partition of the threads, in which exactly the pairs of one tree have been compared, once |
| Tournament.LastStep | tools/sword-race-analysis.cc:98-100 | the very last comparison completes the coverage without a merge |
| Tournament.TasksDisjoint | tools/sword-race-analysis.cc:367-377 | no tree is used by two tasks of a round |
| Tournament.Analysis.AnalyzeTrees | tools/sword-race-analysis.cc:94-101 | one comparison, and the union unless it is the last |
| Tournament.Analysis.PairUp | tools/sword-race-analysis.cc:366-377 | the erasing loop pairs neighbours and keeps the first of each pair and an odd one out |
| Tournament.Analysis.RunAll | tools/sword-race-analysis.cc:376-380 | the tasks of a round in any order keep the partition |
| Tournament.Analysis.Reduce | tools/sword-race-analysis.cc:364-382 | the reduction terminates with one tree, every pair of threads compared exactly once, and exactly one merge skipped |
| Tournament.CompareThreads | tools/sword-race-analysis.cc:360-382 | the same for any list of distinct threads |
| Strided.FoldGenuine | tools/interval_tree_generic.h:112-150 | extending a progression invents nothing, and where it then ends |
| Strided.PreciseIff | tools/interval_tree_generic.h:112-150 | folding an access into a summary never claims an access that was not made, for all accesses and all histories, if and only if the summary spans less than 2^32 bytes and its count can still grow |
| Strided.WideInvents | tools/interval_tree.h:25-25 | for every wider summary an access in its middle that makes it claim another one |
| Strided.AccessNode.FoldData | tools/interval_tree_generic.h:112-150 | the folding of _insert_data in its 32-bit arithmetic, for every state: what the summary becomes (FoldLaw and NarrowFold say what that means); while it is narrow and its fields agree, every address it stands for was accessed with this type, place and locks, and `last` is its end |
| Strided.InsertData | tools/interval_tree_generic.h:104-168 | along any path, the access goes to the first node that takes it, or a new node is made, and no other summary changes; if that node is narrow, all nodes keep the above |
| Strided.InsertAll | tools/interval_tree_generic.h:104-168 | any sequence of insertions into an empty tree, whichever way each descent goes: the summaries are those of the specification, of which StepsSummarize and TakingCovers say what they cover; if accesses of one kind lie within 2^32 of each other, each summary stands only for accesses that were made |
| Coverage.TakingCovers | tools/interval_tree_generic.h:104-168 | while summaries are narrow: after one access, for every way down, exactly what was covered before is covered, and the access itself unless the first summary of its kind that keeps it from those below drops it |
| Coverage.StepsSummarize | tools/interval_tree_generic.h:112-150 | n accesses of one kind at steps of d, 0 < d < 64, spanning less than 2^32, become one summary: the first address, n, d |
| Strided.NearNarrow | tools/interval_tree_generic.h:112-150 | if accesses of one kind lie within 2^32 of each other, every summary is narrow |
| Strided.InsertKeeps | tools/sword_intervaltree.h:104-182 | insertNode invents nothing and keeps every maximum a bound on the ends below it |
| Strided.BoundedMeans | tools/sword_intervaltree.h:113-141 | such a maximum bounds the end of every interval in the subtree |
| Strided.Pruned | tools/sword_intervaltree.h:245-246 | a left subtree whose maximum is below the query holds no hit |
| Coverage.FoldLaw | tools/sword_intervaltree.h:117-162 | which access a summary leaves to others, and otherwise: afterwards it stands for exactly what it stood for before and the access, unless that is dropped; dropped is what lies off the steps inside the hull, or, at a single access, at another address not less than 64 bytes behind it |
| Coverage.InsertCovers | tools/sword_intervaltree.h:104-182 | after an insertion the tree covers exactly what it covered before, and the access if and only if the first node of its kind on the way down that does not leave it to those below does not drop it |
| Coverage.InsertsCover | tools/sword_intervaltree.h:104-182 | after a run of insertions an access is covered if and only if it was once inserted without being lost |
| Coverage.SecondLost | tools/sword_intervaltree.h:142-152 | of two accesses of one kind the second is covered if and only if it lies less than 64 bytes behind the first or at the same address |
| Coverage.RaceMissed | tools/sword_intervaltree.h:142-160 | if it is not, no access of another thread to its address is reported, whatever its type |
| Coverage.StepsFold | tools/sword_intervaltree.h:119-151 | n accesses of one kind at steps of d, 0 < d < 64, become a single node with that progression |
| Coverage.RaceLaw | tools/sword_intervaltree.h:16-24 | with the codes written out: a pair conflicts if and only if one of the two is a write (1 or 3) and one is not atomic (0 or 1) |
| Coverage.HitLaw | tools/sword_intervaltree.h:223-252 | a hit is a conflict without a common lock in which some address lies in both hulls |
| Coverage.AllHitsCount | tools/sword_intervaltree.h:254-273 | a pair of summaries is reported once for each two nodes that have them if it is a hit, and otherwise never |
| Coverage.ConflictReported | tools/sword_intervaltree.h:223-273 | for two accesses to one address that the trees cover, in conflict and without a common lock, a pair of summaries that stand for them is reported |
| StridedTree.IntervalTree.TryFold | tools/sword_intervaltree.h:117-162 | one node: the access is folded, dropped or left to the nodes below, as FoldLaw characterizes |
| StridedTree.IntervalTree.InsertNode | tools/sword_intervaltree.h:104-182 | the in-place descent does what insertion into the tree value does, and keeps links, precision and bounds |
| StridedTree.Build | tools/sword_intervaltree.h:104-182 | after any sequence of insertions: an access is covered if and only if it was inserted at some point at which it was not lost; n accesses at steps of d, 0 < d < 64, leave a single node with exactly that progression; links, precision and bounds hold |
| StridedTree.IntersectInterval | tools/sword_intervaltree.h:223-252 | the pruned explicit-stack search adds exactly the multiset of hits of one interval; HitLaw says what a hit is |
| StridedTree.IntersectIntervals | tools/sword_intervaltree.h:254-273 | with all pruning, exactly the pairs of nodes that conflict, share no lock and whose hulls have an address in common, each as often as AllHitsCount says |
| SnappyCopy.Expand | rtl/snappy/snappy.cc:169-186 | the pattern doubles until it is at least eight bytes long, staying periodic |
| SnappyCopy.IncrementalCopy | rtl/snappy/snappy.cc:130-211 | agrees with the byte-at-a-time copy up to op_limit and writes nothing at or beyond buf_limit |
| SnappyWriters.ArrayWriter.AppendFromSelf | rtl/snappy/snappy.cc:1143-1162 | accepts exactly the copies within what is produced and expected, and performs them |
| SnappyWriters.Validator.AppendFromSelf | rtl/snappy/snappy.cc:1210-1216 | accepts exactly the same copies |
| SnappyWriters.ScatteredWriter.AppendFromSelf | rtl/snappy/snappy.cc:1335-1405 | accepts exactly the same copies, also across blocks, and the concatenated blocks are the flat output |
| SnappyWriters.ScatteredWriter.Append | rtl/snappy/snappy.cc:1309-1381 | appends across block boundaries |
| SnappyWriters.ScatteredWriter.Flush | rtl/snappy/snappy.cc:1423-1433 | the blocks one after another are the output |
| SnappyDecompress.Decompressor.ReadUncompressedLength | rtl/snappy/snappy.cc:625-647 | the length in front, read byte by byte from the source |
| SnappyDecompress.Decompressor.RefillTag | rtl/snappy/snappy.cc:741-796 | the next tag with all its bytes is buffered and nothing of the input is lost; false just at the end or inside a tag |
| SnappyDecompress.Decompressor.Stitch | rtl/snappy/snappy.cc:760-782 | a tag collected from several regions |
| SnappyDecompress.Decompressor.AppendLiteral | rtl/snappy/snappy.cc:695-718 | a literal that spans regions |
| SnappyDecompress.Decompressor.DecompressAllTags | rtl/snappy/snappy.cc:651-738 | verdict and output depend on the remaining bytes only, not on their division into regions |
| SnappyDecompress.RawUncompress | rtl/snappy/snappy.cc:1165-1173 | true just when the string is valid, with its decoding as output |
| SnappyDecompress.IsValidCompressed | rtl/snappy/snappy.cc:1226-1229 | true just when the string is valid |
| SnappyDecompress.UncompressToBlocks | rtl/snappy/snappy.cc:1459-1487 | the block writer: the same verdict and the same bytes |
| SnappyDecompress.AllAgree | rtl/snappy/snappy.cc:1098-1405 | three writers over three divisions of the same bytes: one verdict, and one output on acceptance |
| SnappyLaws.FourByteCopy | rtl/snappy/snappy.cc:719-730 | a byte 4(len-1)+3 and four offset bytes, for every length 1..64 and every offset: the copy, or a refusal just when it reaches too far back or beyond the declared length |
| SnappyLaws.TwoByteCopy | rtl/snappy/snappy.cc:719-730 | the same for 4(len-1)+2 and two offset bytes |
| SnappyLaws.OneByteCopy | rtl/snappy/snappy.cc:719-730 | the same for lengths 4..11, with one offset byte and three bits of the tag |
| SnappyLaws.ShortLiteral | rtl/snappy/snappy.cc:685-718 | a literal of 1..60 bytes with its length in the tag |
| SnappyLaws.LongLiteral | rtl/snappy/snappy.cc:695-718 | a literal whose length is in one to four bytes behind the tag, however short it is; the length 2^32 wraps to nothing |
| SnappyLaws.CutTag | rtl/snappy/snappy.cc:741-790 | a tag whose further bytes are not all there is refused |
| SnappyLaws.CutLiteral | rtl/snappy/snappy.cc:703-714 | a literal that ends early is refused |
| SnappyLaws.LengthRead | rtl/snappy/snappy.cc:625-647 | which lengths in front are read, and as what: up to five bytes, the last the first below 128, seven bits each from the lowest on, less than 2^32 in all |
| SnappyCompress.LiteralYields | rtl/snappy/snappy.cc:215-258 | a literal of any length is decoded to its bytes |
| SnappyCompress.CopyYields | rtl/snappy/snappy.cc:260-307 | a copy of any length of at least four, split so that no piece is shorter than four, is decoded to one copy |
| SnappyCompress.EmitLiteral | rtl/snappy/snappy.cc:215-258 | the bytes of a literal; the fast path agrees with the slow one |
| SnappyCompress.EmitCopy | rtl/snappy/snappy.cc:282-307 | the bytes of a copy and their number |
| SnappyCompress.FindMatchLength | rtl/snappy/snappy-internal.h:85-134 | the largest number of equal bytes before the limit |
| SnappyCompress.CompressFragment | rtl/snappy/snappy.cc:403-530 | for any hash and table, the decoder gets from what is written exactly the block, within the size bound; what is written are literals and copies in which no repetition is missed unless a hash collision hides it |
| SnappyCompress.EmitMatches | rtl/snappy/snappy.cc:420-521 | literals and copies in turn, no repetition missed; equal bytes become one literal byte and one copy to the end |
| SnappyCompress.Encode32 | rtl/snappy/snappy-stubs-internal.h:456-482 | the bytes of the length |
| SnappyCompress.VarintReads | rtl/snappy/snappy.cc:625-647 | the length is read back |
| SnappyCompress.RoomFor | rtl/snappy/snappy.cc:64-86 | header and blocks together fit 32 + n + n/6 |
| SnappyCompress.RawCompress | rtl/snappy/snappy.cc:829-911 | for every input below 2^32 bytes: a valid string that decodes to the input, within the size bound; n equal bytes take at most 24 + 5 (n / 65536) + 3 (n / 64) bytes |
| Snappy.RoundTrip | rtl/snappy/snappy.cc:1165-1241 | RawCompress and RawUncompress, however the compressed bytes are divided: true, and the input |
| Snappy.Declared | rtl/snappy/snappy.cc:824-827 | the declared length of a valid string is the length of its decoding |
| Bits.Log2Floor | rtl/snappy/snappy-stubs-internal.h:368-383 | the position of the highest set bit, -1 for zero |
| Bits.FindLSBSetNonZero | rtl/snappy/snappy-stubs-internal.h:385-396 | the position of the lowest set bit |
| Bits.FindLSBSetNonZero64 | rtl/snappy/snappy-stubs-internal.h:399-407 | the same for 64 bits from two halves |
| Bits.XorLow | rtl/snappy/snappy-internal.h:99-103 | the difference of two words has no bit among the low k just when these agree |
| Bits.EqualLeadingBytes | rtl/snappy/snappy-internal.h:99-103 | the lowest set bit of the difference divided by eight is the number of equal leading bytes |
| SnappyStubs.Parse32WithLimit | rtl/snappy/snappy-stubs-internal.h:434-454 | accepts the same lengths, with the same values, as the decoder's own loop |
| SnappyStubs.GetUncompressedLength | rtl/snappy/snappy.cc:309-317 | the declared length of a whole buffer, or a refusal just when there is none |
| SnappyStubs.OwnHash | rtl/snappy/snappy.cc:56-62 | the library's own multiplicative hash, with the shift that belongs to the table, never leaves the table |
| SnappyStubs.GetHashTable | rtl/snappy/snappy.cc:321-347 | a zeroed table whose size is a power of two between 256 and 16384, at least the input size or the maximum, and less than twice the input where it is above the minimum |
| SnappyStubs.ShiftFor | rtl/snappy/snappy.cc:412-413 | the shift that reduces a 32-bit hash to an index of the table |
| Candidates.Enter | rtl/lzo/minilzo.c:4857-4860 | a table under any hash keeps, of all positions entered with one hash value, the newest |
| Candidates.Miss | rtl/lzo/minilzo.c:4857-4862 | if the entry for a position is no match, every equal place entered before is hidden by a newer one with the same hash value and other bytes |
| Candidates.Skip | rtl/lzo/minilzo.c:4852-4856 | the places that a growing step leaves out are none of those that have to be looked up |
| Candidates.ScanMatch | rtl/lzo/minilzo.c:4854-4866 | a match keeps all of that for what is behind it |
| Candidates.ScanEnd | rtl/lzo/minilzo.c:4852-4862 | so of two equal places, each the start of a match or among the first literals of its run, the later one is a literal only if a hash collision between them hides it |
| LzoCompress.Probe | rtl/lzo/minilzo.c:4857-4862 | one position looked up and entered: the candidate, and whether its four bytes are the same |
| LzoCompress.Turn | rtl/lzo/minilzo.c:4852-5070 | a position whose candidate holds the same four bytes starts a match; no literal run passes over it |
| LzoFormat.NearMatch | rtl/lzo/minilzo.c:5019-5029 | every two bytes from 96 on, as the match they stand for: length and distance bit by bit |
| LzoFormat.MiddleMatch | rtl/lzo/minilzo.c:5030-5049 | every three bytes from 34 to 63 on, likewise |
| LzoFormat.LongMiddleMatch | rtl/lzo/minilzo.c:5035-5049 | the same with a length of any number of zero bytes |
| LzoFormat.FarMatch | rtl/lzo/minilzo.c:5050-5069 | every three bytes from 16 to 31 on, for distances beyond 16384 |
| LzoFormat.LongFarMatch | rtl/lzo/minilzo.c:5055-5069 | the same with a length of any number of zero bytes |
| LzoFormat.RunWritten | rtl/lzo/minilzo.c:4867-4916 | a literal run byte by byte |
| SnappyCompress.Scan | rtl/snappy/snappy.cc:451-472 | the first match, or none that has to be found; the first thirty-two places of a run are looked up one by one |
| SnappyCompress.EmitCopies | rtl/snappy/snappy.cc:491-516 | copies as long as the next match follows at once; the place behind each is looked up |

## Left out

- Access overlap beyond the hull: `_overlap` and the mixed-integer program of `solve_mip` decide whether two progressions share an address; the model ends with the pairs whose hulls overlap.
- Merging of trees: `_merge` of two interval trees is a union of thread sets in `Tournament`; what the union of the nodes looks like is not modelled.
- Concurrency of the tasks: a round's tasks run in any order, each as one step; that they use different trees is proved (`TasksDisjoint`).
- Strided.InsertData: the red-black variant's search order and subtree maxima are not part of it; the nodes on the way down are any path through the existing nodes, so the result holds for whatever path the tree gives.
- Strided.InsertAll: whole runs are proved to invent nothing for accesses of one kind within 2^32 of each other; for wider ones the single step is exact (`PreciseIff`), and what a run of imprecise steps adds up to is not stated.
- Coverage.FoldLaw: numbers are unbounded here as in `Strided.FoldGenuine`; the nodes' counts are 32 bits wide in the source.
- Lz4Compress.CompressGeneric: which repetitions are found is stated for the places that the search always looks up, the first of each literal run; further on the steps grow, and nothing is said.
- LzoCompress.Compress: the same; and of two places in different chunks nothing is said, since the dictionary starts afresh.
- SnappyCompress.CompressFragment: the same.
- Strided.FoldGenuine: addresses are natural numbers, and the differences at either end of the 64-bit range do not wrap.
- Lz4.CompressFast: dictionaries, streaming, external state and `LZ4_compress_destSize` are not modelled, nor the table of pointers that some platforms use in place of positions.
- Lz4Decompress.Decompress: the variants for dictionaries, partial decoding and trusted input are left out.
- LzoDecompress.Decompress: proved on the streams the compressor writes; it has no tests for other input, so malformed streams are outside its contract, and forms of matches that this compressor never writes are left out.
- LzoDecompress.ReadMatch: the same; the form for distances behind a short literal run and the one that reuses a two-byte match are not among its inputs.
- LzoDecompress.RunMatches: the same.
- TraceFile.LoadFile: a data file that is shorter than its offsets say, where the source stops, and blocks larger than its buffer are excluded; once a length has been taken from data, the model stops.
- TraceFile.WriteThenRead: the same.
- Pipeline.StoreAndLoad: the LZO branch; the Snappy and LZ4 branches of `dump_to_file` pass the address of the vector object instead of its elements, so only their codecs are modelled.
- Recorder.Recorder.SaveAccess: blocks are handed over as values; the second buffer, the asynchronous writer and `SWAP_BUFFER`, which compares where it should assign, are not modelled.
- Snappy.RoundTrip: the compressor reads one contiguous input; a source that hands out fragments, and the writer into an array of vectors, are left out.
- SnappyDecompress.UncompressToBlocks: the choice between one flat allocation and blocks by the sink's hints is left out, as is the allocation cap.
- HashSet.Set.Size: iterators, values stored with keys, copying and moving of tables are left out.
- HashSet.Set.FindFilledBucket: the probe offset is unbounded; the source's `int` would overflow beyond 2^31 buckets.
- RbTree.RbRoot.Erase: `rb_replace_node`, the variants with a cached leftmost node and those with dummy callbacks add no new algorithm.
- Inputs of the compressors are immutable sequences, so a compressor that overlaps its own input is excluded.
- Allocation failure, the file system, the meta-data files, the OMPT callbacks apart from what they record, the instrumentation pass, command lines and reports.
