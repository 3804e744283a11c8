# Proofs about HAProxy 1.5.1

A Dafny model of the data structures at the heart of HAProxy 1.5.1, and proofs of what they promise: the
elastic binary tree with its three families of keys, the ring buffer and its channel, the file descriptor
table and two of its pollers, the ACL parser and evaluator, and the base64 codec. Everything is checked with
`dafny verify dfyconfig.toml`.

## What is modelled

**Elastic binary trees** (`Eb*.dfy`, `Bits.dfy`, `Bytes.dfy`). An object of class `EbNode` is both an inner
node and a leaf, with the fields of the original: two branches, two upward pointers and a bit. Pointers carry a
tag (`Ref`). A ghost `Tree` gives the shape below a branch; `Represents` ties it to the heap: tags agree both
ways, no object serves twice as a leaf or as a node, each inner node sits above its own leaf, the node part of a
leaf is marked unused exactly when no inner node is hosted there, and the root has a null right branch, whose
tag says whether keys are unique. A context (`Ctx`) is a tree with a hole, which is how the proofs speak of the
place a walk has reached. On top of this skeleton come

- walks in all directions, with the climbs shown to end (`EbWalk`);
- duplicate trees, filled like a binary counter (`EbDup`), and deletion with the recycling of the released
  parent (`EbDelete`), both for any key;
- integer keys, whose bits decrease downwards (`EbScalar`, `Eb32`, `Eb32Lookup`, `Eb32Nearest`, `EbRuns`,
  `EbHistory`), signed ones being unsigned ones with the sign bit inverted;
- address prefixes, counted in half-bits with cover nodes (`EbPrefix`, `EbmbPrefix`, `EbmbLookup`, `EbmbHistory`);
- byte keys, of a fixed length or zero-terminated, whose bits increase downwards (`EbBytes`, `EbmbBytes`,
  `EbmbSearch`, `Ebst`, `EbstHint`, `EbShort`).

Each insertion is a method over linked objects, proved to make the tree of a pure function; that function is
then shown to be stable sorted insertion on the walking order and to keep the key invariant. Since every
insertion and the deletion establish the state they require, the results hold over every run; `EbHistory` and
`EbmbHistory` state what a search answers after any run of insertions and deletions, in terms of what was inserted
and not deleted (`Sifting`).

**Buffers** (`RingBuffer`, `BufferRotation`, `BufferBounce`, `BufferCycles`, `BufferReplace`, `Channel`,
`ChannelRun`). The contents of a buffer are the output followed by the input, read around the ring. A channel keeps
two ghost sequences, the bytes put and the bytes taken; its invariant is that what was taken, then what is in the buffer, is
what was put. `ChannelRun` has callers copy bytes out and compares those with what the calls accepted.

**File descriptors** (`Counting`, `FdState`, `FdTable`, `FdLaws`, `FdEvents`, `FdServed`, `EvPoll`). The table, the cache and the update
list are arrays changed in place; each operation is proved against a step on values, and the invariant of those
values relates states, lists and what has been registered, in the kernel for epoll or in the bitmaps for poll: the
table owns the bitmaps, if any, and every operation keeps them in agreement. Callbacks are arbitrary finite lists
of calls. `FdLaws` reads the effect of a run off its list of calls, up to what the kernel is told; `FdServed` says
whose callback is called, and with which events.

**ACLs** (`Acl`, `AclSamples`, `AclParse`, `AclWords`, `AclMasks`). Outcomes of the samples of an expression are given;
evaluation and parsing are the original's loops. The three values are compared with the answers that all the samples
still to come could give, each occurrence of an ACL on its own. The parser is compared with the ways to spell a
condition, and with the tokens read directly as an or of ands.

**Base64** (`Base64`, `Base64Digits`): the RFC 1421 codec of section 4.3.2.4 and the 30-bit variant.

## Findings

- `buffer_bounce_realign` is announced for any buffer. `BouncesExactly` gives the exact condition under which it
  keeps its promise; `BouncedWrapped` is a small buffer where it does not.
- `base64dec` accepts the quad `X===` although its comment excludes it (`QuadForms`).
- `buffer_reserved` subtracts unsigned words; the result is the one described except when the difference wraps
  past the range of an int (`ReservedExact`). A channel about to forward more than 2^31 bytes can then refuse
  every block (`ReservedTooMuch`, `RefuseAll`).
- `acl_exec_cond` may report MISS where the whole condition already fails, because it leaves a suite at the first
  term that does not pass (`ShortSound`, `UndecidedThoughFailing`).
- `fd_process_cached_events` passes an entry exactly when a call closes a file descriptor cached before the one
  being processed while entries are waiting: the last of those is moved behind the scan (`NoneSkippedExactly`,
  `SkippedIsPassed`). `ClosingAnotherSkips` is a scan of three entries that leaves one out; callbacks that close
  only their own file descriptor skip nothing (`OwnSkipsNone`).
- An empty alternative in a condition, as in `a or or b`, leaves the mask of contexts with all bits set
  (`MaskExact`).
- The comment of `__ebst_lookup` gives the tree built from "0", "WW", "W", "S" as the reason for bounding the hint;
  `EbstHint.ClampNeeded` builds it and shows the unbounded walk answering "S" for "W". The insertion needs no
  bound (`HintDown`, `HintBeyond`).
- `buffer_replace2` tells memmove to move a negative number of bytes when the input reaches the end of the data
  behind the bytes to replace, unless it refuses the call (`MoveSizeExactly`, with the inputs `EndsAtTheEnd` and
  `WrapsBehind`); it keeps its promise in all other cases (`Replace`).
- `buffer_contig_space` counts bytes in use exactly when the input wraps (`ContigSpace`).
- `__channel_forward` adjusts a request that does not fit, as announced, but a sum of exactly 2^32 - 1 is read as
  forwarding without end (`Forward`, `FiniteWithoutEnd`).
- When a cloned file descriptor is closed, epoll is told to remove it even if it was never registered: the call
  fails, without harm, exactly when no direction is polled (`EpollClo`, `ClosedUnpolled`). All other calls match
  what is registered (`Register`).
- `fork_poller` with epoll forgets all registrations while the polled bits stay: the table is right afterwards only
  if nothing was registered (`ForkPoller`), which is when the program calls it, before the first poll.
- A bit is stored in a short: byte keys must not share 4096 bytes (`ShortExactly`, `TooLong`), which no key of at
  most 4096 bytes does (`ShortKeys`).

## Model

| member | source | states |
|---|---|---|
| Bits.XorBelowTwo | aws/servers/haproxy-generic/root/haproxy-1.5.1/ebtree/eb32tree.h:293-294 | the descent test `(a ^ b) >> bit < 2` holds exactly when both words agree on every bit above `bit` |
| Bits.FlsXor | aws/servers/haproxy-generic/root/haproxy-1.5.1/ebtree/ebtree.h:252-312 | the position `flsnz` finds in the difference of two words is where they first differ from the top, and that bit orders them |
| Bits.FlsShr | aws/servers/haproxy-generic/root/haproxy-1.5.1/ebtree/ebtree.h:302-312 | looking at the upper half first finds the highest bit of the whole 64-bit word |
| Bits.FlipAdds | aws/servers/haproxy-generic/root/haproxy-1.5.1/ebtree/eb32tree.h:186-232 | inverting the sign bit of a word is an order isomorphism from two's complement values to unsigned ones |
| Bits.FlipXor | aws/servers/haproxy-generic/root/haproxy-1.5.1/ebtree/eb32tree.h:370-497 | inverting the sign bits of two words does not change how they differ |
| Bytes.EqualBits | aws/servers/haproxy-generic/root/haproxy-1.5.1/ebtree/ebtree.h:784-807 | below `len` the result is exactly where the byte strings first differ; from `len` on they agree on `len` bits, whatever the overshoot |
| Bytes.CheckBits | aws/servers/haproxy-generic/root/haproxy-1.5.1/ebtree/ebtree.h:813-838 | null exactly when the strings agree on the first `len` bits |
| Bytes.FirstDifference | aws/servers/haproxy-generic/root/haproxy-1.5.1/ebtree/ebtree.h:784-807 | two different bytes agree exactly on the bits before the highest set bit of their difference |
| Bytes.SameBitsStep | aws/servers/haproxy-generic/root/haproxy-1.5.1/ebtree/ebtree.h:784-838 | agreement up to a bit is agreement on the whole bytes before it and on the leading bits of its byte |
| EbTree.PlugSeq | aws/servers/haproxy-generic/root/haproxy-1.5.1/ebtree/ebtree.h:190-240 | the walking order of a tree is that of what surrounds any subtree of it, around that of the subtree |
| EbTree.PlugLinked | aws/servers/haproxy-generic/root/haproxy-1.5.1/ebtree/ebtree.h:190-240 | a tree is linked in memory exactly when any subtree and its surroundings are linked, meeting at one tagged pointer each way |
| EbTree.PlugApart | aws/servers/haproxy-generic/root/haproxy-1.5.1/ebtree/ebtree.h:190-240 | no object serves twice in a tree exactly when none does inside, outside and across any subtree |
| EbTree.RehangTree | aws/servers/haproxy-generic/root/haproxy-1.5.1/ebtree/ebtree.h:712-735 | giving a subtree another upward pointer touches its topmost object only |
| EbTree.RehangCtx | aws/servers/haproxy-generic/root/haproxy-1.5.1/ebtree/ebtree.h:712-735 | changing what hangs on a branch touches the owner of the branch only |
| EbTree.SeqNoRepeats | aws/servers/haproxy-generic/root/haproxy-1.5.1/ebtree/ebtree.h:190-240 | every leaf is walked once |
| EbTree.EbTree.IsEmpty | aws/servers/haproxy-generic/root/haproxy-1.5.1/ebtree/ebtree.h:523-526 | an empty root is one without any linked entry |
| EbTree.EbTree.Rank | aws/servers/haproxy-generic/root/haproxy-1.5.1/ebtree/ebtree.h:565-579 | a linked entry has a place in the walking order |
| EbWalk.WalkDown | aws/servers/haproxy-generic/root/haproxy-1.5.1/ebtree/ebtree.h:446-457 | going down one side ends on the first or last leaf; null stays null |
| EbWalk.EbFirst | aws/servers/haproxy-generic/root/haproxy-1.5.1/ebtree/ebtree.h:535-538 | the first entry of the walking order, or null when there is none |
| EbWalk.EbLast | aws/servers/haproxy-generic/root/haproxy-1.5.1/ebtree/ebtree.h:541-544 | the last entry of the walking order, or null when there is none |
| EbWalk.EbNext | aws/servers/haproxy-generic/root/haproxy-1.5.1/ebtree/ebtree.h:565-579 | the entry that follows in the walking order, or null after the last; so walks list every leaf once and end, the climb being bounded |
| EbWalk.EbPrev | aws/servers/haproxy-generic/root/haproxy-1.5.1/ebtree/ebtree.h:547-563 | the entry that precedes, or null before the first: the inverse of `eb_next` |
| EbWalk.ClimbNext | aws/servers/haproxy-generic/root/haproxy-1.5.1/ebtree/ebtree.h:565-579 | from the upward pointer of any subtree, the first leaf after it |
| EbWalk.ClimbPrev | aws/servers/haproxy-generic/root/haproxy-1.5.1/ebtree/ebtree.h:547-563 | from the upward pointer of any subtree, the last leaf before it |
| EbWalk.EbNextDup | aws/servers/haproxy-generic/root/haproxy-1.5.1/ebtree/ebtree.h:604-625 | the next entry exactly when its key is in the same group, else null, whatever the unused bit of the root holds; for any grouping the tree respects |
| EbWalk.EbPrevDup | aws/servers/haproxy-generic/root/haproxy-1.5.1/ebtree/ebtree.h:581-602 | the previous entry exactly when its key is in the same group, else null |
| EbWalk.EbNextUnique | aws/servers/haproxy-generic/root/haproxy-1.5.1/ebtree/ebtree.h:656-681 | the first entry of the next group, all entries before it being in the group of the starting one; null in the last group |
| EbWalk.EbPrevUnique | aws/servers/haproxy-generic/root/haproxy-1.5.1/ebtree/ebtree.h:627-654 | the last entry of the previous group, all entries after it being in the group of the starting one; null in the first group |
| EbWalk.GroupedOutside | aws/servers/haproxy-generic/root/haproxy-1.5.1/ebtree/ebtree.h:604-681 | a subtree outside duplicate trees shares no key with the rest of the tree |
| EbWalk.OtherNeighbours | aws/servers/haproxy-generic/root/haproxy-1.5.1/ebtree/ebtree.h:656-681 | outside duplicate trees the neighbours of a subtree have other keys |
| EbSplice.PlaceAbove | aws/servers/haproxy-generic/root/haproxy-1.5.1/ebtree/eb32tree.h:343-362 | the five pointer writes of an insertion put the new node between a branch and what hung there |
| EbSplice.SpliceRepresents | aws/servers/haproxy-generic/root/haproxy-1.5.1/ebtree/eb32tree.h:310-363 | after those writes memory represents the grafted tree: mutual tagged pointers, no object used twice, own leaf below each node |
| EbSplice.Attach | aws/servers/haproxy-generic/root/haproxy-1.5.1/ebtree/eb32tree.h:310-363 | linking an entry above any subtree re-establishes the whole representation invariant |
| EbSplice.InsertFirst | aws/servers/haproxy-generic/root/haproxy-1.5.1/ebtree/eb32tree.h:252-258 | the first entry hangs below the root with its node part unused |
| EbDup.EbInsertDup | aws/servers/haproxy-generic/root/haproxy-1.5.1/ebtree/ebtree.h:464-515 | on linked objects, the hole search and the writes make the tree of the functional insertion, and return the new entry |
| EbDup.FindHole | aws/servers/haproxy-generic/root/haproxy-1.5.1/ebtree/ebtree.h:473-481 | the walk down the right spine ends on the deepest hole, or on the top when there is none |
| EbDup.InsertLastSeq | aws/servers/haproxy-generic/root/haproxy-1.5.1/ebtree/ebtree.h:464-515 | the new duplicate is walked last, so duplicates stay in insertion order |
| EbDup.InsertLastShape | aws/servers/haproxy-generic/root/haproxy-1.5.1/ebtree/ebtree.h:220-229 | the dup-tree shape is kept: negative bits rising downwards, each node its right branch's first leaf; the top bit drops by one exactly when there is no hole |
| EbDup.DupNodeParts | aws/servers/haproxy-generic/root/haproxy-1.5.1/ebtree/ebtree.h:220-229 | in a dup tree the node parts in use are those of every leaf but the first |
| EbDup.InsertLastCounted | aws/servers/haproxy-generic/root/haproxy-1.5.1/ebtree/ebtree.h:464-515 | without deletions a node at bit -j keeps a left branch of exactly 2^(j-1) leaves: a binary counter |
| EbDup.CountedFull | aws/servers/haproxy-generic/root/haproxy-1.5.1/ebtree/ebtree.h:220-229 | a counted tree without a hole holds exactly 2^j leaves |
| EbDup.FillIsShallow | aws/servers/haproxy-generic/root/haproxy-1.5.1/ebtree/ebtree.h:220-229 | k duplicates inserted one after another are walked in that order, at depth at most the rounded-up logarithm of k |
| EbRuns.DuplicatesAreShallow | aws/servers/haproxy-generic/root/haproxy-1.5.1/ebtree/eb32tree.h:238-364 | after any run of insertions of any keys, a duplicate tree holds all the entries with its key, in insertion order, at depth at most the rounded-up logarithm of their number |
| EbRuns.RepeatedKey | aws/servers/haproxy-generic/root/haproxy-1.5.1/ebtree/eb32tree.h:238-364 | every key inserted twice or more has such a duplicate tree |
| EbRuns.RunKeeps | aws/servers/haproxy-generic/root/haproxy-1.5.1/ebtree/eb32tree.h:238-364 | over any run of insertions the key invariant holds, each duplicate tree is filled as a counter, and entries with the same key stay in insertion order |
| EbRuns.SameKeyRun | aws/servers/haproxy-generic/root/haproxy-1.5.1/ebtree/eb32tree.h:238-364 | entries that all have one key make exactly the duplicate tree of their own insertions |
| EbHistory.Run | aws/servers/haproxy-generic/root/haproxy-1.5.1/ebtree/eb32tree.h:126-364 | any insertions and deletions in any order, from an empty tree on: key by key the walk gives the entries still there in the order of their insertion |
| EbHistory.FirstInserted | aws/servers/haproxy-generic/root/haproxy-1.5.1/ebtree/eb32tree.h:132-179 | after any such run a search answers the entry inserted first among those with the key that are still there, null exactly when there is none |
| EbHistory.FirstSurvivor | aws/servers/haproxy-generic/root/haproxy-1.5.1/ebtree/eb32tree.h:132-179 | a walk that keeps that order has as first match the first inserted survivor |
| EbHistory.Omits | aws/servers/haproxy-generic/root/haproxy-1.5.1/ebtree/ebtree.h:687-775 | a deletion takes the entry away from every group of entries and leaves their order |
| EbDelete.Delete | aws/servers/haproxy-generic/root/haproxy-1.5.1/ebtree/ebtree.h:687-775 | for any linked leaf of any tree: the invariant is re-established, exactly that entry leaves the walking order; an unlinked entry changes nothing |
| EbDelete.Relink | aws/servers/haproxy-generic/root/haproxy-1.5.1/ebtree/ebtree.h:712-773 | the pointer writes of both steps leave memory representing the tree without the leaf |
| EbDelete.Unhook | aws/servers/haproxy-generic/root/haproxy-1.5.1/ebtree/ebtree.h:717-735 | the other branch of the released parent moves to the grandparent |
| EbDelete.Recycle | aws/servers/haproxy-generic/root/haproxy-1.5.1/ebtree/ebtree.h:752-770 | the released parent takes over the node part of the deleted object |
| EbDelete.RemoveSeq | aws/servers/haproxy-generic/root/haproxy-1.5.1/ebtree/ebtree.h:712-735 | releasing a parent drops exactly one leaf from the walking order |
| EbDelete.RemoveSets | aws/servers/haproxy-generic/root/haproxy-1.5.1/ebtree/ebtree.h:712-735 | exactly the leaf and its parent's node part leave the tree |
| EbDelete.RenameSets | aws/servers/haproxy-generic/root/haproxy-1.5.1/ebtree/ebtree.h:747-770 | hosting an inner node in another object changes neither leaves nor order |
| EbDelete.DeletedOwn | aws/servers/haproxy-generic/root/haproxy-1.5.1/ebtree/ebtree.h:687-775 | whatever the tree shape, after recycling every inner node still sits above its own leaf |
| EbDelete.DeletedSets | aws/servers/haproxy-generic/root/haproxy-1.5.1/ebtree/ebtree.h:687-775 | the result uses no object twice, and only linked entries host nodes |
| EbDelete.DeletedSeq | aws/servers/haproxy-generic/root/haproxy-1.5.1/ebtree/ebtree.h:687-775 | the walking order loses exactly the deleted leaf |
| EbDelete.SecondStep | aws/servers/haproxy-generic/root/haproxy-1.5.1/ebtree/ebtree.h:747-770 | recycling after the release represents the final tree |
| EbScalar.InsertRadix | aws/servers/haproxy-generic/root/haproxy-1.5.1/ebtree/eb32tree.h:238-364 | insertion keeps the key invariant: bits decrease downwards, keys agree above each bit, branches differ on it |
| EbScalar.NewBitFits | aws/servers/haproxy-generic/root/haproxy-1.5.1/ebtree/eb32tree.h:314-322 | the new bit is strictly above all bits of the subtree it goes over, and all its keys are on one side |
| EbScalar.InsertTop | aws/servers/haproxy-generic/root/haproxy-1.5.1/ebtree/eb32tree.h:314-322 | and strictly below the bit of the node the subtree hangs from |
| EbScalar.InsertIsPlaced | aws/servers/haproxy-generic/root/haproxy-1.5.1/ebtree/eb32tree.h:238-364 | on the walking order insertion is stable sorted insertion: after all keys less than or equal, FIFO among equals |
| EbScalar.RadixSorted | aws/servers/haproxy-generic/root/haproxy-1.5.1/ebtree/eb32tree.h:238-364 | walking a tree gives its keys in order |
| EbScalar.RadixGrouped | aws/servers/haproxy-generic/root/haproxy-1.5.1/ebtree/ebtree.h:604-681 | equal keys sit together, so the duplicate and unique walks apply to these trees |
| EbScalar.InsertedKeeps | aws/servers/haproxy-generic/root/haproxy-1.5.1/ebtree/eb32tree.h:238-364 | for every root: invariant kept, and a unique-tagged root refuses a known key and leaves the tree alone |
| EbScalar.DeletedRadix | aws/servers/haproxy-generic/root/haproxy-1.5.1/ebtree/ebtree.h:687-775 | deletion keeps the key invariant whatever node is recycled |
| EbScalar.DeletedDup | aws/servers/haproxy-generic/root/haproxy-1.5.1/ebtree/ebtree.h:687-775 | deletion keeps the dup-tree shape, so only the first duplicate's node part can be outside |
| EbScalar.FirstOfKey | aws/servers/haproxy-generic/root/haproxy-1.5.1/ebtree/eb32tree.h:135-180 | an entry whose node part is not used below is the first of its key there |
| EbScalar.StopFinds | aws/servers/haproxy-generic/root/haproxy-1.5.1/ebtree/eb32tree.h:288-302 | where the descent stops, the top node has the key if any leaf below has it |
| EbScalar.SideFinds | aws/servers/haproxy-generic/root/haproxy-1.5.1/ebtree/eb32tree.h:304-307 | where it goes on, only the side taken can have the key |
| Eb32.Eb32Insert | aws/servers/haproxy-generic/root/haproxy-1.5.1/ebtree/eb32tree.h:238-364 | on linked objects: the entry goes after all keys not above, or a unique tree returns the entry it has, unchanged |
| Eb32.Eb32iInsert | aws/servers/haproxy-generic/root/haproxy-1.5.1/ebtree/eb32tree.h:370-497 | the same for signed keys in two's complement order |
| Eb32.Eb64Insert | aws/servers/haproxy-generic/root/haproxy-1.5.1/ebtree/eb64tree.h:234-404 | the other case split, proved against the same abstract insertion |
| Eb32.Eb32Delete | aws/servers/haproxy-generic/root/haproxy-1.5.1/ebtree/eb32tree.h:126-129 | deletion keeps keys in order and a unique tree unique |
| Eb32.Descend | aws/servers/haproxy-generic/root/haproxy-1.5.1/ebtree/eb32tree.h:273-308 | the descent stops above a leaf, a dup tree or a differing node, at the place where the functional insertion grafts |
| Eb32.FlipWraps | aws/servers/haproxy-generic/root/haproxy-1.5.1/ebtree/eb32tree.h:400-405 | adding 0x80000000 modulo 2^32 inverts the sign bit |
| Eb32.WideFls | aws/servers/haproxy-generic/root/haproxy-1.5.1/ebtree/eb64tree.h:234-404 | `fls64` gives the same bit as the reference definition on any difference |
| Eb32.UniqueStop | aws/servers/haproxy-generic/root/haproxy-1.5.1/ebtree/eb32tree.h:324-333 | with unique keys an equal key is only met on a leaf |
| EbRuns.SignedIsFlipped | aws/servers/haproxy-generic/root/haproxy-1.5.1/ebtree/eb32tree.h:370-497 | inserting signed keys builds the tree, node for node and bit for bit, that flipped keys build as unsigned ones |
| EbRuns.SignedOrder | aws/servers/haproxy-generic/root/haproxy-1.5.1/ebtree/eb32tree.h:370-497 | walking a tree of signed keys gives them in signed order |
| EbRuns.SignedLookupIsFlipped | aws/servers/haproxy-generic/root/haproxy-1.5.1/ebtree/eb32tree.h:186-232 | looking for a signed key finds the entry at the place where the unsigned search of the flipped key finds its own in the tree of flipped keys |
| Eb32Lookup.Eb32LookupKey | aws/servers/haproxy-generic/root/haproxy-1.5.1/ebtree/eb32tree.h:135-180 | the first entry of the walk with the key, or null exactly when there is none |
| Eb32Lookup.Eb32iLookupKey | aws/servers/haproxy-generic/root/haproxy-1.5.1/ebtree/eb32tree.h:186-232 | the same for signed keys |
| Eb32Lookup.HostIsFirst | aws/servers/haproxy-generic/root/haproxy-1.5.1/ebtree/eb32tree.h:160-173 | the early return on an inner node with the key is right: that node's own leaf is the first duplicate |
| Eb32Lookup.DupFirst | aws/servers/haproxy-generic/root/haproxy-1.5.1/ebtree/eb32tree.h:165-171 | going left in a dup tree reaches the first duplicate |
| Eb32Lookup.NotBelow | aws/servers/haproxy-generic/root/haproxy-1.5.1/ebtree/eb32tree.h:175-176 | a key that differs above a node's bit is not below it |
| Eb32Nearest.Eb32LookupGe | aws/servers/haproxy-generic/root/haproxy-1.5.1/ebtree/eb32tree.c:137-218 | the first occurrence of the least key not below x, or null when all are below, as a scan would find |
| Eb32Nearest.Eb32LookupLe | aws/servers/haproxy-generic/root/haproxy-1.5.1/ebtree/eb32tree.c:49-129 | the last occurrence of the greatest key not above x, or null when all are above |
| Eb32Nearest.LeastStop | aws/servers/haproxy-generic/root/haproxy-1.5.1/ebtree/eb32tree.c:137-218 | where the walk stops, the answer is below or just after the subtree |
| Eb32Nearest.GreatestStop | aws/servers/haproxy-generic/root/haproxy-1.5.1/ebtree/eb32tree.c:49-129 | where the walk stops, the answer is below or just before the subtree |
| Eb32Nearest.OneSided | aws/servers/haproxy-generic/root/haproxy-1.5.1/ebtree/eb32tree.c:137-218 | where the key leaves the range of a node, all its leaves are on one side of it |
| EbPrefix.InsertPrefixed | aws/servers/haproxy-generic/root/haproxy-1.5.1/ebtree/ebmbtree.h:571-804 | insertion keeps the prefix-tree invariant: cover nodes at 2N, normal ones at 2N+1, half-bits rising downwards, shared bits below each node |
| EbPrefix.DeletedPrefixed | aws/servers/haproxy-generic/root/haproxy-1.5.1/ebtree/ebtree.h:687-775 | deletion keeps it too, whatever node is recycled |
| EbPrefix.PrefixGrouped | aws/servers/haproxy-generic/root/haproxy-1.5.1/ebtree/ebmbtree.h:75-97 | in a tree of prefixes entries for the same prefix sit in one duplicate tree, whatever the bits past the prefixes, so the duplicate and unique walks apply |
| EbPrefix.SameBitsOf | aws/servers/haproxy-generic/root/haproxy-1.5.1/ebtree/ebmbtree.h:560-569 | two entries are for the same prefix exactly when their leading bits are the same sequence |
| EbPrefix.InsertTop | aws/servers/haproxy-generic/root/haproxy-1.5.1/ebtree/ebmbtree.h:571-804 | a new half-bit is strictly above that of the node it hangs from |
| EbPrefix.DifferAll | aws/servers/haproxy-generic/root/haproxy-1.5.1/ebtree/ebmbtree.h:571-804 | where the descent stops on a difference, every entry below differs from the new one in the same way |
| EbPrefix.ShorterAll | aws/servers/haproxy-generic/root/haproxy-1.5.1/ebtree/ebmbtree.h:571-804 | where it stops because the new prefix ends, that prefix covers every entry below |
| EbPrefix.LongerAll | aws/servers/haproxy-generic/root/haproxy-1.5.1/ebtree/ebmbtree.h:571-804 | where it stops because the subtree's single prefix ends, that one covers the new entry |
| EbPrefix.InsertedKeeps | aws/servers/haproxy-generic/root/haproxy-1.5.1/ebtree/ebmbtree.h:571-804 | for every root: the entry is added after those with the same prefix, others keeping their order, or refused by a unique root that has the prefix |
| EbmbPrefix.EbmbInsertPrefix | aws/servers/haproxy-generic/root/haproxy-1.5.1/ebtree/ebmbtree.h:571-804 | on linked objects: that insertion, with the invariant kept |
| EbmbPrefix.EbmbDelete | aws/servers/haproxy-generic/root/haproxy-1.5.1/ebtree/ebmbtree.h:102-124 | deletion on a tree of prefixes |
| EbmbPrefix.EbmbNextDup | aws/servers/haproxy-generic/root/haproxy-1.5.1/ebtree/ebmbtree.h:75-79 | the next entry exactly when it stands for the same prefix |
| EbmbPrefix.EbmbNextUnique | aws/servers/haproxy-generic/root/haproxy-1.5.1/ebtree/ebmbtree.h:87-91 | the first entry of the next prefix, or null when all the others stand for the same one |
| EbmbPrefix.Descend | aws/servers/haproxy-generic/root/haproxy-1.5.1/ebtree/ebmbtree.h:571-804 | the descent with its carried bit stops where the functional insertion grafts |
| EbmbPrefix.Settle | aws/servers/haproxy-generic/root/haproxy-1.5.1/ebtree/ebmbtree.h:571-804 | above a single prefix, the new half-bit and side, capped by the shorter prefix |
| EbmbLookup.EbmbLookupLongest | aws/servers/haproxy-generic/root/haproxy-1.5.1/ebtree/ebmbtree.h:380-465 | an entry whose prefix matches with maximal length, the first in the walk among equals; null exactly when none matches |
| EbmbLookup.EbmbLookupPrefix | aws/servers/haproxy-generic/root/haproxy-1.5.1/ebtree/ebmbtree.h:468-559 | the first entry for exactly that prefix, or null when there is none |
| EbmbLookup.CoverWins | aws/servers/haproxy-generic/root/haproxy-1.5.1/ebtree/ebmbtree.h:462-464 | when nothing below matches, the last cover node passed gives the longest match |
| EbmbLookup.CoverStep | aws/servers/haproxy-generic/root/haproxy-1.5.1/ebtree/ebmbtree.h:448-457 | passing a cover node, its left branch, which matches as a whole, becomes the fallback |
| EbmbLookup.NormalStep | aws/servers/haproxy-generic/root/haproxy-1.5.1/ebtree/ebmbtree.h:439-459 | passing a normal node, nothing on the other side matches |
| EbmbLookup.FollowBits | aws/servers/haproxy-generic/root/haproxy-1.5.1/ebtree/ebmbtree.h:422-446 | the byte loop and the partial last byte together decide agreement up to the node's bit, and read the deciding bit |
| EbmbHistory.Run | aws/servers/haproxy-generic/root/haproxy-1.5.1/ebtree/ebmbtree.h:571-804 | any insertions and deletions of prefixes in any order: prefix by prefix the walk gives the entries still there in the order of their insertion |
| EbmbHistory.LongestInserted | aws/servers/haproxy-generic/root/haproxy-1.5.1/ebtree/ebmbtree.h:380-465 | after any such run the search answers the longest matching prefix still there, the one inserted first among equal ones |
| EbmbHistory.LongestSurvivor | aws/servers/haproxy-generic/root/haproxy-1.5.1/ebtree/ebmbtree.h:380-465 | the longest match in walking order is the longest match in insertion order |
| EbBytes.InsertTree | aws/servers/haproxy-generic/root/haproxy-1.5.1/ebtree/ebmbtree.h:218-371 | insertion keeps the byte-key invariant: bits increase downwards, keys agree before each bit, branches differ on it |
| EbBytes.InsertIsPlaced | aws/servers/haproxy-generic/root/haproxy-1.5.1/ebtree/ebmbtree.h:218-371 | on the walking order it is stable sorted insertion |
| EbBytes.LessIsByteLess | aws/servers/haproxy-generic/root/haproxy-1.5.1/ebtree/ebsttree.h:133-321 | order by first differing bit is the order of strcmp and memcmp on unsigned bytes |
| EbBytes.TreeSorted | aws/servers/haproxy-generic/root/haproxy-1.5.1/ebtree/ebmbtree.h:218-371 | walking gives keys in that order |
| EbBytes.TreeGrouped | aws/servers/haproxy-generic/root/haproxy-1.5.1/ebtree/ebmbtree.h:75-97 | equal byte keys sit in one duplicate tree, so the duplicate and unique walks apply |
| EbBytes.DeletedTree | aws/servers/haproxy-generic/root/haproxy-1.5.1/ebtree/ebtree.h:687-775 | deletion keeps the byte-key invariant |
| EbBytes.InsertedKeeps | aws/servers/haproxy-generic/root/haproxy-1.5.1/ebtree/ebmbtree.h:218-371 | for every root: invariant kept, FIFO duplicates, refusal by a unique root |
| EbBytes.OneOrTheOther | aws/servers/haproxy-generic/root/haproxy-1.5.1/ebtree/ebsttree.h:133-321 | keys of one tree are totally ordered |
| EbBytes.Differ | aws/servers/haproxy-generic/root/haproxy-1.5.1/ebtree/ebsttree.h:133-321 | different keys differ before the end of either |
| EbShort.ShortExactly | aws/servers/haproxy-generic/root/haproxy-1.5.1/ebtree/ebtree.h:375-378 | all bits of a tree of byte keys fit in the 16 bits that store them if and only if no two different keys share 4096 bytes |
| EbShort.ShortKeys | aws/servers/haproxy-generic/root/haproxy-1.5.1/ebtree/ebtree.h:375-378 | so they do when keys have at most 4096 bytes |
| EbShort.ShortPrefixes | aws/servers/haproxy-generic/root/haproxy-1.5.1/ebtree/ebtree.h:375-380 | half-bits fit when prefixes have at most 2048 bytes |
| EbShort.TooLong | aws/servers/haproxy-generic/root/haproxy-1.5.1/ebtree/ebtree.h:375-378 | inserting one of two keys that share 4096 bytes above the other needs a bit that does not fit |
| EbmbBytes.EbmbInsert | aws/servers/haproxy-generic/root/haproxy-1.5.1/ebtree/ebmbtree.h:218-371 | on linked objects: stable sorted insertion of a fixed-length key, or refusal by a unique root |
| EbmbBytes.EbmbDelete | aws/servers/haproxy-generic/root/haproxy-1.5.1/ebtree/ebmbtree.h:102-124 | deletion on a tree of byte keys |
| EbmbBytes.EbmbNextDup | aws/servers/haproxy-generic/root/haproxy-1.5.1/ebtree/ebmbtree.h:75-79 | the next entry exactly when it has the same key |
| EbmbSearch.EbmbLookup | aws/servers/haproxy-generic/root/haproxy-1.5.1/ebtree/ebmbtree.h:126-216 | the leftmost entry whose first `len` bytes are those asked for, null only when there is none, for any keys comparable on that length |
| EbmbSearch.AlwaysComparable | aws/servers/haproxy-generic/root/haproxy-1.5.1/ebtree/ebmbtree.h:126-132 | keys of one length are comparable on at most that length, and zero-terminated ones on any string without a zero |
| EbmbSearch.FollowBytes | aws/servers/haproxy-generic/root/haproxy-1.5.1/ebtree/ebmbtree.h:172-203 | a differing byte, a whole match, or the bit of the node: `pos`, `x` and `len` stay in step |
| Ebst.StringEqualBits | aws/servers/haproxy-generic/root/haproxy-1.5.1/ebtree/ebtree.h:850-881 | where two zero-terminated strings first differ, or -1 exactly when they are equal |
| Ebst.EbstInsert | aws/servers/haproxy-generic/root/haproxy-1.5.1/ebtree/ebsttree.h:133-321 | on linked objects: stable sorted insertion of a string, or refusal by a unique root |
| Ebst.EbstLookup | aws/servers/haproxy-generic/root/haproxy-1.5.1/ebtree/ebsttree.h:55-126 | the first entry with the string, exactly when it is present |
| Ebst.HintDown | aws/servers/haproxy-generic/root/haproxy-1.5.1/ebtree/ebsttree.h:133-250 | in the insertion the carried bit stays true of some key below, without any clamp |
| Ebst.HintBeyond | aws/servers/haproxy-generic/root/haproxy-1.5.1/ebtree/ebsttree.h:133-250 | a carried bit beyond a node's bit is enough to pass that node without comparing |
| Ebst.HintAtTop | aws/servers/haproxy-generic/root/haproxy-1.5.1/ebtree/ebsttree.h:133-250 | a carried bit not beyond a node's bit never overstates what its own key shares |
| Ebst.SeekGoesOn | aws/servers/haproxy-generic/root/haproxy-1.5.1/ebtree/ebsttree.h:99-124 | in the lookup the clamped bit never overstates what the next node's key shares |
| EbstHint.ClampNeeded | aws/servers/haproxy-generic/root/haproxy-1.5.1/ebtree/ebsttree.h:113-120 | in the tree of the comment, the walk without the bound answers "S" for "W", and with it finds "W" |
| EbstHint.BuiltTree | aws/servers/haproxy-generic/root/haproxy-1.5.1/ebtree/ebsttree.h:113-120 | the four insertions of the comment make that tree |
| EbstHint.EqualFromIs | aws/servers/haproxy-generic/root/haproxy-1.5.1/ebtree/ebtree.h:850-881 | started on a byte before which the strings agree, the comparison gives their first difference |
| EbstHint.BoundedFinds | aws/servers/haproxy-generic/root/haproxy-1.5.1/ebtree/ebsttree.h:55-131 | the walk that bounds the hint finds the entry with the string in any tree of distinct strings |
| EbstHint.LookupIsBounded | aws/servers/haproxy-generic/root/haproxy-1.5.1/ebtree/ebsttree.h:55-131 | so it is the lookup in place that ClampNeeded speaks of |
| RingBuffer.Buffer.BoPtr | aws/servers/haproxy-generic/root/haproxy-1.5.1/include/common/buffer.h:123-131 | where the contents begin, inside the data |
| RingBuffer.AroundP | aws/servers/haproxy-generic/root/haproxy-1.5.1/include/common/buffer.h:123-131 | the input is found from the pointer `p` on, and the output before it, both around the ring |
| RingBuffer.Buffer.Adv | aws/servers/haproxy-generic/root/haproxy-1.5.1/include/common/buffer.h:76-81 | bytes pass from input to output and the contents do not change |
| RingBuffer.Buffer.ContigSpace | aws/servers/haproxy-generic/root/haproxy-1.5.1/include/common/buffer.h:215-229 | room from the end of the input up to the end of data or the first output byte; it is free room if and only if the input does not wrap |
| RingBuffer.Buffer.Realign | aws/servers/haproxy-generic/root/haproxy-1.5.1/include/common/buffer.h:300-311 | only an empty buffer moves |
| RingBuffer.Buffer.Drop | aws/servers/haproxy-generic/root/haproxy-1.5.1/include/proto/channel.h:338-347 | exactly the first bytes of the output leave |
| RingBuffer.RingAppends | aws/servers/haproxy-generic/root/haproxy-1.5.1/src/channel.c:153-197 | writing just after the contents of a ring appends, across the wrap |
| RingBuffer.RingPart | aws/servers/haproxy-generic/root/haproxy-1.5.1/src/channel.c:258-285 | any part of the contents lies in one or two blocks |
| RingBuffer.AppendBytes | aws/servers/haproxy-generic/root/haproxy-1.5.1/src/channel.c:170-186 | a block in one or two pieces is appended to the contents |
| RingBuffer.ReadOutput | aws/servers/haproxy-generic/root/haproxy-1.5.1/src/channel.c:258-285 | part of the output is copied out in one or two pieces |
| RingBuffer.SlowRealign | aws/servers/haproxy-generic/root/haproxy-1.5.1/src/buffer.c:109-131 | without output the input is brought to the start of the data, whatever its wrapping |
| BufferReplace.Replace | aws/servers/haproxy-generic/root/haproxy-1.5.1/src/buffer.c:43-70 | the bytes between two positions are replaced, what is around them and the output are kept, wherever the input wraps and the move has a length; nothing changes when there is no room |
| BufferReplace.RoomExactly | aws/servers/haproxy-generic/root/haproxy-1.5.1/src/buffer.c:49-55 | the call is refused exactly when the contents would not fit, or input that does not wrap would reach the end of the data |
| BufferReplace.MoveSizeExactly | aws/servers/haproxy-generic/root/haproxy-1.5.1/src/buffer.c:49-58 | the move stays inside the data, unless the call is refused, if and only if the input ends before the end of the data, or the bytes to replace wrapped, or the input would run into the output |
| BufferReplace.EndsAtTheEnd | aws/servers/haproxy-generic/root/haproxy-1.5.1/src/buffer.c:57-58 | input that ends at the end of the data: twelve bytes less than none are to be moved |
| BufferReplace.WrapsBehind | aws/servers/haproxy-generic/root/haproxy-1.5.1/src/buffer.c:57-58 | input that wraps behind the bytes to remove: eleven bytes less than none |
| BufferReplace.Paste | aws/servers/haproxy-generic/root/haproxy-1.5.1/src/buffer.c:57-62 | what follows is moved before being overwritten |
| BufferRotation.BouncedFull | aws/servers/haproxy-generic/root/haproxy-1.5.1/src/buffer.c:140-193 | on a full buffer the in-place chains are exactly the rotation bringing the first byte to offset 0 |
| BufferRotation.ChainFull | aws/servers/haproxy-generic/root/haproxy-1.5.1/src/buffer.c:159-187 | on a full buffer a chain puts bytes where they belong; the places written and what is left to write make the buffer, and if anything is left the places written are whole cycles |
| BufferRotation.NextIsFresh | aws/servers/haproxy-generic/root/haproxy-1.5.1/src/buffer.c:189-191 | as long as bytes are left, the next start has not been written, whatever the common divisor of size and distance |
| BufferRotation.RepeatCovers | aws/servers/haproxy-generic/root/haproxy-1.5.1/src/buffer.c:189-191 | when a start repeats, the chains already cover everything |
| BufferCycles.FullCycles | aws/servers/haproxy-generic/root/haproxy-1.5.1/src/buffer.c:140-193 | on a full buffer there are exactly gcd(size, distance) chains, from consecutive starts, and each place is written once |
| BufferCycles.NeverStopped | aws/servers/haproxy-generic/root/haproxy-1.5.1/src/buffer.c:171-181 | on a full buffer no chain is stopped by the empty area: each is a cycle left where it began |
| BufferCycles.AllClass | aws/servers/haproxy-generic/root/haproxy-1.5.1/src/buffer.c:159-191 | what a chain writes is at its start modulo every common divisor of size and distance |
| BufferCycles.ReachesGcd | aws/servers/haproxy-generic/root/haproxy-1.5.1/src/buffer.c:159-187 | some number of moves leads exactly as far as the greatest common divisor |
| BufferRotation.BouncedWrapped | aws/servers/haproxy-generic/root/haproxy-1.5.1/src/buffer.c:134-193 | four bytes wrapping in a ring of five end up scrambled: the promise fails there |
| BufferBounce.BouncesExactly | aws/servers/haproxy-generic/root/haproxy-1.5.1/src/buffer.c:140-193 | all contents end up in order if and only if they fill the ring, or do not wrap, or size modulo distance is at most the free room |
| BufferBounce.BouncedMeetsAll | aws/servers/haproxy-generic/root/haproxy-1.5.1/src/buffer.c:140-193 | when that condition holds, any contents end up in order from offset 0 |
| BufferBounce.SomePlaceMissed | aws/servers/haproxy-generic/root/haproxy-1.5.1/src/buffer.c:140-193 | when it does not, one place is never written, whatever the data |
| BufferBounce.LandsInside | aws/servers/haproxy-generic/root/haproxy-1.5.1/src/buffer.c:171-181 | under the condition a chain never jumps over the empty area |
| BufferBounce.BounceRealign | aws/servers/haproxy-generic/root/haproxy-1.5.1/src/buffer.c:140-193 | the loops compute those chains, end, and put contents in order under the condition |
| Channel.Channel.Fifo | aws/servers/haproxy-generic/root/haproxy-1.5.1/src/channel.c:83-285 | bytes taken, then the output and the input, are the bytes put |
| ChannelRun.Run | aws/servers/haproxy-generic/root/haproxy-1.5.1/src/channel.c:42-285 | over any list of calls from an empty channel on: the bytes copied out, then what the buffer holds, are the bytes accepted, in the same order; `total` counts them; input leaves the reserve free once to_forward has left |
| ChannelRun.Call | aws/servers/haproxy-generic/root/haproxy-1.5.1/src/channel.c:42-285 | each call accepts what it offers or nothing, and what it copies out is what leaves the channel |
| Channel.Channel.Forward | aws/servers/haproxy-generic/root/haproxy-1.5.1/src/channel.c:42-74 | pending input is output and to_forward grows; the result is what was and will be output, all that was asked exactly when the sum fits in 32 bits, and the channel forwards without end exactly when the sum is 2^32 - 1 |
| Channel.FiniteWithoutEnd | aws/servers/haproxy-generic/root/haproxy-1.5.1/src/channel.c:61-72 | two finite requests after which the channel forwards without end |
| Channel.Channel.PutChr | aws/servers/haproxy-generic/root/haproxy-1.5.1/src/channel.c:119-144 | one byte is stored exactly when one is free and, once output and to_forward have left, more than the reserve is; min(1, to_forward) passes to the output; `total` counts it |
| Channel.Channel.PutBlk | aws/servers/haproxy-generic/root/haproxy-1.5.1/src/channel.c:153-197 | all of the block or none: exactly when it fits and leaves the reserve free once output and to_forward have left, outside the wrap of the subtraction; the three error codes; min(len, to_forward) passes to the output; `total` counts it |
| Channel.Channel.FullExactly | aws/servers/haproxy-generic/root/haproxy-1.5.1/include/proto/channel.h:130-148 | full means no free byte, or no more than the reserve once output and to_forward have left |
| Channel.Channel.RoomExactly | aws/servers/haproxy-generic/root/haproxy-1.5.1/include/proto/channel.h:278-281 | how long a block can be now, and at all |
| Channel.Channel.Inject | aws/servers/haproxy-generic/root/haproxy-1.5.1/src/channel.c:76-109 | a message goes straight to the output, or the error code says why not |
| Channel.Channel.GetBlk | aws/servers/haproxy-generic/root/haproxy-1.5.1/src/channel.c:258-285 | exactly the bytes of the output from the offset on, or nothing, per shutdown state |
| Channel.Channel.GetLine | aws/servers/haproxy-generic/root/haproxy-1.5.1/src/channel.c:209-249 | up to and including the first newline; a partial line only when full, cut by `len`, or shut down |
| Channel.Channel.Skip | aws/servers/haproxy-generic/root/haproxy-1.5.1/include/proto/channel.h:338-347 | the first bytes of the output have been taken |
| Channel.Channel.RealignInput | aws/servers/haproxy-generic/root/haproxy-1.5.1/src/buffer.c:109-131 | realigning keeps the channel's FIFO invariant |
| Channel.Channel.ReservedExact | aws/servers/haproxy-generic/root/haproxy-1.5.1/include/proto/channel.h:257-272 | the unsigned subtraction gives the reserve the comment asks for, if and only if it does not wrap past 2^31 |
| Channel.Channel.ReservedTooMuch | aws/servers/haproxy-generic/root/haproxy-1.5.1/include/proto/channel.h:257-281 | when it wraps and nothing has to be reserved, what is reserved can exceed the buffer |
| Channel.RefuseAll | aws/servers/haproxy-generic/root/haproxy-1.5.1/src/channel.c:153-170 | then an empty channel refuses every block as too large |
| Channel.LineEnds | aws/servers/haproxy-generic/root/haproxy-1.5.1/src/channel.c:209-249 | a length is that of the first line exactly when it ends on the first newline or takes all |
| Channel.TotalAdds | aws/servers/haproxy-generic/root/haproxy-1.5.1/src/channel.c:119-197 | counting in 64 bits is counting modulo 2^64 |
| Counting.RoomLeft | aws/servers/haproxy-generic/root/haproxy-1.5.1/include/proto/fd.h:95-115 | a list of distinct entries that leaves one out does not fill the array |
| FdState.AppliedKeeps | aws/servers/haproxy-generic/root/haproxy-1.5.1/src/fd.c:99-104 | every want, stop, cant, may, open and close keeps the invariant of table, cache, update list and registrations |
| FdState.RanKeeps | aws/servers/haproxy-generic/root/haproxy-1.5.1/src/fd.c:56-148 | so does every run of them |
| FdState.PassIsFullScan | aws/servers/haproxy-generic/root/haproxy-1.5.1/src/ev_epoll.c:72-115 | after the pass over the update list the polled bits, the states and the registrations of every fd are as if all had been looked at |
| FdState.SyncHeadKeeps | aws/servers/haproxy-generic/root/haproxy-1.5.1/src/ev_epoll.c:72-115 | each entry of the pass keeps the invariant |
| FdState.DroppedKeeps | aws/servers/haproxy-generic/root/haproxy-1.5.1/src/fd.c:281-306 | forgetting the trailing entry of an inactive fd that was never polled loses no needed sync |
| FdState.ClosedKeeps | aws/servers/haproxy-generic/root/haproxy-1.5.1/src/fd.c:178-199 | closing keeps the invariant and leaves no registration |
| FdState.UnlinkedCache | aws/servers/haproxy-generic/root/haproxy-1.5.1/include/proto/fd.h:121-136 | releasing a cache entry keeps entries and back references mutual |
| FdState.SameKernel | aws/servers/haproxy-generic/root/haproxy-1.5.1/src/ev_epoll.c:72-115 | under the invariant the registrations are determined by the polled bits of the open fds |
| FdState.ForkedKeeps | aws/servers/haproxy-generic/root/haproxy-1.5.1/src/fd.c:439-456 | marking open fds as cloned keeps the invariant |
| FdLaws.RanAfter | aws/servers/haproxy-generic/root/haproxy-1.5.1/include/proto/fd.h:237-330 | after any calls on any fds, an open fd that none closed is active, or ready, in each direction exactly as the last call about that flag says; what is polled does not change |
| FdLaws.LatestIs | aws/servers/haproxy-generic/root/haproxy-1.5.1/include/proto/fd.h:237-330 | the last word: some call that sets the flag has none that clears it after it, or it was set and none clears it |
| FdLaws.UpdateAsked | aws/servers/haproxy-generic/root/haproxy-1.5.1/include/proto/fd.h:237-330 | a call that changes a flag leaves an update entry, one that changes none changes nothing |
| FdLaws.OpenedAfter | aws/servers/haproxy-generic/root/haproxy-1.5.1/include/proto/fd.h:332-341 | an fd opened in the course of a run is new, and its flags are those the calls since then make of none set |
| FdLaws.ClosedAfter | aws/servers/haproxy-generic/root/haproxy-1.5.1/src/fd.c:178-199 | an fd closed and not opened again is in no state, cache or registration |
| FdLaws.PassPolls | aws/servers/haproxy-generic/root/haproxy-1.5.1/include/proto/fd.h:138-175 | the pass leaves interest and readiness alone; an fd is polled for a direction exactly when it is active and was polled or is not ready, and is cached exactly when a direction is active and ready |
| FdLaws.RunThenPass | aws/servers/haproxy-generic/root/haproxy-1.5.1/src/fd.c:100-105 | from the calls to the kernel: after any run and the next pass, exactly who was last said to want a direction is watched for it, or cached when ready for it |
| FdLaws.PassEndsNew | aws/servers/haproxy-generic/root/haproxy-1.5.1/src/ev_epoll.c:78-82 | the pass ends the newness of exactly the fds listed |
| FdTable.FdTable.UpdtFd | aws/servers/haproxy-generic/root/haproxy-1.5.1/include/proto/fd.h:95-102 | the fd is in the update list, once |
| FdTable.FdTable.AllocCacheEntry | aws/servers/haproxy-generic/root/haproxy-1.5.1/include/proto/fd.h:108-115 | the fd is in the cache, once |
| FdTable.FdTable.ReleaseCacheEntry | aws/servers/haproxy-generic/root/haproxy-1.5.1/include/proto/fd.h:121-136 | the fd leaves the cache, the last entry taking its place |
| FdTable.FdTable.SetState | aws/servers/haproxy-generic/root/haproxy-1.5.1/include/proto/fd.h:241-330 | a state change asks for an update, and none is asked for when nothing changes |
| FdTable.FdTable.FdInsert | aws/servers/haproxy-generic/root/haproxy-1.5.1/include/proto/fd.h:333-341 | an fd is opened as new, and maxfd covers it |
| FdTable.FdTable.FdDelete | aws/servers/haproxy-generic/root/haproxy-1.5.1/src/fd.c:178-199 | an fd is closed: out of the cache, of the registrations and of the bitmaps, and maxfd lowered |
| FdTable.FdTable.Perform | aws/servers/haproxy-generic/root/haproxy-1.5.1/src/fd.c:99-104 | every operation in place is the abstract step, whose effects RanAfter gives; table, registrations and bitmaps stay in agreement |
| FdTable.FdTable.Iocb | aws/servers/haproxy-generic/root/haproxy-1.5.1/src/fd.c:56-148 | so is every run of operations a callback makes |
| FdTable.FdTable.EpollCtl | aws/servers/haproxy-generic/root/haproxy-1.5.1/src/ev_epoll.c:54-112 | ADD on a registered fd, MOD and DEL on an unregistered one fail and change nothing |
| FdTable.FdTable.Register | aws/servers/haproxy-generic/root/haproxy-1.5.1/src/ev_epoll.c:72-115 | the right one of ADD, MOD and DEL is chosen for a change of the polled bits, and it succeeds |
| FdTable.FdTable.EpollClo | aws/servers/haproxy-generic/root/haproxy-1.5.1/src/ev_epoll.c:54-59 | closing a clone removes it from the set; the call fails if and only if no direction of the fd is polled |
| FdTable.ClosedUnpolled | aws/servers/haproxy-generic/root/haproxy-1.5.1/src/ev_epoll.c:54-59 | opened, forked and closed before being polled: the removal fails |
| FdTable.FdTable.LookAt | aws/servers/haproxy-generic/root/haproxy-1.5.1/src/ev_epoll.c:72-95 | an entry of the update list is brought up to date, in the table and in the kernel |
| FdTable.FdTable.DoUpdates | aws/servers/haproxy-generic/root/haproxy-1.5.1/src/ev_epoll.c:72-115 | the whole pass in place is the abstract one, for either poller |
| FdTable.FdTable.PollList | aws/servers/haproxy-generic/root/haproxy-1.5.1/src/ev_poll.c:60-118 | after the pass of poll(), the list holds exactly the open fds whose polled bits are set, with those bits |
| FdTable.FdTable.Tell | aws/servers/haproxy-generic/root/haproxy-1.5.1/src/ev_poll.c:82-95 | a change of the polled bits reaches the bitmaps, or the kernel, alike |
| FdTable.OpenBelowTop | aws/servers/haproxy-generic/root/haproxy-1.5.1/src/fd.c:197-198 | every registered fd is below maxfd |
| FdTable.FdTable.ForkPoller | aws/servers/haproxy-generic/root/haproxy-1.5.1/src/fd.c:439-456 | exactly the open fds are marked as cloned, in place, and epoll starts over with an empty set, with which the table agrees if and only if nothing was registered |
| FdTable.EmptiedSet | aws/servers/haproxy-generic/root/haproxy-1.5.1/src/ev_epoll.c:253-261 | the table agrees with an empty set only if nothing was registered |
| FdEvents.ProcessPolledEvents | aws/servers/haproxy-generic/root/haproxy-1.5.1/src/fd.c:245-307 | what it leaves differs from a run that forgets no update entry only by such entries; the turns it reports are those of that run |
| FdEvents.LighterSamePass | aws/servers/haproxy-generic/root/haproxy-1.5.1/src/fd.c:281-306 | and such a difference is gone after the next pass: same registrations, states and cache membership |
| FdEvents.VisitedLightKeeps | aws/servers/haproxy-generic/root/haproxy-1.5.1/src/fd.c:264-306 | each entry of the loop over new fds keeps that relation |
| FdEvents.ForgottenKeeps | aws/servers/haproxy-generic/root/haproxy-1.5.1/src/fd.c:281-306 | forgetting the last entry of an idle fd keeps that relation |
| FdEvents.LighterRan | aws/servers/haproxy-generic/root/haproxy-1.5.1/src/fd.c:245-307 | callbacks cannot see forgotten entries |
| FdEvents.ProcessCachedEvents | aws/servers/haproxy-generic/root/haproxy-1.5.1/src/fd.c:204-238 | the scan in place is the abstract one and ends, with the same turns; an fd still cached has not been processed exactly when it was passed |
| FdEvents.SkippedIsPassed | aws/servers/haproxy-generic/root/haproxy-1.5.1/src/fd.c:231-236 | an entry is left out exactly when a call moved it behind the scan: it was last, still waiting, when an fd cached before the current place was closed |
| FdEvents.NoneSkippedExactly | aws/servers/haproxy-generic/root/haproxy-1.5.1/src/fd.c:204-238 | nothing is passed if and only if no call closes an fd cached before the current place while entries wait; everything still cached was processed if and only if what was passed was closed later |
| FdEvents.AppliedSides | aws/servers/haproxy-generic/root/haproxy-1.5.1/include/proto/fd.h:121-136 | one call keeps the processed and passed entries, and only them, behind the scan |
| FdEvents.OwnSkipsNone | aws/servers/haproxy-generic/root/haproxy-1.5.1/src/fd.c:204-238 | callbacks that close only their own fd make the scan skip nothing |
| FdEvents.ClosingAnotherSkips | aws/servers/haproxy-generic/root/haproxy-1.5.1/src/fd.c:204-238 | a whole scan of three fds where the second callback closes the first fd: the third stays cached without its turn |
| FdServed.TakenRightly | aws/servers/haproxy-generic/root/haproxy-1.5.1/src/fd.c:220-229 | at its turn a cached fd has its callback called exactly when a direction is ready and active or an error or hang-up sticks, and is told exactly that |
| FdServed.AwokenRightly | aws/servers/haproxy-generic/root/haproxy-1.5.1/src/fd.c:285-296 | so has a new fd met in the update list |
| FdServed.ScanServesRightly | aws/servers/haproxy-generic/root/haproxy-1.5.1/src/fd.c:204-238 | over a whole scan every turn is such a turn, each fd processed has exactly one, and whoever is not called has an update entry |
| FdServed.ServedUnlessPassed | aws/servers/haproxy-generic/root/haproxy-1.5.1/src/fd.c:204-238 | whoever is cached and left alone by the callbacks of others is passed, or has its turn as it was at the start |
| FdServed.AllServed | aws/servers/haproxy-generic/root/haproxy-1.5.1/src/fd.c:204-238 | after a pass, with callbacks that keep to their own fd, every cached fd is called with what it is ready and active for |
| FdServed.ReportedReady | aws/servers/haproxy-generic/root/haproxy-1.5.1/src/fd.c:247-256 | each reported event makes its direction ready, an error both, a hang-up that of reading; nothing else changes |
| FdServed.PolledServesRightly | aws/servers/haproxy-generic/root/haproxy-1.5.1/src/fd.c:245-307 | the callback is called with what was reported exactly when something was and the fd is not cached; the turns after it are right |
| FdServed.NewServed | aws/servers/haproxy-generic/root/haproxy-1.5.1/src/fd.c:280-296 | a new fd in the part of the list that the loop covers has its turn, as it is when others leave it alone |
| FdServed.OpenedServed | aws/servers/haproxy-generic/root/haproxy-1.5.1/src/fd.c:272-296 | what a callback opens and wants to use has its turn right after: called exactly when ready for it, and told so |
| FdServed.ForgottenExactly | aws/servers/haproxy-generic/root/haproxy-1.5.1/src/fd.c:298-305 | the entry of a new fd is removed exactly when it is the last one and neither direction is active |
| EvPoll.PollSet.Update | aws/servers/haproxy-generic/root/haproxy-1.5.1/src/ev_poll.c:71-99 | the bitmaps follow the polled bits as the registrations of the other poller do |
| EvPoll.PollSet.Clo | aws/servers/haproxy-generic/root/haproxy-1.5.1/src/ev_poll.c:51-55 | a closed fd is in neither bitmap |
| EvPoll.PollSet.BuildList | aws/servers/haproxy-generic/root/haproxy-1.5.1/src/ev_poll.c:101-118 | the list for poll() is exactly what is registered below maxfd, in order, though empty words are skipped |
| EvPoll.HapFdSet | aws/servers/haproxy-generic/root/haproxy-1.5.1/src/ev_poll.c:36-39 | one bit set, no other touched |
| EvPoll.HapFdClr | aws/servers/haproxy-generic/root/haproxy-1.5.1/src/ev_poll.c:41-44 | one bit cleared, no other touched |
| Acl.AclExecCond | aws/servers/haproxy-generic/root/haproxy-1.5.1/src/acl.c:1095-1207 | the nested loops with their breaks compute the short-circuiting evaluation |
| Acl.ShortSound | aws/servers/haproxy-generic/root/haproxy-1.5.1/src/acl.c:1109-1207 | PASS exactly when the full three-valued or-of-ands is PASS; FAIL only when it is FAIL; equal to it exactly when each failing term comes after passing ones |
| Acl.CondPassing | aws/servers/haproxy-generic/root/haproxy-1.5.1/src/acl.c:1109-1207 | a condition passes exactly when all terms of one suite pass |
| Acl.CondFailing | aws/servers/haproxy-generic/root/haproxy-1.5.1/src/acl.c:1109-1207 | it fails exactly when every suite has a failing term; the short-circuit says so exactly when each comes after passing terms |
| Acl.UndecidedThoughFailing | aws/servers/haproxy-generic/root/haproxy-1.5.1/src/acl.c:1191-1198 | a missing term before a failing one hides the failure |
| Acl.DecisionStays | aws/servers/haproxy-generic/root/haproxy-1.5.1/src/acl.c:1095-1108 | a definite answer survives any later resolution of the expressions that were missing |
| Acl.AclStays | aws/servers/haproxy-generic/root/haproxy-1.5.1/src/acl.c:1148-1185 | what is decided for an ACL stays when only missing expressions change |
| Acl.FinalDecides | aws/servers/haproxy-generic/root/haproxy-1.5.1/src/acl.c:1109-1207 | with SMP_OPT_FINAL the answer is never MISS: it is the boolean or of ands |
| AclSamples.AclVerdict | aws/servers/haproxy-generic/root/haproxy-1.5.1/src/acl.c:1148-1185 | an ACL passes exactly when some sample matches; otherwise it is missed exactly when the answer is not final and more samples can come, and fails when none can |
| AclSamples.DecidedExactly | aws/servers/haproxy-generic/root/haproxy-1.5.1/src/acl.c:1095-1207 | acl_exec_cond passes on partial data exactly when the condition holds whatever samples may still come, and fails only when it fails whatever may come; unshortened, it fails exactly then |
| AclSamples.AnswerStays | aws/servers/haproxy-generic/root/haproxy-1.5.1/src/acl.c:1095-1207 | a definite answer is the final boolean answer once all samples are known |
| AclSamples.TermSteered | aws/servers/haproxy-generic/root/haproxy-1.5.1/src/acl.c:1148-1190 | a missed term can still go either way |
| AclParse.ParseAclCond | aws/servers/haproxy-generic/root/haproxy-1.5.1/src/acl.c:907-1043 | the parser accepts exactly the lists whose words can be read, and builds the condition of those words |
| AclParse.MeaningKept | aws/servers/haproxy-generic/root/haproxy-1.5.1/src/acl.c:931-1043 | evaluating what is built is evaluating the words as an or of ands, negation being the parity of the marks since the last operand or `or` |
| AclParse.ParsedMeans | aws/servers/haproxy-generic/root/haproxy-1.5.1/src/acl.c:898-1207 | parsing then short-circuit evaluation: PASS exactly when the words pass, FAIL only when they fail, the same when final |
| AclParse.MaskExact | aws/servers/haproxy-generic/root/haproxy-1.5.1/src/acl.c:931-1043 | the validity mask is that of the suites unless a segment is empty, where it has all bits |
| AclParse.SuitesSplit | aws/servers/haproxy-generic/root/haproxy-1.5.1/src/acl.c:931-1043 | the suite being filled holds exactly the operands of the last segment |
| AclWords.ReadExactly | aws/servers/haproxy-generic/root/haproxy-1.5.1/src/acl.c:934-1006 | the lists accepted are exactly those spelled with marks alone or glued, `\|\|` or `or` in any case, known names, and braces closed before the end; whatever the spelling, the condition means what its tokens do |
| AclWords.SpelledRead | aws/servers/haproxy-generic/root/haproxy-1.5.1/src/acl.c:934-1006 | every spelling of a token list is read as that list |
| AclWords.PrintedBack | aws/servers/haproxy-generic/root/haproxy-1.5.1/src/acl.c:907-1043 | a condition printed with the names of its ACLs is parsed back into the same suites |
| AclMasks.UsesExactly | aws/servers/haproxy-generic/root/haproxy-1.5.1/src/acl.c:1026-1026 | the condition needs exactly what some operand needs, bit by bit |
| AclMasks.UsableExactly | aws/servers/haproxy-generic/root/haproxy-1.5.1/src/acl.c:1014-1042 | a place is allowed exactly when all ACLs of one suite allow it, or a segment is empty |
| Base64.RoundTrip | aws/servers/haproxy-generic/root/haproxy-1.5.1/src/base64.c:33-138 | decoding an encoded byte string gives it back, for every string |
| Base64.A2base64 | aws/servers/haproxy-generic/root/haproxy-1.5.1/src/base64.c:33-67 | the standard encoding, zero-terminated, never beyond `olen`; -1 and nothing written when it does not fit |
| Base64.Base64dec | aws/servers/haproxy-generic/root/haproxy-1.5.1/src/base64.c:77-138 | exactly the decoded bytes, 3 per quad less the pads, or the error codes; never beyond 3 per quad |
| Base64.QuadForms | aws/servers/haproxy-generic/root/haproxy-1.5.1/src/base64.c:69-138 | the quads accepted are XXXX, XXX=, XX== and X===, the last one despite the comment |
| Base64.EncodeLength | aws/servers/haproxy-generic/root/haproxy-1.5.1/src/base64.c:33-67 | four characters per started group of three bytes |
| Base64Digits.ChunkNumber | aws/servers/haproxy-generic/root/haproxy-1.5.1/src/base64.c:43-64 | the four values are the base-64 digits of the number whose base-256 digits are the bytes, most significant first, with zero bits and `=` after one or two bytes |
| Base64Digits.QuadOfGroup | aws/servers/haproxy-generic/root/haproxy-1.5.1/src/base64.c:43-64 | quad k encodes group k of three bytes |
| Base64Digits.SameNumber | aws/servers/haproxy-generic/root/haproxy-1.5.1/src/base64.c:163-184 | what b64tos30 computes is the number with those digits |
| Base64.RevOfTab | aws/servers/haproxy-generic/root/haproxy-1.5.1/src/base64.c:25-26 | the decoding table is the inverse of the encoding one |
| Base64.RevIs | aws/servers/haproxy-generic/root/haproxy-1.5.1/src/base64.c:25-26 | the decoding table is defined on the 64 symbols and the pad only |
| Base64.S30tob64 | aws/servers/haproxy-generic/root/haproxy-1.5.1/src/base64.c:147-156 | five characters for the 30 low bits of an int, negative or not |
| Base64.B64tos30 | aws/servers/haproxy-generic/root/haproxy-1.5.1/src/base64.c:163-184 | the number five symbols stand for, or -1 when one is none |
| Base64.RoundTripS30 | aws/servers/haproxy-generic/root/haproxy-1.5.1/src/base64.c:147-184 | every int is recovered modulo 2^30 |

## Left out

- Channel.Channel.GetLine: pipes used for splicing are not part of the buffer, so the case where only a pipe holds data is absent.
- Bits: `flsnz` is taken by its meaning, not by its x86 instruction; its value on equal keys, overwritten in the source, is never asked for.
- EbTree: keys and prefix lengths are constants of an object; a bit is an integer, not a short: `EbShort` says when that makes no difference for the bits of keys, and that the negative bits of a duplicate tree never run out is not stated; a root is represented by an object of the same class whose other fields are not read. `eb_next_dup` reads the bit of a root, whose value is left arbitrary.
- Eb32Lookup.Eb32LookupKey: the shift by the negative bit of a duplicate tree, undefined in C, may give any word; the answer is shown right whatever comes out.
- eb64 lookups and signed insertion, and the pointer and indirect-key families (`ebpttree`, `ebimtree`, `ebistree`): the same algorithms with other casts.
- Allocation of objects, and trees shared between processes.
- BufferReplace.Replace: callers for whom the move has a negative length, which is undefined in C, and so what the buffer holds then (see Findings).
- FdTable.FdTable.ForkPoller: a new epoll set that cannot be created.
- EbHistory.Run: trees that allow duplicates; in a tree of unique keys what is refused depends on what is there.
- EbmbHistory.Run: the same.
- Timeouts, analysers, `buffer_insert_line2`, `buffer_dump` and the other helpers of `buffer.h` and `channel.h`.
- Sample fetching and pattern matching, error messages, allocation failures and the polarity of a condition; the tables of known ACL names are parameters.
- `iocb` and `ev` pointers, socket options, port ranges, waiting and time in the pollers; epoll errors other than those about what is registered; the select and kqueue pollers, which scan the update list the same way.
- The words of the poll bitmaps are 32 booleans, not machine words.
- `checks.c`, `cfgparse.c`, balancing, compression, counters over time, and everything that depends on sockets or the clock.
