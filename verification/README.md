# Elastic binary trees and their neighbours in HAProxy 2.0.3

This project models the ebtree library of HAProxy, with its integer, string, prefix and scoped trees, and six further
parts of HAProxy: the dictionary of interned strings, the compiler and evaluator of ACL conditions, the storing and
reading of cached messages, and three parts of the configuration parser (the line tokenizer, the resolution of `track`
directives and the propagation of process masks). It proves what these parts are for: which entry a lookup gives, in
which order a walk meets the entries, what every operation keeps, and what holds after any run.

## How the trees are modelled

Entries live on the heap. `EbNodes.EbNode` has the fields of `struct eb_node` (branches, `node_p`, `leaf_p`, `bit`,
`pfx`) and the keys and masks that the typed variants append; a `Troot` is a pointer with its tag. The methods follow
the C code: descents over a cursor, writes to branches and parent pointers one at a time, no test that the code does
not make. Where several C functions repeat the same relinking it is one method here.

| layer | modules |
|---|---|
| options and bytes | Basics |
| keys as strings of bits | BitStrings, Integers, ByteKeys, Orders |
| the abstract tree, its invariants, insertion and deletion as functions on it | EbShapes, EbRadix, EbDeletion |
| the tree in memory | EbNodes, EbMemory, EbLinks, EbRemoval, EbRoots, EbWalks |
| integer keys of any width, unsigned and signed | Eb32, Eb32Lookup |
| prefixes with cover nodes | Ebmb, EbmbLookup |
| zero-terminated strings | Ebis |
| scoped trees | Scopes, Eb32sc, Eb32scWalk, Eb32scRuns |
| whole runs, on lists, on abstract trees and in memory, and how deep trees of duplicates get | Histories, TreeRuns, DupCounter |
| interned strings | Dict |
| conditions, evaluated and compiled | AclConditions, AclWords |
| cached messages, stored and read | CacheStore, CacheStream |
| configuration | Tokenizer, LineWords, Tracking, Propagation |

A root, `EbRoots.EbTree`, carries the abstract tree it stands for. `Valid` says that memory and abstract tree agree
link by link in both directions, that each node part in use is above its own leaf, that exactly one linked entry of a
tree that is not empty has an unused node part, that the keys of both branches agree with the node's bit, and that a
node's own leaf is the first of its key. Each method on the heap is proved against a function on the abstract tree
(`Insert`, `Delete`) or on the list of its leaves (`Splice`, `Remove`, `FirstWith`, `IsLongest`), and the lemmas say
what these functions keep. One tree of bit strings serves all layers: an integer is its bits from the highest down
(with the sign bit inverted for signed keys), a string the bits of its bytes with the final zero, a prefix its first
bits. `Histories` runs the operations in any order against a plain sorted list, `TreeRuns` does so in memory and
concludes which entry each lookup finds after any run.

The descents of the C functions are methods of their own here, and so is the end that their insertions have in
common: `__eb32_insert` is `Insert32` with `Descend`, `Finish` and `EbTree.Conclude`, `__ebmb_insert_prefix` is
`InsertPrefix` with `Descend`, `Step`, `End` and `EbTree.Conclude`, and so on.

## Results that differ from what one would expect

- **Scoped insertion among duplicates.** `eb32sc_insert_dup` adds the scope to a mask only if the mask has nothing of
  it yet (eb32sctree.c:51 and 60). A mask that has some of the scope and not all stays too narrow, and a later walk
  passes over an entry that has the scope asked for. `Eb32scRuns.MaskTooNarrow` and `Eb32scRuns.WalkMisses` give a
  run: seven equal keys with the scope {0}, then one with {0, 1}. A walk meets just the entries of its scope, for
  every scope, if and only if each mask includes the scopes of all leaves below it
  (`Eb32scWalk.CoversIffHidesNothing`); so after a step from a tree where that holds the walks stay right if and only
  if each mask the step meets has nothing of the scope or all of it (`Eb32scRuns.StepKeepsWalks`). Scopes of a single
  bit always meet this (`Eb32scRuns.SingleScopesCover`). What the walks give when masks are too narrow is stated as
  well (`Eb32scWalk.NextScoped`, `Eb32scWalk.VisitScoped`). The inner loop over the intermediate nodes, lines 49 to
  56, never changes a mask, since the walk has marked these nodes before.
- **Payloads of cached messages.** The copy loop of `htx_cache_dump_blk` copies each piece to the start of the block
  (cache.c:922), so a payload that is not data and lies in two blocks of the row is not delivered whole:
  `CacheStream.CopiedWhole` says it is, whatever was in memory, if and only if it lies within one block, and
  `CacheStream.CopiedSpoils` gives, for each other one, memory with which it is not. Data records are delivered byte
  by byte wherever they lie.
- **Conditions.** A pass or fail of `acl_exec_cond` never has to be taken back, but an early exit can make it report
  a condition as open though it is certain to fail. That is so if and only if no conjunction can pass and some
  conjunction's first term that does not pass is open (`AclConditions.OpenThoughCertain`); whether a conjunction can
  pass is read off its terms (`AclConditions.CertainIff`), and `AclConditions.OpenBeforeFailing` is an input.
- **Masks of conditions.** The validity mask is the union over the clauses of what all tests of each allow if and only
  if no clause is empty or that union is all bits anyway (`AclWords.ValIff`): an "or" with nothing on one side
  sets all bits, since the mask of no terms is all ones (`AclWords.TrailingOr`).
- **Zeros in configuration lines.** Outside single quotes `\x00` writes a zero into the line (cfgparse.c:1964-1975),
  and an argument ends at its first zero for whoever reads it. The arguments are just the words of the line if and
  only if no such escape is read (`Tokenizer.ArgumentsAre`); on `a\x00b` the argument is `a`
  (`LineWords.NulCutsWord`). A line whose first argument is empty is skipped without the complaint about too many
  words (cfgparse.c:2108-2110).
- **Prefixes.** The bits past a prefix need not be zero, in insertions or in lookups; the comment at
  ebmbtree.h:561-566 leaves that open. When a prefix goes down to the left of a cover node of its own length, the bit
  count goes on in half-bits (ebmbtree.h:683-688); the model does the same, and no comparison suffers from it.
- **Process masks.** The recursion ends from any masks. At its only call every proxy has a mask already, since the loop
  before it (cfgparse.c:3734-3745) gives one to each, so the branch for a frontend without one (cfgparse.c:2221-2225) is
  never taken there, and the result is closed for every configuration (`Propagation.BindProcesses`).

## Model

| member | source | states |
|---|---|---|
| EbShapes.OneSpareNode | source/haproxy-2.0.3/ebtree/ebtree.h:185-191 | Every node part in use belongs to a linked entry, and exactly one linked entry of a non-empty tree has an unused node part |
| EbShapes.LeavesDistinct | source/haproxy-2.0.3/ebtree/ebtree.h:185-207 | In a tree whose node parts sit above their own leaves no entry is met twice, and the top's own leaf is below it |
| EbRadix.InsertLeaves | source/haproxy-2.0.3/ebtree/ebtree.h:141-147 | Insertion puts the entry just after the last one whose key is not above its own and changes nothing else in the walking order |
| EbRadix.InsertSets | source/haproxy-2.0.3/ebtree/ebtree.h:185-191 | Insertion adds one leaf and one node part and keeps each node part above its own leaf |
| EbRadix.InsertRadix | source/haproxy-2.0.3/ebtree/ebmbtree.h:571-804 | Insertion keeps the shape by keys: below a cover node at N bits the left branch holds just the keys of N bits and the right longer ones that share them, below a normal node the branches differ by bit N, and levels of duplicates increase strictly towards the leaves |
| EbRadix.InsertOwnFirst | source/haproxy-2.0.3/ebtree/eb32tree.h:135-180 | Insertion keeps a node's own leaf the first entry of its key, which lets a lookup return early at a node |
| EbRadix.InsertDupOk | source/haproxy-2.0.3/ebtree/ebtree.h:464-515 | A duplicate goes last in its tree, and each node's own leaf stays the leftmost one of its right branch |
| EbRadix.InsertNoDups | source/haproxy-2.0.3/ebtree/ebtree.h:237-242 | A tree of unique keys stays without duplicates when an absent key is inserted |
| EbRadix.StopAtFinds | source/haproxy-2.0.3/ebtree/eb32tree.h:135-180 | Where the descent for a key ends the key's first entry is found if the tree holds one, and only then |
| EbDeletion.DeleteLeaves | source/haproxy-2.0.3/ebtree/ebtree.h:206-212 | Deletion takes exactly one leaf out of the walking order |
| EbDeletion.DeleteElastic | source/haproxy-2.0.3/ebtree/ebtree.h:206-212 | Deletion keeps each part used once and each node part above its own leaf, also when the freed parent replaces the deleted entry's node part |
| EbDeletion.DeleteRadix | source/haproxy-2.0.3/ebtree/ebmbtree.h:571-804 | Deletion keeps the shape by keys, of duplicates, of normal and of cover nodes |
| EbDeletion.DeleteOwnFirst | source/haproxy-2.0.3/ebtree/eb32tree.h:135-180 | Deletion keeps a node's own leaf the first entry of its key, though the own leaf may change |
| EbDeletion.DeleteNodeSet | source/haproxy-2.0.3/ebtree/ebtree.h:206-212 | Deletion frees exactly one node part: that of the leaf's parent, or the deleted entry's, whose place the parent's takes |
| EbMemory.AttachRep | source/haproxy-2.0.3/ebtree/ebtree.h:464-515 | Linking an entry above what hangs on a branch, field by field, is putting it above that part of the tree: all back-pointers agree and unused node parts stay marked |
| EbLinks.InsertDuplicate | source/haproxy-2.0.3/ebtree/ebtree.h:464-515 | The links after __eb_insert_dup are those of the tree with the duplicate at its place: below the last node if there is room, else above the sub-tree below the deepest hole |
| EbLinks.DeepestHole | source/haproxy-2.0.3/ebtree/ebtree.h:472-482 | The walk down right finds the last node and the top of the sub-tree below the deepest hole |
| EbRemoval.ReleaseRep | source/haproxy-2.0.3/ebtree/ebtree.h:712-735 | Reparenting the sibling and marking the parent unused takes the leaf and its parent out of the linked tree |
| EbRemoval.TakeOverRep | source/haproxy-2.0.3/ebtree/ebtree.h:745-770 | The freed node takes over links, parent and branches of the deleted entry's node part, and the linked tree is the same with that node exchanged |
| EbRemoval.SpareOrNot | source/haproxy-2.0.3/ebtree/ebtree.h:737-744 | After the parent is released, node_p of the deleted entry tells whether its node part is still in use |
| EbRemoval.Unlink | source/haproxy-2.0.3/ebtree/ebtree.h:712-774 | Unlinking a leaf that is not alone leaves the links of the tree without it |
| EbRoots.EbTree.constructor | source/haproxy-2.0.3/ebtree/ebtree.h:237-242 | An initialised root stands for the empty tree, its right branch being null with the tag for unique keys |
| EbRoots.EbTree.Delete | source/haproxy-2.0.3/ebtree/ebtree.h:687-775 | Deletion in memory keeps the whole invariant, removes just the given entry from the walking order, and leaves entries that are not linked alone |
| EbRoots.EbTree.Place | source/haproxy-2.0.3/ebtree/ebtree.h:464-515 | Putting an entry where its descent has ended: links, invariant and walking order of the tree with the new entry |
| EbRoots.EbTree.Conclude | source/haproxy-2.0.3/ebtree/eb32tree.h:314-364 | The end of every insertion: the entry is put in order, or a tree of unique keys that has the key is left as it is and the stored entry returned |
| EbRoots.InsertSound | source/haproxy-2.0.3/ebtree/ebtree.h:185-242 | Insertion keeps all invariants of the tree together |
| EbRoots.DeleteSound | source/haproxy-2.0.3/ebtree/ebtree.h:185-242 | Deletion keeps all invariants of the tree together |
| EbWalks.WalkDown | source/haproxy-2.0.3/ebtree/ebtree.h:451-460 | Walking down one side ends at the first or last leaf of what hangs on the branch |
| EbWalks.FirstEntry | source/haproxy-2.0.3/ebtree/ebtree.h:535-538 | eb_first gives the first entry of the walking order, or null for an empty tree |
| EbWalks.LastEntry | source/haproxy-2.0.3/ebtree/ebtree.h:541-544 | eb_last gives the last entry of the walking order, or null for an empty tree |
| EbWalks.Next | source/haproxy-2.0.3/ebtree/ebtree.h:565-578 | eb_next gives the entry that follows in the walking order, or null |
| EbWalks.Prev | source/haproxy-2.0.3/ebtree/ebtree.h:547-562 | eb_prev gives the entry before in the walking order, or null |
| EbWalks.StepsInverse | source/haproxy-2.0.3/ebtree/ebtree.h:547-578 | The steps of eb_next and eb_prev undo each other |
| EbWalks.NextDup | source/haproxy-2.0.3/ebtree/ebtree.h:604-625 | eb_next_dup gives the next entry if it has the same key, else null, whatever is read from the root's bit field |
| EbWalks.PrevDup | source/haproxy-2.0.3/ebtree/ebtree.h:581-602 | eb_prev_dup gives the previous entry if it has the same key, else null |
| EbWalks.NextUnique | source/haproxy-2.0.3/ebtree/ebtree.h:656-681 | eb_next_unique gives the first entry of the next key |
| EbWalks.PrevUnique | source/haproxy-2.0.3/ebtree/ebtree.h:627-654 | eb_prev_unique gives the last entry of the previous key |
| ByteKeys.EqualBits | source/haproxy-2.0.3/ebtree/ebtree.h:784-803 | The count is the number of equal bits, or at least the length compared when those agree |
| ByteKeys.CheckBits | source/haproxy-2.0.3/ebtree/ebtree.h:813-835 | The result is zero exactly when the blocks agree on the bits asked for |
| ByteKeys.StringEqualBits | source/haproxy-2.0.3/ebtree/ebtree.h:850-880 | The count is the number of equal bits of two strings, or -1 exactly when they are equal |
| ByteKeys.CmpBits | source/haproxy-2.0.3/ebtree/ebtree.h:883-892 | -1, 0 or 1 as the bit of the first block is below, equal to or above that of the second |
| ByteKeys.BytesInjective | source/haproxy-2.0.3/ebtree/ebtree.h:850-880 | Blocks of bytes with the same bits are the same |
| Integers.FirstDifference | source/haproxy-2.0.3/ebtree/ebtree.h:259-292 | The index of the highest bit set in the exclusive or of two different words is that of their first different bit, where the larger word has a one |
| Histories.RunRefines | source/haproxy-2.0.3/ebtree/ebtree.h:141-147 | Under every history of insertions and deletions the abstract tree is sound and holds just the list that a plain sorted list would hold, with unique keys or without |
| Histories.WalkIsSorted | source/haproxy-2.0.3/ebtree/ebtree.h:229-235 | A walk meets the keys in order |
| Histories.RunIsStable | source/haproxy-2.0.3/ebtree/ebtree.h:141-147 | Under every history entries with the same key stand in the order of their insertion, for those that are still there |
| Histories.FirstSurvivor | source/haproxy-2.0.3/ebtree/eb32tree.h:135-180 | The first entry of a key in the list is the one inserted first among those still there, and there is none exactly when no entry of the key is left |
| Histories.LongestSurvivor | source/haproxy-2.0.3/ebtree/ebmbtree.h:380-465 | A longest match in the list of a run is the entry inserted first among those still there with the longest prefix that matches, and there is none exactly when no prefix that is there matches |
| Histories.UniqueHolder | source/haproxy-2.0.3/ebtree/ebtree.h:237-242 | After every history on a tree with unique keys the key is found with the entry that took it when it was last free, and no key is there twice |
| TreeRuns.Step | source/haproxy-2.0.3/ebtree/ebtree.h:141-147 | An insertion or deletion in memory, of any of the kinds of trees, is the step of the functions on trees and keeps the rest of the entries unlinked |
| TreeRuns.Run | source/haproxy-2.0.3/ebtree/ebtree.h:141-147 | After every sequence of insertions and deletions the tree in memory is the one of the run, and its walking order the sorted list |
| TreeRuns.IntegerAfter | source/haproxy-2.0.3/ebtree/eb32tree.h:135-180 | After every run the lookup of an integer gives the entry inserted first among those still there with the key, or null exactly when none is left |
| TreeRuns.SignedAfter | source/haproxy-2.0.3/ebtree/eb32tree.h:186-231 | The same for signed integers |
| TreeRuns.LongestAfter | source/haproxy-2.0.3/ebtree/ebmbtree.h:380-465 | After every run the longest match is the entry inserted first among those still there with the longest prefix that matches, or null exactly when none matches |
| TreeRuns.PrefixAfter | source/haproxy-2.0.3/ebtree/ebmbtree.h:474-559 | After every run the lookup of a prefix and its length gives the entry inserted first among those still there with just these, or null exactly when none is left |
| TreeRuns.StringAfter | source/haproxy-2.0.3/ebtree/ebistree.h:61-132 | After every run the lookup of a string gives the entry inserted first among those still there with it, or null exactly when none is left |
| TreeRuns.UniqueStringAfter | source/haproxy-2.0.3/ebtree/ebistree.h:61-132 | After every run on a tree with unique keys the lookup gives the entry that took the string when it was last free |
| DupCounter.LevelBoundsDepth | source/haproxy-2.0.3/ebtree/ebtree.h:220-229 | Under any history the top level of a tree of duplicates bounds its depth |
| DupCounter.InsertCounters | source/haproxy-2.0.3/ebtree/ebtree.h:464-515 | Insertion of any key into any tree keeps each of its trees of duplicates a binary counter of full sub-trees |
| DupCounter.CounterAt | source/haproxy-2.0.3/ebtree/ebtree.h:149-169 | In a tree whose trees of duplicates are counters the one at which a descent for its key ends has minus the logarithm of its size, rounded up, as its top level |
| DupCounter.StopAtHolds | source/haproxy-2.0.3/ebtree/ebtree.h:149-169 | Where the descent for a key ends all entries of the key are, in order, and no others if there are any |
| DupCounter.Counts | source/haproxy-2.0.3/ebtree/ebtree.h:149-169 | After every run of insertions of any keys the tree of duplicates of a key with D entries, D at least 2, holds just these, its top level is minus the logarithm of D rounded up, and no leaf is deeper than that |
| Orders.BytesInOrder | source/haproxy-2.0.3/ebtree/ebtree.h:837-892 | The order of bit strings is the order of the bytes compared from the first on |
| Orders.StringsInOrder | source/haproxy-2.0.3/ebtree/ebistree.h:139-327 | A string tree is walked in the order of its byte strings |
| Orders.KeysInOrder | source/haproxy-2.0.3/ebtree/eb32tree.h:238-497 | An integer tree is walked in the unsigned, or for eb32i the signed, order of its keys |
| Eb32.Descend | source/haproxy-2.0.3/ebtree/eb32tree.h:273-308 | The descent for a key ends where the new entry belongs: at a leaf, at duplicates, or where the key and the node have no common bits any more |
| Eb32.Insert32 | source/haproxy-2.0.3/ebtree/eb32tree.h:238-364 | The entry goes just after the last one whose key is not above its own; a unique tree that holds the key is left unchanged and the stored entry returned |
| Eb32.InsertSigned | source/haproxy-2.0.3/ebtree/eb32tree.h:370-497 | The same in the order of signed keys, the side being taken from the key shifted by half the range and kept in a signed variable |
| Eb32.IntJoin | source/haproxy-2.0.3/ebtree/eb32tree.h:314-354 | The bit of the new node and the side of the new leaf follow from the two keys alone |
| Eb32Lookup.Lookup32 | source/haproxy-2.0.3/ebtree/eb32tree.h:135-180 | The first of the stored entries with the key, or null if there is none, whatever a shift by a negative bit gives |
| Eb32Lookup.LookupSigned | source/haproxy-2.0.3/ebtree/eb32tree.h:186-231 | The same in a tree of signed keys |
| Eb32Lookup.LookupLe | source/haproxy-2.0.3/ebtree/eb32tree.c:49-131 | The last entry with a key of x or less, as a scan of the sorted leaves finds it, or null |
| Eb32Lookup.LookupGe | source/haproxy-2.0.3/ebtree/eb32tree.c:137-218 | The first entry with a key of x or more, as a scan of the sorted leaves finds it, or null |
| Eb32Lookup.NearStep | source/haproxy-2.0.3/ebtree/eb32tree.c:58-113 | What a node tells about all keys below it: all equal, all below x, all above x, or on which side to go on |
| Ebmb.Descend | source/haproxy-2.0.3/ebtree/ebmbtree.h:611-742 | The descent over cover and normal nodes ends where the prefix belongs |
| Ebmb.InsertPrefix | source/haproxy-2.0.3/ebtree/ebmbtree.h:571-804 | Prefixes are kept in order, a shorter one before those it covers, equal ones in the order of insertion; bits past a prefix need not be zero |
| EbmbLookup.LookupLongest | source/haproxy-2.0.3/ebtree/ebmbtree.h:380-465 | The first entry of the longest stored prefix that matches, or null exactly when none matches |
| EbmbLookup.LongestUnique | source/haproxy-2.0.3/ebtree/ebmbtree.h:380-465 | There is only one such entry |
| EbmbLookup.LongestIsLongest | source/haproxy-2.0.3/ebtree/ebmbtree.h:380-465 | Descending while prefixes match and remembering cover nodes leads to the longest match |
| EbmbLookup.LookupPrefix | source/haproxy-2.0.3/ebtree/ebmbtree.h:474-559 | The first entry with just that prefix and length, or null exactly when none is stored |
| Ebis.DescendStr | source/haproxy-2.0.3/ebtree/ebistree.h:173-312 | The descent for a string ends where it belongs, with the number of bits it has in common there, or the note that it is equal |
| Ebis.InsertString | source/haproxy-2.0.3/ebtree/ebistree.h:139-327 | Strings are kept in order and equal ones in the order of insertion; a unique tree that holds the string returns the stored entry |
| Ebis.LookupString | source/haproxy-2.0.3/ebtree/ebistree.h:61-132 | The first entry with the string, or null exactly when none is stored |
| Eb32sc.MarkToHole | source/haproxy-2.0.3/ebtree/eb32sctree.c:38-65 | The walk of eb32sc_insert_dup marks the nodes below the top, and only those, with the scope if they have none of it |
| Eb32sc.InsertDuplicateScoped | source/haproxy-2.0.3/ebtree/eb32sctree.c:29-99 | Links and masks after a scoped duplicate is inserted |
| Eb32sc.DescendMarking | source/haproxy-2.0.3/ebtree/eb32sctree.c:125-186 | The descent marks just the nodes through which the new entry will be found |
| Eb32sc.InsertScoped | source/haproxy-2.0.3/ebtree/eb32sctree.c:107-233 | Scoped insertion keeps order and links; if all masks were wide enough before, they are so after if and only if the masks in the tree of duplicates met have nothing of the scope or all of it |
| Scopes.InsertCovers | source/haproxy-2.0.3/ebtree/eb32sctree.c:29-233 | The same on the masks themselves, for every tree and every insertion |
| Scopes.SingleFits | source/haproxy-2.0.3/ebtree/eb32sctree.c:29-99 | A scope of a single bit always meets that condition |
| Eb32scRuns.MaskTooNarrow | source/haproxy-2.0.3/ebtree/eb32sctree.c:58-65 | A run after which a node's mask lacks a scope below it: seven equal keys with the scope {0}, then one with {0, 1} |
| Eb32scRuns.WalkMisses | source/haproxy-2.0.3/ebtree/eb32sctree.h:69-138 | After that run a walk for {1} finds nothing, though an entry with the scope is in the tree |
| Eb32scRuns.DeleteScoped | source/haproxy-2.0.3/ebtree/eb32sctree.c:377-472 | Scoped deletion removes just the entry and keeps every mask wide enough |
| Eb32scRuns.DeleteKeepsCover | source/haproxy-2.0.3/ebtree/eb32sctree.c:446-466 | A node that takes another one's place has a wide enough mask with those of its two branches |
| Eb32scRuns.StepKeepsCover | source/haproxy-2.0.3/ebtree/eb32sctree.c:29-472 | Each step of a run keeps all masks wide enough if and only if it is no insertion that meets a mask with some of its scope and not all |
| Eb32scRuns.StepKeepsWalks | source/haproxy-2.0.3/ebtree/eb32sctree.h:69-138 | After a step from a tree with wide enough masks the walks miss nothing for any scope if and only if the step meets the same condition |
| Eb32scRuns.RunKeepsWalks | source/haproxy-2.0.3/ebtree/eb32sctree.h:69-138 | In every run whose steps meet the condition no walk misses an entry of its scope |
| Eb32scRuns.RunKeepsCover | source/haproxy-2.0.3/ebtree/eb32sctree.c:29-472 | In every run whose steps meet the condition each mask includes the scopes of all leaves below its node |
| Eb32scRuns.SingleScopesCover | source/haproxy-2.0.3/ebtree/eb32sctree.c:29-472 | In particular masks and walks are right in every run whose scopes have one bit each |
| Eb32scWalk.WalkDownLeft | source/haproxy-2.0.3/ebtree/eb32sctree.h:69-108 | The walk ends, whatever the masks, at the first leaf of the scope that no mask hides |
| Eb32scWalk.CoveredPruned | source/haproxy-2.0.3/ebtree/eb32sctree.h:69-108 | With wide enough masks the leaves met are all those of the scope, in order |
| Eb32scWalk.CoversIffHidesNothing | source/haproxy-2.0.3/ebtree/eb32sctree.h:69-108 | The masks include the scopes of all leaves below their nodes if and only if for every scope just its leaves are met |
| Eb32scWalk.VisibleIffCovered | source/haproxy-2.0.3/ebtree/eb32sctree.h:69-138 | The same for the masks of a tree in memory |
| Eb32scWalk.FirstScoped | source/haproxy-2.0.3/ebtree/eb32sctree.h:135-138 | eb32sc_first gives the first leaf of the scope that no mask hides; with wide enough masks the first entry whose own scope meets the one asked for |
| Eb32scWalk.NextWithParent | source/haproxy-2.0.3/ebtree/eb32sctree.h:114-123 | From any branch eb32sc_next_with_parent gives the first leaf of the scope on the right that no mask hides, or null |
| Eb32scWalk.NextScoped | source/haproxy-2.0.3/ebtree/eb32sctree.h:128-132 | eb32sc_next gives, whatever the masks, the first leaf of the scope on the right that no mask hides; with wide enough masks the next entry in the walking order whose own scope meets the one asked for |
| Eb32scWalk.VisitScoped | source/haproxy-2.0.3/ebtree/eb32sctree.h:114-138 | eb32sc_first and repeated eb32sc_next visit, whatever the masks, the leaves of the scope that no mask hides, once each and in order, and with wide enough masks just the entries of the scope |
| Dict.StepKeeps | source/haproxy-2.0.3/src/dict.c:82-106 | Every step of every thread keeps the invariant: the lock is held by just those between taking and releasing it, keys are unique, a private entry is private to one thread and neither in the table nor freed |
| Dict.RunKeeps | source/haproxy-2.0.3/src/dict.c:82-106 | The invariant holds under every interleaving, and entries stay in the table |
| Dict.Interned | source/haproxy-2.0.3/src/dict.c:82-106 | Under every interleaving there is one entry per string at most, calls return the same entry if and only if their strings are equal, and a freed entry is neither in the table nor returned |
| Dict.ReturnedStays | source/haproxy-2.0.3/src/dict.c:82-106 | An entry once returned stays in the table and is what every later call with the string returns |
| Dict.CallEnds | source/haproxy-2.0.3/src/dict.c:82-106 | Under every interleaving a call that has returned has looked its string up, and if it was in the table then returns its entry; it returns nothing if and only if the allocator refused it memory, else an entry that is in the table and has the string; and an entry that it was given and does not return has been freed |
| Dict.AskedMissed | source/haproxy-2.0.3/src/dict.c:87-94 | A call asks for memory only after it has looked its string up and not found it |
| Dict.GivenGoes | source/haproxy-2.0.3/src/dict.c:93-103 | At any time an entry that a call was given is its own, or what it returns, or has been freed |
| Dict.Exclusion | source/haproxy-2.0.3/src/dict.c:87-99 | No thread looks up while another inserts, and no two insert |
| Dict.NoDeadlock | source/haproxy-2.0.3/src/dict.c:82-106 | As long as a call has not returned some thread can move, even if no memory is left |
| Dict.StepsEnd | source/haproxy-2.0.3/src/dict.c:82-106 | Each step brings the call of its thread closer to its end and moves no other |
| Dict.InsertionIs | source/haproxy-2.0.3/src/dict.c:97-99 | The machine's insertion is that of a string tree with unique keys |
| Dict.NewEntry | source/haproxy-2.0.3/src/dict.c:27-50 | A new entry holds the string, or there is none for lack of memory |
| Dict.Insert | source/haproxy-2.0.3/src/dict.c:82-106 | One call alone: the stored entry, or a new one put in order, or nothing for lack of memory |
| Propagation.Propagate | source/haproxy-2.0.3/src/cfgparse.c:2211-2248 | The recursion ends on every graph, from any masks; masks only grow from a bound frontend, each proxy whose mask has changed has passed it on, and no mask exceeds any that would do |
| Propagation.PropagateRules | source/haproxy-2.0.3/src/cfgparse.c:2241-2247 | The loop over the rules passes the mask on to all static targets though recursive calls may change it meanwhile |
| Propagation.PropagateAll | source/haproxy-2.0.3/src/cfgparse.c:3757-3765 | If no live frontend with targets has an empty mask, the masks become the least ones above those given such that each live frontend's mask is included in that of its default backend and of each backend that a static rule names |
| Propagation.Inherit | source/haproxy-2.0.3/src/cfgparse.c:3734-3745 | A proxy without a mask gets the processes of its listeners, and all of them if it has none or one without a mask; so every mask is set before the propagation |
| Propagation.BindProcesses | source/haproxy-2.0.3/src/cfgparse.c:3734-3772 | From any masks every proxy ends up with one, and the masks are the least ones above those inherited such that each live frontend's is included in those of its targets |
| Propagation.BindDrops | source/haproxy-2.0.3/src/cfgparse.c:2217-2229 | A call that is not cut short unbinds a proxy or adds a bit, which bounds the recursion |
| AclConditions.Neg | source/haproxy-2.0.3/include/proto/acl.h:33-39 | Pass and fail are exchanged, and an open result stays open |
| AclConditions.ExecExpr | source/haproxy-2.0.3/src/acl.c:1147-1183 | The answer is a pass if and only if one of the samples fetched matches, and open if and only if none does, the last one may change and the data are not final |
| AclConditions.ExecAcl | source/haproxy-2.0.3/src/acl.c:1146-1183 | The expressions of an ACL give a pass if any passes, else an open result if any is open |
| AclConditions.ExecSuite | source/haproxy-2.0.3/src/acl.c:1135-1197 | A conjunction has the result of its first term that does not pass, or passes |
| AclConditions.ExecCond | source/haproxy-2.0.3/src/acl.c:1125-1204 | The answer is a pass if and only if some suite has only passing terms, a fail if and only if in each suite the first term that does not pass fails, else open |
| AclConditions.ResultsHold | source/haproxy-2.0.3/src/acl.c:1125-1204 | A pass or fail is right under every later resolution of the open tests; if the data are final or no last answer that does not match may change, the answer is never open and a pass just where the condition holds of the samples |
| AclConditions.CondIs | source/haproxy-2.0.3/src/acl.c:1125-1204 | Each of the three answers in terms of the samples: which match, and which last ones may change |
| AclConditions.Exact | source/haproxy-2.0.3/src/acl.c:1153-1154 | With final data, or where no last answer that does not match may change, the answer is what the clauses say of the samples that match, without recourse to open results |
| AclConditions.ResultStays | source/haproxy-2.0.3/src/acl.c:1181-1182 | A pass or fail stays as it is when answers come that extend those whose last one may change and leave the others as they are |
| AclConditions.CertainIff | source/haproxy-2.0.3/src/acl.c:1125-1204 | A condition fails under every resolution of the open tests if and only if in each conjunction a term fails already, or an open term that is not negated has no open expression but those that a negated term tests as well |
| AclConditions.OpenThoughCertain | source/haproxy-2.0.3/src/acl.c:1194-1196 | The condition is reported open though it is certain to fail if and only if none of its conjunctions can pass and in some one the first term that does not pass is open |
| AclConditions.OpenBeforeFailing | source/haproxy-2.0.3/src/acl.c:1194-1196 | An open term followed by one that fails is such a condition |
| AclWords.ParseCond | source/haproxy-2.0.3/src/acl.c:904-1049 | The words become just the clauses they spell out, with the union of what their tests use and with the validity mask of the clauses, or all bits if one is empty; or nothing if they are not a condition |
| AclWords.StripBangs | source/haproxy-2.0.3/src/acl.c:934-938 | Exclamation marks toggle the negation |
| AclWords.FindAcl | source/haproxy-2.0.3/src/acl.c:955-1003 | A word names a known ACL, or an opening brace spells one out up to the first closing one |
| AclWords.BangApart | source/haproxy-2.0.3/src/acl.c:934-944 | An exclamation mark may stand in front of a word or alone with the same meaning |
| AclWords.RenderSpelled | source/haproxy-2.0.3/src/acl.c:928-1041 | Clauses written out as tokens and read again are the same clauses |
| AclWords.SaidIsSpelled | source/haproxy-2.0.3/src/acl.c:928-1041 | Clauses written out in words, with names or braces, any number of exclamation marks in front of a test or alone, any word for or, and clauses without a test, are read as just these clauses up to the first empty word, a test being negated by an odd number of marks |
| AclWords.UnknownFails | source/haproxy-2.0.3/src/acl.c:954-1003 | Behind any such words one that names no ACL, an opening brace without a closing one, or unknown words between braces make the whole no condition |
| AclWords.OrWords | source/haproxy-2.0.3/src/acl.c:946 | The word or in letters of either case, or two bars, separate clauses |
| AclWords.UseIs | source/haproxy-2.0.3/src/acl.c:1023 | The usage mask is the union of what the tests of the clauses use |
| AclWords.ValIff | source/haproxy-2.0.3/src/acl.c:1016-1039 | The validity mask of the condition is the union over its clauses of what all their tests allow if and only if no clause is empty, or that union is all bits anyway |
| AclWords.TrailingOr | source/haproxy-2.0.3/src/acl.c:1039 | After a final or the mask is all bits, whatever the only test allows |
| CacheStream.ReadInfo | source/haproxy-2.0.3/src/cache.c:1008-1016 | The four bytes of a header are read as one word even where they straddle two blocks |
| CacheStream.InfoReads | source/haproxy-2.0.3/include/common/htx.h:564-582 | A word made of a type and the sizes of name and value, or of one size, gives these back |
| CacheStream.CopyPayload | source/haproxy-2.0.3/src/cache.c:919-930 | What the copy loop makes of a block's memory: every piece goes to its start |
| CacheStream.CopiedWhole | source/haproxy-2.0.3/src/cache.c:919-930 | A payload is delivered whole, whatever the memory held before, if and only if it lies within one block of the row |
| CacheStream.CopiedSpoils | source/haproxy-2.0.3/src/cache.c:919-930 | For every payload in more than one piece there is memory that spoils it |
| CacheStream.SendData | source/haproxy-2.0.3/src/cache.c:964-978 | Data are appended byte by byte in order, over as many blocks as they take, up to just what the message takes |
| CacheStream.DumpBlk | source/haproxy-2.0.3/src/cache.c:896-935 | If and only if there is room for all of it and a place for a block, the next record that is not data is delivered, with its word and size, and its payload whole if it lies within one block; else nothing changes |
| CacheStream.DumpDataBlk | source/haproxy-2.0.3/src/cache.c:937-985 | Of what is left of a data record just as many bytes are delivered as there is room for and as are taken, and how many are left then is remembered |
| CacheStream.DumpMsg | source/haproxy-2.0.3/src/cache.c:987-1037 | Whatever room each turn gets, what has been delivered stays the beginning of what is stored, in order and each byte of data once, and sent is the number of bytes consumed; nothing behind the first record of the type of the mark is delivered; a call that does not send everything has come to the mark, or there was not enough room for the record at hand; it sends nothing if and only if there is no room at its first turn; and with room enough it goes on to the mark |
| CacheStream.DumpNext | source/haproxy-2.0.3/src/cache.c:997-1034 | One turn sends the record at hand, or of data as much as there is room for, and nothing if and only if there is no room for it |
| CacheStream.AllDelivered | source/haproxy-2.0.3/src/cache.c:987-1037 | Once all bytes are sent just the stored records are delivered, none left over |
| CacheStore.StorePayload | source/haproxy-2.0.3/src/cache.c:327-417 | The bytes to append are the records of just that part of the message's content that begins at the offset: all of the length asked for, or up to the end or to an item that does not fit; the message is refused if and only if there is no room or the offset is within a block that is not data |
| CacheStore.TakeBlk | source/haproxy-2.0.3/src/cache.c:361-392 | Of data as many bytes as are asked for are stored as a record of their own, another block whole or not at all |
| CacheStore.Word | source/haproxy-2.0.3/src/cache.c:372-373 | The four bytes written for a word are those from which it is read back |
| CacheStore.PartsJoin | source/haproxy-2.0.3/src/cache.c:351-417 | Two calls, the second from where the first ended, store together one part of the message: nothing is lost or stored twice |
| CacheStore.ReadsBack | source/haproxy-2.0.3/src/cache.c:351-395 | Once all has been read the content delivered is that of the records stored, if each payload that is not data lies within one block |
| CacheStream.Starts | source/haproxy-2.0.3/src/cache.c:1083-1089 | The state set up before the first call is one where nothing has been sent |
| Tracking.FollowChain | source/haproxy-2.0.3/src/cfgparse.c:3269 | Following the chain from a server ends, at the new server exactly if that is on the chain |
| Tracking.NameMeans | source/haproxy-2.0.3/src/cfgparse.c:3222-3256 | A name up to its last slash is that of a backend and the rest that of a server; without a slash it is that of a server of the same backend |
| Tracking.Check | source/haproxy-2.0.3/src/cfgparse.c:3258-3289 | Which of the reasons to refuse a directive applies first, each by itself |
| Tracking.CycleExcludes | source/haproxy-2.0.3/src/cfgparse.c:3269-3279 | A graph in which some path leads back to its start admits no chains, so the check refuses a directive only for a real cycle |
| Tracking.LinkAcyclic | source/haproxy-2.0.3/src/cfgparse.c:3269-3293 | Tracking a server whose chain does not lead back makes no cycle |
| Tracking.LinkCyclic | source/haproxy-2.0.3/src/cfgparse.c:3269-3279 | Tracking any other one would make a cycle |
| Tracking.LinkListed | source/haproxy-2.0.3/src/cfgparse.c:3291-3293 | Each server's list still holds exactly the servers that track it, each once |
| Tracking.Resolve | source/haproxy-2.0.3/src/cfgparse.c:3222-3297 | One directive is refused with nothing changed, or followed: refused just if its backend or server does not exist, the server has no check or agent, tracks nothing and is not to track anything, following it would make a cycle, or the options of two backends differ, each reason being given just where it is the first of these |
| Tracking.ResolveAll | source/haproxy-2.0.3/src/cfgparse.c:3222-3297 | Directives resolved in any order keep the graph free of cycles and the lists exact; no error is counted if and only if none is left over; then each was right and each server tracks the one its directive names; each that is left over is wrong or on a cycle that the directives ask for, so if all are right errors are counted only where there is such a cycle |
| Tracking.ResolveParsed | source/haproxy-2.0.3/src/cfgparse.c:3222-3297 | For servers none of which tracks another yet, as they are after parsing, any order of their directives ends so, and a server whose directive was followed tracks the one it names, and any other none |
| Tokenizer.Tokenize | source/haproxy-2.0.3/src/cfgparse.c:1916-2125 | The argument pointers name exactly the words that a left-to-right tokenizer makes of the line after its leading spaces, each as a C string up to its first zero, all in the line's last buffer, with the same complaints; a scope marker, a malformed variable or an empty first argument ends it as in the source |
| Tokenizer.Turn | source/haproxy-2.0.3/src/cfgparse.c:1929-2096 | One turn of the loop takes just the next item of the text at hand, and the buffer and all pointers into it hold what has been found |
| Tokenizer.Expand | source/haproxy-2.0.3/src/cfgparse.c:2054-2091 | A variable's value replaces its name, in a larger buffer if need be, with all earlier pointers rebased |
| Tokenizer.ScanEscape | source/haproxy-2.0.3/src/cfgparse.c:1946-1996 | What a backslash and the characters after it stand for |
| Tokenizer.ScanVariable | source/haproxy-2.0.3/src/cfgparse.c:2019-2052 | Which variable is named, with or without braces, and how far its name goes, or that the line is to be skipped |
| Tokenizer.Replaced | source/haproxy-2.0.3/src/cfgparse.c:1935-1936 | Replacing characters at hand leaves what is done and what is still to be read as they are |
| Tokenizer.AllNamed | source/haproxy-2.0.3/src/cfgparse.c:2002-2008 | Earlier pointers still point to the characters of their words, each with its final zero behind it |
| Tokenizer.NulIff | source/haproxy-2.0.3/src/cfgparse.c:1964-1975 | A word of the line holds a zero if and only if an escape for it is read outside single quotes |
| Tokenizer.ArgumentsAre | source/haproxy-2.0.3/src/cfgparse.c:1964-1975 | As C strings the arguments are the words up to their first zero, and they are just the words if and only if no escape for a zero is read |
| LineWords.NulCutsWord | source/haproxy-2.0.3/src/cfgparse.c:1964-1975 | On the line a\x00b the only word has three characters and the argument is its first |
| LineWords.WordsReadBack | source/haproxy-2.0.3/src/cfgparse.c:1926-2096 | Words of any characters can be written so that they are read back just as they were, and the line written holds no zero |
| LineWords.LineReads | source/haproxy-2.0.3/src/cfgparse.c:1926-2096 | A line of words, each of parts outside quotes, in single and in double quotes, with escapes and with variables in double quotes, and with any spaces between and any comment or end of line behind them, reads as the words these mean; of too many words those that have no room are left over |
| LineWords.LineTokens | source/haproxy-2.0.3/src/cfgparse.c:1916-2125 | The arguments of such a line are what its words mean, each up to its first zero, without complaint |
| LineWords.BracedReads | source/haproxy-2.0.3/src/cfgparse.c:2019-2096 | In double quotes a dollar sign and a name in braces read as the value in front of what follows the closing brace; the value is taken as it is, and a variable that is not set is nothing |
| LineWords.UnbracedReads | source/haproxy-2.0.3/src/cfgparse.c:2019-2096 | So do a dollar sign and a name that ends where no character of a name follows |
| LineWords.NamelessFails | source/haproxy-2.0.3/src/cfgparse.c:2028-2032 | A dollar sign in double quotes without a name makes the line unusable |
| LineWords.OpenBraceFails | source/haproxy-2.0.3/src/cfgparse.c:2043-2051 | So does one whose brace is not closed behind the name |
| LineWords.EscReads | source/haproxy-2.0.3/src/cfgparse.c:1946-1991 | A backslash and a space, backslash, hash, quote, r, n, t or, in double quotes, dollar sign read as what they stand for, and with any other character as themselves |
| LineWords.HexReads | source/haproxy-2.0.3/src/cfgparse.c:1964-1975 | An escape with two hexadecimal digits of either case reads as the character of that number |
| LineWords.BadHexReads | source/haproxy-2.0.3/src/cfgparse.c:1976-1980 | One without them is left as it is, and complained about |
| LineWords.Enclosed | source/haproxy-2.0.3/src/cfgparse.c:1930-1945 | What a text reads as inside quotes it reads as with the quotes around it |
| LineWords.OpenQuote | source/haproxy-2.0.3/src/cfgparse.c:2098-2101 | A double quote that is not closed before the end of the line stays open, and what is behind it is the word |
| LineWords.OpenRaw | source/haproxy-2.0.3/src/cfgparse.c:2103-2106 | The same for a single quote |

## Left out

- `__ebmb_insert`, `__ebmb_lookup`, ebim, eb64, ebpt and ebst trees: the same algorithms with keys of fixed length, another width or inline keys. The end-of-key test of `__ebim_insert` compares bytes with bits, so nothing is stated about it.
- `eb32sc_lookup_ge` and `eb32sc_lookup_ge_or_first`: nothing is stated about what they return.
- Widths: integer keys have any width of at least one bit; the `short` fields `bit` and `pfx`, byte counts and bit counts are unbounded integers, so trees of duplicates with a level below -32768 and keys of more than 16383 bits are not told apart from smaller ones.
- The assembly of `flsnz` and `flsnz8` is modelled by what it computes: the index of the highest bit set, from 1.
- `flsnz` of zero and shifts by a negative bit: their results are arbitrary in the model, as the code does not depend on them.
- Linking an entry that is linked already: the insertions require that it is not.
- Memory behind keys: blocks hold at least as many bytes as the longest prefix, and so does the block looked up, as the callers must ensure (ebmbtree.h:375-378).
- Speed: nothing is proved about the number of steps but that they end, and the depth of trees of duplicates. `DupCounter.Counts` is about runs of insertions; for others only `DupCounter.LevelBoundsDepth` is shown.
- TreeRuns.Run: an insertion of an entry that is linked counts as no operation, and the runs are of one tree whose entries are in no other.
- EbRoots.EbTree.Place: one method for the relinking that each insertion repeats in its own text.
- Eb32sc.InsertScoped: that all masks stay wide enough is stated with its exact condition, as it is false without.
- Dict.Insert: lookup and insertion under the lock are single steps of the machine; that they are atomic is what `Dict.Exclusion` shows. The reference count of an entry, which nothing reads, is not modelled, and memory freed is not reused for another entry.
- AclWords.ParseCond: memory does not run short, `parse_acl` and the default ACLs are given as maps from words to ACLs, and file, line and policy of a condition are left out.
- AclConditions.ExecCond: the answers of the sample fetches are given and do not change during one evaluation; pattern matching is part of them.
- AclWords.RenderSpelled: reads tokens back; from words on it is `AclWords.SaidIsSpelled`.
- CacheStream.DumpBlk: does not state that payloads in more than one block are whole, as they are not.
- CacheStream.DumpMsg: the room in the message, a place for a block and the number of bytes accepted are given for each turn. The Age header, freshness and eviction are left out.
- CacheStore.StorePayload: whether the row has room is given; that the bytes land at its end is for shctx.c, which is not part of this model. Removed blocks have no size (htx.c:341-346), so the loop passes over them, and the buffer for the bytes is large enough.
- Propagation.BindProcesses: for a configuration without errors; the statistics frontend, which is in no list, and the check of listeners' masks are left out.
- Tracking.Resolve: alerts are a result value; the lookup of a proxy and a server by name is given, and the name is not cut in place.
- Tokenizer.Tokenize: pointers after the last argument are not set to the empty string. Reading lines, sections, the keywords after the arguments and failing reallocation are left out; the environment does not change, and the zero that is written behind a variable's name for the time of its lookup is not modelled.
- Other files: hdr_idx, chunk, arg, base64, buffer, channel, backend, the remaining configuration parsers, and the Python and C programs around HAProxy.
