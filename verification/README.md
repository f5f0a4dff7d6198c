# Verified core of the pre-forked HTTP file server

A Dafny model of the four parts of the server whose correctness is not visible in
one function:

- the red-black and splay trees of `utils/tree.h`,
- the tail queue and the circular queue of `inc/list.h`,
- the request parser `analasy` of `inc/http_types.h`,
- the worker pool of `inc/http_task.h`.

`dafny verify dfyconfig.toml` checks everything.

## How the model is built

Every part has two layers. The lower layer is imperative: classes with the fields of
the C structs, methods that assign the same fields in the same order, and loops with
the same conditions. The upper layer is pure: functions that say what the code
computes on shapes or texts, and lemmas that prove what those functions promise. The
`ensures` of each method ties the two together.

| module | contents |
|---|---|
| `Order`, `Seqs`, `Elements` | the `cmp` callback as an arbitrary total preorder, sequences with one element more or less, tree elements, and the plain set that a tree stands for |
| `RbShape`, `RbSpec` | red-black shapes, the focus-plus-context view given by parent pointers, the two recolouring loops and the public operations as functions |
| `RbLinks`, `RbTree` | which pointers stand for which shape, and the macros on linked nodes |
| `SplaySpec`, `SplayLinks`, `SplayTree` | the same for top-down splaying, with the two side trees as sequences of linked nodes around a hole |
| `SplayDepth` | how splaying changes the depth of elements |
| `TwoTrees` | elements in a tree of each kind at once |
| `TailQueue`, `CircleQueue` | the queues, each refining a sequence of entries |
| `HttpSpec`, `HttpGrammar` | `strtok` and the parser on a text, a printer, and a grammar stated without `strtok` that the parser follows exactly |
| `HttpParse` | the same code on a mutable buffer and a request to fill |
| `ProcessPool` | the pool as a state machine and as a linked list |

Conventions:

- Branches that mirror each other in the source (left and right) are written once
  with a `Side`.
- `Head.tree`, `Head.all` and `Queue.elems` are ghost: the shape and the elements that
  the pointers are proved to represent. `Head.rotations` counts rotations.
- A focus `(t, k)` is a subtree and the path from it to the root; `Holds(t, k)` says
  that all left, right, parent and color fields, and the root pointer, are those of
  `Plug(k, t)`.
- One element class carries both an `RB_ENTRY` and a `SPLAY_ENTRY`. Its key is a
  constant, so no operation can work by copying keys. The frames name fields, so an
  operation on one tree is known to leave the entries of the other alone.
- A ghost index argument (`Next`, the queue operations next to an element, `Remove`)
  only says where the element argument stands; the code never reads it.
- The pids that `fork` returns are parameters. The header node that the splay macros
  keep on the stack is a fresh node.
- `Crash` in the parser stands for a NULL pointer handed on by `strtok`, which the code
  dereferences.

## Results

- **Red-black trees.** Every tree reachable from the empty one by any inserts, removes
  and finds is sorted, satisfies the red-black conditions, has height at most
  2 lg(n + 1), and holds exactly the elements that a plain set would hold. Insertion
  does at most two rotations, removal at most three. The grandparent and the sibling
  are never NULL where they are dereferenced. `RunOps` carries this over to the linked
  nodes of whole runs. Removal relinks: exactly the removed
  element leaves, and parent and child pointers agree everywhere afterwards.
- **Splay trees.** Splaying keeps the in-order sequence and puts at the root an element
  that separates the smaller from the larger keys. Over every run the tree agrees with
  a plain set; the second splay of a removal leaves a root without right child, so that
  hanging up the saved subtree loses nothing. Iteration visits everything once, in
  order, although each step restructures the tree. An inserted element is at the root. The
  rebalancing is stated too: what the search met at depth d is afterwards at depth
  d / 2 + 2 at most, and no element sinks by more than two levels.
- **Both trees.** The same run on a red-black and a splay tree over the same elements
  leaves both valid, and both iterations give the same sequence.
- **Queues.** All operations refine the operation on sequences, with back pointers to
  the previous next field (tail queue) or through the head as sentinel (circular
  queue). Reverse traversal is the reverse of forward traversal.
- **Parser.** On any text the parser rejects, accepts with given parts, or dereferences NULL
  exactly as a grammar says that does not mention `strtok`. Parsing undoes printing for every well-formed request and any body, and it
  does so for all bodies exactly when no header has an empty text after its colon. What
  comes back otherwise is stated for every request without a body: a header with an empty
  text swallows the following line as its value, and NULL is dereferenced exactly when an
  odd number of such headers ends the list. The header index never passes half of its
  capacity, and every copied string fits its array on every path. The outcome is that of
  the original text although `strtok` overwrites the buffer.
- **Pool.** A dispatch charges, in any pool, the last of the least loaded workers and no
  other; a death leaves every survivor with its load. On a fresh pool dispatching goes round robin from the tail of the list, so loads differ by
  at most one. Over any run of dispatches and deaths the pool stays full with distinct
  assigned pids, every dispatched connection is charged to a live worker or was lost
  with a dead one, and the counter `n_proc` falls by one with every death, because
  `insert_pool` does not raise it. `Serve` proves this of the linked list, from
  initialisation on.

Where the code and what it suggests differ, the code is followed: `n_proc` is the number
of workers only until the first death; the death of a pid that is not in the pool makes
the list grow (`ReplaceSize`); the root of a red-black tree is always black, which the
comment in `utils/tree.h` does not demand; and the parser drops whatever character
follows the colon of a header, not only a space.

## Model

| member | source | states |
|---|---|---|
| `RbShape.PlugRedBlack` | utils/tree.h:46-51 | a tree is red-black iff the focused subtree is balanced and the context accepts its black height and colour; the basis of every climbing argument |
| `RbShape.PlugInorder` | utils/tree.h:355-358 | the in-order sequence of a tree is what precedes the focus, the focus, and what follows it |
| `RbShape.PendingGrandparent` | utils/tree.h:447-450 | with the loop invariant a red parent has itself a parent, so the grandparent is never NULL |
| `RbShape.InsertFixInorder` | utils/tree.h:443-493 | the recolouring of an insertion keeps the in-order sequence, on every tree |
| `RbShape.InsertFixRedBlack` | utils/tree.h:443-493 | from a tree whose only fault may be a red focus under a red parent it yields a valid red-black tree |
| `RbShape.InsertProgress` | utils/tree.h:447-491 | each iteration moves towards the root, keeps the final tree, and either keeps the invariant or reaches a black parent |
| `RbShape.RemoveFixInorder` | utils/tree.h:495-583 | the recolouring of a removal keeps the in-order sequence, on every tree |
| `RbShape.RemoveFixRedBlack` | utils/tree.h:495-583 | from a tree with one black missing at one focus it yields a valid red-black tree |
| `RbShape.DeficitSibling` | utils/tree.h:499-505 | the sibling of a deficient black focus exists, so it may be dereferenced |
| `RbShape.BlackSiblingDeficit` | utils/tree.h:505-510 | after the red-sibling rotation the deficit is still at the same focus, the new sibling exists and is black, and the final tree is the same |
| `RbShape.RestoredBalanced` | utils/tree.h:520-539 | the closing rotations supply the missing black and keep the colour of the subtree's root |
| `RbShape.RepairProgress` | utils/tree.h:511-539 | with a black sibling the iteration either finishes or moves the one-black deficit to the parent |
| `RbSpec.LocateSplits` | utils/tree.h:667-678 | the descent ends where everything before is smaller and everything after is larger than the key |
| `RbSpec.LocateExact` | utils/tree.h:695-711 | the descent stops at a node iff an equal key is present, and at the only such node |
| `RbSpec.InsertCorrect` | utils/tree.h:661-692 | insertion keeps the tree a valid search tree, changes nothing if an equal key is present, and otherwise adds exactly the new element |
| `RbSpec.UnlinkedDeficit` | utils/tree.h:588-657 | the pointer work of a removal leaves one black missing at one focus, or nothing to repair |
| `RbSpec.SuccessorReplaces` | utils/tree.h:594-640 | a node with two children is replaced by its in-order successor, which takes over its colour and left subtree |
| `RbSpec.RemoveFocus` | utils/tree.h:585-658 | removing any node of a valid tree yields a valid tree whose in-order sequence lacks that node and nothing else |
| `RbSpec.RemoveCorrect` | utils/tree.h:585-658 | removal by key keeps the tree a valid search tree and is removal from the set of elements |
| `RbSpec.HeightBound` | utils/tree.h:53-54 | 2^height <= (n + 1)^2 for every red-black tree of n nodes |
| `RbSpec.RunCorrect` | utils/tree.h:46-54 | after any sequence of operations from the empty tree: red-black, sorted, of logarithmic height, and equal to the plain set |
| `RbTree.Head.constructor` | utils/tree.h:338-342 | an empty tree is valid |
| `RbTree.Head.RotateLinks` | utils/tree.h:381-427 | the new value of each of the pointers that a rotation assigns |
| `RbTree.Head.Rotate` | utils/tree.h:381-427 | a rotation anywhere in the tree turns the links of a shape into those of the rotated shape |
| `RbTree.Head.RecolorUncle` | utils/tree.h:454-460 | the red-uncle branch leaves the links of the recoloured shape |
| `RbTree.Head.RotateUncle` | utils/tree.h:461-469 | the rotating branch leaves the links of the rotated shape, with a black parent above the new focus and at most two rotations |
| `RbTree.Head.InsertIteration` | utils/tree.h:449-491 | one iteration is one move of the specification; only the black-uncle branch rotates |
| `RbTree.Head.InsertColor` | utils/tree.h:443-493 | the loop terminates with the links of the repaired tree after at most two rotations |
| `RbTree.Head.RotateSibling` | utils/tree.h:505-510 | the red-sibling rotation: parent red, sibling's near child the new sibling |
| `RbTree.Head.RotateNear` | utils/tree.h:522-531 | the sibling's near child moves up and becomes the black sibling |
| `RbTree.Head.RotateParent` | utils/tree.h:532-536 | the sibling takes the parent's place and colour |
| `RbTree.Head.RepairIteration` | utils/tree.h:511-539 | the loop breaks iff the sibling has a red child; otherwise the sibling turns red and the focus moves to the parent without rotation |
| `RbTree.Head.RemoveIteration` | utils/tree.h:499-580 | an iteration keeps the one-black deficit or ends the loop, and climbs |
| `RbTree.Head.RemoveColor` | utils/tree.h:495-583 | the loop terminates with the links of the repaired tree after at most three rotations |
| `RbTree.Head.Link` | utils/tree.h:679-689 | the new element is linked as a red leaf at the position of the descent |
| `RbTree.Head.Descend` | utils/tree.h:667-678 | the descent follows the specification and remembers parent and comparison |
| `RbTree.Head.Insert` | utils/tree.h:661-692 | validity kept; an element is returned iff an equal key is present, and then nothing changes; otherwise exactly the new element is added, with at most two rotations; no other fields than the RB_ENTRYs are touched |
| `RbTree.Head.Unlink` | utils/tree.h:641-654 | an element with at most one child is bypassed in both directions |
| `RbTree.Head.ReplaceLinks` | utils/tree.h:617-630 | the successor takes over the entry of the removed element and every pointer to it |
| `RbTree.Head.LeftmostOf` | utils/tree.h:597-599 | the successor search ends at the leftmost element of the right subtree |
| `RbTree.Head.UnlinkSuccessor` | utils/tree.h:596-616 | the successor leaves the right subtree, and the parent that recolouring starts from is the one after its relinking |
| `RbTree.Head.RemoveTwo` | utils/tree.h:594-640 | the two-children case, also when the successor is the removed element's own right child |
| `RbTree.Head.UnlinkElement` | utils/tree.h:588-654 | all three structural cases leave the links of the unlinked shape |
| `RbTree.Head.Remove` | utils/tree.h:585-658 | validity kept, exactly the given element leaves, links consistent, at most three rotations, no other fields than the RB_ENTRYs touched |
| `RbTree.Head.FindLoop` | utils/tree.h:698-710 | the loop follows the descent and makes at most one step a level |
| `RbTree.Head.Find` | utils/tree.h:695-711 | an equal key is found iff there is one, in steps with 2^steps <= (n + 1)^2 |
| `RbTree.Head.ClimbNext` | utils/tree.h:722-734 | climbing finds the first element after the subtree, or NULL |
| `RbTree.Successor` | utils/tree.h:713-736 | the in-order successor is the first element of the right subtree or the first one after the focus |
| `RbTree.Head.Next` | utils/tree.h:713-736 | the in-order successor through either branch, NULL after the last |
| `RbTree.Head.MinMax` | utils/tree.h:738-752 | the first or the last element in order, NULL if there is none |
| `RbTree.Head.ForEach` | utils/tree.h:764-767 | terminates, visits every element exactly once, in strictly increasing order |
| `RbTree.Head.RemoveKey` | utils/tree.h:757-759 | finding and removing by key is removal in the specification |
| `RbTree.Head.RunOps` | utils/tree.h:757-759 | any sequence of operations on the linked tree from RB_INIT leaves a valid tree with consistent links, equal to the plain set, after at most three rotations an operation |
| `SplaySpec.SplayLoopCorrect` | utils/tree.h:235-264 | left tree, middle and right tree together keep the in-order sequence, and the sides hold only keys beyond the sought place |
| `SplaySpec.SplayCorrect` | utils/tree.h:226-307 | splaying a search tree, by key or to an end, keeps its sequence and leaves at the root what separates the two sides |
| `SplaySpec.SplayByKey` | utils/tree.h:226-265 | an equal key, if present, is at the root; left keys are below and right keys above the sought key |
| `SplaySpec.InsertCorrect` | utils/tree.h:134-162 | insertion keeps the tree sorted and is insertion into the set of elements |
| `SplaySpec.InsertAtRoot` | utils/tree.h:145-161 | the inserted element is at the root, or the one with an equal key that was there |
| `SplaySpec.SecondSplay` | utils/tree.h:178-183 | splaying the left subtree for the removed key leaves a root without right child |
| `SplaySpec.RemoveCorrect` | utils/tree.h:164-185 | removal keeps the tree sorted and is removal from the set of elements |
| `SplaySpec.RemoveAtRoot` | utils/tree.h:170-183 | after a removal the root separates what is below the key from what is above, and is the last element below if the key was there and something is below it |
| `SplaySpec.RunCorrect` | utils/tree.h:134-265 | after any sequence of insert, remove and find the tree is sorted and equals the plain set |
| `SplayDepth.SplayHalvesPath` | utils/tree.h:34-36 | an element that the search met at depth d is at depth d / 2 + 2 at most after splaying, by key or to an end |
| `SplayDepth.SplaySinks` | utils/tree.h:34-36 | no element sinks by more than two levels |
| `SplayDepth.PathHalved` | utils/tree.h:235-264 | the loop invariant behind it: the side trees are at most half as long as the path walked so far, because only a rotation lets the search go on to the same side |
| `SplayDepth.AccessHalvesPath` | utils/tree.h:134-197 | after any insert, remove or find an element that the search met at depth d, and that stays, is at depth d / 2 + 3 at most (d / 2 + 2 for a find) |
| `SplayTree.Head.constructor` | utils/tree.h:68-72 | an empty tree is valid |
| `SplayTree.Head.Rotate` | utils/tree.h:87-101 | a rotation at the root leaves both side trees intact |
| `SplayTree.Head.LinkTo` | utils/tree.h:103-117 | the root is linked into the hole of a side tree and becomes its new end |
| `SplayTree.Head.Iterate` | utils/tree.h:237-262 | one iteration breaks without change of the side trees or links the root and descends |
| `SplayTree.Head.Loop` | utils/tree.h:232-263 | the loop terminates with the parts of the splayed tree |
| `SplayTree.Head.AssembleTree` | utils/tree.h:119-126 | the four assignments put the parts together, also when a side tree is empty |
| `SplayTree.Head.SplayTo` | utils/tree.h:226-307 | the links become those of the splayed tree, over the same elements |
| `SplayTree.Head.Insert` | utils/tree.h:134-162 | validity kept; the elements become those of set insertion; the root is the new element, or the equal one that was there; an element that is not inserted keeps its entry; no other fields than the SPLAY_ENTRYs are touched |
| `SplayTree.Head.InsertTop` | utils/tree.h:145-161 | the new element becomes the root above the splayed one, or nothing changes if the keys are equal |
| `SplayTree.Head.RemoveTop` | utils/tree.h:173-183 | the root is unlinked and its right subtree hung below the splayed left one |
| `SplayTree.Head.Remove` | utils/tree.h:164-185 | validity kept; the elements become those of set removal |
| `SplayTree.Head.Find` | utils/tree.h:187-197 | an equal key is found iff there is one, at the root, and the sequence is kept |
| `SplayTree.SplayEnd` | utils/tree.h:270-307 | splaying to an end brings the first or the last element to the root |
| `SplayTree.Head.MinMax` | utils/tree.h:316-319 | the first or the last element, brought to the root, NULL if there is none; the sequence is kept |
| `SplayTree.Head.Next` | utils/tree.h:199-214 | the in-order successor, NULL after the last; the element itself is brought to the root and the sequence kept |
| `SplayTree.Head.ForEach` | utils/tree.h:321-324 | terminates, visits every element exactly once, in strictly increasing order, although the tree is restructured |
| `SplayTree.Head.RunOps` | utils/tree.h:312-314 | any sequence of operations on the linked tree from SPLAY_INIT leaves a sorted tree with consistent links, equal to the plain set |
| `TwoTrees.SortedUnique` | utils/tree.h:764-767 | a set of elements has at most one increasing sequence, so an iteration is determined by its elements |
| `TwoTrees.RunBoth` | utils/tree.h:74-79 | the same run on a tree of each kind, over the same elements, leaves both valid and with the same elements |
| `TwoTrees.IterateBoth` | utils/tree.h:321-324 | over the same elements SPLAY_FOREACH and RB_FOREACH give the same sequence |
| `TailQueue.Queue.constructor` | inc/list.h:345-348 | an empty queue whose last slot is the head's own |
| `TailQueue.Queue.InsertHead` | inc/list.h:350-359 | inserts at position 0; every prev names the slot that points at its entry and last names the final NULL slot |
| `TailQueue.Queue.InsertTail` | inc/list.h:361-367 | the same at the end |
| `TailQueue.Queue.InsertAfter` | inc/list.h:369-378 | the same behind a given entry |
| `TailQueue.Queue.InsertBefore` | inc/list.h:380-386 | the same before a given entry, without the head |
| `TailQueue.Queue.Remove` | inc/list.h:388-397 | takes out exactly the given entry, wherever it is, and leaves its own fields as they were |
| `TailQueue.Queue.InsertThenRemove` | inc/list.h:350-397 | any insertion followed by removal of the same entry restores every other link and the head |
| `TailQueue.Queue.Last` | inc/list.h:406-407 | reading the last entry as a head gives the true last entry, NULL for an empty queue |
| `TailQueue.Queue.Prev` | inc/list.h:408-409 | reading an entry as a head gives the true previous entry, NULL for the first |
| `TailQueue.Queue.ForEach` | inc/list.h:411-414 | terminates and visits the entries in order |
| `TailQueue.Queue.ForEachReverse` | inc/list.h:416-419 | terminates and visits the entries in reverse order |
| `CircleQueue.Ring.constructor` | inc/list.h:442-445 | an empty ring: the head points to itself |
| `CircleQueue.Ring.MutualInverse` | inc/list.h:424-437 | next and prev are mutual inverses on the whole ring, through the head as well |
| `CircleQueue.Ring.InsertAfter` | inc/list.h:447-455 | inserts behind a given entry and keeps the ring |
| `CircleQueue.Ring.InsertBefore` | inc/list.h:457-465 | inserts before a given entry and keeps the ring |
| `CircleQueue.Ring.InsertHead` | inc/list.h:467-475 | inserts at the front and keeps the ring |
| `CircleQueue.Ring.InsertTail` | inc/list.h:477-485 | inserts at the end and keeps the ring |
| `CircleQueue.Ring.Remove` | inc/list.h:487-498 | takes out exactly the given entry, keeps the ring and leaves the entry's own fields as they were |
| `CircleQueue.Ring.ForEach` | inc/list.h:500-503 | terminates and visits the entries in order |
| `CircleQueue.Ring.ForEachReverse` | inc/list.h:505-508 | terminates and visits the entries in reverse order |
| `HttpSpec.ParseUndoesPrint` | inc/http_types.h:115-175 | for every well-formed request with any body, parsing what was printed gives it back, less the first character of each header text |
| `HttpSpec.ParseUndoesPrintedHeaders` | inc/http_types.h:115-175 | for headers printed as "name: value", names and values come back as they were |
| `HttpSpec.EmptyFieldSwallowsLine` | inc/http_types.h:157-164 | a header with an empty text takes the next line as its value |
| `HttpSpec.ParsePrintedHeaders` | inc/http_types.h:155-168 | the exact header list that the loop makes of any printed lines without a body, empty texts included |
| `HttpSpec.EmptyFieldLosesHeader` | inc/http_types.h:155-168 | without a body: all headers come back iff no text is empty, NULL is dereferenced iff an odd number of empty texts ends the list, and otherwise headers are lost |
| `HttpSpec.ParsePrinted` | inc/http_types.h:115-175 | the exact outcome of analasy on any printed request without a body: the condition of a NULL dereference, of a complete return and of lost headers |
| `HttpSpec.ParseUndoesPrintIff` | inc/http_types.h:115-175 | parsing undoes printing for all bodies iff no header text is empty |
| `HttpSpec.HeaderStep` | inc/http_types.h:157-164 | a completed iteration consumes at least three characters, four unless it is the last |
| `HttpSpec.IterationsBound` | inc/http_types.h:155-168 | n characters give at most (n + 1) / 4 iterations, so the index stays below half of the capacity of nhead, also when the parse fails |
| `HttpParse.ParseFits` | inc/http_types.h:30-43 | every string and the header count of an accepted request fit the arrays they are copied to |
| `HttpGrammar.StrtokExactly` | inc/http_types.h:135-161 | on any text strtok returns exactly the token after the leading delimiters and the text after one more delimiter, and NULL iff there are only delimiters |
| `HttpGrammar.LineExact` | inc/http_types.h:135-149 | on any text the request line is read as the tokens of the grammar |
| `HttpGrammar.HeadersExact` | inc/http_types.h:155-168 | on any text the header loop returns exactly the headers of the grammar |
| `HttpGrammar.RejectExact` | inc/http_types.h:131-133 | NULL is returned iff the text has no empty line |
| `HttpGrammar.AcceptExact` | inc/http_types.h:115-175 | a request is returned, with given parts, iff the text has an empty line and is a request of the grammar with those parts |
| `HttpGrammar.CrashExact` | inc/http_types.h:115-175 | NULL is dereferenced iff the text has an empty line and is no request of the grammar |
| `HttpParse.Tokenizer.Next` | inc/http_types.h:135-161 | strtok on the mutable buffer, with its hidden cursor, gives the token and the remaining text of the pure definition and ends the token with a NUL |
| `HttpParse.Tokenizer.Copy` | inc/http_types.h:137-164 | strcpy copies the token; the call demands that it fits BUFSIZE characters, which is proved at every call, also before a NULL dereference |
| `HttpParse.FindBlankLine` | inc/http_types.h:131-133 | whether the text contains an empty line |
| `HttpParse.AnalasyLine` | inc/http_types.h:135-149 | method, URL and version are those of the specification |
| `HttpParse.HeaderIteration` | inc/http_types.h:157-164 | one iteration stores a name and a value two entries apart, ends the loop, or dereferences NULL, as specified |
| `HttpParse.AnalasyHeaders` | inc/http_types.h:155-168 | the loop terminates within the capacity of nhead; the k-th name is in nhead[2k].header and its value in nhead[2k + 1].value |
| `HttpParse.Analasy` | inc/http_types.h:115-175 | on any buffer of fewer than BUFSIZE characters: NULL iff the original text has no empty line, a request whose fields are the parts that the grammar gives it, or a NULL dereference, exactly as specified |
| `ProcessPool.Best` | inc/http_task.h:262-272 | the last processor among those with the largest nleft |
| `ProcessPool.NoticeExact` | inc/http_task.h:262-276 | in any pool a call charges the last processor among those with the largest nleft, by one, and changes no other |
| `ProcessPool.NoticeRoundRobin` | inc/http_task.h:258-277 | each call charges the processor that is due in the round, from the tail of the list to its head |
| `ProcessPool.NoticeManyRoundRobin` | inc/http_task.h:258-277 | k = q * n + r calls on a fresh pool of any size n are q full rounds and r more calls |
| `ProcessPool.NoticeConserves` | inc/http_task.h:258-277 | k calls lower the sum of nleft by k and keep pids and status, from any pool |
| `ProcessPool.NoticeBalanced` | inc/http_task.h:258-277 | after k calls on a fresh pool of size n the sum is n * MAX_FD_NUM - k and loads differ by at most one |
| `ProcessPool.AssignExact` | inc/http_task.h:70-79 | in any pool the first unassigned processor gets the pid and keeps its load, the counter rises, and nothing else changes |
| `ProcessPool.DeleteExact` | inc/http_task.h:82-101 | in any pool exactly the first processor with the pid leaves, and the survivors stay as they are, in order |
| `ProcessPool.ReplaceExact` | inc/http_task.h:243-255 | in any pool a death leaves a fresh worker with full capacity in front of exactly the survivors |
| `ProcessPool.ReplaceSize` | inc/http_task.h:82-111 | how the list and the counter change with a death, for known and unknown pids |
| `ProcessPool.ReplaceHealthy` | inc/http_task.h:243-255 | the death of a known worker keeps a full pool of distinct assigned pids while the counter falls |
| `ProcessPool.AssignAllInOrder` | inc/http_task.h:310-320 | the forked pids are assigned along the list in order |
| `ProcessPool.InitialHealthy` | inc/http_task.h:302-323 | initialisation yields a full pool with the right counter |
| `ProcessPool.RunHealthy` | inc/http_task.h:243-277 | over any run of dispatches and deaths the pool is full, with distinct assigned pids, and the counter is NPROC_MAX_NUM minus the deaths |
| `ProcessPool.RunConserves` | inc/http_task.h:243-277 | over any run the sum of nleft is the full capacity, less the dispatches, plus what dead workers had been charged |
| `ProcessPool.Node.constructor` | inc/http_task.h:47-56 | an unassigned processor with full capacity |
| `ProcessPool.Pool.InsertHead` | inc/list.h:215-218 | the list stays acyclic and gains the item in front |
| `ProcessPool.Pool.CreatePool` | inc/http_task.h:59-66 | NPROC_MAX_NUM fresh unassigned nodes in front of the list; the counter is unchanged |
| `ProcessPool.Pool.InsertPoolObj` | inc/http_task.h:70-79 | the first unassigned node gets the pid and the counter rises, or nothing changes; only pid fields are touched |
| `ProcessPool.Pool.DeletePoolObj` | inc/http_task.h:82-101 | the first node with the pid leaves the list, at the front or inside; the counter falls in any case; of the nodes only next fields are touched |
| `ProcessPool.Pool.InsertPool` | inc/http_task.h:104-111 | a fresh node is added in front of the old ones iff the counter is below the maximum; the counter is unchanged |
| `ProcessPool.Pool.HandleDead` | inc/http_task.h:243-255 | the list becomes a fresh worker with full capacity followed by exactly the nodes of the survivors, whose fields are untouched |
| `ProcessPool.Pool.Choose` | inc/http_task.h:262-272 | the loop ends at the last node among those with the largest nleft |
| `ProcessPool.Pool.NoticeChild` | inc/http_task.h:258-277 | in any pool the last node among those with the largest nleft is charged by one and its pid returned, and no other node changes |
| `ProcessPool.Pool.InitManager` | inc/http_task.h:302-323 | from an empty pool and the forked pids, the initial state of every run, on fresh nodes |
| `ProcessPool.Pool.RunEvents` | inc/http_task.h:243-277 | any sequence of dispatches and deaths on the linked list is the run of the state machine |
| `ProcessPool.Pool.Serve` | inc/http_task.h:243-323 | initialisation and any possible run leave an acyclic list of NPROC_MAX_NUM nodes, assigned and distinct, with the exact counter and every connection accounted for |

## Left out

- The epoll loops, accepting, descriptor passing and the child side of `fork` (`inc/http_io_base.h`, `inc/epoll_inc.h`, `inc/sock.h`, `src/core/epoll_circle.h`, `jump_task_pool_obj`): kernel I/O.
- `onRecv`, `http_rcv`, `Write_s`, `rio_read`, `http_send`, `rio_write`, `Read_s`, `readline`: transfer loops around system calls.
- Response pages, file access, message queues, logging, configuration: fixed strings and thin wrappers.
- The amortised bound of the splay trees (utils/tree.h:42-44): functional correctness, termination and the effect of one operation on depths are proved, but no potential argument over sequences.
- The `RB_AUGMENT` hooks, empty by default, and the `QUEUEDEBUG` checks.
- The plain list, the simple queue and the macros of the singly linked list that the pool does not use: they would only repeat the tail queue with fewer links.
- Failure of `malloc`, `free`, overflow of the 32-bit `nleft` and `n_proc`, and failure of `fork`.
- Null bytes inside a request: the parser sees the text up to the first one.
- SplayTree.Head.MinMax: the argument 0, with which `SPLAY_MINMAX` would never return, is excluded; the macros pass only 1 and -1.
- ProcessPool.Pool.NoticeChild: an empty list, on which the code dereferences NULL, is excluded.
- HttpParse.Analasy: buffers of BUFSIZE characters or more, which could overrun the character arrays, are excluded.
