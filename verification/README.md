# Verified models of the LibreSSL portable layer

Dafny models of the self-contained cores of the LibreSSL portable repository, with
proofs of what they promise. Run `dafny verify dfyconfig.toml`.

| file | models |
|---|---|
| RedBlack.dfy | the red-black trees of `include/compat/sys/tree.h`: nodes on the heap with parent pointers, rotations and both fix-up loops in place |
| SplayTree.dfy | the top-down splay trees of the same header, with the dummy node and its two hanging trees |
| SplayCosts.dfy | the cost of splaying: a potential over subtree sizes, apart from the nodes |
| BlockRotation.dfy | `gcd` and `permute_args` of `crypto/compat/getopt_long.c` |
| OptionParsing.dfy | what a `getopt_long` run means: a left-to-right reading of the argument vector that moves nothing |
| OptionRerun.dfy | running the parser again on the vector that a run leaves |
| Getopt.dfy | `parse_long_options` and `getopt_internal` with their static state, proved against that meaning |
| OptionWriting.dfy | how a command line is written for a program's declared options, and what the program should be told |
| OptionRoundTrip.dfy | that the left-to-right meaning reads back what was written, and that every command line is written so |
| OptionCalls.dfy | a program's calls of `getopt_long` until -1, against what was written |
| TailQueue.dfy | the tail queues of `include/compat/sys/queue.h`, with link cells and the head/entry layout pun |
| XorQueue.dfy | its simple queues, plain and masked with a cookie |
| LazyLock.dfy | locks created by compare-and-swap, from `include/compat/pthread.h` and `crypto/compat/crypto_lock_win.c`, as interleaved steps |
| GetDelim.dfy | `crypto/compat/getdelim.c` |
| WordArith.dfy | the carry arithmetic in `CMakeLists.txt` and the zero test of `patches/win32_arm64_bn_arch.h.patch` |
| Wrappers.dfy, Sequences.dfy, Powers.dfy | shared helpers: a value that may be missing, sequence edits, powers of two and whole logarithms |

How the models are built:

- Code that changes memory is imperative Dafny on objects or arrays with the same
  fields, branches and loops. Long bodies are cut into methods along their cases; each
  half of a mirrored pair (left and right) has its own members.
- A tree carries the ghost sequence `s` of its nodes in order; every node has its index
  and the interval of indices below it. `InOrderIsSequence` ties that sequence to the
  links alone, and `SearchPathsAgree` ties the ghost black levels to the colours met on
  real paths. Insertion and removal are then statements about `s`, node by node.
- The header bounds the cost of splaying by the Balance Theorem. Every operation of
  `SplayTree` returns the rounds of its splay loops as a ghost count and pays for them
  from a potential, the sum of the whole logarithms of all subtree sizes; a link without
  a rotation is paid for together with the round after it.
- `cmp` is a comparison of integer keys; it stands for any consistent strict order on a
  finite set of nodes.
- `OptionParsing.Scan` reads the words of a run once, left to right. The concrete state
  of getopt_internal is tied to it between calls by `Getopt.State.Pending`: from optind
  on no word has moved, before it stand the options taken and the words skipped.
- `OptionWriting` says from the writer's side what options are: letters in one word,
  arguments attached or in the next word, names in full or short for one, `-W`, a lone
  dash, words that are no options, and every error. It names no step of the parser.
  `OptionRoundTrip.ReadBack` proves that a run reports exactly what was written, and
  `OptionRoundTrip.EveryRun` that there is no command line outside it.
- What the environment decides is a constant function of the attempt: which calls of
  fgetc fail (`File.faulty`) and which of realloc (`Heap.denies`). Failures are then
  stated exactly, with no cause that the code itself could invent.
- A lock run is any sequence of atomic steps of any number of threads. Critical sections
  are re-entrant locks, and memory is sequentially consistent.

Two results where a promise fails and the exact condition is proved:

- Running `getopt_long` again on the vector it left repeats the run, and moves nothing,
  unless the first run missed a required argument while it had skipped non-options; in
  that case the second run always takes more words as options
  (`OptionRerun.RerunTheorem`, `OptionRerun.RerunExample`).
- Masking a link with the cookie and unmasking it gives the link back for every cookie
  if `unsigned long` is as wide as a pointer. Where it has 32 bits and a pointer 64, the
  casts of `XSIMPLEQ_XOR` preserve exactly the pointers below 4 GiB
  (`XorQueue.XorTwice`, `XorQueue.NarrowExample`); with all stored words below 4 GiB the
  masked operations still simulate the plain ones (`XorQueue.Memory.XRun`).

## Model

| member | source | states |
|---|---|---|
| RedBlack.Tree.constructor | include/compat/sys/tree.h:301-303 | an initialised tree is valid and empty |
| RedBlack.Tree.RotateLeft | include/compat/sys/tree.h:337-355 | the link fields change as the macro says, cell by cell, and no node changes its place in the in-order sequence |
| RedBlack.Tree.RotateRight | include/compat/sys/tree.h:357-375 | the mirror image of the left rotation |
| RedBlack.Tree.InsertRecolour | include/compat/sys/tree.h:411-416 | with a red uncle the only possible violation moves up to the grandparent |
| RedBlack.Tree.InsertInnerLeft | include/compat/sys/tree.h:417-422 | rotating the parent down turns the inner case into the outer one |
| RedBlack.Tree.InsertInnerRight | include/compat/sys/tree.h:433-438 | the mirror image |
| RedBlack.Tree.InsertOuterLeft | include/compat/sys/tree.h:423-424 | recolouring and rotating the grandparent leaves no violation at elm |
| RedBlack.Tree.InsertOuterRight | include/compat/sys/tree.h:439-440 | the mirror image |
| RedBlack.Tree.InsertRoundLeft | include/compat/sys/tree.h:409-424 | one round either moves the only violation to a node with a larger subtree and one more black level, or leaves none |
| RedBlack.Tree.InsertRoundRight | include/compat/sys/tree.h:425-441 | the mirror image |
| RedBlack.Tree.InsertColor | include/compat/sys/tree.h:403-444 | the loop keeps a red-red pair at elm or a red root as the only possible violation, ends within 1 + lg(n + 1) rounds, and leaves a valid red-black tree |
| RedBlack.Tree.Insert | include/compat/sys/tree.h:591-618 | either the equal node is returned and nothing changes, or the tree is valid and its sequence is the old one with the new node at its sorted place; at most 2 lg(n + 1) comparisons |
| RedBlack.Tree.RemoveRedSiblingLeft | include/compat/sys/tree.h:454-458 | a red sibling becomes a black one, with the shortage of one black node where it was |
| RedBlack.Tree.RemoveRedSiblingRight | include/compat/sys/tree.h:486-490 | the mirror image |
| RedBlack.Tree.RemoveBlackNephewsLeft | include/compat/sys/tree.h:459-465 | without a red nephew the shortage moves up to the parent |
| RedBlack.Tree.RemoveBlackNephewsRight | include/compat/sys/tree.h:491-497 | the mirror image |
| RedBlack.Tree.RemoveNearRedLeft | include/compat/sys/tree.h:467-475 | a red near nephew becomes the sibling, with a red far child |
| RedBlack.Tree.RemoveNearRedRight | include/compat/sys/tree.h:499-507 | the mirror image |
| RedBlack.Tree.RemoveFarRedLeft | include/compat/sys/tree.h:476-482 | a red far nephew ends the fix-up: black levels agree, no red-red pair, black root |
| RedBlack.Tree.RemoveFarRedRight | include/compat/sys/tree.h:508-514 | the mirror image |
| RedBlack.Tree.RemoveRoundLeft | include/compat/sys/tree.h:452-483 | one round moves the shortage to a node with a larger subtree, although the red-sibling rotation lowers elm, or ends the fix-up |
| RedBlack.Tree.RemoveRoundRight | include/compat/sys/tree.h:484-516 | the mirror image |
| RedBlack.Tree.RemoveColor | include/compat/sys/tree.h:447-520 | a tree one black node short below parent becomes a valid red-black tree within 1 + lg(n + 1) rounds |
| RedBlack.Tree.Remove | include/compat/sys/tree.h:523-587 | removing any node leaves a valid tree whose sequence of node identities is the old one minus exactly that node; the walk to the successor and the fix-up take O(lg n) steps |
| RedBlack.Tree.Splice | include/compat/sys/tree.h:531-569 | the successor node itself takes the removed node's place, links and colour |
| RedBlack.Tree.Successor | include/compat/sys/tree.h:533-535 | the node moved is the next in order, has no left child, and is at most 2 lg(n + 1) steps away |
| RedBlack.Tree.InOrderIsSequence | include/compat/sys/tree.h:48-56 | the ghost sequence is the in-order walk over the left and right links |
| RedBlack.Tree.BlacksOnSearchPath | include/compat/sys/tree.h:50-51 | every path down to a null link meets as many black nodes as the black level says |
| RedBlack.Tree.SearchPathsAgree | include/compat/sys/tree.h:50-51 | every search path from the root has the same number of black nodes |
| RedBlack.Tree.HeightAtMostTwiceBlack | include/compat/sys/tree.h:52-53 | as no red node has a red parent, the height is at most twice the black height, plus one at a red node |
| RedBlack.Tree.BlackHeightWeight | include/compat/sys/tree.h:50-56 | a subtree of black height b holds at least 2^b - 1 nodes |
| RedBlack.Tree.HeightBound | include/compat/sys/tree.h:55-56 | the height is at most 2 lg(n + 1), written 2^height <= (n + 1)^2 |
| RedBlack.Tree.Find | include/compat/sys/tree.h:622-636 | agrees with linear search, within 2 lg(n + 1) comparisons |
| RedBlack.Tree.NFind | include/compat/sys/tree.h:640-657 | the least node not below the key, or NULL if all are below, within the same bound |
| RedBlack.Tree.Next | include/compat/sys/tree.h:661-679 | the in-order successor, which RB_PREV undoes |
| RedBlack.Tree.Prev | include/compat/sys/tree.h:683-701 | the in-order predecessor, which RB_NEXT undoes |
| RedBlack.Tree.MinMax | include/compat/sys/tree.h:704-716 | the first or last node in order |
| RedBlack.Tree.ForEach | include/compat/sys/tree.h:730-733 | visits every node once, in order |
| RedBlack.Tree.ForEachReverse | include/compat/sys/tree.h:740-743 | visits the exact reverse |
| RedBlack.Tree.ForEachSafeRemove | include/compat/sys/tree.h:735-738 | with any set of nodes removed as they are visited, every original node is still visited once in order and exactly the others remain, in a valid tree |
| SplayTree.Tree.constructor | include/compat/sys/tree.h:67-69 | an initialised tree is valid and empty |
| SplayTree.Tree.RotateRight | include/compat/sys/tree.h:83-87 | keeps the three trees of the loop and the in-order sequence; only the two rotated nodes' intervals change |
| SplayTree.Tree.RotateLeft | include/compat/sys/tree.h:89-93 | the mirror image |
| SplayTree.Tree.LinkLeft | include/compat/sys/tree.h:95-99 | hangs the middle tree's root and right subtree under the right tree; the middle tree shrinks to the indices before it |
| SplayTree.Tree.LinkRight | include/compat/sys/tree.h:101-105 | the mirror image |
| SplayTree.Tree.Assemble | include/compat/sys/tree.h:107-112 | the three trees become one search tree with the same sequence |
| SplayTree.Tree.RotateRoundLeft | include/compat/sys/tree.h:215-223 | a round that rotates and links pays for itself and for a link alone before it |
| SplayTree.Tree.RotateRoundRight | include/compat/sys/tree.h:225-233 | the mirror image |
| SplayTree.Tree.LinkRoundLeft | include/compat/sys/tree.h:223 | a link alone is paid for together with the round after it |
| SplayTree.Tree.LinkRoundRight | include/compat/sys/tree.h:233 | the mirror image |
| SplayTree.Tree.Search | include/compat/sys/tree.h:213-235 | the loop ends, as the middle tree shrinks, with only smaller keys before the root and only larger ones after it, and its rounds are paid for |
| SplayTree.Tree.Splay | include/compat/sys/tree.h:205-237 | keeps the node sequence and leaves at the root the searched key if present, else its predecessor or successor; rounds plus twice the rise of the potential are at most 6 lg n + 2 |
| SplayTree.Tree.SplayMinMax | include/compat/sys/tree.h:242-273 | keeps the sequence and leaves the first or last node at the root |
| SplayTree.Tree.Find | include/compat/sys/tree.h:124-132 | finds a node with the key exactly if there is one, at the amortized cost of one splay |
| SplayTree.Tree.Next | include/compat/sys/tree.h:135-146 | the in-order successor |
| SplayTree.Tree.MinMax | include/compat/sys/tree.h:282-285 | the first or last node, NULL for an empty tree |
| SplayTree.Tree.ForEach | include/compat/sys/tree.h:287-290 | meets every node once, in order, although each step reshapes the tree |
| SplayTree.Tree.Insert | include/compat/sys/tree.h:160-181 | returns the equal node, or adds the new one at its sorted place and at the root; amortized cost 8 lg n + 2 |
| SplayTree.Tree.RemoveRoot | include/compat/sys/tree.h:194-197 | the second splay leaves a root without right child, so reattaching the saved subtree loses nothing |
| SplayTree.Tree.Remove | include/compat/sys/tree.h:184-202 | takes out exactly the node with the key, or nothing; amortized cost 12 lg n + 4 for its two splays |
| SplayTree.Tree.PerformAll | include/compat/sys/tree.h:44-46 | the Balance Theorem: from the empty tree any m operations with n insertions among them take at most m * (12 lg n + 4) rounds, and all of them answer as on a set of keys, which is what the tree holds in the end |
| SplayTree.Tree.Perform | include/compat/sys/tree.h:44-46 | one operation on a tree of at most n nodes: its effect on the set of keys, its answer, and its amortized cost |
| SplayTree.KeysOfWith | include/compat/sys/tree.h:160-181 | a node put into the sequence adds its key to the set |
| SplayTree.KeysOfWithout | include/compat/sys/tree.h:184-202 | a node taken out of a sorted sequence takes its key with it, and no other |
| SplayTree.KeysOfEnds | include/compat/sys/tree.h:282-285 | the ends of a sorted sequence have the least and the greatest key |
| SplayCosts.RotateAndLinkLeftRises | include/compat/sys/tree.h:218-223 | rotate and link raise the potential by less than twice what the middle tree's rank loses, wherever the root will be |
| SplayCosts.RotateAndLinkRightRises | include/compat/sys/tree.h:228-233 | the mirror image |
| SplayCosts.SlackLeft | include/compat/sys/tree.h:223 | two opposite links alone together pay for both rounds |
| SplayCosts.SlackRight | include/compat/sys/tree.h:233 | the mirror image |
| SplayCosts.PaidByRotation | include/compat/sys/tree.h:213-235 | the account over the rounds is kept by a round that rotates |
| SplayCosts.PaidByLinkLeft | include/compat/sys/tree.h:213-224 | and by a link alone |
| SplayCosts.PaidByLinkRight | include/compat/sys/tree.h:224-234 | the mirror image |
| SplayCosts.PaidInAll | include/compat/sys/tree.h:205-237 | the access lemma: after assembly, rounds and rise in potential are at most 6 lg n + 2 over the credit at the start |
| SplayCosts.GrowthRises | include/compat/sys/tree.h:168-179 | a node put above the root raises the potential by at most lg of the new size |
| SplayCosts.ReplacementFalls | include/compat/sys/tree.h:194-197 | joining the right subtree to the splayed left one costs no more than the removed root had |
| SplayTree.Tree.Nested | include/compat/sys/tree.h:71-75 | a subtree contains the whole subtree of every node whose index it covers |
| SplayTree.Tree.RootOrAbsent | include/compat/sys/tree.h:129-131 | after a splay a key that is not at the root is nowhere |
| SplayTree.Tree.InOrderIsSequence | include/compat/sys/tree.h:71-75 | the ghost sequence is the in-order walk over the links |
| BlockRotation.Gcd | crypto/compat/getopt_long.c:123-136 | a positive common divisor, and an integer combination of both lengths |
| BlockRotation.CommonDivisorDivides | crypto/compat/getopt_long.c:123-136 | every common divisor divides it: it is the greatest |
| BlockRotation.VisitForm | crypto/compat/getopt_long.c:161-166 | where the j-th move of a cycle stands, in closed form |
| BlockRotation.VisitInjective | crypto/compat/getopt_long.c:158-166 | within one turn no position is visited twice |
| BlockRotation.VisitCloses | crypto/compat/getopt_long.c:155-161 | after (a + b) / gcd(a, b) moves a cycle is back at its start |
| BlockRotation.VisitClass | crypto/compat/getopt_long.c:158-166 | a cycle stays in one residue class modulo the gcd, so cycles are disjoint |
| BlockRotation.VisitCovers | crypto/compat/getopt_long.c:158-166 | the cycles together reach every position of the two blocks |
| BlockRotation.ProgressStep | crypto/compat/getopt_long.c:161-169 | one swap with the cycle's start carries one more word to its place |
| BlockRotation.Turn | crypto/compat/getopt_long.c:158-170 | one cycle of the inner loop brings one more residue class to its places |
| BlockRotation.PermuteArgs | crypto/compat/getopt_long.c:143-171 | exchanges the two adjacent blocks, keeping the order in each and everything outside |
| OptionParsing.IndexOf | crypto/compat/getopt_long.c:193 | strchr: the first occurrence, or none |
| OptionParsing.ResolutionUnique | crypto/compat/getopt_long.c:200-233 | the declarative rule for long names determines the outcome |
| OptionParsing.AmbiguousMeans | crypto/compat/getopt_long.c:206-233 | an exact match always wins; ambiguity means no exact match and two partial matches that differ in has_arg, flag or val (any two under long-only), in any table order |
| OptionParsing.WordsAccounted | crypto/compat/getopt_long.c:337-482 | the words a run read are its option words and its skipped words put together, each kind in original order |
| OptionParsing.InterleavedWords | crypto/compat/getopt_long.c:337-482 | so that no word is lost or doubled |
| OptionParsing.RunEnds | crypto/compat/getopt_long.c:337-411 | only non-options are skipped, and a permuting run without "--" reads all words |
| OptionParsing.NothingSkipped | crypto/compat/getopt_long.c:361-375 | without permutation nothing is skipped and the words taken are a prefix |
| OptionParsing.OptionsComeFirst | crypto/compat/getopt_long.c:413-482 | an option takes its own word before any argument |
| OptionParsing.SameTail | crypto/compat/getopt_long.c:178-297 | parsing an option depends on the words from its own on only |
| OptionRerun.StepTransfer | crypto/compat/getopt_long.c:413-482 | an option parses alike wherever its own words stand |
| OptionRerun.MissingIsFound | crypto/compat/getopt_long.c:468-473 | a missing argument is found as soon as any word follows |
| OptionRerun.OptionsScanAlone | crypto/compat/getopt_long.c:337-482 | the option words of a run followed by the skipped ones give the same events |
| OptionRerun.MissingTakesMore | crypto/compat/getopt_long.c:258-279 | after a missing argument a second run takes more words |
| OptionRerun.RerunTheorem | crypto/compat/getopt_long.c:338-410 | a second run agrees in events, vector and final index if and only if the first did not both miss an argument and skip non-options |
| OptionRerun.RerunExample | crypto/compat/getopt_long.c:468-473 | a concrete vector on which the second run differs |
| Getopt.State.FindLongOption | crypto/compat/getopt_long.c:200-233 | the single-pass search loop meets the declarative rule for long names |
| Getopt.State.ParseLongOptions | crypto/compat/getopt_long.c:178-297 | return value, optind, optarg, optopt, index and stored flag are those of the left-to-right meaning, and -1 changes nothing |
| Getopt.State.UseLongOption | crypto/compat/getopt_long.c:234-296 | the same for a long option already resolved, with its argument and error cases; OptionRoundTrip.UsesLong says what the caller is told |
| Getopt.State.UseLetter | crypto/compat/getopt_long.c:461-482 | the same for a known letter and its argument; OptionRoundTrip.ReadsFlag and ReadsArgument say what the caller is told |
| Getopt.State.ParseLetter | crypto/compat/getopt_long.c:435-482 | the same for a short option, including -W |
| Getopt.State.ParseOptionHere | crypto/compat/getopt_long.c:419-482 | the same for the choice between long and short |
| Getopt.State.Permute | crypto/compat/getopt_long.c:379-381 | brings the skipped words behind the options with both blocks non-empty |
| Getopt.State.SkipNonOption | crypto/compat/getopt_long.c:376-388 | passing over a word keeps the layout of moved and unmoved words |
| Getopt.State.EndOfWords | crypto/compat/getopt_long.c:340-357 | at the end all options stand before all skipped words |
| Getopt.State.FinishAtDashes | crypto/compat/getopt_long.c:396-410 | the same at "--", which counts as an option word |
| Getopt.State.GetoptInternal | crypto/compat/getopt_long.c:304-483 | each call reports the next event of the left-to-right meaning and makes progress, or ends the run with the words in their final places |
| Getopt.State.Call | crypto/compat/getopt_long.c:304-483 | one call leaves optarg, optopt, the index and the stored variables as the next event says, and -1 leaves the last three alone |
| Getopt.State.ParseAll | crypto/compat/getopt_long.c:304-483 | a whole run ends, reports exactly the meaning's pairs of return value and optarg, with optopt, index and stored variables after each call, and leaves prefix, options, non-options and rest in that order with optind at the first non-option |
| Getopt.State.ParseTwice | crypto/compat/getopt_long.c:311-336 | from any state that can start a run, a run, a reset and a second run agree exactly under the condition of the rerun theorem |
| OptionRoundTrip.Configured | crypto/compat/getopt_long.c:322-332 | a program's options string selects its mode: the sign, the colon and POSIXLY_CORRECT |
| OptionRoundTrip.LookUp | crypto/compat/getopt_long.c:435-437 | strchr finds exactly the declared letters, at their first declaration, with the marks of its kind behind |
| OptionRoundTrip.LetterKnown | crypto/compat/getopt_long.c:435-437 | the same in the whole options string, where the semicolon behind W passes for a letter |
| OptionRoundTrip.NameResolves | crypto/compat/getopt_long.c:200-233 | a full name, or a text short for names that mean the same, is that option |
| OptionRoundTrip.NoneResolves | crypto/compat/getopt_long.c:252-290 | a text that begins no name, or names that mean different things, is none |
| OptionRoundTrip.UsesLong | crypto/compat/getopt_long.c:234-296 | option k reports val with nothing stored, or 0 with val stored at its flag, with index k and the argument written after an equals sign or as the next word; a superfluous or missing argument is complained about |
| OptionRoundTrip.ReadsLong | crypto/compat/getopt_long.c:178-297 | a written long option is read back: event, words taken, and whether its argument was missing |
| OptionRoundTrip.ReadsFlag | crypto/compat/getopt_long.c:435-463 | a letter without argument reports itself, an unknown one '?' with the letter in optopt, and reading goes on behind it |
| OptionRoundTrip.ReadsArgument | crypto/compat/getopt_long.c:461-482 | a letter with an argument reports itself and the argument, attached, in the next word or absent; a missing one is ':' or '?' with the letter in optopt |
| OptionRoundTrip.ReadsVia | crypto/compat/getopt_long.c:444-460 | -W reports the long option in the same word or the next, or its absence |
| OptionRoundTrip.TakesLetter | crypto/compat/getopt_long.c:413-433 | when a text is taken for a letter although long options are looked for first |
| OptionRoundTrip.ReadsNamed | crypto/compat/getopt_long.c:419-433 | a long option behind two dashes, or one under long-only, also behind letters in the same word |
| OptionRoundTrip.ReadsLetters | crypto/compat/getopt_long.c:413-482 | any number of letters in one word report one event each, and its ending the last |
| OptionRoundTrip.ReadsDashFlag | crypto/compat/getopt_long.c:358-359 | a lone dash that is declared is read as a letter |
| OptionRoundTrip.ReadsPlain | crypto/compat/getopt_long.c:358-388 | a word that is no option is reported with 1, or passed over |
| OptionRoundTrip.ReadsTail | crypto/compat/getopt_long.c:340-410 | how a run ends: at the end, at "--", or at the first word that is no option |
| OptionRoundTrip.ReadBack | crypto/compat/getopt_long.c:304-483 | the round trip: the words written for any list of options and other words are read as exactly their events, in order, with exactly these words taken, passed over and not read |
| OptionRoundTrip.Writable | crypto/compat/getopt_long.c:304-483 | every vector of words is written that way |
| OptionRoundTrip.EveryRun | crypto/compat/getopt_long.c:304-483 | so every run means what its words say, and the same however they are taken apart |
| OptionCalls.Parse | crypto/compat/getopt_long.c:304-483 | calling getopt_long until -1 on written words returns what was written, leaves index, optopt and the stored variables as written after every call, and moves the words to their final places |
| TailQueue.Queue.constructor | include/compat/sys/queue.h:465-468 | an empty queue |
| TailQueue.Queue.InsertHead | include/compat/sys/queue.h:470-478 | prepends, keeping every back link at the cell that points to its element |
| TailQueue.Queue.InsertTail | include/compat/sys/queue.h:480-485 | appends through the tail cell |
| TailQueue.Queue.InsertAfter | include/compat/sys/queue.h:487-495 | inserts behind an element |
| TailQueue.Queue.InsertBefore | include/compat/sys/queue.h:497-502 | inserts before an element without the head at hand |
| TailQueue.Queue.Remove | include/compat/sys/queue.h:504-513 | removes one element, at either end or inside |
| TailQueue.Queue.Replace | include/compat/sys/queue.h:515-525 | puts one element in another's place |
| TailQueue.Queue.Concat | include/compat/sys/queue.h:527-534 | appends the second queue and empties it |
| TailQueue.Queue.Next | include/compat/sys/queue.h:430 | the element at the next index |
| TailQueue.Queue.Last | include/compat/sys/queue.h:431-432 | the last element, by reading a link cell as a head |
| TailQueue.Queue.Prev | include/compat/sys/queue.h:434-435 | the element at the previous index, by the same reading |
| TailQueue.Queue.ForEach | include/compat/sys/queue.h:439-442 | visits the elements in order |
| TailQueue.Queue.ForEachReverse | include/compat/sys/queue.h:451-454 | visits the exact reverse |
| XorQueue.XorTwice | include/compat/sys/queue.h:345-346 | for every cookie unmasking undoes masking exactly for words that fit the unsigned long: all of them at 64 bits, those below 4 GiB at 32 |
| XorQueue.MaskIsBitwise | include/compat/sys/queue.h:345-346 | bit j of a masked word differs from bit j of the word exactly if bit j of the cookie is set, for all 64 bits or the lower 32, with the upper half cleared |
| XorQueue.MaskHides | include/compat/sys/queue.h:345-346 | NULL is stored as the cookie itself, and only the cookie 0 leaves a pointer as it is |
| XorQueue.Memory.CellIsMasked | include/compat/sys/queue.h:345-404 | in every state that the operations reach, a cell holds its link with exactly the cookie's bits turned over |
| XorQueue.NarrowKeepsLow | include/compat/sys/queue.h:345-346 | the 32-bit case on the bits |
| XorQueue.NarrowExample | include/compat/sys/queue.h:345-346 | at 32 bits a pointer to 4 GiB comes back as NULL, for every cookie |
| XorQueue.InitIsEmpty | include/compat/sys/queue.h:285-288 | the plain queue is empty after SIMPLEQ_INIT |
| XorQueue.InsertHeadPrepends | include/compat/sys/queue.h:290-294 | the plain operation prepends |
| XorQueue.InsertTailAppends | include/compat/sys/queue.h:296-300 | the plain operation appends |
| XorQueue.InsertAfterInserts | include/compat/sys/queue.h:302-306 | the plain operation inserts behind an element |
| XorQueue.RemoveHeadDrops | include/compat/sys/queue.h:308-311 | the plain operation drops the first element |
| XorQueue.RemoveAfterDrops | include/compat/sys/queue.h:313-317 | the plain operation drops the element behind another |
| XorQueue.PlainRun | include/compat/sys/queue.h:285-317 | any legal sequence of plain operations runs the list of elements |
| XorQueue.ChainIsUnique | include/compat/sys/queue.h:272-275 | the memory determines the list that a traversal sees |
| XorQueue.Memory.XInit | include/compat/sys/queue.h:366-370 | under the newly drawn cookie, what SIMPLEQ_INIT does; the first word is then the cookie itself |
| XorQueue.Memory.XInsertHead | include/compat/sys/queue.h:372-377 | on unmasked links, what SIMPLEQ_INSERT_HEAD does; the first word shows the new element only under the cookie 0 |
| XorQueue.Memory.XInsertTail | include/compat/sys/queue.h:379-383 | on unmasked links, what SIMPLEQ_INSERT_TAIL does |
| XorQueue.Memory.XInsertAfter | include/compat/sys/queue.h:385-390 | on unmasked links, what SIMPLEQ_INSERT_AFTER does |
| XorQueue.Memory.XRemoveHead | include/compat/sys/queue.h:392-396 | on unmasked links, what SIMPLEQ_REMOVE_HEAD does |
| XorQueue.Memory.XRemoveAfter | include/compat/sys/queue.h:398-404 | on unmasked links, what SIMPLEQ_REMOVE_AFTER does |
| XorQueue.Memory.XForEach | include/compat/sys/queue.h:353-356 | traversal meets exactly the elements of the unmasked queue, in order |
| XorQueue.Memory.XRun | include/compat/sys/queue.h:345-404 | any legal sequence of operations, with a new cookie of either width at every initialisation, holds the same list as plain links would |
| LazyLock.ThreadStep | include/compat/pthread.h:88-108 | one thread's place in a call stays consistent under every step of every thread; an unlocking thread never meets a NULL pointer, so both files follow the same steps |
| LazyLock.SectionStep | include/compat/pthread.h:94-102 | a section is installed or still in its maker's hands |
| LazyLock.RunInv | crypto/compat/crypto_lock_win.c:25-45 | the invariant holds in every reachable state of every interleaving |
| LazyLock.HeldIsBalance | crypto/compat/crypto_lock_win.c:41-44 | what a thread holds is its entries minus its exits |
| LazyLock.MutualExclusion | include/compat/pthread.h:99-108 | two threads are never both inside one lock |
| LazyLock.CallEndsByItsOwnStep | crypto/compat/crypto_lock_win.c:25-45 | a lock call returns only by entering its own lock, an unlock call only by leaving it: its last step is that one, and it enters or leaves nothing else |
| LazyLock.DuringCall | include/compat/pthread.h:84-109 | while a call lasts it stays at its index and enters and leaves nothing |
| LazyLock.PendingIsPc | include/compat/pthread.h:84-109 | the call a thread is in is the one it made last |
| LazyLock.LockedIsBalance | crypto/compat/crypto_lock_win.c:41-44 | lock calls returned minus unlock calls begun is entries minus exits, but for an unlock call under way |
| LazyLock.ExclusionBetweenCalls | crypto/compat/crypto_lock_win.c:41-44 | from the return of a lock call to the matching unlock call the thread owns the installed section, and no other thread is between two such calls |
| LazyLock.SlotsStay | include/compat/pthread.h:95 | a lock pointer once set never changes |
| LazyLock.ChangesOnce | crypto/compat/crypto_lock_win.c:31-39 | in a whole run a lock pointer changes at most once, by the compare-and-swap of the section's maker |
| LazyLock.OneSectionForAll | crypto/compat/crypto_lock_win.c:41-44 | all threads enter and leave one and the same allocated section of an index |
| LazyLock.LoserFreesItsOwn | include/compat/pthread.h:95-98 | a section is freed only by the thread that made it and lost, unowned and not installed |
| LazyLock.NothingLeaks | include/compat/pthread.h:88-100 | outside the installation window exactly the installed sections are allocated, one to an index |
| LazyLock.OnlyWaitsForAHolder | crypto/compat/crypto_lock_win.c:31-44 | a thread inside a call can always step on unless another thread is inside the lock it waits for |
| GetDelim.PieceIs | crypto/compat/getdelim.c:64-68 | a piece ends at the first delimiter, or is all there is |
| GetDelim.PieceOf | crypto/compat/getdelim.c:64-68 | and nothing else is a piece |
| GetDelim.PiecesSplit | crypto/compat/getdelim.c:52-83 | the pieces join to the whole stream; the delimiter is only ever a last byte, and only the final piece may lack it |
| GetDelim.SplitIsUnique | crypto/compat/getdelim.c:52-83 | there is no other such split |
| GetDelim.Line.Prepare | crypto/compat/getdelim.c:44-50 | BUFSIZ bytes if the buffer is missing or shorter than two, else the caller's; fails exactly if that realloc is refused, and then changes nothing |
| GetDelim.Line.MakeRoom | crypto/compat/getdelim.c:69-82 | doubles the buffer exactly when fewer than three slots are free, keeping the bytes; fails exactly if the size is above SIZE_MAX / 2, which is EOVERFLOW, or that realloc is refused |
| GetDelim.Line.Take | crypto/compat/getdelim.c:64-82 | one byte stored inside the buffer, with the piece at the delimiter, the next round, or -1 exactly if the buffer could not grow |
| GetDelim.Line.GetDelim | crypto/compat/getdelim.c:37-84 | the next piece, its length and a NUL inside the buffer, all stores in bounds; -1 if and only if the rest is empty, a read failed, an allocation was refused or the piece outgrew every buffer, the only case of EOVERFLOW, with the bytes read so far in the buffer; the buffer at most doubles its need |
| GetDelim.Line.ReadAll | crypto/compat/getdelim.c:37-84 | repeated calls deliver the first pieces of the split, and all of them if no read failed, no allocation was refused, and EOVERFLOW was not met, which a stream shorter than SIZE_MAX / 2 - 1 never does |
| WordArith.BitwiseIs | CMakeLists.txt:655-658 | the bit operators act on each bit alone |
| WordArith.ZeroTest | CMakeLists.txt:644-648 | the or/complement formula is 1 for every non-zero word and 0 for zero |
| WordArith.ZeroTestsAgree | patches/win32_arm64_bn_arch.h.patch:15-19 | the leading-zero-count version gives the same for every word |
| WordArith.CarryFormula | CMakeLists.txt:655-658 | the and/or formula is the carry out of the addition |
| WordArith.AddW | CMakeLists.txt:650-662 | a + b = r1 * 2^64 + r0 |
| WordArith.AddWAddW | CMakeLists.txt:664-676 | a + b + c = r1 * 2^64 + r0 with r1 at most 2 |

## Left out

- RedBlack: RB_AUGMENT, which is empty by default; RB_FOREACH_REVERSE_SAFE, the mirror of the modelled loop; the RBT_* wrappers, whose functions are defined elsewhere.
- SplayTree.Tree.Remove: returns whether a node was taken out; the C function returns its argument, which need not be the node removed.
- SplayTree.Tree.Next: the walk to the successor after the splay is not counted; it leaves the tree as it is, so no potential pays for it when the same element is asked for again and again.
- OptionWriting.WellFormed: options strings that are no sign, colon and list of marked letters, such as one with three colons behind a letter or a semicolon behind another letter than W; the left-to-right meaning covers them, the round trip does not.
- Getopt: error text, opterr and getenv; the POSIXLY_CORRECT setting is an argument that stays fixed during a run.
- Getopt: optreset in the middle of a run or across different vectors, a NULL idx, and the three entry points, which only choose the flags.
- OptionParsing.NoSentinel: a long option without flag and with val -1 is excluded, because its value is the parser's own end mark.
- Getopt: words and names are strings without NUL characters, and characters are non-negative.
- TailQueue: LIST_*, the simpler companion; _Q_INVALIDATE; TAILQ_FOREACH_SAFE.
- XorQueue: SIMPLEQ_CONCAT, which has no masked counterpart, and the safe traversals; the queues live in a map from addresses to words, so address arithmetic is not captured.
- LazyLock: failure of malloc, which ends the process; pthread_mutex_init and pthread_mutex_destroy; unlocking by a thread that does not hold the lock; the memory order of plain loads and stores.
- LazyLock: CRYPTO_add_lock, pthread_once, pthread_self and pthread_equal, each one call or one expression.
- GetDelim: the conversion of lengths above SSIZE_MAX, which no object reaches; char is an unsigned byte.
- WordArith: the remaining functions of the embedded program.
- Console, socket, directory and process shims, endian and time macros, error number maps and the build scripts: dominated by system calls or single expressions.
