# A verified model of routerd's command line, event loop and wire formats

routerd is a routing daemon.  Under its thin glue to VPP and the Linux kernel lie a command-line and event library
(`libvui`) and a netlink library.  This project models the parts of both that decide something and proves what they
are for.  Everything is stated for all inputs, all runs or all reachable states.

**Command matching** (`Tokens`, `Ordering`, `CommandTree`, `Matcher`, `MatchVerdict`, `MatchMeaning`, `Completer`).  A
command graph is a cyclic graph of tokens in which START, FORK and JOIN take no word.  A *derivation* of a line chooses one hop per word,
never enters a node twice unless it repeats, matches every word at the level its type demands and ends in END.  Each
derivation has a key, the list of its tokens' ratings.  The backtracking search, which keeps only the best list seen so
far and a status, returns exactly the verdict that the set of all derivations and their keys determines.  Both are then read
off the kinds of tokens, their texts and the words alone: which words a token takes, and which of two lists is preferred.

**Command installation** (`MergeShape`, `MergeEqual`, `MergeFork`, `MergeMatch`, `MergePaths`, `MergeKeeps`,
`MergeSame`, `MergeReach`, `MergeUpdate`, `CommandMerge`, `CommandInstall`, `MergeLanguage`, `MergeExample`, `MatchPaths`,
`InstallMatch`).  Installing a command merges its graph into the graph of its node, sharing the longest common beginning.
Two FORKs are shown to compare equal exactly when the regions between FORK and JOIN are isomorphic.  With the
isomorphism, the paths to every command, old or new, are after any number of merges in one-to-one correspondence with those of its own graph.  A derivation of the matcher is
shown to be one path, and each path that takes the words one derivation.  So the two halves meet: the merged graph
can be matched against, and the derivations of any line on it are the disjoint union of those on the commands' own
graphs, each with its key and its command.  All other paths correspond too, so all four verdicts of a match on the merged
graph are decided by the commands' own graphs (`InstallMatch.InstallAndMatch`).

**Event scheduler** (`PQueue`, `SchedState`, `SchedSteps`, `SchedMoves`, `SchedPoll`, `SchedCancel`, `SchedReady`,
`Scheduler`, `SchedRun`).  A thread master is a class whose methods are the operations of `thread.c`.  One
invariant says where each thread is, what its caller's reference, its history record and the poll array hold, and that every
scheduling ever made is live, started or cancelled, and only one of these.  Every operation keeps it, also when other
pthreads add work or post cancellations while the owner is in poll; so it holds of every run.  No pending reader or writer
is forgotten: poll is asked for each, and whoever poll finds ready becomes ready.

**Output buffer** (`Bytes`, `Buffer`, `BufferWindow`), **netlink attributes** (`Netlink`, `NetlinkParse`, `NetlinkBuild`, `NetlinkTree`;
the format of section 2.2 of RFC 3549), **prefixes** (`Prefix`; containment as in section 3.1 of RFC 4632), the **hash
table** (`HashTable`) and the **graph library** (`GraphLists`) are each proved against the simple thing they implement:
one queue of bytes, trees of typed payloads, bit strings, a set of items, counted edges and reachability.  `Wrappers` and
`Lists` hold what several modules share.

## Where a promise fails

In these places the code does not keep what its comments, asserts or callers suggest; the model follows the code, and
says exactly when the promise holds.

- The variables that choose a container are not reset between the requests of one batch of cancellations.  The batch is
  served exactly when the ranks of the containers (slots, then lists, then the timer queue) never go down
  (`Scheduler.ThreadMaster.DoThreadCancel`, `SchedRun.DescendingBatch`).
- A fetch gives up exactly when no event, no timer and no poll entry is left.  Answering a reader clears the events of
  its poll entry but keeps the entry, so a master with nothing scheduled at all may wait for ever instead
  (`SchedRun.IdlePolls`).
- The sum of squared chain lengths of a hash table is not started afresh when the table doubles, and is off by the old
  sum from then on (`HashTable.Hash.Expand`, `HashTable.DriftAppears`).
- A netlink attribute's length is cut to sixteen bits: it reads back if and only if its length with the header is below
  65536 (`Netlink.AddedExact`; `NetlinkBuild.LengthCut` adds one of 65532 bytes).
- `rta_nest` sets the nest flag even when it added nothing: a refused call leaves the buffer as it was if and only if the
  flag was set there before (`NetlinkBuild.RtaBuffer.RtaNest`, `NetlinkBuild.RefusedNest`).
- The parser that keeps the last attribute of a type runs on past the end exactly when the last padding is missing and no
  type is beyond its table, and aborts exactly on a type beyond it (`NetlinkParse.ParseRtattr`, `NetlinkParse.Overrun`,
  `NetlinkParse.BeyondTable`).
- A poll entry is taken out by moving the later ones up, and the place after the last keeps what it held.  A new entry there
  also asks for that: exactly the one request is added if and only if the descriptor had an entry or the place held nothing
  else (`SchedPoll.AddsOnly`; `SchedRun.StaleRequest` asks for input on a descriptor that has only a writer).
- The deep comparison of FORKs reads the second list at the position of the first (`MergeEqual.FindEqual`).  So it is
  positional, which is what makes it an isomorphism.
- `prefix_match` does not compare families: prefixes of different families match by their bits
  (`Prefix.PrefixMatch`; `Prefix.FamiliesMix` finds a00::/16 within 10.0.0.0/8).
- The comment on `thread_get` says a reused structure keeps its history record when it is taken for the same function.
  `thread_add_unuse` clears it, so in every reachable state no structure on the unused list names a function and the record
  is looked up every time (`SchedSteps.RecordLookedUp`, `SchedRun.SameAgain`).

## Model

| member | source | states |
|---|---|---|
| `Tokens.MatchWord` | libvui/src/vui/lib/command_match.c:964-984 | a word matches a keyword exactly when equal to it, and partly when empty or a proper beginning of it |
| `Tokens.AcceptsExact` | libvui/src/vui/lib/command_match.c:526-539 | kind by kind, which words a token takes: a keyword every beginning of its text, START and VARIABLE every word, FORK, JOIN and END none, the others what their lexer matches exactly, and none a missing word |
| `Tokens.DisambiguateTokens` | libvui/src/vui/lib/command_match.c:576-597 | the pairwise choice between two tokens is the order of a single number, precedence before exactness, so it is a total preorder and a tie is equality |
| `Tokens.ChoiceExact` | libvui/src/vui/lib/command_match.c:546-597 | kind by kind, which of two tokens is chosen: addresses, prefixes and ranges before keywords before variables, however exact the match; two keywords by which one is spelled out; a tie between any two of the first group |
| `Tokens.DupMatchesAlike` | libvui/src/vui/lib/command_match.c:327-332 | the copy of a token put into an argument list matches and rates as the token does |
| `Ordering.LexTotal` | libvui/src/vui/lib/command_match.c:608-634 | of two keys of one length exactly one is less or they are equal |
| `Ordering.LexTransitive` | libvui/src/vui/lib/command_match.c:608-634 | the order of keys is transitive |
| `Ordering.LexDiffers` | libvui/src/vui/lib/command_match.c:608-634 | a lesser key is less where the two first differ |
| `CommandTree.Graph.NextHopsExact` | libvui/src/vui/lib/command_match.c:480-517 | a node is a hop exactly when it takes a word or ends a command and a path whose inner nodes are all transparent leads to it |
| `CommandTree.AddNexthops` | libvui/src/vui/lib/command_match.c:480-517 | the recursive walk appends exactly the hops, in graph order, and returns how many |
| `MatchMeaning.HopExact` | libvui/src/vui/lib/command_match.c:480-517 | a node is a hop exactly when edges lead to it through START, FORK and JOIN nodes alone and it is none of these |
| `Matcher.Disambiguate` | libvui/src/vui/lib/command_match.c:608-634 | comparing two argument lists word by word gives the lexicographic order of their keys, for lists of equal length as the asserts demand |
| `Matcher.Combine` | libvui/src/vui/lib/command_match.c:287-325 | the better of the bests of two disjoint sets of derivations is the best of the union; equal bests make the union ambiguous |
| `Matcher.LiftSummary` | libvui/src/vui/lib/command_match.c:287-325 | the best below a child, with that child in front, is the best among the derivations that go through it |
| `Matcher.SaveBest` | libvui/src/vui/lib/command_match.c:287-325 | after each child, status and list describe all derivations through the children visited so far |
| `Matcher.SaveEnd` | libvui/src/vui/lib/command_match.c:255-285 | after the last word the first END is the match and a second END settles the node as ambiguous, whatever follows |
| `Matcher.OnPath` | libvui/src/vui/lib/command_match.c:206-209 | a node is refused exactly when it is on the current path |
| `Matcher.CommandMatchR` | libvui/src/vui/lib/command_match.c:188-340 | for every node and every path to it, verdict and list are those of the whole set of derivations from there, and the stack below is left as it was |
| `Matcher.MatchChildren` | libvui/src/vui/lib/command_match.c:249-326 | the loop over the hops ends with the summary of all derivations through any of them |
| `MatchVerdict.VerdictExact` | libvui/src/vui/lib/command_match.c:137-187 | each of the four verdicts holds if and only if the derivations say so: one least, several least, none but all words consumed, none at all |
| `MatchVerdict.CommandMatch` | libvui/src/vui/lib/command_match.c:82-135 | the verdict is exact for every valid graph and every line; on a match there is one argument per word, each the copy of the node that took it, holding the word, with consecutive nodes one hop apart, and the command is the one its END leads to; otherwise nothing is returned |
| `MatchVerdict.WinnerIsAlone` | libvui/src/vui/lib/command_match.c:137-187 | a winning derivation is the only one with the least key |
| `MatchVerdict.Winner` | libvui/src/vui/lib/command_match.c:98-120 | the list found for a match is the dummy's copy, one copy for each word of a winning derivation, then the command |
| `MatchMeaning.DerivationExact` | libvui/src/vui/lib/command_match.c:188-340 | a derivation is a way to spell the line: at most 256 words, each there and suiting its token by kind and text, no unrepeatable node twice, one hop from node to node, an END last; and a walk that takes every word is the same without the END |
| `MatchMeaning.KeyExact` | libvui/src/vui/lib/command_match.c:608-634 | one derivation rates better than another exactly when its token is the preferred one at the first word where either is |
| `MatchMeaning.WinsExact` | libvui/src/vui/lib/command_match.c:137-187 | a derivation wins exactly when it is preferred so to every other, and is among the best exactly when none is preferred to it |
| `MatchMeaning.DescribedExact` | libvui/src/vui/lib/command_match.c:98-120 | each argument has the kind, text, variable name, range and attribute of the token that took the word, and holds the word; the command is the one after the END |
| `MatchMeaning.MatchLine` | libvui/src/vui/lib/command_match.c:82-135 | the four verdicts and the arguments of a match in these terms, for every valid graph and every line |
| `Completer.UnblockedExact` | libvui/src/vui/lib/command_match.c:480-517 | the hops kept are those whose node is not on the stack or may repeat |
| `Completer.StackFilters` | libvui/src/vui/lib/command_match.c:480-517 | walking with a stack gives the hops without one, less the blocked ones, in the same order |
| `Completer.OpenPath` | libvui/src/vui/lib/command_match.c:347-465 | a path the completer keeps leaves the start by one hop, goes on hop by hop, repeats only repeatable nodes, and each earlier node matches its word at its minimum level |
| `Completer.PassesExact` | libvui/src/vui/lib/command_match.c:375-437 | before the last word a path goes on exactly with a visible node that suits the word, and spells it out if some open path matches the word exactly |
| `Completer.CompletesExact` | libvui/src/vui/lib/command_match.c:403-431 | at the last word a visible node completes exactly when no word is begun, it is a keyword that begins with the word, it is a variable, or its lexer does not refuse the word |
| `Completer.ContributionExact` | libvui/src/vui/lib/command_match.c:387-437 | before the last word, one step extends a kept path to exactly its kept extensions |
| `Completer.Advance` | libvui/src/vui/lib/command_match.c:369-438 | after each word the list holds exactly the kept paths of the next length, and after the last exactly the completing ones |
| `Completer.CommandComplete` | libvui/src/vui/lib/command_match.c:347-465 | a token is returned if and only if it ends a completing path; the list is there if and only if one exists; with no words it is the hops of the start |
| `MergeEqual.FindEqual` | libvui/src/vui/lib/command_graph.c:140-156 | the inner loop finds a partner if and only if the children at the same position agree |
| `MergeEqual.CmdSubgraphEqual` | libvui/src/vui/lib/command_graph.c:128-160 | two nodes' successors compare equal exactly when there are as many and they agree position by position down to the JOIN |
| `MergeEqual.CmdNodesEqual` | libvui/src/vui/lib/command_graph.c:165-198 | two nodes compare equal exactly when their labels, loops and, for FORKs, the regions up to the JOINs agree |
| `MergeFork.ImageRelated` | libvui/src/vui/lib/command_graph.c:128-198 | each node between an equal FORK and its JOIN is compared equal with one node of the other region |
| `MergeFork.EdgesMatch` | libvui/src/vui/lib/command_graph.c:128-198 | that partnership maps successors to successors, position by position |
| `MergeFork.ImageInjective` | libvui/src/vui/lib/command_graph.c:128-198 | two nodes of a region never share a partner |
| `MergeFork.ImageOnto` | libvui/src/vui/lib/command_graph.c:128-198 | every node of the other region is a partner |
| `MergeSame.PlainExact` | libvui/src/vui/lib/command_graph.c:165-186 | any node but a FORK compares equal exactly to one of the same kind, text, variable name, range and repetition that loops when it does; the text of START, JOIN and END does not matter |
| `MergeSame.IsoNode` | libvui/src/vui/lib/command_graph.c:128-198 | all nodes that an isomorphism of two regions pairs compare equal, nested FORKs included |
| `MergeSame.ForkExact` | libvui/src/vui/lib/command_graph.c:128-198 | two FORKs compare equal if and only if there is an isomorphism of the regions up to their JOINs, one that keeps fields, pairing and successors position by position |
| `MergeLanguage.EqualForksDeriveTheSame` | libvui/src/vui/lib/command_graph.c:162-198 | two FORKs compared equal accept the same sequences of labels, in both directions |
| `MergeLanguage.SameLabelExact` | libvui/src/vui/lib/command_graph.c:169-186 | the field-by-field comparison of tokens is equality of labels: type, repeat, text, variable name and range |
| `MergeLanguage.TakersExact` | libvui/src/vui/lib/command_match.c:660-690 | the labels of a derived sequence are those of keywords, variables, addresses, prefixes and ranges |
| `MergeMatch.MatchedPlain` | libvui/src/vui/lib/command_graph.c:298-334 | going on below an equal node extends the correspondence between the two graphs by that node |
| `MergeMatch.MatchedFork` | libvui/src/vui/lib/command_graph.c:317-334 | going on after an equal FORK extends it by the whole region, and by nothing else |
| `MergePaths.NewPath` | libvui/src/vui/lib/command_graph.c:337-344 | every path of the new graph to a node below the match has one like it in the merged graph, which replacing shared nodes turns back into it |
| `MergePaths.MergedPath` | libvui/src/vui/lib/command_graph.c:337-344 | every path of the merged graph to such a node has one like it in the new graph, likewise reversible |
| `MergePaths.MergeExact` | libvui/src/vui/lib/command_graph.c:273-349 | for every node not shared, the paths that lead to it after the merge and those before are in one-to-one correspondence, label for label and repeat for repeat |
| `MergePaths.CorrespondsTransitive` | libvui/src/vui/lib/command_graph.c:273-349 | such correspondences compose, so they last over any number of merges |
| `MergePaths.NewWalk` | libvui/src/vui/lib/command_graph.c:337-344 | every path of the new graph, to whatever node, has one like it in the merged graph |
| `MergePaths.MergedWalk` | libvui/src/vui/lib/command_graph.c:273-349 | every path of the merged graph has one like it in the old graph or in the new |
| `MergePaths.OtherWalks` | libvui/src/vui/lib/command_graph.c:273-349 | the old graph keeps its paths, and a graph not involved has the paths it had and no more |
| `MergeKeeps.ShapeKept` | libvui/src/vui/lib/command_graph.c:273-349 | the merged graph is again well nested, acyclic but for its loops, paired FORK to JOIN, with every END leading to its own command alone |
| `MergeKeeps.TameKept` | libvui/src/vui/lib/command_graph.c:273-349 | merging makes no cycle that passes only through nodes that take no word |
| `MergeKeeps.SeveredNow` | libvui/src/vui/lib/command_graph.c:337-344 | after the merge no edge joins what the new graph keeps to anything else, so it can be deleted |
| `MergeReach.ReachUnmatched` | libvui/src/vui/lib/command_graph.c:221-242 | the nodes that change owner are exactly the new graph's nodes that found no partner |
| `MergeReach.ReachRegion` | libvui/src/vui/lib/command_graph.c:200-214 | the walk that lowers attributes visits exactly the FORK and what lies before its JOIN |
| `MergeReach.UnsetExact` | libvui/src/vui/lib/command_graph.c:227-235 | clearing a slot of the node vector and dropping empty slots at its end loses that node and no other |
| `CommandMerge.Merger.ReparentTree` | libvui/src/vui/lib/command_graph.c:221-242 | all nodes reachable from the argument, and only those, move from the new graph's list to the old one's, each once though reached twice |
| `CommandMerge.Merger.ForkBumpAttr` | libvui/src/vui/lib/command_graph.c:200-214 | every node reached before the JOIN gets the attribute and nothing else changes |
| `CommandMerge.Merger.ShareFork` | libvui/src/vui/lib/command_graph.c:317-330 | a shared FORK, its region and its JOIN become as visible as the more visible of the two |
| `MergeUpdate.LoweredExact` | libvui/src/vui/lib/command_graph.c:319-330 | normal is more visible than deprecated and deprecated than hidden; a shared node changes exactly when the other side is more visible |
| `CommandMerge.Merger.FindMatch` | libvui/src/vui/lib/command_graph.c:293-315 | the position is that of the first equal successor, or the end if none is equal; an END is never continued with, so every command keeps its own |
| `CommandMerge.Merger.RemoveEdge` | libvui/src/vui/lib/graph.c:124-138 | exactly the one edge goes |
| `CommandMerge.Merger.Attach` | libvui/src/vui/lib/command_graph.c:337-344 | the unmatched rest is hung below the last match: one edge moves and the rest changes owner |
| `CommandMerge.Merger.MergeChild` | libvui/src/vui/lib/command_graph.c:288-345 | one successor is merged at the end of the longest common beginning: each shared node is the first equal successor of the one before, and where the graphs part no successor is equal |
| `CommandMerge.Merger.MergeNodes` | libvui/src/vui/lib/command_graph.c:273-349 | the whole recursion ends with one edge moved at the place where no further successor is equal, reference counts up by one along the shared main line, and attributes the more visible of both on all shared nodes |
| `CommandInstall.StartsMatch` | libvui/src/vui/lib/command_graph.c:351-358 | any two graphs may begin to merge at their start nodes |
| `CommandInstall.GraphMerge` | libvui/src/vui/lib/command_graph.c:351-358 | merging keeps the paths of every command of both graphs and of all others one for one, shares the longest common beginning and no more, cuts off what is left of the new graph, keeps what later merges and matching need, and says which counts, attributes and owners change |
| `CommandInstall.CommandKept` | libvui/src/vui/lib/command_graph.c:273-349 | no command node is ever shared, and its paths are, one for one, those it had |
| `CommandInstall.MergeWalks` | libvui/src/vui/lib/command_graph.c:351-358 | one merge keeps all paths, to whatever node: up to likeness, the merged graph has those of both graphs and no more |
| `CommandInstall.LoneKept` | libvui/src/vui/lib/command_graph.c:273-349 | the graph of a command still to be installed stays a single command while others are merged |
| `CommandInstall.InstallAll` | libvui/src/vui/lib/command.c:270-278 | after any number of installations the paths to every command are, one for one, those of its own graph |
| `MergeLanguage.InstalledLanguage` | libvui/src/vui/lib/command.c:270-278 | the merged graph derives a sequence of labels for a command if and only if that command's own graph did |
| `MatchPaths.WaysAreHops` | libvui/src/vui/lib/command_match.c:480-517 | the hops of a node are listed in step with the ways to make them, each through nodes that take no word |
| `MatchPaths.WaysDiffer` | libvui/src/vui/lib/command_match.c:480-517 | two different hops never go the same way |
| `MatchPaths.PathSpelled` | libvui/src/vui/lib/command_match.c:188-340 | a derivation goes along one path from the start to a command, whose nodes that take words are those of the derivation |
| `MatchPaths.PathOnto` | libvui/src/vui/lib/command_match.c:188-340 | every path whose nodes take the words of the line is that of some derivation |
| `MatchPaths.PathInjective` | libvui/src/vui/lib/command_match.c:188-340 | different derivations go along different paths |
| `MatchPaths.PathCommand` | libvui/src/vui/lib/command_match.c:266-277 | the path ends at the command that the derivation stands for |
| `MatchPaths.ConsumesPath` | libvui/src/vui/lib/command_match.c:188-340 | a walk that takes every word, wherever it stops, goes along a path whose nodes take the words |
| `MatchPaths.PathConsumes` | libvui/src/vui/lib/command_match.c:188-340 | every such path is that of some walk |
| `MatchPaths.ExhaustsPath` | libvui/src/vui/lib/command_match.c:327-333 | so some walk takes every word, which makes a match incomplete rather than none, if and only if some path does |
| `InstallMatch.AlikeSpelled` | libvui/src/vui/lib/command_match.c:188-340 | of two like paths both take a line or neither does |
| `InstallMatch.AlikeKeys` | libvui/src/vui/lib/command_match.c:546-597 | derivations along like paths have the same key |
| `InstallMatch.ShapeReady` | libvui/src/vui/lib/command_match.c:82-135 | a graph of the shape without such cycles can be matched against from its start |
| `InstallMatch.InstalledTame` | libvui/src/vui/lib/command.c:270-278 | installing keeps the graph free of cycles through nodes that take no word |
| `InstallMatch.InstalledDerivations` | libvui/src/vui/lib/command.c:270-278 | after any number of installations the derivations of any line on the merged graph are in one-to-one correspondence with those on all the graphs merged, each with its key and its command |
| `InstallMatch.InstalledShared` | libvui/src/vui/lib/command.c:270-278 | after any number of installations the paths of the merged graph are, up to likeness, those of all the graphs merged |
| `InstallMatch.SharedExhausts` | libvui/src/vui/lib/command_match.c:327-333 | some walk on the merged graph takes every word if and only if one on some command's own graph does |
| `InstallMatch.SumVerdict` | libvui/src/vui/lib/command_match.c:137-187 | so each of the four verdicts on the merged graph holds exactly when it holds of all commands' own graphs taken together: one derivation wins, several tie, there is none but some walk takes every word, or neither |
| `InstallMatch.SumSays` | libvui/src/vui/lib/command_match.c:98-120 | the arguments and the command returned are those of the derivation on the command's own graph: each token holds its word and has the label of the token that takes it there |
| `InstallMatch.InstallAndMatch` | libvui/src/vui/lib/command.c:270-278 | installing any commands and then matching any line gives the verdict, the arguments and the command that the derivations on the graphs as they were before installation determine |
| `MergeExample.ShowShape` | libvui/src/vui/lib/command_parse.y:172-369 | the graph of `show <a/b>` with its FORK and JOIN has the shape that merging asks for |
| `MergeExample.ShowReady` | libvui/src/vui/lib/command_parse.y:172-369 | it is a single command with a start node, so it can be installed |
| `MergeExample.ShowTame` | libvui/src/vui/lib/command_parse.y:172-369 | it has no cycle through nodes that take no word, so it can be matched against |
| `PQueue.RootIsLeast` | libvui/src/vui/lib/pqueue.c:158-164 | under any total preorder the root of a heap goes before everything in it |
| `PQueue.Queue.TrickleUp` | libvui/src/vui/lib/pqueue.c:48-70 | repairs a heap that is wrong only above one position; same elements, every index right |
| `PQueue.Queue.TrickleDown` | libvui/src/vui/lib/pqueue.c:72-107 | repairs a heap that is wrong only below one position; same elements, every index right |
| `PQueue.Queue.Expand` | libvui/src/vui/lib/pqueue.c:130-144 | twice the room, same contents |
| `PQueue.Queue.Enqueue` | libvui/src/vui/lib/pqueue.c:146-156 | adds exactly the one element, within bounds also when the array has to grow |
| `PQueue.Queue.Dequeue` | libvui/src/vui/lib/pqueue.c:158-164 | takes out exactly one element, which goes before all others |
| `PQueue.Queue.RemoveAt` | libvui/src/vui/lib/pqueue.c:166-178 | takes out exactly the element at the position; order and recorded indices hold again |
| `SchedState.OneContainer` | libvui/src/vui/lib/thread.c:772-978 | in every state that meets the invariant each thread is in exactly one of seven containers |
| `SchedPoll.AddPolled` | libvui/src/vui/lib/thread.c:792-834 | adding a request keeps one entry for each descriptor and all pending requests watched |
| `SchedPoll.AddAsks` | libvui/src/vui/lib/thread.c:792-826 | after adding, poll is asked for the new request, for what it was asked before, and for what a new entry's place still held |
| `SchedPoll.AddsOnly` | libvui/src/vui/lib/thread.c:821-826 | exactly the one request is added if and only if the descriptor had an entry or the place held nothing else |
| `SchedPoll.RoomForPipe` | libvui/src/vui/lib/thread.c:755-759 | entries are of different descriptors below the limit and none is of the pipe, so in every reachable state there is room for the pipe's entry and the check before poll never fails |
| `SchedPoll.RoomForMore` | libvui/src/vui/lib/thread.c:816-817 | nor does the check for room when a reader or writer is added |
| `SchedPoll.CancelPolled` | libvui/src/vui/lib/thread.c:996-1044 | withdrawing a request, the later entries moved up when none of its events is left, loses no other pending request |
| `SchedPoll.LapsedExact` | libvui/src/vui/lib/thread.c:1019-1043 | after withdrawing, no entry of the descriptor asks for the event or for hang-ups, everything else is asked for as before, and the entry is gone exactly when it asked for nothing else |
| `SchedPoll.ClearPolled` | libvui/src/vui/lib/thread.c:1289-1306 | answering a request in the live array loses no other |
| `SchedPoll.SnapshotExact` | libvui/src/vui/lib/thread.c:1479-1481 | the copy handed to poll is the array entry for entry, so it asks for every pending reader and writer |
| `SchedSteps.GetInv` | libvui/src/vui/lib/thread.c:667-713 | taking a structure keeps counters, references and the books on schedulings |
| `SchedSteps.RecordLookedUp` | libvui/src/vui/lib/thread.c:689-705 | in every state that meets the invariant, the test by which a reused structure would keep its history record fails for every function but the null one that a cleared structure holds |
| `SchedSteps.RetireInv` | libvui/src/vui/lib/thread.c:521-540 | giving one back keeps them, with never more than ten unused, all of them cleared |
| `Scheduler.ThreadMaster.constructor` | libvui/src/vui/lib/thread.c:433-506 | a new master is empty and meets the invariant |
| `Scheduler.ThreadMaster.ThreadGet` | libvui/src/vui/lib/thread.c:667-713 | reuses the first unused structure or takes a new one, and counts it in its history record and in the allocation count |
| `Scheduler.ThreadMaster.AddUnuse` | libvui/src/vui/lib/thread.c:521-540 | the structure is cleared and kept, or freed when ten are kept already, and its record counts one less |
| `Scheduler.ThreadMaster.GiveBack` | libvui/src/vui/lib/thread.c:1138-1141 | before that the caller's reference is cleared and the scheduling counted as started or cancelled |
| `Scheduler.ThreadMaster.AddEvent` | libvui/src/vui/lib/thread.c:942-978 | a live reference makes the call change nothing; otherwise the event is last on its list and tied to its reference |
| `Scheduler.ThreadMaster.AddTimer` | libvui/src/vui/lib/thread.c:850-893 | the same for timers, the queue gaining exactly the one entry |
| `Scheduler.ThreadMaster.AddReadWrite` | libvui/src/vui/lib/thread.c:772-847 | the same for readers and writers, in slot and poll array together, also while the owner polls; the array changes at one entry only, which asks for one event more |
| `Scheduler.ThreadMaster.ThreadCancelRw` | libvui/src/vui/lib/thread.c:996-1044 | in the array, and in the copy if it reaches that far, the descriptor's entry no longer asks for the event or for hang-ups, and is taken out, the later ones moved up in order, exactly when it asks for nothing else; without an entry nothing happens |
| `Scheduler.ThreadMaster.CancelByArg` | libvui/src/vui/lib/thread.c:1069-1090 | exactly the events and ready threads with the argument are cancelled; the lists keep the others in order, and everything else stays |
| `Scheduler.ThreadMaster.CancelTarget` | libvui/src/vui/lib/thread.c:1097-1141 | a request works on its thread's own container exactly when no earlier request of the batch used one of higher rank, and then that thread alone is taken out |
| `Scheduler.ThreadMaster.DoThreadCancel` | libvui/src/vui/lib/thread.c:1054-1150 | a batch of any length is served if and only if its containers are in order, and then exactly the threads it names are gone, the lists keep their order, poll is no longer asked for what they waited for and is for all else, and nothing is started |
| `SchedCancel.OrderStep` | libvui/src/vui/lib/thread.c:1056-1142 | the order of a whole batch is decided request by request against the highest rank reached |
| `SchedCancel.OrderExact` | libvui/src/vui/lib/thread.c:1103-1136 | in order means, by kinds: after a timer only timers, and after an event or a ready thread no reader or writer |
| `SchedCancel.CancelKeeps` | libvui/src/vui/lib/thread.c:1097-1141 | cancelling one thread takes that one alone, and records its scheduling as cancelled |
| `SchedCancel.CancelAsked` | libvui/src/vui/lib/thread.c:1104-1111 | cancelling a reader or writer withdraws its own request from poll and no other |
| `SchedCancel.SweptLeft` | libvui/src/vui/lib/thread.c:1069-1090 | sweeping both lists for an argument takes exactly the listed threads that have it |
| `SchedCancel.TookThread` | libvui/src/vui/lib/thread.c:1097-1141 | after a request that names a thread, the threads gone since the batch began are one more |
| `SchedCancel.TookArg` | libvui/src/vui/lib/thread.c:1069-1090 | after a request that names an argument, they are more by all that had it |
| `Scheduler.ThreadMaster.PostCancel` | libvui/src/vui/lib/thread.c:1223-1250 | a request by another pthread waits and changes nothing else |
| `Scheduler.ThreadMaster.CancelNow` | libvui/src/vui/lib/thread.c:1160-1197 | the owner's cancellation serves all that is pending and itself; alone it always succeeds |
| `Scheduler.ThreadMaster.ThreadProcess` | libvui/src/vui/lib/thread.c:1390-1401 | all events become ready, in order, and nothing else does |
| `Scheduler.ThreadMaster.ThreadProcessTimers` | libvui/src/vui/lib/thread.c:1371-1387 | exactly the timers not later than now become ready, in order of their deadlines; those left are later than now |
| `Scheduler.ThreadMaster.IoHelper` | libvui/src/vui/lib/thread.c:1272-1309 | one event of one entry is answered in slot, live poll array and ready list together |
| `Scheduler.ThreadMaster.ThreadProcessIo` | libvui/src/vui/lib/thread.c:1320-1368 | every thread waiting for a reported event becomes ready, once, in the order of the entries, reader before writer, though the loop stops counting early; no other does; exactly the events delivered are no longer asked for, and the copy stays in step |
| `Scheduler.ThreadMaster.PopReady` | libvui/src/vui/lib/thread.c:1264-1270 | the first ready thread is handed out as it was and counted as started, and only that |
| `Scheduler.ThreadMaster.FetchBegin` | libvui/src/vui/lib/thread.c:1405-1487 | what is fetched was live, never started and never cancelled; after the pending cancellations it is the first ready thread, and with none ready all events become ready and poll is called, unless there is nothing to wait for; the copy polled is the whole array and asks for every pending reader and writer; only a batch out of order goes wrong |
| `Scheduler.ThreadMaster.FetchEnd` | libvui/src/vui/lib/thread.c:1488-1519 | for any report by poll, due timers in order and then exactly the readers with input or a hang-up and the writers with room become ready and leave their slots, and exactly what was reported is no longer asked for; work added during poll is not lost; a poll that failed changes nothing |
| `Scheduler.StartedOnce` | libvui/src/vui/lib/thread.c:1264-1270 | a scheduling that starts had not started before and is not cancelled |
| `Scheduler.ThreadMaster.ExecuteBegin` | libvui/src/vui/lib/thread.c:1651-1672 | a function called directly has its own structure, in no list, and is accounted for like any other |
| `Scheduler.ThreadMaster.ExecuteEnd` | libvui/src/vui/lib/thread.c:1674-1678 | the structure is given back and its scheduling counted as started |
| `Scheduler.ThreadMaster.FirstTimer` | libvui/src/vui/lib/thread.c:403-413 | the head of the timer queue is due no later than any timer |
| `SchedRun.Step` | libvui/src/vui/lib/thread.c:772-1519 | any operation of the owner or another pthread keeps the invariant and makes of the state what its own rule says; what it fetches starts then; it goes wrong exactly when the batch it serves is out of order |
| `SchedRun.Run` | libvui/src/vui/lib/thread.c:1405-1519 | every run is a sequence of such steps from the new master, operation by operation, ending early exactly at a batch out of order; no scheduling is fetched twice, none fetched is cancelled or still live, and every scheduling made is live, started or cancelled; without posted cancellations no run goes wrong |
| `SchedRun.NothingPending` | libvui/src/vui/lib/thread.c:1160-1197 | in a run without posted cancellations nothing is pending between operations, so every batch has one request and is in order |
| `SchedRun.PendingAnswered` | libvui/src/vui/lib/thread.c:1405-1519 | in every run, whoever waited when a fetch began to poll and is found to have input, or room, is ready when poll returns, whatever other pthreads did in between |
| `SchedRun.MayAlways` | libvui/src/vui/lib/thread.c:772-1250 | when nothing keeps the owner or another pthread from an operation of a run |
| `SchedRun.DescendingBatch` | libvui/src/vui/lib/thread.c:1056-1142 | a batch, timer first and event second, that looks for the event in the timer queue |
| `SchedRun.IdlePolls` | libvui/src/vui/lib/thread.c:1468-1472 | a run after which nothing is scheduled and the fetch polls instead of giving up |
| `SchedRun.SameAgain` | libvui/src/vui/lib/thread.c:689-705 | a run in which a reader gets the same structure twice, and in between the structure names no function |
| `SchedRun.ReaderCancelled` | libvui/src/vui/lib/thread.c:996-1044 | a run in which the only reader is cancelled, after which the fetch gives up |
| `SchedRun.StaleRequest` | libvui/src/vui/lib/thread.c:821-826 | a run after which poll is asked for input on a descriptor that has only a writer |
| `Buffer.QueuedConcat` | libvui/src/vui/lib/buffer.c:93-111 | the bytes of two lists of chunks are those of the one followed by those of the other |
| `Buffer.OutputBuffer.constructor` | libvui/src/vui/lib/buffer.c:64-83 | a new buffer holds nothing; without a size its chunks are as many whole pages as hold 4096 bytes |
| `Buffer.OutputBuffer.GetStr` | libvui/src/vui/lib/buffer.c:93-111 | the string is the queued bytes in order |
| `Buffer.OutputBuffer.Put` | libvui/src/vui/lib/buffer.c:152-172 | for every chunk size and fill, the queue gains exactly the bytes, and chunks stay non-empty and within their size |
| `Buffer.OutputBuffer.PutCrlf` | libvui/src/vui/lib/buffer.c:187-225 | the queue gains the input with every newline expanded |
| `Buffer.OutputBuffer.PutNewline` | libvui/src/vui/lib/buffer.c:212-223 | the pair goes in whole, in one chunk or across two, also with chunks of one byte |
| `Buffer.CrlfConcat` | libvui/src/vui/lib/buffer.c:187-225 | expansion does not depend on how the text is cut into pieces |
| `Buffer.CrlfByte` | libvui/src/vui/lib/buffer.c:187-225 | a newline becomes the bytes 13 and 10, any other byte stays |
| `Buffer.CrlfReversible` | libvui/src/vui/lib/buffer.c:187-225 | text without carriage returns can be read back from its expansion |
| `Buffer.OutputBuffer.Gather` | libvui/src/vui/lib/buffer.c:403-426 | one flush offers the longest run of chunks within 16 that does not go on after 131072 bytes |
| `Buffer.OutputBuffer.Consume` | libvui/src/vui/lib/buffer.c:442-459 | any number of accepted bytes is taken off the front; the queue never runs out underneath |
| `Buffer.OutputBuffer.FlushAvailable` | libvui/src/vui/lib/buffer.c:400-465 | whatever part the descriptor accepts is sent and leaves the queue, nothing else; the status is pending exactly when bytes remain |
| `Buffer.OutputBuffer.Write` | libvui/src/vui/lib/buffer.c:467-503 | bytes overtake nothing queued: what is sent at once and what is queued are together the old bytes and the new, in order; an error takes nothing |
| `BufferWindow.ShownExact` | libvui/src/vui/lib/buffer.c:297-316 | a window shows the longest beginning that fits, counting columns byte by byte: it completes no more lines than there are, exactly that many if bytes are left, and no shorter beginning would have filled it |
| `BufferWindow.LinesExact` | libvui/src/vui/lib/buffer.c:299-316 | counting columns comes to one row for each newline and one for each full width of every stretch between newlines and carriage returns |
| `BufferWindow.FillsLines` | libvui/src/vui/lib/buffer.c:297-316 | with short lines and bytes left, what is shown ends in a newline and has as many as there are rows |
| `BufferWindow.FillsPlain` | libvui/src/vui/lib/buffer.c:297-316 | without newlines and carriage returns, width times rows bytes are shown, or all |
| `BufferWindow.FillsReturns` | libvui/src/vui/lib/buffer.c:307-308 | a carriage return goes back to the first column and uses up no row |
| `BufferWindow.WindowShows` | libvui/src/vui/lib/buffer.c:273-278 | the rows are one less than the height, but at least one, and the width is at least one |
| `BufferWindow.PromptErased` | libvui/src/vui/lib/buffer.c:262-266 | the prompt is " --More-- " with a zero byte, and erasing covers all of it |
| `BufferWindow.Scan` | libvui/src/vui/lib/buffer.c:299-316 | counting columns chunk by chunk agrees with counting over the whole queue |
| `BufferWindow.Page` | libvui/src/vui/lib/buffer.c:273-347 | the pieces collected are a beginning of the queue; the array of pieces, small or growing, is never overrun and keeps a place for the prompt |
| `BufferWindow.Free` | libvui/src/vui/lib/buffer.c:380-392 | freeing spent chunks loses no byte and leaves none that is empty |
| `BufferWindow.FlushWindow` | libvui/src/vui/lib/buffer.c:253-393 | the screen gets the erased prompt if asked for, the beginning that fills the rows of the terminal but one, and a prompt exactly when bytes remain and it is not suppressed; the rest stays queued |
| `BufferWindow.Do` | libvui/src/vui/lib/buffer.c:152-503 | each operation without error hands over exactly its input; only a failing descriptor makes an error |
| `BufferWindow.Run` | libvui/src/vui/lib/buffer.c:93-503 | over every run without error, bytes sent followed by bytes queued are all bytes handed over, in order, under any partial writes |
| `Netlink.WalkConcat` | netlink_scripts/nexthop/netlink.h:47-64 | complete attributes read the same whatever follows, and what follows reads as it would alone |
| `Netlink.OnTheWire` | netlink_scripts/nexthop/netlink.h:84-88 | an attribute begins with its length and its type, low byte first, then the payload |
| `Netlink.WalkOne` | netlink_scripts/nexthop/netlink.h:72-91 | one attribute within the length field reads back, whatever its padding holds |
| `Netlink.WalkTruncated` | netlink_scripts/nexthop/netlink.h:72-91 | one too long for the field never reads back |
| `Netlink.AddedExact` | netlink_scripts/nexthop/netlink.h:72-91 | after complete attributes, exactly the one is added to what reads back, if and only if it fits the field |
| `NetlinkParse.MaskedNested` | netlink_scripts/nexthop/netlink.h:54-59 | a nest is filed under its plain type when the nest flag is masked |
| `NetlinkParse.ClearedBit` | netlink_scripts/nexthop/netlink.h:54-59 | bit by bit, masking clears the flags and keeps the rest |
| `NetlinkParse.ParseRtattrFlags` | netlink_scripts/nexthop/netlink.h:47-64 | for any bytes the table holds each type's first attribute and the deficit it reports is the number of bytes left over |
| `NetlinkParse.ParseRtattr` | libyalin/yalin/netlink_helper.h:42-55 | for any bytes the table holds each type's last; it aborts exactly on a type beyond the table, and runs past the end exactly when the last padding is missing |
| `NetlinkParse.Overrun` | libyalin/yalin/netlink_helper.h:47-54 | five bytes without padding that send the parser past the end |
| `NetlinkParse.BeyondTable` | libyalin/yalin/netlink_helper.h:49-52 | an attribute on which it aborts |
| `NetlinkParse.FirstExact` | netlink_scripts/nexthop/netlink.h:54-59 | first means that no earlier attribute has the type |
| `NetlinkParse.LastExact` | libyalin/yalin/netlink_helper.h:47-54 | last means that no later attribute has the type |
| `NetlinkParse.ParsersAgree` | libyalin/yalin/netlink_helper.h:42-55 | the two parsers fill equal tables when no type repeats |
| `NetlinkBuild.WriteAttr` | netlink_scripts/nexthop/netlink.h:84-90 | header and payload are in place, padding and all other bytes as before |
| `NetlinkBuild.Message.AddattrL` | netlink_scripts/nexthop/netlink.h:72-91 | accepted exactly when it fits; refused, it changes nothing; accepted, it reads back after all earlier ones |
| `NetlinkBuild.LengthCut` | netlink_scripts/nexthop/netlink.h:72-91 | an attribute of 65532 bytes that is accepted and does not read back |
| `NetlinkBuild.Message.AddrawL` | netlink_scripts/nexthop/netlink.h:189-203 | the bytes and zero padding are appended if they fit; complete attributes among them read back |
| `NetlinkBuild.RtaBuffer.RtaAddattrL` | netlink_scripts/nexthop/netlink.h:135-155 | the same inside an attribute, whose own length is cut to sixteen bits |
| `NetlinkBuild.RtaBuffer.RtaNest` | netlink_scripts/nexthop/netlink.h:173-180 | opens an empty flagged attribute at the end if it fits; refused, it sets the flag of the two type bytes there and nothing else, and changes nothing exactly when the flag was set |
| `NetlinkBuild.RefusedNest` | netlink_scripts/nexthop/netlink.h:173-180 | a refused call that changes the buffer |
| `NetlinkBuild.RtaBuffer.RtaNestEnd` | netlink_scripts/nexthop/netlink.h:182-187 | the nest reaches to the end of the payload and nothing else changes |
| `NetlinkTree.ReadConcat` | netlink_scripts/nexthop/netlink.h:47-64 | complete attributes read as trees the same whatever follows |
| `NetlinkTree.NestRead` | netlink_scripts/nexthop/netlink.h:173-187 | closing a nest over bytes that read as some trees gives bytes that read as the nest of those trees |
| `NetlinkTree.AddTree` | netlink_scripts/nexthop/netlink.h:135-187 | a tree of any depth is built exactly when all of it fits, and reads back as that tree |
| `NetlinkTree.AddTrees` | netlink_scripts/nexthop/netlink.h:135-187 | the same for any sequence of trees, in order |
| `NetlinkTree.AddItem` | netlink_scripts/nexthop/main.c:36-48 | a plain attribute, or trees built in a buffer of their own and added raw, is accepted exactly when it fits and changes nothing otherwise |
| `NetlinkTree.Build` | netlink_scripts/nexthop/main.c:36-48 | of any sequence of such additions exactly the longest beginning that fits is made, and the message reads back as all its trees with nothing left over |
| `NetlinkTree.FirstTree` | netlink_scripts/nexthop/netlink.h:47-64 | for any bytes, what the first parser keeps for a type is the first tree of that type, nests counted under their plain type |
| `NetlinkTree.LastTree` | libyalin/yalin/netlink_helper.h:42-55 | for any bytes, what the other keeps is the last tree of the type, flag included |
| `NetlinkTree.BuildAndParse` | netlink_scripts/nexthop/main.c:36-48 | a message built from nothing parses with nothing left over: the one table holds the first item of each type, the other the last, and the other parser aborts exactly on a type beyond its table |
| `Prefix.SameBits` | libvui/src/vui/lib/prefix.c:35-36 | a masked exclusive-or is zero exactly when the leading bits agree |
| `Prefix.SameNetwork` | libvui/src/vui/lib/prefix.c:587-601 | comparing the last byte under a mask and the whole bytes backwards decides agreement of the leading bits |
| `Prefix.PrefixMatch` | libvui/src/vui/lib/prefix.c:559-602 | one prefix contains another exactly when it is no longer and their leading bits agree, whatever the families |
| `Prefix.FamiliesMix` | libvui/src/vui/lib/prefix.c:559-602 | an IPv4 prefix found to contain an IPv6 one |
| `Prefix.ContainsTransitive` | libvui/src/vui/lib/prefix.c:559-602 | containment is transitive |
| `Prefix.PrefixCmp` | libvui/src/vui/lib/prefix.c:722-764 | zero exactly when each contains the other |
| `Prefix.PrefixCommonBits` | libvui/src/vui/lib/prefix.c:772-806 | that many leading bits agree and the next, if there is one, differs |
| `Prefix.ContainsByCommonBits` | libvui/src/vui/lib/prefix.c:772-806 | containment can be read off the number of common bits |
| `Prefix.MaskWordValue` | libvui/src/vui/lib/prefix.c:952-965 | the word made by a 64-bit shift cut to 32 bits is all ones down to the length, also for length 0 |
| `Prefix.Masklen2ip` | libvui/src/vui/lib/prefix.c:952-965 | the netmask has exactly the leading bits set, in network order |
| `Prefix.ApplyMaskIpv4` | libvui/src/vui/lib/prefix.c:981-986 | the leading bits stay and the others become zero |
| `Prefix.ApplyMaskIpv6` | libvui/src/vui/lib/prefix.c:1078-1096 | the same, byte by byte in place |
| `Prefix.MaskedContains` | libvui/src/vui/lib/prefix.c:559-602 | masking either prefix never changes whether one contains the other |
| `HashTable.Hash.constructor` | libvui/src/vui/lib/hash.c:38-66 | a new table holds nothing and its statistics are right |
| `HashTable.HasOnce` | libvui/src/vui/lib/hash.c:128-179 | no table holds two equal items |
| `HashTable.Hash.Get` | libvui/src/vui/lib/hash.c:128-179 | finds the equal item, or puts in exactly the one made for it; every item stays in its bucket, and the sum of squares stays as exact as it was if and only if the table does not double |
| `HashTable.Hash.Lookup` | libvui/src/vui/lib/hash.c:181-184 | finds an item exactly when an equal one is there, and changes neither items nor statistics |
| `HashTable.Hash.Release` | libvui/src/vui/lib/hash.c:196-233 | takes out exactly the equal item, if there is one |
| `HashTable.Hash.Clean` | libvui/src/vui/lib/hash.c:273-294 | an empty table with right statistics |
| `HashTable.Hash.Expand` | libvui/src/vui/lib/hash.c:80-126 | doubling keeps exactly the items, each in the bucket of its key, and adds the old sum of squares to the drift |
| `HashTable.Rehash` | libvui/src/vui/lib/hash.c:101-121 | moving every bucket keeps the items, counts empty chains afresh and adds the new sum of squares to the old |
| `HashTable.DriftAppears` | libvui/src/vui/lib/hash.c:85-126 | a table whose sum of squares is wrong |
| `GraphLists.Graph.AddEdge` | libvui/src/vui/lib/graph.c:116-122 | both lists gain the edge at their end and stay symmetric |
| `GraphLists.Graph.RemoveEdge` | libvui/src/vui/lib/graph.c:124-138 | one occurrence goes from both lists or from neither, so counts stay symmetric with loops and parallel edges |
| `GraphLists.Graph.DeleteNode` | libvui/src/vui/lib/graph.c:77-114 | the node is in no list afterwards, the edges between other nodes are as they were, and it leaves the node list once |
| `GraphLists.RemovedSymmetric` | libvui/src/vui/lib/graph.c:63-138 | swapping the last entry into the gap keeps every edge counted alike at both ends |
| `GraphLists.Dfs` | libvui/src/vui/lib/graph.c:162-185 | from any set of visited nodes the search visits new nodes once each and leaves no edge from them to an unvisited one |
| `GraphLists.DepthFirst` | libvui/src/vui/lib/graph.c:187-194 | the callback is called exactly once for each reachable node and for no other, on any cyclic graph |

## Left out

- VPP plugins and API wrappers, netlink sockets and caches, printing, privileges, signals, memory counters and the bodies of commands: glue, input and output, or easy members.
- `vector.c`, `linklist.c`, `typesafe.h`: vectors and lists are sequences, slot arrays are maps by descriptor; thread structures are records keyed by their address.
- Mutexes, poll, writev, clocks: the environment.  What poll reports, what a descriptor accepts, the time and the address of a new structure are arguments that may be anything allowed.
- The lexers for addresses, ranges and numbers: matching takes any function from token and word to a kind of match; ranges and the address syntax are not modelled.
- The command grammar: the shape of a graph, its certificate and its being a single command are preconditions of merging.  `MergeExample` shows a graph that meets them.
- Uninstalling (direction -1), with `cmd_free_node` and `cmd_free_recur`; token descriptions and `cmd_graph_names`.
- CommandMerge.Merger.RemoveEdge: does not keep the `from` list of the target; `GraphLists` proves the symmetry of both lists for the operations a merge uses.
- CommandInstall.GraphMerge: what the new graph still owns is cut off and stays in the heap; deleting it is not modelled.
- CommandInstall.InstallAll: does not delete what is left of each graph either, nor keep the hash and the vector of commands.
- `cmd_loopstop` reads the type of a command element as if it were a token; the model takes an element node as its own loop stop.
- Completer.CommandComplete: requires that only the last word may be missing, as its callers ensure.
- MatchVerdict.CommandMatch: requires that no cycle passes only through START, FORK and JOIN and that every END leads to a command; the fixed stack of 256 nodes bounds the lines that match.
- Scheduler.ThreadMaster.AddReadWrite: requires a descriptor below the limit, as the source asserts, that is not an end of the master's own pipe, and, unless the reference is in use, an empty slot; overwriting an occupied slot is not modelled.
- Scheduler.ThreadMaster.ExecuteBegin: does not tie the structure to the address of the caller's local variable, which nobody else sees.
- PQueue.Queue.Enqueue: requires an element that is not queued, since an element has one recorded index.
- HashTable.Hash.Get: requires that what is made for an item equals it; the source files it under the other's key.
- Scheduler.ThreadMaster.DoThreadCancel: does not say what is left after a batch out of order; a freed structure named again in the same batch counts as gone, and no request names a thread being executed directly.
- Scheduler.ThreadMaster.ThreadProcessIo: leaves out the POLLNVAL branch, where an entry is removed from both arrays.
- CPU accounting, thread names and yield times in `thread.c`; `thread_call` is only its place between two operations.
- Integer widths of counters, sizes and statistics: unbounded, but for the sixteen bits of netlink lengths and types and the shifts in `prefix.c`.
- Hash buckets are chosen by remainder, which is the source's bit mask for its power-of-two sizes; hash functions are any that agree on equal items.
- BufferWindow.FlushWindow: writes are complete or fail, as the source ignores short counts; the split of one write into several of IOV_MAX pieces is not modelled.
- `buffer_flush_all`, `buffer_putc` and `buffer_putstr`: loops or calls over what is here.
- NetlinkBuild.RtaBuffer.RtaNest: requires room in the buffer for the header it flags and a bound below 65536.
- EVPN, flowspec and Ethernet prefixes, and conversion of prefixes from and to strings.
- Aliasing between the items of a hash table or a priority queue: items are values.
