# A verified model of Bro's algorithmic cores

This project models seven parts of the Bro network monitor that keep state, branch heavily and have a simple meaning
the clever code must agree with. Each part is written in the form of its source: classes with fields updated in place,
arrays rewritten in loops, and functions where the source only computes. The contracts tie each operation to a plain
mathematical object, and lemmas and whole-run methods prove what the operations are for.

Check everything with `dafny verify dfyconfig.toml`.

- **Regular expressions** (`EquivClass`, `NfaGraph`, `NfaConstruct`, `NfaMachine`, `EpsilonClosure`, `Dfa`, `Pattern`,
  `Matcher`). Patterns are compiled by surgery on an epsilon-NFA, the alphabet is compressed by splitting doubly linked
  lists held in arrays, and a DFA is built lazily, sharing transitions between symbols and states between sets. The
  main results: the lists always give the coarsest partition that the characters and classes used allow; every
  construction builds exactly its language, for cyclic graphs too; the lazy DFA agrees with the NFA on every word,
  whatever was computed before; and `MatchExactly` and `MatchAnywhere` decide every pattern on every subject, end to
  end.
- **Dictionary** (`DictTables`, `DictIteration`, `Dict`, `DictRuns`, `DictReplay`). A chained hash table that moves its
  entries to a larger table a few chains at a time, with iteration cookies that survive changes. The main results:
  every run agrees with a plain map and an insertion order, in all the intermediate states of a resize; every
  interleaving of changes with steps of robust cookies visits each entry exactly once unless it was removed unseen,
  while there is one table; and exactly which changes spoil a robust cookie while there are two.
- **Chunked I/O** (`ChunkFrames`, `ChunkedIO`). Two endpoints split chunks into frames, buffer and queue them, and
  reassemble them, over pipes that may take or give as little as they like or refuse. The main results: what is
  delivered is always a prefix of what was written, all of it once drained, neither end gets stuck, and a read
  reports failure exactly when its pipe failed, or ended with no whole frame there.
- **Address anonymization** (`AnonBits`, `AnonTree`, `Anon`). A mutable tree that makes random outputs, and a keyed
  function of prefixes. Random numbers and the keyed function are arbitrary. The main results: both preserve the length
  of common prefixes exactly, so the first is injective and the second is a bijection; and every bit of an output is
  accounted for, by what was drawn or by the keyed function.
- **Composite hash keys** (`CompKeys`, `CompHash`). Nested values are laid out in an aligned byte key and read back.
  The main results: the key can be read back at every offset and so is injective; the writer stays within the size
  computed with or without a value; and exactly which values get a key, none of a wrong type among them. A complete
  value can lack one: `KeylessExample` shows it, and `KeyableIff` says precisely when that happens.
- **UTF conversion** (`Utf`, `ConvertUTF`), against Tables 3-6 and 3-7 and definitions D91 and D93b of chapter 3 of the
  Unicode Standard. The main results: bits are where the tables have them, legality is the table, conversions of
  well-formed text through UTF-8 succeed and give it back, and lenient decoding gives one replacement character for
  each maximal ill-formed subpart.
- **Priority queue and base64** (`PriorityQueue`, `PriorityQueueRuns`, `Base64`). A heap whose slot 0 is its own left
  child, with elements that know their slots; and a streaming codec. The main results: every run of the queue does what
  a bag that gives up an earliest element does; decoding undoes encoding for every alphabet, in any number of pieces,
  with other characters in between, and its own buffer is always large enough.

In the model states of an NFA are numbers in a pool, a dictionary's key is its bytes and hash, times are real numbers,
and positions in buffers are offsets. Choices the source leaves to the system (random numbers, what a pipe takes or
gives, hash values) are arbitrary in every theorem.

Where comments in the source and its code differ, the model follows the code. The comment on `MakeRobustCookie` promises
that iterations survive every change. The code compares bucket numbers without regard to the table they belong to, so
this holds while the dictionary has one table and not always while it has two: `MissedRun` and `SkippedRun` are runs
from the constructor on in which an entry that is there is never returned, and `InsertIff` and `RemoveIff` say for every
state and change whether the iteration, continued from there, still returns every entry once, and no other.

## Model

| member | source | states |
|---|---|---|
| `EquivClasses.EquivClass.constructor` | src/EquivClass.cc:7-33 | all symbols start in one well-linked list, so nothing is told apart yet |
| `EquivClasses.EquivClass.UniqueChar` | src/EquivClass.cc:164-177 | afterwards the lists are still disjoint, increasing and well linked, and separate exactly what the earlier uses and the one symbol tell apart |
| `EquivClasses.CutLinked` | src/EquivClass.cc:164-177 | cutting one symbol out of its list leaves both pieces well linked, as the lists of the refined labelling |
| `EquivClasses.EquivClass.CclUse` | src/EquivClass.cc:85-161 | for every strictly sorted class, afterwards the lists separate exactly what the earlier uses and this class tell apart, and every flag is clear again |
| `EquivClasses.EquivClass.SplitClass` | src/EquivClass.cc:85-161 | one pass of the outer loop splits the list of one symbol into members and non-members of the class, and flags exactly the later members it moved |
| `EquivClasses.EquivClass.MoveOver` | src/EquivClass.cc:107-146 | one step of the inner walk keeps both growing lists well formed up to the current symbol |
| `EquivClasses.EquivClass.FinishSplit` | src/EquivClass.cc:148-154 | closing the two growing lists gives two complete well-linked lists |
| `EquivClasses.EquivClass.NextMember` | src/EquivClass.cc:156-159 | the search for the next member passes over exactly the flagged ones and clears their flags |
| `EquivClasses.SplitStep` | src/EquivClass.cc:107-146 | the invariant of the split is kept when one symbol is hung onto the list it belongs to |
| `EquivClasses.SplitFinish` | src/EquivClass.cc:148-154 | at the end of the walk the split lists are the lists of the labelling with the class told apart |
| `EquivClasses.RefineSeparates` | src/EquivClass.cc:85-161 | refining a labelling by a set separates exactly what the old uses and the set tell apart |
| `EquivClasses.ProgressDone` | src/EquivClass.cc:85-161 | once every member has been dealt with, the pass as a whole has refined the partition by the class |
| `EquivClasses.EquivClass.NumberClass` | src/EquivClass.cc:70-80 | a class leader and all symbols behind it on its list get the next number and the leader as representative |
| `EquivClasses.EquivClass.BuildECs` | src/EquivClass.cc:65-83 | the classes are numbered in order of their least members, and the count is the number of leaders |
| `EquivClasses.ClassesCoarsest` | src/EquivClass.cc:65-83 | two symbols get the same class, and the same representative, if and only if no use tells them apart; the representative is the least such symbol; numbers are in range and in order of the representatives |
| `EquivClasses.EquivClass.ConvertCCL` | src/EquivClass.cc:44-63 | the converted list is the class of each member that is a representative |
| `EquivClasses.ConvertedMember` | src/EquivClass.cc:44-63 | what is in a converted list |
| `EquivClasses.ConvertedSorted` | src/EquivClass.cc:44-63 | a strictly sorted character class stays strictly sorted |
| `EquivClasses.ConvertedFaithful` | src/EquivClass.cc:44-63 | a symbol is in a class that was used if and only if its equivalence class is in the converted one |
| `NfaConstructions.AppendLang` | src/NFA.cc:217-221 | adding an edge to a new last state concatenates the language with what that state reads |
| `NfaConstructions.LinkLang` | src/NFA.cc:223-231 | joining two disjoint machines by one edge concatenates their languages |
| `NfaConstructions.LoopLang` | src/NFA.cc:241-246 | an edge from the final state back to the first gives one or more repetitions, no more and no less |
| `NfaConstructions.OptionalLang` | src/NFA.cc:233-239 | an edge from the first epsilon state to the final one adds the empty word and nothing else |
| `NfaConstructions.ForkLang` | src/NFA.cc:293-311 | an epsilon state accepts what one of its successors accepts |
| `NfaConstructions.CopyLang` | src/NFA.cc:53-65 | a graph copied state by state, cycles included, accepts the same words between the images of any two states |
| `NfaMachines.StatePool.DeepCopy` | src/NFA.cc:53-65 | for every graph, cyclic or not: each state reached gets one copy whose successors are the copies of its successors, and no existing state changes |
| `NfaMachines.StatePool.ClearMarks` | src/NFA.cc:67-75 | every mark reachable through marked states is gone and no other mark is added |
| `NfaMachines.NfaMachine.InsertEpsilon` | src/NFA.cc:163-168 | a new first epsilon state keeps the language |
| `NfaMachines.NfaMachine.AppendEpsilon` | src/NFA.cc:170-173 | a new final epsilon state keeps the language |
| `NfaMachines.NfaMachine.AppendState` | src/NFA.cc:217-221 | the language is the old one followed by what the state reads |
| `NfaMachines.NfaMachine.AppendMachine` | src/NFA.cc:223-231 | the language is the concatenation, and states of other machines are untouched |
| `NfaMachines.NfaMachine.MakeOptional` | src/NFA.cc:233-239 | the language gains exactly the empty word |
| `NfaMachines.NfaMachine.MakePositiveClosure` | src/NFA.cc:241-246 | the language becomes one or more words of the old one |
| `NfaMachines.NfaMachine.DuplicateMachine` | src/NFA.cc:208-215 | a machine of new states only, with the same language, and the original unchanged |
| `NfaMachines.NfaMachine.LinkCopies` | src/NFA.cc:188-206 | the language becomes n + 1 words of the old one, and n below one changes nothing |
| `NfaMachines.NfaMachine.MakeRepl` | src/NFA.cc:248-275 | the language becomes k words of the old one with k from the lower to the upper bound, or without an upper bound |
| `NfaMachines.MakeAlternate` | src/NFA.cc:293-311 | the language is the union of the two |
| `NfaMachines.AddAccept` | src/NFA.cc:175-186 | exactly the words of the machine reach its final state, which alone carries the accept value and is an epsilon state |
| `NfaMachines.NfaMachine.MakeClosure` | src/NFA.h:88-88 | the language becomes any number of words of the old one |
| `EpsilonClosures.Closures.EpsilonClosure` | src/NFA.cc:77-122 | the worklist gives, without repeats, exactly the kept states that epsilon paths reach, and caches that list |
| `EpsilonClosures.Closures.EpsilonClosureOf` | src/NFA.cc:314-343 | the closures of a list of states, merged into strictly decreasing order, hold exactly the kept states reachable from one of them |
| `EpsilonClosures.SortedInsert` | src/List.cc:90-115 | inserting keeps the list strictly decreasing and adds exactly the one element |
| `LazyDfa.DfaMachine.SpellTag` | src/DFA.cc:316-335 | the text built from a state list is its tag |
| `LazyDfa.TagInjective` | src/DFA.cc:311-354 | different state lists have different tags |
| `LazyDfa.TagFits` | src/DFA.cc:311-354 | a tag fits its buffer when state numbers have at most ten digits |
| `LazyDfa.SymPartition` | src/DFA.cc:44-75 | symbols in one meta class are read alike by every state of the set, and representatives are their own |
| `LazyDfa.MetaSound` | src/DFA.cc:44-75 | symbols that no label used tells apart are read alike by each of those labels |
| `LazyDfa.FollowMeta` | src/DFA.cc:77-108 | a symbol and its meta representative have the same follow set, so sharing a transition is sound |
| `LazyDfa.SymFollowSet` | src/DFA.cc:119-180 | the list holds exactly the successors of the states that read the class |
| `LazyDfa.DfaMachine.AddXtion` | src/DFA.cc:39-42 | one entry is set and every computed entry of every state stays right |
| `LazyDfa.DfaMachine.StateSetToDfaState` | src/DFA.cc:461-490 | the state returned, cached or new, stands for exactly the given NFA states; it is new only if none did before, so no two states stand for the same ones |
| `LazyDfa.DfaMachine.ComputeXtion` | src/DFA.cc:77-108 | the entry computed, or shared with the meta representative, is right for the symbol: the state of the closure of the follow set, or a jam if that set is empty; it is recorded for both symbols, and nothing is computed if the representative has it |
| `LazyDfa.DfaMachine.constructor` | src/DFA.cc:393-417 | the start state stands for the closure of the NFA's first state |
| `LazyDfa.FollowIff` | src/DFA.cc:119-180 | the follow set of a simulated state set is what the NFA reaches by reading the symbol |
| `LazyDfa.SimStart` | src/DFA.cc:393-417 | the start closure is the NFA's state set on the empty word |
| `LazyDfa.SimStep` | src/DFA.cc:77-108 | closing the follow set gives the NFA's state set on the longer word |
| `LazyDfa.SimJam` | src/DFA.cc:97-101 | an empty follow set means that no NFA state is left |
| `LazyDfa.SimMoves` | src/DFA.cc:91-96 | a follow set that is not empty means that some NFA state is left |
| `LazyDfa.SimAccepts` | src/DFA.cc:461-490 | the accept values of a simulated set are the values the NFA reaches |
| `LazyDfa.DfaMachine.Xtion` | src/DFA.h:157-163 | whatever was computed before, the entry returned is right and is recorded, and one that was there is returned without any change |
| `LazyDfa.DfaMachine.Run` | src/DFA.h:157-163 | for every word, and whatever part of the machine was computed earlier: the walk jams if and only if the NFA reaches no state on the word, and otherwise ends in a state whose accept set is exactly the accept values the NFA reaches |
| `Patterns.Compiler.Compile` | src/re-parse.y:40-211 | by recursion over the pattern: the machine built accepts exactly the words the pattern denotes, in states of its own, and everything compiled before is untouched |
| `Patterns.Compiler.CompileLeaf` | src/re-parse.y:106-147 | the machine of a symbol, class, string or empty pattern accepts its words and registers what it reads with the partition |
| `Patterns.Compiler.Counted` | src/re-parse.y:61-106 | the counted forms, with their special cases for zero, accept exactly the promised numbers of words |
| `Patterns.CompileAccepting` | src/re-parse.y:33-34 | the accepting state of the compiled pattern is reached exactly on the words the pattern denotes |
| `Patterns.ConvertCCLs` | src/RE.cc:59-63 | every character class is converted |
| `Patterns.LabelFaithful` | src/RE.cc:104-128 | after compilation a state reads a symbol if and only if it reads the symbol's class |
| `Patterns.GraphFaithful` | src/RE.cc:104-128 | compression preserves what every state of the compiled NFA reads |
| `Patterns.FinishTable` | src/RE.cc:104-128 | the finished table covers the alphabet and is faithful to the compiled NFA |
| `Patterns.CompilePattern` | src/RE.cc:104-128 | for every well-formed pattern the lazy machine is ready and its NFA recognizes exactly the words the pattern denotes |
| `Patterns.StuckRejects` | src/RE.cc:203-227 | a word on which the NFA is stuck is not in the language |
| `Patterns.MatchAll` | src/RE.cc:203-227 | true if and only if the subject between its anchors is a word of the pattern |
| `Patterns.Match` | src/RE.cc:229-260 | the least position from 1 at which a prefix is a word of the pattern, or the end if only the closed subject is one, or 0 if there is neither |
| `Patterns.LongestMatch` | src/RE.cc:339-376 | the greatest length at which a prefix, or at the end the closed subject, is a word of the pattern, and -1 if there is none |
| `Matchers.ExactlyIff` | src/RE.cc:78-81 | the wrapping of exact patterns accepts a subject if and only if the pattern accepts it with or without either anchor |
| `Matchers.ExactlyPlain` | src/RE.cc:78-81 | for patterns without anchors that is the pattern itself |
| `Matchers.MatchExactly` | src/RE.cc:78-81 | compiling and running an exact pattern decides, for every pattern and subject, whether the subject is a word of it, with or without the anchors |
| `Matchers.AnyClosure` | src/RE.cc:73-76 | the any-text part of the wrapping reads exactly the texts without anchors |
| `Matchers.AnywhereIn` | src/RE.cc:73-76 | every occurrence that ends a text is found by the wrapped pattern |
| `Matchers.AnywhereOut` | src/RE.cc:73-76 | whatever the wrapped pattern accepts ends in an occurrence of the pattern |
| `Matchers.WithinPlain` | src/RE.cc:73-76 | for patterns without anchors an occurrence is a stretch of the subject that is a word of the pattern |
| `Matchers.MatchAnywhere` | src/RE.cc:229-260 | compiling and running an anywhere pattern finds the least end of an occurrence, for every pattern and subject, and reports one that needs the end of the subject there |
| `DictTables.PlacedInsert` | src/Dict.cc:429-448 | appending an entry to the chain of its key keeps every entry in exactly the table and bucket chosen for it |
| `DictTables.PlacedRemove` | src/Dict.cc:178-220 | taking an entry out of its chain leaves the rest in place and drops exactly its key |
| `DictTables.TakeOut` | src/Dict.cc:504-535 | emptying the next bucket of the old table leaves exactly the other keys in place |
| `DictTables.PlacedStart` | src/Dict.cc:487-502 | a new empty second table changes nothing about where keys are |
| `DictTables.PlacedFinish` | src/Dict.cc:537-563 | when every bucket has been passed, the second table alone holds every key |
| `DictTables.TotalUpdate` | src/Dict.cc:443-448 | the number of entries in a table follows the change of one chain |
| `DictTables.KeysRemoved` | src/Dict.cc:178-220 | removing from the order list removes the one key and keeps the order of the rest |
| `DictTables.IsPrime` | src/Dict.cc:478-485 | true if and only if no odd number from 3 up to the root divides the argument |
| `DictTables.NextPrime` | src/Dict.cc:462-476 | the least odd number no smaller than the argument that the test accepts, or, beyond the threshold, just the next odd number |
| `DictIteration.TrackStart` | src/Dict.cc:270-273 | a new cookie has every entry ahead of it exactly once |
| `DictIteration.InsertIff` | src/Dict.cc:450-457 | for every state with one table or two: after an insertion an iteration, continued without further change, returns in all no entry twice, no removed entry and every entry there, if and only if the new entry is put on the list of insertions exactly when it does not come up otherwise |
| `DictIteration.RemoveIff` | src/Dict.cc:222-257 | the same after a removal, if and only if stepping the offset back or not leaves the rest of the iteration's own chain as it was, and the list of insertions no longer holds the entry |
| `DictIteration.AheadRemove` | src/Dict.cc:222-257 | a removal that fits takes exactly the removed entry from what is ahead |
| `DictIteration.AheadSkips` | src/Dict.cc:222-257 | one that does not, in the iteration's own bucket, also takes the next entry |
| `DictIteration.AheadAgain` | src/Dict.cc:222-257 | and one that does not, elsewhere, puts the last entry returned ahead again |
| `DictIteration.OneTableSafe` | src/Dict.cc:222-257 | with one table every insertion and removal is safe |
| `DictIteration.InsertMissed` | src/Dict.cc:450-457 | with two tables, an insertion that a robust cookie misses: nothing is left to come |
| `DictIteration.RemoveSkips` | src/Dict.cc:222-257 | with two tables, a removal after which a robust cookie never returns another entry |
| `DictIteration.ComingInserted` | src/Dict.cc:288-297 | the last insertion noted is the next entry to come |
| `DictIteration.ComingHere` | src/Dict.cc:314-321 | then the entry at the position |
| `DictIteration.ComingLater` | src/Dict.cc:323-356 | moving over empty buckets leaves the same entries to come |
| `DictIteration.ComingSecond` | src/Dict.cc:329-337 | so does moving on to the second table when the first is done |
| `DictIteration.ComingOver` | src/Dict.cc:339-346 | nothing is left to come at the end of the last table |
| `DictIteration.TrackReturned` | src/Dict.cc:280-357 | returning the next entry to come keeps an iteration on track; the entry is there and is returned for the first time |
| `DictIteration.TrackFinished` | src/Dict.cc:339-346 | when nothing is to come the visited entries, without repeats, are exactly those ever present that were not removed unseen |
| `Dictionaries.Dictionary.constructor` | src/Dict.cc:54-71 | a new dictionary is empty, with one table of at least the size asked for |
| `Dictionaries.Dictionary.Lookup` | src/Dict.cc:127-152 | in every state, resizing included, the value of the plain map, or null |
| `Dictionaries.Dictionary.Insert` | src/Dict.cc:154-176 | the map gains exactly the one binding, the old value comes back, a new key goes to the end of the order, and a robust cookie stays good if and only if a new entry is safe for it; a resize starts exactly when there are three entries for each bucket and no cookie is robust, and a chain of eight or more entries is moved alone |
| `Dictionaries.Dictionary.InsertEntry` | src/Dict.cc:382-460 | an entry for a new key is placed and reported to the cookies; for a known key only its value changes |
| `Dictionaries.Dictionary.Remove` | src/Dict.cc:178-220 | the map loses exactly the one key, its value comes back, the order keeps the rest, and a robust cookie stays good if and only if the removal is safe for it |
| `Dictionaries.Dictionary.DoRemove` | src/Dict.cc:222-257 | exactly the one entry is cut out of its chain, the order and the cookies |
| `Dictionaries.Dictionary.NthEntry` | src/Dict.cc:259-268 | the n-th binding in insertion order, and null out of range or without an order |
| `Dictionaries.Dictionary.InitForIteration` | src/Dict.cc:270-273 | the new cookie has visited nothing and has all entries ahead |
| `Dictionaries.Dictionary.NextEntry` | src/Dict.cc:280-357 | for every cookie, spoiled or not, the next entry that is to come, behind which the cookie then stands, or the end exactly when nothing is; one not spoiled returns only entries that are there, each once, and ends with all of them; a cookie that ends is no longer robust |
| `Dictionaries.Dictionary.StartChangeSize` | src/Dict.cc:487-502 | refused while there are robust cookies; otherwise a second, empty table whose size is the next prime for the size asked for, and the map is unchanged |
| `Dictionaries.Dictionary.MoveChains` | src/Dict.cc:504-535 | the map is unchanged in every intermediate state; each call moves on by at least one bucket and at least eight entries, or finishes the resize, and a chain of eight or more is moved alone; refused while there are robust cookies |
| `Dictionaries.Dictionary.FinishChangeSize` | src/Dict.cc:537-563 | the second table becomes the only one and the map is unchanged |
| `Dictionaries.Dictionary.Grow` | src/Dict.cc:169-173 | a resize starts exactly when the threshold is reached and no cookie is robust, to the next prime for twice the size and one, and the map is unchanged |
| `Dictionaries.Dictionary.Length` | src/Dict.h:64-65 | the size of the map, in every state |
| `Dictionaries.Dictionary.MakeRobustCookie` | src/Dict.h:112-119 | the cookie is told of every later change |
| `DictRuns.Run` | src/Dict.cc:127-220 | for every run of insertions, removals and lookups, through every resize: the contents and all the answers are those of a plain map, and an ordered dictionary lists keys in insertion order |
| `DictRuns.Drain` | src/Dict.cc:280-357 | every iteration ends, having returned what was to come when it was last changed; if not spoiled it is complete |
| `DictRuns.Change` | src/Dict.cc:154-257 | a change under a running iteration adds the new entry to those it is to return, or records the removed one as lost unless it was returned; it spoils the iteration if and only if it is not safe for it, which is if and only if the iteration, continued without further change, would no longer return every entry once, and no other |
| `DictRuns.LostForGood` | src/Dict.cc:280-357 | what is lost to an iteration stays lost, and what it has returned stays returned |
| `DictRuns.RunSteps` | src/Dict.cc:280-357 | for every interleaving of insertions, removals, new robust iterations and steps of any of them, in any state of a resize: the entries there have been and those removed unseen follow from the steps, each entry returned was there and new, and a finished iteration that nothing has spoiled has returned, once each, exactly the former without the latter |
| `DictRuns.RunIteration` | src/Dict.h:112-119 | started without a resize under way, no step spoils the iteration; it ends having returned, once each, exactly the entries present at its start or inserted later without those removed unseen, and each was there when it was returned |
| `DictReplays.AllInFirst` | src/Dict.cc:429-448 | keys of one hash make up one chain, and it holds every entry |
| `DictReplays.Crowd` | src/Dict.cc:154-176 | from a new dictionary of at least three buckets: three insertions for each bucket, of keys of one hash, start a resize, and the next one moves their chain and nothing else |
| `DictReplays.StandsInSecond` | src/Dict.cc:314-337 | a cookie that returns an entry then stands in the second table, in the bucket of that hash |
| `DictReplays.Begin` | src/Dict.cc:154-357 | such a run, and then a robust cookie that has returned one entry |
| `DictReplays.Overlooked` | src/Dict.cc:450-457 | for every state: an insertion into the first table, at or after the number of the bucket where a cookie stands in the second, leaves what is to come unchanged |
| `DictReplays.NextInChain` | src/Dict.cc:314-321 | the next entry of the chain is still to come |
| `DictReplays.Skips` | src/Dict.cc:222-257 | after the removal of the entry returned, it no longer is |
| `DictReplays.MissedRun` | src/Dict.cc:450-457 | a run from the constructor on: an entry inserted during a robust iteration is there at its end and was never returned |
| `DictReplays.SkippedRun` | src/Dict.cc:222-257 | another: an entry that was there from its start to its end was never returned |
| `ChunkFrames.NtohlHtonl` | src/ChunkedIO.cc:204-228 | the length header survives the byte order |
| `ChunkFrames.NetworkOrder` | src/ChunkedIO.cc:204-228 | the length header is the number with its most significant byte first |
| `ChunkFrames.FirstOf` | src/ChunkedIO.cc:321-360 | on any prefix of a stream of frames, a frame is seen if and only if all of it is there, and then it is the first frame |
| `ChunkFrames.FullShows` | src/ChunkedIO.cc:321-342 | a full buffer that starts at a frame boundary holds a whole frame |
| `ChunkFrames.AddSplit` | src/ChunkedIO.cc:362-374 | joining the parts of a split chunk gives the chunk |
| `ChunkFrames.SplitPart` | src/ChunkedIO.cc:141-166 | every frame of a chunk but the last is as large as the buffer allows, and only the last is not marked |
| `ChunkFrames.AssembleSplit` | src/ChunkedIO.cc:381-468 | reassembling the frames of a list of chunks gives the list |
| `ChunkFrames.DeliveredPrefix` | src/ChunkedIO.cc:381-468 | reassembling any prefix of the frames gives a prefix of the chunks and the beginning of the next |
| `ChunkFrames.EncodeInjective` | src/ChunkedIO.cc:204-228 | a byte stream determines its frames |
| `ChunkedIo.ChunkedIOFd.Write` | src/ChunkedIO.cc:133-166 | the chunk is accepted, and its parts join the frames in order, all of them unless the call fails; it fails only if a write to the pipe did, and none since has gone through |
| `ChunkedIo.ChunkedIOFd.WriteChunk` | src/ChunkedIO.cc:168-201 | a frame goes to the buffer or the queue, after everything before it; false exactly if it did not fit the buffer at once, a write to the pipe failed, and none since has gone through |
| `ChunkedIo.ChunkedIOFd.PutIntoWriteBuffer` | src/ChunkedIO.cc:204-228 | the frame is taken if and only if it fits beside what is buffered; otherwise nothing is lost |
| `ChunkedIo.ChunkedIOFd.FlushWriteBuffer` | src/ChunkedIO.cc:230-275 | short writes lose and repeat nothing; the buffer is empty unless the pipe refused; false exactly when a write failed, not when it only blocked; the end of the connection is noted exactly when the pipe told of it |
| `ChunkedIo.ChunkedIOFd.FillWriteBuffer` | src/ChunkedIO.cc:297-310 | an emptied buffer always takes the head of the queue, so the queue gets shorter |
| `ChunkedIo.ChunkedIOFd.Flush` | src/ChunkedIO.cc:284-319 | the queue never grows, and unless the pipe refuses everything queued and buffered is out; false exactly when a write failed and none since has gone through |
| `ChunkedIo.ChunkedIOFd.ChunkAvailable` | src/ChunkedIO.cc:321-342 | nonzero if and only if a whole frame is in the buffer, and then its header |
| `ChunkedIo.ChunkedIOFd.ExtractChunk` | src/ChunkedIO.cc:344-360 | takes exactly the next frame, or nothing |
| `ChunkedIo.ChunkedIOFd.Compact` | src/ChunkedIO.cc:480-488 | moving the rest to the front loses nothing |
| `ChunkedIo.ChunkedIOFd.ReadChunk` | src/ChunkedIO.cc:470-576 | the frame returned is the next one; a read that was not refused gives one, so the receiver never gets stuck; false exactly when the pipe failed, or ended with no whole frame there, so never because it only blocked; the end of the connection is noted exactly when a pipe told of it |
| `ChunkedIo.ChunkedIOFd.Read` | src/ChunkedIO.cc:381-468 | what is delivered is extended by the chunk returned, parts are kept for the next call, and a call whose reads were not refused takes one more frame; false, and the end of the connection, exactly as for one frame |
| `ChunkedIo.CarriedSent` | src/ChunkedIO.cc:230-275 | bytes handed to the pipe leave the stream of frames unchanged |
| `ChunkedIo.CarriedBuffered` | src/ChunkedIO.cc:204-228 | so does moving a frame from the queue to the buffer |
| `ChunkedIo.CarriedQueued` | src/ChunkedIO.cc:168-201 | queueing a frame extends the stream by it |
| `ChunkedIo.ArrivedNext` | src/ChunkedIO.cc:344-360 | the first frame in the buffer is the next one sent |
| `ChunkedIo.ArrivedFull` | src/ChunkedIO.cc:470-576 | a full read buffer holds a whole frame |
| `ChunkedIo.InOrder` | src/ChunkedIO.cc:381-468 | chunks delivered are a prefix of the chunks written, byte for byte, a partial chunk is the beginning of the next, and once the sender has nothing left, the pipe is empty and no whole frame is left to read, they are all of them |
| `ChunkedIo.Run` | src/ChunkedIO.cc:133-576 | for every interleaving of writes, flushes and reads at both ends with arbitrary short and refused reads and writes, both directions deliver a prefix of what was written, and everything once drained as above; each read takes one frame unless its pipe refused, and a run stops early only after a write failed |
| `AnonBits.BiFfs` | src/Anon.cc:21-51 | the position of the highest bit that is set, counted from 1, or 0 |
| `AnonBits.FirstBitXor` | src/Anon.cc:259-297 | of the exclusive or of two addresses, it is one more than the length of their common prefix |
| `AnonTree.MakeOutputOk` | src/Anon.cc:243-257 | for every random number the new output shares exactly the bits before the swivel with the old one |
| `AnonTree.MakeOutputBits` | src/Anon.cc:243-257 | bit by bit: those before the swivel are kept, that one is flipped, the next is 0, and the others are those of the number drawn |
| `AnonTree.CutOk` | src/Anon.cc:259-297 | splitting a node keeps every node's stretch of the address space apart and every member covered |
| `AnonTree.PreservingPeer` | src/Anon.cc:259-297 | an address whose output agrees with one neighbour's by exactly their common prefix fits with all members |
| `AnonTree.PreservingInjective` | src/Anon.cc:299-347 | a prefix-preserving map is injective |
| `Anonymizers.A50.PeerOutput` | src/Anon.cc:279-286 | the output made for a new address shares with the node's output exactly what the inputs share, and its other bits come from the one number drawn, if it has any |
| `Anonymizers.A50.DrawOutput` | src/Anon.cc:243-257 | the same for the output alone |
| `Anonymizers.NearestHere` | src/Anon.cc:299-347 | no known address shares more bits with a new one than the address of the node where it leaves the tree |
| `Anonymizers.A50.Graft` | src/Anon.cc:285-294 | the new nodes and the rewritten one hang together as the code sets them |
| `Anonymizers.A50.MakePeer` | src/Anon.cc:259-297 | a new address is added to the tree, which stays valid and keeps every output |
| `Anonymizers.A50.Swivel` | src/Anon.cc:328-331 | the children of an inner node part at the bit after its stretch |
| `Anonymizers.A50.Descend` | src/Anon.cc:316-343 | the child taken covers the address, and a search that stops has left the stretch of the node |
| `Anonymizers.A50.Search` | src/Anon.cc:299-347 | the node found or made is the address's own, repeated lookups included |
| `Anonymizers.A50.FindNode` | src/Anon.cc:299-347 | the same with the special addresses, which map to themselves, and from an empty tree; nothing is drawn for a known address, and every bit of the output of a new one is fixed by the outputs so far and the number drawn |
| `Anonymizers.Anonymizer.Anonymize` | src/Anon.cc:55-67 | an address gets one output for good, and no other mapping changes |
| `Anonymizers.Anonymizer.MappingPreserves` | src/Anon.cc:189-201 | any two ordinary addresses have outputs that share exactly as many leading bits as they do |
| `Anonymizers.Anonymizer.AnonymizeAll` | src/Anon.cc:55-67 | for every list of addresses and every choice of random numbers, outputs share exactly the leading bits their inputs share |
| `Anonymizers.AnonymizePrefixMd5` | src/Anon.cc:107-131 | the loop computes, bit by bit, the flip decided by the bits before |
| `Anonymizers.PadBits` | src/Anon.cc:107-131 | what is hashed for a bit is the bits before it, a one, and zeros |
| `Anonymizers.PrefixMd5Bits` | src/Anon.cc:107-131 | each bit of the output is that of the input, flipped exactly if the keyed function of its number and of the padded bits before it says so |
| `Anonymizers.FlipUnflip` | src/Anon.cc:107-131 | every output has an input |
| `Anonymizers.UnflipFlip` | src/Anon.cc:107-131 | the input can be recovered from the output |
| `Anonymizers.PrefixMd5Preserves` | src/Anon.cc:107-131 | for every keyed function the common prefix is preserved exactly |
| `Anonymizers.PrefixMd5Onto` | src/Anon.cc:107-131 | the anonymization reaches every address |
| `CompKeys.AlignMonotone` | src/CompHash.cc:585-600 | aligning is monotone |
| `CompKeys.NumberBytes` | src/CompHash.cc:585-600 | numbers survive their layout in bytes |
| `CompKeys.NotEmpty` | src/CompHash.cc:68-279 | an encoding is never empty |
| `CompKeys.Back` | src/CompHash.cc:657-944 | at every offset, decoding the encoding of an optional value gives it back and ends where the encoding does |
| `CompKeys.BackVal` | src/CompHash.cc:657-944 | the same for a value that is there |
| `CompKeys.BackFields` | src/CompHash.cc:657-944 | the same for the fields of a record, holes in optional ones included |
| `CompKeys.BackElems` | src/CompHash.cc:657-944 | the same for the elements of a vector, holes included |
| `CompKeys.BackItems` | src/CompHash.cc:636-655 | the same for the items of a list |
| `CompKeys.KeyBack` | src/CompHash.cc:636-655 | recovering the values of a key gives back the values it was made from |
| `CompKeys.KeyInjective` | src/CompHash.cc:282-334 | different values never have the same key |
| `CompKeys.EncodesIff` | src/CompHash.cc:68-279 | a value of the right type has an encoding if and only if nothing that must be there is missing |
| `CompKeys.HasTypeIff` | src/CompHash.cc:68-91 | a value has a type if and only if its kind and its parts go with the type, all the way down, and its numbers are in range |
| `CompKeys.EncodesOfKind` | src/CompHash.cc:85-91 | only a value that goes with the type has an encoding |
| `CompKeys.KeyOfKinds` | src/CompHash.cc:282-334 | so a key implies values that go with the types of the index |
| `CompositeHashes.SizeAlignMonotone` | src/CompHash.cc:617-634 | the size rule is monotone and covers what aligning and storing takes |
| `CompositeHashes.AlignAndPad` | src/CompHash.cc:602-615 | the gap is filled with zeros, so old contents of the buffer do not show |
| `CompositeHashes.HashScalar` | src/CompHash.cc:93-107 | succeeds exactly on a scalar of the right kind; writes exactly the encoding, within the size computed for it |
| `CompositeHashes.HashWords` | src/CompHash.cc:109-124 | the same for values of several words |
| `CompositeHashes.HashStr` | src/CompHash.cc:259-272 | the same for strings |
| `CompositeHashes.HashFields` | src/CompHash.cc:146-171 | the same for the fields of a record |
| `CompositeHashes.HashElems` | src/CompHash.cc:206-231 | the same for the elements of a vector |
| `CompositeHashes.HashItems` | src/CompHash.cc:233-247 | the same for the items of a list |
| `CompositeHashes.SingleValHash` | src/CompHash.cc:68-279 | fails exactly when there is no encoding, as for every value that does not go with the type; otherwise it writes the encoding, never beyond the size computed from the value or, with the static size, without it |
| `CompositeHashes.CompositeHash.constructor` | src/CompHash.cc:10-59 | the static size is computed once, and the buffer has that size |
| `CompositeHashes.CompositeHash.ComputeHash` | src/CompHash.cc:282-334 | the key is the encoding, whatever the buffer held before; values get one if and only if they have the types of the index, nothing that must be there is missing, and nothing else is missing that keeps a size from being found |
| `CompositeHashes.SizeIff` | src/CompHash.cc:384-549 | the size of a value is nonzero if and only if everything missing in it may be missing |
| `CompositeHashes.FieldsSizeIff` | src/CompHash.cc:384-549 | the same for the fields of a record |
| `CompositeHashes.ElemsSizeIff` | src/CompHash.cc:384-549 | the same for the elements of a vector |
| `CompositeHashes.ItemsSizeIff` | src/CompHash.cc:551-575 | the same for a list of values |
| `CompositeHashes.StaticIff` | src/CompHash.cc:384-549 | a size is found without a value if and only if the type holds no string, vector or list |
| `CompositeHashes.ItemsStaticIff` | src/CompHash.cc:551-575 | the same for a list of types |
| `CompositeHashes.FixedMeasurable` | src/CompHash.cc:384-549 | and then a size is found for every value, whatever is missing in it |
| `CompositeHashes.KeyableIff` | src/CompHash.cc:282-334 | so typed values have an encoding and one of the two sizes if and only if they are complete and measurable |
| `CompositeHashes.SizeExact` | src/CompHash.cc:384-549 | the size of a value without missing fields is where its encoding ends |
| `CompositeHashes.KeyExact` | src/CompHash.cc:551-575 | so the size of such values is the length of their key |
| `CompositeHashes.KeylessExample` | src/CompHash.cc:384-549 | a complete value for which neither size is found, so that it gets no key: it lacks an optional record that would have to hold a string |
| `Utf.LegalIff` | src/ConvertUTF.c:402-425 | the legality test accepts exactly the sequences of Table 3-7 |
| `Utf.CharBack` | src/ConvertUTF.c:338-387 | decoding the bytes of a scalar value gives it back, and they are well formed |
| `Utf.BitDistribution` | src/ConvertUTF.c:362-382 | the bits of a character are in its bytes as Table 3-6 has them |
| `Utf.BytesBack` | src/ConvertUTF.c:635-720 | encoding what a well-formed sequence stands for gives back its bytes |
| `Utf.SubpartFound` | src/ConvertUTF.c:443-532 | the length found is that of the maximal subpart of definition D93b |
| `Utf.SubpartUnique` | src/ConvertUTF.c:443-532 | there is only one such length |
| `Utf.TextBack` | src/ConvertUTF.c:338-387 | decoding the UTF-8 of a text of scalar values gives the text |
| `Utf.BytesTextBack` | src/ConvertUTF.c:635-720 | bytes that decode strictly re-encode to themselves |
| `Utf.LenientSubpart` | src/ConvertUTF.c:635-720 | an ill-formed beginning gives one replacement character for its maximal subpart |
| `Utf.LenientWellFormed` | src/ConvertUTF.c:635-720 | on well-formed input lenient decoding is decoding |
| `Utf.UnitsInjective` | src/ConvertUTF.c:268-334 | different texts of scalar values have different UTF-16 |
| `Utf.UnitsAre` | src/ConvertUTF.c:608-626 | a character beyond the basic plane is the surrogate pair of definition D91 |
| `Utf.UnitsPrefix` | src/ConvertUTF.c:268-334 | UTF-16 at the front of the UTF-16 of a text is that of its beginning |
| `Utf.BytesPrefix` | src/ConvertUTF.c:562-631 | decoding UTF-8 followed by other bytes gives its text followed by theirs |
| `Utf.InitialTable` | src/ConvertUTF.c:443-532 | the beginnings of well-formed sequences are the rows of Table 3-7, cut short |
| `ConvertUtf.WriteChar` | src/ConvertUTF.c:362-382 | the bytes written from the back are the UTF-8 of the character |
| `ConvertUtf.ConvertUtf32ToUtf8` | src/ConvertUTF.c:338-387 | the target holds the UTF-8 of what was consumed, and each result code comes exactly for its reason |
| `ConvertUtf.Replaced` | src/ConvertUTF.c:355-360 | numbers beyond Unicode become U+FFFD, and no others do |
| `ConvertUtf.ConvertUtf8ToUtf32` | src/ConvertUTF.c:635-720 | strictly, success exactly on well-formed input that fits, with its text; leniently, all input is consumed and the target holds its lenient decoding, if that fits; a write goes past the target if and only if the conversion is lenient, the input is not partial, and what is left after as many characters as fit is a sequence cut off; each result code comes for its reason |
| `ConvertUtf.Replace` | src/ConvertUTF.c:653-659 | a maximal subpart gives one replacement character, and what follows is left |
| `ConvertUtf.Decode` | src/ConvertUTF.c:682-712 | a legal sequence gives its character, and what follows is left |
| `ConvertUtf.AfterLenient` | src/ConvertUTF.c:635-720 | what is left after some characters of lenient decoding decodes to the rest, and is nothing exactly when there are no more characters |
| `ConvertUtf.LenientFits` | src/ConvertUTF.c:635-720 | lenient decoding gives at most one character for each byte, so with a slot for every byte no write goes past the target |
| `ConvertUtf.AfterWellFormed` | src/ConvertUTF.c:635-720 | in well-formed input nothing is ever cut off, so no write goes past the target |
| `ConvertUtf.CutOffExample` | src/ConvertUTF.c:645-660 | an input and a target size for which one does |
| `ConvertUtf.NextUnits` | src/ConvertUTF.c:279-308 | one character, of one unit or a surrogate pair whose number it is by definition D91, or the reason to stop, each exactly when it applies |
| `ConvertUtf.WriteUnits` | src/ConvertUTF.c:590-626 | a character of the basic plane as itself, any other as the pair of definition D91 |
| `ConvertUtf.ConvertUtf16ToUtf8` | src/ConvertUTF.c:268-334 | what was consumed and what was written are the same text, and each result code comes for its reason; strictly, well-formed input that fits is converted |
| `ConvertUtf.ConvertUtf8ToUtf16` | src/ConvertUTF.c:562-631 | what was consumed and what was written are the same text of scalar values, and each result code comes for its reason; well-formed input that fits is converted |
| `ConvertUtf.Stopped16` | src/ConvertUTF.c:268-334 | a conversion that stops within well-formed UTF-16 stops before a whole character of it |
| `ConvertUtf.Stopped8` | src/ConvertUTF.c:562-631 | a conversion that stops within well-formed UTF-8 stops before a whole character of it |
| `ConvertUtf.Utf16ThroughUtf8` | src/ConvertUTF.c:268-334 | strict UTF-16 to UTF-8 and back, with three bytes a unit, always succeeds on well-formed text and gives it back |
| `ConvertUtf.Utf8ThroughUtf16` | src/ConvertUTF.c:562-631 | UTF-8 to UTF-16 and back, with a unit a byte, always succeeds on well-formed bytes and gives them back |
| `ConvertUtf.ThroughUtf8` | src/ConvertUTF.c:338-387 | strict UTF-32 to UTF-8 and back, with four bytes a character, always succeeds and gives back the text |
| `PriorityQueues.PriorityQueue.constructor` | src/PriorityQueue.cc:12-17 | an empty queue |
| `PriorityQueues.PriorityQueue.BubbleUp` | src/PriorityQueue.cc:88-99 | from order broken only above one slot to order everywhere, with the same elements and offsets kept |
| `PriorityQueues.PriorityQueue.SinkTo` | src/PriorityQueue.cc:101-137 | the slot a too-late element must go to, or none |
| `PriorityQueues.PriorityQueue.BubbleDown` | src/PriorityQueue.cc:101-137 | from order broken only below one slot to order everywhere; ends although slot 0 is its own left child |
| `PriorityQueues.PriorityQueue.Remove` | src/PriorityQueue.cc:27-40 | null exactly when empty; otherwise an element no later than any other leaves, and it alone |
| `PriorityQueues.PriorityQueue.Raise` | src/PriorityQueue.cc:42-57 | minimizing an element's time and bubbling it up brings exactly it to the top |
| `PriorityQueues.PriorityQueue.RemoveElement` | src/PriorityQueue.cc:42-57 | exactly the given element leaves if it is in the queue; otherwise null and nothing changes |
| `PriorityQueues.PriorityQueue.Add` | src/PriorityQueue.cc:59-72 | the element joins, order and offsets are kept, and there is always room for one more |
| `PriorityQueues.PriorityQueue.Resize` | src/PriorityQueue.cc:74-86 | a larger array with the same elements in the same slots |
| `PriorityQueues.PriorityQueue.Drain` | src/PriorityQueue.cc:27-40 | taking until the queue is empty gives all its elements in order of time |
| `PriorityQueues.TopLeast` | src/PriorityQueue.cc:88-99 | order between slots and their parents makes the first slot a least one |
| `PriorityQueues.UpStep` | src/PriorityQueue.cc:88-99 | swapping with a later parent moves the break in the order up |
| `PriorityQueues.UpDone` | src/PriorityQueue.cc:88-99 | with no later parent the order is whole |
| `PriorityQueues.DownStep` | src/PriorityQueue.cc:101-137 | swapping with the earlier child moves the break in the order down |
| `PriorityQueues.DownDone` | src/PriorityQueue.cc:101-137 | with no earlier child the order is whole |
| `PriorityQueues.PriorityQueue.Top` | src/PriorityQueue.h:34-40 | an element no later than any other, or null exactly when empty |
| `PriorityQueues.PriorityQueue.Swap` | src/PriorityQueue.h:82-87 | two elements change places and know it |
| `PriorityQueueRuns.Run` | src/PriorityQueue.cc:27-72 | every run of scheduling, taking and cancelling does at each step what a bag of elements does that always gives up one of its earliest, and conserves the elements |
| `Base64.Encode` | src/Base64.cc:8-42 | the text computed in place is the encoding, group by group, with its padding |
| `Base64.EncodedLength` | src/Base64.cc:8-42 | four characters for every three bytes begun |
| `Base64.InitBase64Table` | src/Base64.cc:45-83 | the table inverts the alphabet, gives 0 for padding and -1 for everything else |
| `Base64.TableUnique` | src/Base64.cc:45-83 | an alphabet has only one such table |
| `Base64.Base64Converter.constructor` | src/Base64.cc:85-102 | nothing decoded yet |
| `Base64.Base64Converter.FlushGroup` | src/Base64.cc:139-176 | a full group becomes its one to three bytes if they fit, and otherwise nothing changes |
| `Base64.Base64Converter.TakeChar` | src/Base64.cc:181-193 | a character extends the group or counts as padding; one outside the alphabet changes nothing |
| `Base64.Base64Converter.DecodeInto` | src/Base64.cc:110-198 | into any buffer: what was written and what is left to do together are the decoding; all of it is done if it fits |
| `Base64.Base64Converter.Decode` | src/Base64.cc:110-198 | into a buffer of its own size, which is never too small, the whole decoding, which is that of the characters of the alphabet and the padding alone |
| `Base64.Base64Converter.Done` | src/Base64.cc:200-216 | an unfinished group is filled up with padding, a full one dealt with, and either reported |
| `Base64.RunSplit` | src/Base64.cc:110-198 | decoding an input in two calls gives the same bytes and state as in one |
| `Base64.RunKept` | src/Base64.cc:181-193 | in every state, characters outside the alphabet make no difference, wherever they are |
| `Base64.RunAfter` | src/Base64.cc:136-142 | nothing that follows a padded group is decoded |
| `Base64.GroupCount` | src/Base64.cc:181-193 | every other character goes to a group of four |
| `Base64.RunGroups` | src/Base64.cc:110-198 | at most three bytes for every four characters |
| `Base64.PaddingFills` | src/Base64.cc:200-216 | filling up always ends the group |
| `Base64.RoundTrip` | src/Base64.cc:8-42 | for every alphabet of 64 different characters and every byte string, decoding the encoding gives the string |
| `Base64.EncodedBits` | src/Base64.cc:8-42 | every group of four characters holds the 24 bits of its three bytes, the first ones the highest, with padding for characters that would hold nothing |
| `Base64.OctetsBits` | src/Base64.cc:147-166 | and a group is decoded to the bytes that hold its 24 bits |
| `Base64.FilledFits` | src/Base64.cc:219-249 | the bytes of both calls fit the buffer with a place to spare |
| `Base64.DecodeBase64` | src/Base64.cc:219-249 | every text decodes as if its missing padding were there; the text of an encoding decodes to the bytes encoded, with other characters anywhere in it, without its padding, or with anything behind its padding |

## Left out

- The digest of the DFA cache key: the cache is keyed by the text it is computed from, so two texts never collide.
- Pattern text: patterns start as syntax trees; the lexer, case folding, named definitions and syntax errors are not modelled.
- `CompileSet`, `RE_Match_State` and pattern unions: sets of patterns and matching across several buffers are not modelled.
- An absent pattern: the matchers without a compiled machine, which accept everything, are not modelled.
- DictRuns.RunSteps: promises no complete iteration after a change that was not safe, although a later change may put it right again.
- Dictionaries.Dictionary.Insert: requires a value that is not null, since the code cannot tell a null value from a missing key.
- `Dictionary::Clear`, `StopIteration`, maximal lengths, delete functions and memory figures are not modelled.
- ChunkedIo.ChunkedIOFd.Write: takes chunks that are not empty, in framed mode; pure mode, `Clear` and the abort on a failed write are not modelled.
- `select`, flares, process checks and statistics of the I/O classes, and the SSL and compressed variants, are not modelled.
- Anonymizers.Anonymizer.AnonymizeAll: says nothing of the two special addresses, which bypass the tree.
- `PreservePrefix`, `PreserveNet`, the other anonymizers, node blocks and byte-order swaps of addresses are not modelled.
- CompositeHashes.CompositeHash.ComputeHash: covers composite keys with type checks on; singleton keys, table-valued keys and unchecked hashing are not modelled.
- CompositeHashes.CompositeHash.constructor: takes types in which no list stands at top level or in a record, since there the source reads a value it does not have; unwrapping a lone record type is not modelled.
- Reading a key back is written as functions over an explicit offset: the position the source moves along and the objects it builds are not.
- Composite values: records have at least one field, doubles and function ids are opaque words, and the byte order is little-endian.
- The conversions between UTF-32 and UTF-16 in one step are not modelled: they would repeat the cases of the others.
- ConvertUtf.ConvertUtf8ToUtf32: stops where the source would write past the target; what such a write does is not modelled.
- PriorityQueues.PriorityQueue.Add: requires an element that is not queued yet, with a finite time; the source does not check either.
- Base64.Encode: always into a new buffer; encoding into one the caller provides is not modelled.
- Base64.InitBase64Table: takes alphabets of 64 different characters below 128 without the padding sign, as the decoder needs; others are not modelled.
- Reports of illegal encodings, reference counts, printing and serialization are not modelled anywhere.
