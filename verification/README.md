# The command line of redshell, from text to commands

redshell is a small Unix shell. This project models the part of it that turns a typed line into a
list of commands: the chained hash table (`src/hash-table.c`), the Ragel parser (`src/parser.rl`,
generated into `src/parser.c`), alias expansion (`expandAlias` in `src/helper.c` over the table of
`src/alias.c`), the queue that carries the result (`src/queue.c`), and the string functions that
the hash table is used with (`src/hash-string.c`, `src/compare-string.c`).

Every piece has two forms. A pure form says what the piece means: a finite map, a grammar and a
parser that splits a line at its separators, a chain of alias values, a sequence. An imperative
form does what the C code does, on heap nodes, arrays and buffers. Its contracts equate it with
the pure form, and the laws are proved of the pure form.

| files | content |
|---|---|
| `Sequences`, `TableSpec`, `HashTable`, `TableIterator`, `TableRuns` | the table as a map with counters; its nodes, chains and array; its iterator; whole runs: load, cost, ownership |
| `ParserTables`, `TableDecoding`, `Machine` | the compressed tables and their binary searches; the proof of what they encode; the sixteen states with their actions as a pure machine |
| `LineSpec`, `LineProofs`, `Shapes`, `Grammar`, `LineProperties` | what a line means segment by segment; the simulation by the machine; the grammar as regular expressions; printing, concatenation, shape |
| `AliasSpec`, `AliasTable`, `AliasRuns` | the chain of alias values and its closed form; the table of aliases with its `in_use` flags and the expansion loop; runs of alias commands |
| `LineMeaning`, `Parser`, `Queue` | the commands of a line after all expansions and what every step keeps; `parseInput` itself; the queue |
| `StringKeys` | hashing and comparison of C strings |

How to read the model:

- A C string is a Dafny string without NUL, or, in `StringKeys`, a byte sequence up to its first
  NUL. Words of `StringKeys` are 64 bits wide. Elsewhere integers are unbounded; the bounds that
  keep them inside an `int` are proved (`TableRuns.NoOverflow`).
- Each allocation of the hash table may fail: a Boolean argument of the call says whether it does.
- The hash and the equality of a table are parameters. The equality is any equivalence whose
  equal keys hash alike (`TableSpec.Coherent`); `StringKeys.StringFunctionsAreCoherent`
  discharges this for both pairs of string functions.
- Word expansion (`wordexp`) is a parameter: a function from a text to its words or a failure.
  `expand` and `expandGlob` are modelled over it.
- Alias expansion writes into buffers of 1024 characters with `strcat` and checks no length. The
  model does check: where a `strcat` has no room it gives nothing, and says nothing of what the C
  program does from there on. `AliasSpec.Fits` is exactly the condition under which this never
  happens, `AliasSpec.FitsByLengths` puts it in terms of lengths, and
  `AliasSpec.LongAliasOverflows` is an input that breaks it.
- In `Machine` and `LineSpec` captured texts have any length. The buffers of `Parser` hold at most
  1024 characters and drop the rest, and their contracts say so through `Text.Cut`.
- `relinks`, `inserts`, `made`, `freed` and the like are ghost counters and logs.

Where the code and its comments differ, the model follows the code:

- `src/hash-table.c:250` says that the table grows when it is more than one third full. The test
  is `entries * 3 / table_size > 0`, so one third is enough.
- `src/hash-string.c:29` names the djb2 hash. The code combines by exclusive or,
  `((h << 5) ^ h) ^ c`, and this is what makes every step injective.

Behaviour of the parser that may surprise, and that the model keeps:

- Blanks after a captured text belong to it.
- A command ended by `&` and then `|` is piped; ended by `&` and then `;` it stays in the
  background.
- A separator at the end of a line is an error, and an error anywhere empties the result, unless
  the words of a finished command failed to expand before the error was seen. Then the commands
  before the failure are the result.

## Model

| member | source | states |
|---|---|---|
| HashTables.HashTable.Enlarge | src/hash-table.c:177-236 | in-place rehash: the same nodes, keys and values, so the same map; size and prime index advance; one relink for each entry; every node in exactly one chain, at its hash modulo the new size, and each put in front of that chain in the order of the old chains; on a failed allocation nothing changes, not even the array |
| HashTables.HashTable.RelinkChain | src/hash-table.c:211-228 | walking an old chain while its links are overwritten puts exactly its nodes, one after the other, in front of their new chains |
| HashTables.HashTable.RelinkAll | src/hash-table.c:208-229 | from an empty array, the chains end up partitioning all nodes by slot |
| HashTables.HashTable.BucketsPartition | src/hash-table.c:208-229 | chains that satisfy the invariant are disjoint, repeat no node, and together hold all of them |
| HashTables.HashTable.AtItsHash | src/hash-table.c:218-223 | in every valid table each node of each chain lies at its hash modulo the table size |
| HashTables.HashTable.AllocateTable | src/hash-table.c:64-87 | the size by prime index, ten times the entries from index 24 on, and an array of null heads, or null when the allocation fails |
| HashTables.HashTable.Walk | src/hash-table.c:323-350 | the walk along one chain finds the stored pair of an equal key, or there is none in the whole map |
| HashTables.HashTable.Lookup | src/hash-table.c:323-350 | the answer is that of the finite map |
| HashTables.HashTable.Insert | src/hash-table.c:238-321 | state and answer are those of insertion into the map, with either allocation failing |
| HashTables.HashTable.AddNew | src/hash-table.c:298-320 | a new node goes to the front of the chain at its hash modulo the table size; all other chains stay |
| HashTables.HashTable.Unlink | src/hash-table.c:363-399 | unlinking through a pointer to a pointer: the first node through the table cell, any other through the node before it; that node leaves its chain, which keeps its order, and all other chains stay |
| HashTables.HashTable.Remove | src/hash-table.c:352-402 | state and answer are those of removal from the map |
| HashTables.HashTable.constructor | src/hash-table.c:111-140 | the table that creation gives when it succeeds: an empty map of the first prime size |
| HashTables.NewTable | src/hash-table.c:111-140 | creation gives null if either allocation fails, and otherwise an empty table |
| HashTables.HashTable.RegisterFreeFunctions | src/hash-table.c:168-174 | only the registration changes |
| HashTables.HashTable.Free | src/hash-table.c:142-166 | every stored key and value goes to its free function, chain by chain |
| HashTables.HashTable.FreedIsMap | src/hash-table.c:142-166 | what Free hands over are exactly the pairs of the map, each once |
| HashTables.HashTable.FlatIsNodes | src/hash-table.c:409-429 | the concatenated chains list every node once |
| TableSpec.Sizes | src/hash-table.c:51-87 | the 24 sizes, from 193 to 1610612741, and ten times the entries after them |
| TableSpec.TooFullMeans | src/hash-table.c:248 | the table grows when 3*entries >= size |
| TableSpec.OnlyRegisteredFree | src/hash-table.c:91-109 | a free function sees the overwritten and the removed pointer of its kind and nothing else, and nothing at all unless it is registered |
| TableRuns.InsertOutcome | src/hash-table.c:238-321 | exactly when insert succeeds; a failed insert changes no key, value or free log even if the array has grown; a successful one stores the pair in place of an equal key's and leaves all other pairs |
| TableRuns.RemoveOutcome | src/hash-table.c:352-402 | remove succeeds iff an equal key is stored, takes away exactly that key and leaves the other pairs |
| TableRuns.StepInv | src/hash-table.c:238-402 | every call keeps: keys unique up to equality, 3*entries <= size + 2, the size is the prime of the index, relinks are the sum of past loads |
| TableRuns.RunTable | src/hash-table.c:238-402 | over any run of inserts, removes and lookups with failing allocations, the heap table gives what the map gives |
| TableRuns.LastWriterWins | src/hash-table.c:238-402 | after any run, a lookup gives the value of the last successful insert of an equal key, unless a removal came after it |
| TableRuns.AnswersFollowHistory | src/hash-table.c:238-402 | in every run from an empty table, earlier calls and answers determine each lookup and each removal, and an insert fails only for want of memory |
| TableRuns.GrowthIsAmortised | src/hash-table.c:51-59 | in a state that keeps the invariant, within the primes: relinks are at most 2*inserts + 10 and at most 3*inserts |
| TableRuns.RunCounts | src/hash-table.c:238-262 | the counter of inserts after a run is its start plus the number of insert calls, failed ones included |
| TableRuns.RunGrowth | src/hash-table.c:208-258 | over any run from an empty table that stays within the primes, all enlargements together relink at most 2n + 10 and at most 3n entries for n insert calls, removals included |
| TableRuns.NoOverflow | src/hash-table.c:64-87 | while the primes last, entries*3, the size and every bucket index stay inside a 32-bit int |
| TableRuns.OwnershipConserved | src/hash-table.c:277-289 | at any time the pointers taken by successful inserts are the disjoint union of those stored and those freed, and none is freed twice |
| TableRuns.Teardown | src/hash-table.c:142-166 | what the table still owns, added to what it freed before, is everything it took |
| TableRuns.Lifetime | src/hash-table.c:91-166 | a table created, used for any run and freed gives the outcomes of that run on the map, and has freed every pointer it took exactly once |
| TableIterators.TableIterator.constructor | src/hash-table.c:409-429 | at the start all nodes are to come, in the order of the concatenated chains |
| TableIterators.TableIterator.HasMore | src/hash-table.c:431-434 | more iff nodes are still to come |
| TableIterators.TableIterator.NextEntry | src/hash-table.c:494-550 | gives the next node to come, or null at the end |
| TableIterators.TableIterator.Next | src/hash-table.c:436-492 | walks the same nodes, giving values |
| TableIterators.TableIterator.VisitsEachOnce | src/hash-table.c:409-550 | the nodes to come at the start are all stored nodes, each once, as many as entries |
| TableIterators.TableIterator.VisitsBySlot | src/hash-table.c:409-550 | the walk goes through the slots, hash modulo size, in ascending order |
| ParserTables.SearchSingles | src/parser.c:163-182 | the binary search over sorted single keys ends, stays in bounds and agrees with a linear scan |
| ParserTables.SearchRanges | src/parser.c:185-204 | so does the search over sorted disjoint pairs; clearing the lowest bit keeps the middle on a pair |
| ParserTables.Search | src/parser.c:157-206 | both searches in the order of the loop give the scan of the whole key list |
| TableDecoding.SlotIsTransition | src/parser.c:54-89 | the key arrays of every state satisfy the layout the searches need, and where they send each character |
| TableDecoding.EntryIsDistinct | src/parser.c:47-118 | targets and length-prefixed action lists of the 21 distinct transitions |
| TableDecoding.TablesEncodeDelta | src/parser.c:47-118 | for every live state and every character, decoding the compressed tables gives the transition function of the machine |
| LineProofs.MachineComputesSpec | src/parser.c:157-304 | every line ends accepted or in error; it is accepted iff segment-wise parsing succeeds; the commands that reach `term` are the finished ones, texts and masks included |
| LineProofs.FinishedIsParse | src/parser.rl:103-116 | on an accepted line the finished commands are the parsed ones |
| LineProofs.RunSegment | src/parser.rl:111-113 | from a fresh command, the run over one segment captures what parsing the segment gives, or cannot be completed |
| Shapes.ParsesIffShaped | src/parser.rl:106-113 | a segment parses iff it is a command text, at most one redirection of each kind in either order and an optional `&` among blanks, and then the parse is those texts |
| Grammar.SegmentMatchesIffParses | src/parser.rl:106-113 | a segment parses iff it matches `complex` |
| Grammar.ParseMeetsGrammar | src/parser.rl:103-116 | a line parses iff it matches `main` |
| Grammar.MachineMeetsGrammar | src/parser.rl:103-116 | the machine accepts exactly the lines that match `main`, rejects all others, and captures the parsed commands |
| LineProperties.Concatenation | src/parser.rl:96-101 | parsing x and y joined by a semicolon or a pipe sign gives parse(x) with its last mask set by the separator, then parse(y) |
| LineProperties.SegmentsWeave | src/parser.rl:103-116 | segments and separators make up the line |
| LineProperties.SegmentsSeparate | src/parser.rl:103-104 | segments hold no semicolon and no pipe sign, and separators are nothing else |
| LineProperties.CommandsOfSegments | src/parser.rl:96-101 | each command of a line has the texts of its segment, and is piped before a pipe sign whatever stands before it, else in the background if its segment holds `&`, else sequential before a semicolon, else unconnected |
| LineProperties.ResultShape | src/parser.rl:103-115 | an accepted non-blank line gives one command more than it has separators; only the last may be unconnected, and it is never piped |
| LineProperties.PipeIndexInBounds | src/jobs.c:92 | for a piped command i of n, the write index 2*i+1 is below 2*(n-1) |
| LineProperties.RoundTrip | src/parser.rl:103-115 | printing a well-formed command list and parsing it gives it back |
| LineProperties.MachineRoundTrip | src/parser.c:157-304 | well-formed lists are exactly the ones that lines give, and the machine gives a printed list back |
| AliasSpec.ClosedForm | src/helper.c:83-112 | the expansion is the last value, the rests of the values before it, latest first, and the rest of the command; the command itself if that leaves nothing |
| AliasSpec.FitsByLengths | src/helper.c:87-111 | exactly when no `strcat` overfills its buffer: each value with the rests before it, and the whole with the rest of the command, stay within 1024 characters |
| AliasSpec.LongAliasOverflows | src/helper.c:87-111 | an alias of 1024 characters and a command with an argument do not fit |
| AliasSpec.RestConcat | src/helper.c:87-89 | rest(a + rest(b)) = rest(a) + rest(b), and the head word is that of a |
| AliasSpec.ChainIsMaximal | src/helper.c:83-101 | the expanded keys are aliases, pairwise distinct, each the head word of the value before; the chain ends at a word that is no alias or was used |
| AliasSpec.ChainIsShort | src/helper.c:83-101 | a chain is no longer than there are unused aliases, cycles or not |
| AliasSpec.ResultIsExpanded | src/helper.c:83-113 | of the pure expansion, which is the C result where the texts fit: its head word is the final word cut to the buffer; the final word is no alias or was used; the head word fails to be so exactly when the final word is longer than the buffer and its first 1024 characters name an unused alias |
| AliasSpec.LongWordIsNotExpanded | src/helper.c:87-111 | an input where it does fail and everything fits: the command `a`, an alias whose name fills the buffer, and `a` standing for that name and one character more |
| AliasSpec.ShortTextsFit | src/helper.c:74-112 | a command and chain values of at most 1024 characters together overfill no buffer and are not cut |
| AliasSpec.NoAlias | src/helper.c:71-114 | a command whose word is no alias stays as it is |
| AliasSpec.OneAlias | src/helper.c:71-114 | a word that stands for a text is replaced by it, before the arguments of the command, also if the text starts with the word |
| AliasSpec.AliasCycle | src/helper.c:83-101 | of two aliases that stand for each other, each is expanded once |
| AliasTables.AliasTable.constructor | src/alias.c:97-101 | no aliases, none in use, and free functions for keys and values registered |
| AliasTables.AliasTable.AddAlias | src/alias.c:50-55 | the text of the key is set, its alias is not in use, all other aliases and flags stay |
| AliasTables.AliasTable.RemoveAlias | src/alias.c:57-60 | the key is gone, all others stay |
| AliasTables.AliasTable.GetAlias | src/alias.c:62-70 | gives the text of a key that is not in use and marks it; otherwise nothing is given and no flag changes |
| AliasTables.AliasTable.ReleaseAliases | src/alias.c:72-82 | the walk with the iterator clears every flag and changes no key or text |
| AliasTables.Rewrite | src/helper.c:83-101 | the loop ends for every table, also with cycles, and rebuilds the text of the whole chain; nothing iff a turn has no room |
| AliasTables.ExpandAlias | src/helper.c:71-114 | the result is the pure expansion of the map, and afterwards no alias is in use; nothing iff a `strcat` has no room; the map is the same in either case |
| AliasRuns.RunAliases | src/alias.c:50-82 | over any run of additions, which may fail for want of memory, removals and expansions, every expansion and the final map depend on the key-to-text map alone; an addition that gets its memory is made; nothing iff an expansion overfills its buffer |
| AliasRuns.LastTouchDecides | src/alias.c:50-60 | after a run a key has the text of its last made addition, or is gone if a removal came last |
| AliasRuns.UntouchedStays | src/alias.c:50-60 | a key that a run neither adds nor removes stays as it was |
| AliasRuns.ExpansionGives | src/helper.c:71-114 | the k-th text of a run is the expansion of its k-th command by the aliases at that point |
| AliasRuns.AllFitMeans | src/helper.c:87-111 | a run overfills no buffer iff none of its expansions does |
| Parsers.Capture.Append | src/parser.c:219-244 | the truncating append: the buffer holds the captured text cut to its size, its length, and a NUL after it |
| Text.CutKeeps | src/common.h:36 | a buffer keeps texts of at most 1024 characters whole and the first 1024 characters of longer ones |
| Parsers.Capture.ReadsBack | src/parser.c:219-244 | a captured text of at most 1024 characters reads back as it was, and of a longer one the first 1024 characters, with the NUL inside the array |
| Parsers.CStringIs | src/parser.c:260 | reading a buffer up to its NUL gives the captured text |
| Parsers.FindTransition | src/parser.c:157-211 | the search and the two table reads give target and actions of the machine's transition |
| Parsers.Parser.AppendTo | src/parser.c:219-244 | the appending actions do to the right buffer what the machine does, and leave the other two |
| Parsers.Parser.New | src/parser.c:246-256 | `new` clears the three buffers and makes a fresh command, losing none |
| Parsers.Parser.Connect | src/parser.c:279-292 | the mask actions touch the pending command only |
| Parsers.Parser.Term | src/parser.c:258-277 | `term` expands aliases, words and redirections and queues the command; on a failed word expansion the queue stays as it was; it reports overflow iff the alias expansion does not fit |
| Parsers.Parser.RunActions | src/parser.c:213-295 | a list of actions does what the machine's actions do, or stops at a failed word expansion or an overflow |
| Parsers.Parser.Resume | src/parser.c:157-304 | one turn of the loop is one step of the machine; the invariant of commands, buffers, queue and alias flags is kept |
| Parsers.Parser.Execute | src/parser.c:147-306 | on every line the loop ends with the machine's final configuration, or stopped before the first command whose words do not expand or whose aliases do not fit |
| Parsers.Parser.Finish | src/parser.c:308-317 | an error drops the queue, a pending command is freed, and created commands are the queued and the freed ones, none twice |
| Parsers.ParseInput | src/parser.c:128-318 | on every line: the queue holds exactly the meaning of the line, the alias map is unchanged and no alias in use; the created commands are the queued and the freed ones, none twice, and as many as the run creates; nothing iff an alias expansion that the parser reaches overfills its buffer |
| LineMeaning.CommandsArePrefix | src/parser.c:258-277 | the result is the longest prefix of the captured commands that expands, command by command |
| LineMeaning.CommandMeans | src/parser.c:258-277 | one command with redirections in either order and an optional `&`: its words, the first as path, the input from the text after `<` and the output to the text after `>`, each only if it expands to exactly one word; nothing if the words do not expand |
| LineMeaning.CommandAt | src/parser.c:258-293 | the same for each command of a line of many, by its segment and the separator after it |
| LineMeaning.OnlyGrammaticalLinesRun | src/parser.c:308-312 | when all texts expand, a non-blank line gives commands iff it matches `main` |
| LineMeaning.MeaningOfParsed | src/jobs.c:92 | on every accepted non-blank line: as many commands as parsed, one more than separators, or fewer if words fail to expand; the parsed masks; and the executor's pipe index is in bounds except exactly when word expansion fails right after a piped command |
| LineMeaning.FailedWordBreaksPipe | src/jobs.c:92 | the bound fails on the line `a`, pipe sign, `b` when `b` does not expand: one piped command and no pipe ends |
| LineMeaning.RunCreates | src/parser.c:245-277 | over every run, the commands finished or pending are as many as `new` actions were run: none is replaced or lost |
| LineMeaning.CreatedIsNew | src/parser.c:245-277 | if all words expand, the parser creates one command for each `new` action of the run, and otherwise no more |
| LineMeaning.JoinedMeaning | src/parser.rl:96-101 | after all expansions too, joining two accepted lines joins their meanings, with the last mask of the first set by the separator; only the first part counts if word expansion fails in it |
| LineMeaning.FitsEarly | src/parser.c:258-265 | whether alias expansions fit is settled by the commands up to the first that does not expand |
| LineMeaning.StepKeeps | src/parser.c:219-293 | at every step of every run a command is pending when an action needs one, `new` never drops one, no NUL is captured, and actions never accompany an error |
| Queues.Queue.constructor | src/queue.c:28-37 | an empty queue |
| Queues.Queue.Insert | src/queue.c:39-58 | appends at the end of the linked list |
| Queues.Queue.Pop | src/queue.c:60-75 | gives the oldest element, or nothing |
| Queues.Queue.Free | src/queue.c:77-89 | hands over all elements, oldest first |
| StringKeys.StringHash | src/hash-string.c:27-42 | the loop computes the hash of the content before the NUL |
| StringKeys.StringNocaseHash | src/hash-string.c:47-60 | the same of the lower-cased content |
| StringKeys.HashIs | src/hash-string.c:31-37 | the hash of the empty string is 5381, and one more byte c takes h to ((h << 5) ^ h) ^ c |
| StringKeys.HashOfOneByte | src/hash-string.c:31-37 | the hash of a one-byte string is 177573 ^ c |
| StringKeys.OrderMatters | src/hash-string.c:36-39 | two different bytes never hash like their exchange, from any seed |
| StringKeys.MixInjectiveInWord | src/hash-string.c:37 | a hash step is injective in the running word |
| StringKeys.OneByteChangesHash | src/hash-string.c:36-39 | byte sequences that differ in exactly one place never collide, from any seed |
| StringKeys.OneCharacterTellsApart | src/hash-string.c:27-60 | C strings of equal length that differ in exactly one character have different hashes; for the nocase hash, one character up to case |
| StringKeys.StringNocaseCompare | src/compare-string.c:60-101 | the loop gives the sign of the first difference of the lower-cased contents, with `char` signed or not |
| StringKeys.FirstDifference | src/compare-string.c:72-85 | the first different character decides: characters above 127 come first if `char` is signed and last if not |
| StringKeys.PrefixFirst | src/compare-string.c:72-92 | a string comes after its proper beginning, unless it goes on with a negative character |
| StringKeys.StringNocaseEqual | src/compare-string.c:51-54 | equality of the lower-cased contents |
| StringKeys.NocaseEqualMeans | src/compare-string.c:51-54 | equal iff the contents have the same length and the same letters up to case |
| StringKeys.SameLetter | src/compare-string.c:72-75 | two characters are the same iff they are equal or one is the other, from A to Z, in lower case |
| StringKeys.FoldedPlain | src/hash-string.c:55 | strings without upper-case letters are hashed and compared as they are |
| StringKeys.StringEqual | src/compare-string.c:29-32 | equality of the contents |
| StringKeys.NocaseIsTotalPreorder | src/compare-string.c:60-101 | the comparison is total and transitive, and its ties are the strings equal up to case, with `char` signed or not |
| StringKeys.StringFunctionsAreCoherent | src/hash-string.c:27-60 | for each pair, what the comparison calls equal is an equivalence that the hash does not tell apart: the assumption of the hash table |

## Left out

- AliasTables.ExpandAlias: what the C code does after a `strcat` without room is undefined and not modelled; that it happens is.
- Parsers.ParseInput: promises only `Valid` after such an overflow; the environment and the files that word expansion reads are constant during a line.
- AliasTables.AliasTable.constructor: takes any hash of strings; `string_hash` works on bytes and is treated in StringKeys.
- AliasTables.AliasTable.AddAlias: a null value or key is not modelled; an alias whose insertion fails is lost, as in the C code.
- HashTables.HashTable.AllocateTable: returns the array; the C code stores it itself, and null too, until its caller puts the old array back.
- HashTables.HashTable.constructor: is the successful half of NewTable.
- HashTables.HashTable.Walk: is one walk for lookup, insertion and removal, which the C code writes three times; insertion passes the arguments of the equality in the other order, which an equivalence does not see.
- HashTables.HashTable.FreeData: the order between the call for a key and the call for its value is not recorded.
- TableRuns.NoOverflow: says nothing once the primes run out, where 32-bit arithmetic no longer fits; sizes past that point are modelled without bound.
- Allocation failure outside the hash table: the C code does not check it, and the model assumes that memory is there.
- `wordexp` itself, and the printing of aliases and of error messages.
- Freeing the fields of a command (`src/command.c`): only which commands are freed is modelled.
- Running commands, pipes, redirections and background jobs (`src/jobs.c`): only when its write index is in bounds is stated. The first command of a pipeline uses another index.
- `src/main.c`, `src/prompt.c`, `src/builtins.c`: terminal, signals, environment and directories.
- Locales: `tolower` is that of the C locale, which leaves characters above 127 as they are.
- Changing a table while an iterator is live, which the program never does.
- `string_compare`: three branches on the result of `strcmp`, with no law that the other comparison does not show.
