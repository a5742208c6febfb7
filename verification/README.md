# libhelp: the verified core

libhelp is a small C library: a pool allocator, a configuration loader that keeps its values in such a pool, number
conversions, a semaphore shared by processes, a process title setter, timers, and the `lockrun` program. This project
models the parts of it that carry state and proves what they are for.

| file | what it models |
|---|---|
| `Wrappers.dfy` | a value that may be missing |
| `Machine.dfy` | the C library below: addresses, `malloc` and `free`, byte memory, C strings |
| `Alignment.dfy` | `align_ptr`, a bit mask on 64-bit words |
| `PoolModel.dfy`, `PoolInvariant.dfy`, `PoolLaws.dfy`, `PoolRuns.dfy` | the pool on values: operations, invariant, what it gives a caller, whole runs |
| `PoolAllocator.dfy` | the pool as the linked objects of `pool.c`, updated in place, proved against the values |
| `Lexicographic.dfy`, `PrefixCopy.dfy`, `PrefixCopyExact.dfy` | the ordered map, and the statement `dst @src;` that inserts into it while walking it |
| `ConfigGrammar.dfy`, `ConfigLaws.dfy`, `ConfigRoundTrip.dfy`, `ConfigLoadable.dfy` | the configuration language as a grammar, its laws, and the maps that texts can load to |
| `ConfigScanner.dfy`, `Config.dfy` | the eight-state scanner over its own buffer, proved against the grammar and the pool |
| `Decimal.dfy` | `atoui`, `itoa`, `itoa64` |
| `Semaphore.dfy` | `semaphore_post` and `semaphore_wait` as steps of N processes |
| `ProcTitle.dfy` | `proc_init` and `proc_set_title` over a flat byte memory |
| `Timers.dfy` | the timer list and one round of the dispatching thread |
| `LockrunArgs.dfy`, `LockrunProtocol.dfy` | lockrun's command line, and N instances contending for one lock |

Sizes are those of a 64-bit machine: `sizeof(unsigned long)` is 8, `sizeof(pool_t)` 56, `sizeof(pool_large_t)` 16.
Whatever the C library may answer is left open: `malloc` may fail at any call or answer any aligned range apart from
all ranges in use, `poll` may report any descriptor, a callback may start and stop any timers, a signal may wake more
than one waiter, and a waiter may wake by itself. Calls that fail are counted, so that a function may answer NULL or an
error only if one of its calls did fail.

How the files fit together: a method that changes state in place says that the new state is a function of the old one
(`PoolT.Alloc` and `PoolModel.Alloc`, `ConfigT.Scan` and `ConfigGrammar.Parse`, `Process.SetTitle` and
`ProcTitle.Titled`, `Lockrun.Scan` and `LockrunArgs.Outcomes`), and the laws are proved about those functions, for all
inputs, runs and interleavings.

## Where the code and its descriptions differ

The model follows the code.

- `pool_new` takes any block size, but only some work. One that is not a multiple of 8 lets `p->end - m` go below zero
  and wrap (src/pool.c:37), and a block overflow follows. One below 56 does not even hold the header. One from 56 to 71
  holds no list node behind it, so a large request nests as deep as `malloc` lets it (src/pool.c:61-65):
  `NestsToAnyDepth`. `BlockSizeExactly` is the condition, an if-and-only-if. The library's own caller uses 4096.
- `k ;;` stores a semicolon: the first byte of a bare value is never compared (src/config.c:626-628); see
  `SemicolonStored` and, for the exact form of bare values, `BareExact`. A quoted value
  is stored at its closing quote, before its semicolon is seen, and anything but a line end may stand between the two
  (src/config.c:659-693). A text that stops inside a statement loads without an error (src/config.c:562, 744-747).
- `dst @src;` is the copy of a snapshot unless a copy lands under `src` ahead of the key it came from. `a @aa;` can do
  that: `CopyAheadExample`. `CopyIsSnapshotExactly` is the condition, an if-and-only-if.
- A title longer than the room is cut one byte shorter than the room, so it shows one byte less than there is room for
  (src/proc.c:58-60); `ShownExactly` is the condition, an if-and-only-if.
- `semaphore_post` signals only when it finds the counter at 0, so with two waiters and two posts one waiter can sleep
  on beside a counter of 1: `LostWakeup`. `WakeupsExactly` is the condition, an if-and-only-if on who calls what: a
  wakeup can be lost exactly if two processes may wait and a third may post, whatever the initial count. If every
  process may do both, it can be lost exactly if there are more than two of them (`TwoProcessesExactly`).
- lockrun's two spellings of an option are not interchangeable everywhere before `--`: in `-L -S=5` the second word
  is a file name. `RespellExactly` is the condition, an if-and-only-if. Its help text says that `--maxtime` limits the
  wait for the lock and that `--retries` counts retries; the code uses the first only in a report behind the command
  (src/lockrun.c:326) and counts all attempts with the second (src/lockrun.c:274).
- lockrun is to reflect the command's exit status in its own. When `execvp` fails (src/lockrun.c:305) the child has no
  `exit` of its own; it runs into `exit(rc)` at the end of `main`, and nothing was ever assigned to `rc`. So
  `lockrun -L=f -- nosuchcmd` may exit with success: `SuccessWithoutCommand`. `SuccessIsEarnedExactly` is the
  condition, an if-and-only-if.

## Model

| member | source | states |
|---|---|---|
| Alignment.AlignPtrRoundsUp | src/pool.h:20 | the mask `& ~7` on a wrapping 64-bit sum is rounding up to the next multiple of 8, for every address whose rounding fits a word |
| PoolAllocator.PoolT.New | src/pool.c:3-24 | for every size: null and an unchanged heap, or a fresh one-block pool on a newly granted range, which satisfies the invariant if the size is a multiple of 8 that holds a header and a list node; the header lies within the range if and only if the size is at least 56; null exactly if a call of `malloc` failed |
| PoolAllocator.PoolT.Search | src/pool.c:34-49 | the pointer loop ends at the first block from `cur` on with room, or at the tail; `cur` has moved behind the last nearly full block passed over; it terminates |
| PoolAllocator.PoolT.Extend | src/pool.c:50-59 | the block, linked and carved; or nothing changed, exactly if `malloc` was asked and failed |
| PoolAllocator.PoolT.Grow | src/pool.c:50-59 | a new block of the tail's capacity is linked behind it, `cur` and `size` are what the model says; NULL exactly if `malloc` was asked and failed, and then only `cur` may have moved |
| PoolAllocator.PoolT.Alloc | src/pool.c:26-76 | `pool_alloc`, with its recursion for the list node, is `PoolModel.Alloc` on the pool and `LiveAfter` on the heap; valid before, valid after; only new blocks and nodes are added; NULL exactly if one call of `malloc` failed, otherwise none did |
| PoolAllocator.PoolT.AllocLarge | src/pool.c:61-75 | the large path: data and list node, or neither, the data being given back when there is no node, and NULL exactly if one call of `malloc` failed |
| PoolAllocator.PoolT.Calloc | src/pool.c:78-89 | the granted bytes read zero and no other byte of memory changes; NULL exactly if one call of `malloc` failed |
| PoolAllocator.PoolT.Cpy | src/pool.c:91-103 | the granted bytes read as the source and no other byte of memory changes; NULL exactly if one call of `malloc` failed |
| PoolAllocator.PoolT.Free | src/pool.c:105-111 | `pool_free` of a live allocation is `PoolModel.Free`, and the pool stays valid |
| PoolAllocator.PoolT.Delete | src/pool.c:113-132 | the heap loses exactly the ranges the pool owns (assertions in its two loops add that every header and node is read while its range is still allocated) |
| PoolInvariant.NewInv | src/pool.c:3-24 | a new pool satisfies the invariant: every allocation 8-aligned and between its block's header and `last`, `last <= end`, all ranges disjoint, every block and large range in use, `size` the sum of capacities and large sizes, the block before `cur` nearly full |
| PoolInvariant.AllocInv | src/pool.c:26-76 | so does the pool after every `pool_alloc`, on the small, growing, large and all failing paths |
| PoolLaws.AllocationsApart | src/pool.c:26-76 | two live allocations are the same one or share no byte, small or large |
| PoolLaws.BookkeepingApart | src/pool.c:26-76 | no live allocation touches a block header or a node of the large list |
| PoolLaws.AllocGrants | src/pool.c:26-76 | a request keeps every live allocation live, and what it grants is apart from each of them |
| PoolLaws.AllocLives | src/pool.c:26-76 | what a non-empty request grants is a live allocation of just that size |
| PoolLaws.FirstRequest | src/pool.c:33-75 | the first request to a pool of any good size is carved behind the header if it has at most 4095 bytes and fits, whatever `malloc` would answer; otherwise it is `malloc`'s, with a list node of 16 bytes there |
| PoolLaws.FreeInv | src/pool.c:105-111 | `pool_free` of a live allocation keeps the invariant: `last` never drops below another live allocation |
| PoolLaws.FreeTargets | src/pool.c:105-111 | a live allocation that passes the test of `pool_free` was carved from `cur`, and is its topmost one, even if blocks or large areas are adjacent |
| PoolLaws.FreeExact | src/pool.c:105-111 | `pool_free` removes exactly that allocation or changes nothing |
| PoolLaws.FreeThenAlloc | src/pool.c:33-40 | behind every `pool_free` that took effect, a request of the same size gets the same address, and the pool is as before |
| PoolRuns.RunInv | src/pool.c:26-132 | the invariant holds after every run of pool calls mixed with other `malloc` and `free` calls of the program |
| PoolRuns.RunLater | src/pool.c:33-60 | over every run `cur` only moves forward, blocks keep place and bounds, and blocks behind `cur` never change again |
| PoolRuns.AppendExact | src/pool.c:33-60 | a block is appended exactly when no block from `cur` to the tail has room and `malloc` grants one, and the request fails exactly when none has room and it does not |
| PoolRuns.RunOthers | src/pool.c:26-111 | the part of the heap the pool does not own changes only by what the rest of the program does |
| PoolRuns.DeleteExact | src/pool.c:113-132 | the addresses freed are without repetition those the pool owns, each of them live when it is freed |
| PoolRuns.NothingLeaks | src/pool.c:3-132 | from `pool_new` over any run to `pool_delete` the heap is left as the rest of the program alone would have made it |
| PoolRuns.CapacityMustBeAligned | src/pool.c:36-37 | among sizes that hold a header and a list node: blocks stay within bounds over every run if and only if the size is a multiple of 8 |
| PoolRuns.NestsToAnyDepth | src/pool.c:33-65 | with a block of 56 to 71 bytes a large request can nest `pool_alloc` to any depth, each level having got its `malloc` |
| PoolRuns.NestingExactly | src/pool.c:33-65 | `pool_alloc` nests at most once on every request if and only if the block size is not from 56 to 71 (below 56 the `size_t` subtraction wraps) |
| PoolRuns.BlockSizeExactly | src/pool.c:3-65 | for every size: blocks stay within bounds over every run and `pool_alloc` nests at most once, if and only if the size is a multiple of 8 that holds a header and a list node |
| Lexicographic.PrefixInterval | src/config.c:707-729 | the keys with a given prefix are an interval in byte order: once past them none follows |
| Lexicographic.Seek | src/config.c:707-729 | what `JSLF` and `JSLN` answer: the least key not before, or behind, a given one |
| PrefixCopy.UniverseClosed | src/config.c:706-730 | the walk meets only finitely many keys unless `dst` runs on from `src`, so it ends |
| PrefixCopy.CopyIsSnapshot | src/config.c:706-730 | inserting while walking equals overriding the old map by `dst+x -> old[src+x]`, if no copy lands under `src` ahead of its source |
| PrefixCopyExact.CopyUnrelated | src/config.c:706-730 | so it does on every map when neither prefix begins with the other, or both are the same |
| PrefixCopyExact.CopyIsSnapshotExactly | src/config.c:706-730 | for given keys it does whatever the values are, if and only if no copy lands ahead |
| PrefixCopyExact.CopyAheadExample | src/config.c:706-730 | a map of two keys on which `a @aa;` lands ahead, and on which the result differs from the snapshot |
| ConfigLaws.RestStep | src/config.c:562-742 | reading one byte at a time gives what the grammar gives, in each of the eight states |
| ConfigLaws.ErrorLine | src/config.c:571-572 | the reported line is the 1-based line of the byte that cannot be accepted |
| ConfigLaws.PrefixLaw | src/config.c:562-747 | a prefix of a text says a prefix of its statements, and loads if and only if it stops before the offending byte |
| ConfigLaws.ConcatenationLaw | src/config.c:562-742 | behind a text that ends between statements another text reads as by itself, on later lines |
| ConfigLaws.LoadConcatenation | src/config.c:562-742 | loading `a+b` is loading `a` and then `b` into the map `a` left |
| ConfigRoundTrip.QuotedIsStorable | src/config.c:656-674 | what the quoted branch stores has every quote behind a backslash, no line end, no backslash at its end |
| ConfigRoundTrip.LineExact | src/config.c:589-693 | the line `key "value";` is read as that assignment if and only if the value is of that class |
| ConfigRoundTrip.BareExact | src/config.c:611-655 | the line `key value;` with a NUL-free value is read as that assignment, and as nothing else, if and only if the value is not empty, begins with no blank, quote, `@` or line end, and has no `;` or line end behind its first byte |
| ConfigRoundTrip.SemicolonStored | src/config.c:626-647 | `k ;;` stores a semicolon |
| ConfigRoundTrip.KeyCharsExactly | src/config.c:520 | the key characters are `.`, `_`, ten digits, and 26 letters each from `A` and from `a` |
| ConfigRoundTrip.KeyLimitExactly | src/config.c:589-610 | a key of key characters is accepted if and only if it has at most 64 of them; a longer one is rejected at the byte behind it |
| ConfigRoundTrip.SourceLimitExactly | src/config.c:694-704 | a source prefix is accepted if and only if it has at most 64 bytes |
| ConfigRoundTrip.RoundTrip | src/config.c:562-742 | a map of valid keys and values that a quoted or else a bare assignment can carry, written one line each in any order, loads back as that map |
| ConfigRoundTrip.EveryMapHasAText | src/config.c:562-742 | for every such map there is a NUL-free text that loads to it |
| ConfigLoadable.StatementsOk | src/config.c:562-742 | whatever a NUL-free text says: each key is 1 to 64 key bytes, each value is one a quoted or a bare assignment can carry, each source prefix is at most 64 bytes without `;` or line end |
| ConfigLoadable.WalkWritable | src/config.c:706-730 | a copy statement keeps keys valid and values of that kind |
| ConfigLoadable.LoadableExactly | src/config.c:562-747 | a map is what some NUL-free text loads to if and only if its keys are valid and its values are of that kind |
| ConfigScanner.OnQuoted | src/config.c:656-682 | one byte inside quotes: escape looked up one byte ahead, value cut off and recognised, or rejection; the unread bytes stay as they were |
| ConfigScanner.OnValue | src/config.c:631-655 | one byte of a bare value |
| ConfigScanner.OnCopy | src/config.c:694-739 | one byte of a source prefix, and its length limit |
| ConfigScanner.OnKey | src/config.c:589-610 | one byte of a key: it is cut off in place, or rejected when it is too long |
| ConfigScanner.OnKeySp | src/config.c:611-630 | one byte between key and value |
| ConfigScanner.OnSpace | src/config.c:565-582 | one byte between statements; the line counter is one more than the newlines read |
| ConfigScanner.OnComment | src/config.c:583-588 | one byte of a comment |
| ConfigScanner.OnSkip | src/config.c:683-693 | one byte behind a quoted value |
| ConfigScanner.CutOff | src/config.c:633-641 | with a NUL behind key and value the buffer holds exactly both as C strings, the unread bytes untouched |
| Machine.Heap.Buffer | src/config.c:531-543 | a buffer of its own that holds the text and a NUL, or a counted failure |
| Config.ConfigT.SeekKey | src/config.c:707-729 | the least key is found |
| Config.ConfigT.Insert | src/config.c:635-640 | a place for the key, its pointer kept if it has one; failures are counted |
| Config.ConfigT.Store | src/config.c:635-646 | the key is set to a pointer that reads the value; it fails exactly if one insertion or one call for memory failed; every string stored before still reads the same |
| Config.ConfigT.CopyUnder | src/config.c:706-730 | the loop is the walk over the map: what it leaves is `CopyAll` of the map before; it fails exactly if one insertion or one call for memory failed |
| Config.ConfigT.PlainByte | src/config.c:562-693 | one byte in a state that stores nothing: the buffer and the scanner's variables go on as the grammar does, or the text is rejected with its line |
| Config.ConfigT.ValueByte | src/config.c:631-739 | one byte in a state that ends in a statement: the statement has been run, or the text is rejected, or exactly one call failed |
| Config.ConfigT.Scan | src/config.c:545-747 | the in-place scanner refines the grammar: result, final map and `line_error` are those of parsing and then running the statements in turn, unless exactly one insertion or one call for memory failed, which ended the scan |
| Config.ConfigT.Load | src/config.c:514-747 | the same from the text passed in, whose copy `conf` keeps; it gives up exactly if one call failed, its two buffers included; every string stored earlier in the pool still reads the same |
| Config.ConfigT.StaysStored | src/pool.c:91-103 | a copy into the pool, small or large, leaves every stored string as it was |
| Config.ConfigT.GetStr | src/config.c:164-171 | the pointer reads the value of the key, or it is the default |
| Config.ConfigT.GetInt | src/config.c:173-193 | the number the value reads as, if its digits fit an `int` |
| Config.ConfigT.GetUint | src/config.c:212-226 | the longest digit prefix of the value modulo 2^32 |
| Config.ConfigT.GetBool | src/config.c:228-240 | true for exactly `yes` |
| Config.IntSurvivesLoading | src/config.c:173-193 | loading `key "<v>";` makes `config_get_int` answer `v`, for all v with an absolute value up to 2^31-1 |
| Decimal.AtoUnsigned | src/str.h:44-52 | `atoui` into an unsigned is the value of the longest digit prefix modulo 2^32, on any text |
| Decimal.AtoSigned | src/str.h:44-52 | into an `int` it is that value, if it fits |
| Decimal.Itoa | src/str.h:54-62 | `itoa` writes the decimal of any 64-bit number, at most 20 digits |
| Decimal.Itoa64 | src/str.h:64-72 | `itoa64` writes base 64 in the given alphabet, at most 11 letters |
| Decimal.Collect | src/str.h:55-59 | the loop of `itoa` leaves the decimal digits, low digit first |
| Decimal.Collect64 | src/str.h:65-69 | the loop of `itoa64`, with its mask and its shift, leaves the base-64 digits, low digit first |
| Decimal.CopyOut | src/str.h:60-62 | the copying loop reverses it |
| Decimal.MaskIsDigit | src/str.h:68-69 | `n & 0x3f` is the base-64 digit |
| Decimal.DigitsInjective | src/str.h:54-72 | over an alphabet without repetitions different numbers are written differently |
| Decimal.AtouiUndoesItoa | src/str.h:44-62 | `atoui(itoa(v)) == v` for every unsigned 32-bit v |
| Decimal.CanonicalRewrites | src/str.h:44-62 | `itoa` gives back every digit string without a superfluous leading zero |
| Semaphore.CountsAndExcludes | src/semaphore.c:52-74 | in every interleaving at most one process is inside, and the counter is initial + completed posts - completed waits, exactly so if and only if it never overflowed |
| Semaphore.WaitSetFrozen | src/semaphore.c:64-74 | while the counter is above 0 nobody enters the wait set and nobody leaves it but by itself |
| Semaphore.SpuriousWakeup | src/semaphore.c:68-70 | a waiter may wake by itself; at 0 it finds nothing and goes back to sleep, and all is as before |
| Semaphore.WakeupsExactly | src/semaphore.c:52-74 | for any number of processes, any initial count and any choice of who may wait and who may post: nobody ever waits beside a positive counter, in any run, if and only if there are not two processes that may wait and a third that may post; and if and only if no run ends with every other call returned and someone asleep beside a positive counter |
| Semaphore.TwoProcessesExactly | src/semaphore.c:52-74 | if every process may do both, the same holds if and only if there are at most two processes |
| Semaphore.NoLostWakeupExactly | src/semaphore.c:56-60 | a helper of these: the increment from 0 is the only step that can put a waiter beside a positive counter |
| Semaphore.NoLostWakeup | src/semaphore.c:56-70 | with at most one process in the wait set at each signal, a blocked waiter implies a counter of 0 in every state of every run |
| Semaphore.LostWakeup | src/semaphore.c:56-70 | two waiters and two posts reach a state with a waiter asleep beside a counter of 1 |
| ProcTitle.Process.Init | src/proc.c:13-49 | on any layout of disjoint strings: the area is the one the strings in a row cover, every environment string still reads the same and is outside the area, the copies fit the buffer, no other byte is written; it fails exactly if `malloc` was asked and failed, and then changes nothing |
| ProcTitle.Process.SweepArgv | src/proc.c:31-36 | the first loop, its end lying behind an argument |
| ProcTitle.Process.MoveEnviron | src/proc.c:37-45 | the second loop: strings the area runs over are moved, one behind the other, the others stay |
| ProcTitle.Process.SetTitle | src/proc.c:51-63 | the area reads as the title or its prefix, ends in NUL, and the environment still reads the same |
| ProcTitle.TitlesOverRuns | src/proc.c:51-63 | after any number of titles the area reads as the last one, and every string outside as before |
| ProcTitle.ShownExactly | src/proc.c:57-62 | memory shows as much of the title as there is room for if and only if the whole title fits; of a longer one it shows a byte less |
| Timers.SpecOf | src/timer.c:54-63 | the expiry is the interval, the period is the interval or, for a single shot, nothing, and their nanoseconds are below one second |
| Timers.RegisteredExactly | src/timer.c:67-69 | a timer is in the list a history leaves if and only if it was started and not stopped since |
| Timers.Timers.Start | src/timer.c:34-72 | null and no change exactly if a call for memory or a descriptor failed; otherwise a new node in front, with a descriptor of its own armed for its interval |
| Timers.Timers.Stop | src/timer.c:74-100 | exactly that node leaves the list, its descriptor is closed, the links of the others hold |
| Timers.Timers.Finalize | src/timer.c:102-104 | the loop ends, with an empty list and all descriptors closed |
| Timers.Timers.GetTimerFromFd | src/timer.c:109-118 | the registered timer with that descriptor, or null if there is none |
| Timers.Timers.Serve | src/timer.c:149-157 | the descriptor is read; if that succeeds the timer that has it now, if any and if it has a handler, is called, and no other |
| Timers.Timers.Callback | src/timer.c:156 | a callback may start and stop any timers; list, history and descriptors agree behind it |
| Timers.ReportedOnce | src/timer.c:148-150 | different descriptors are reported at most once each |
| Timers.Timers.Round | src/timer.c:133-158 | `poll` is asked about the descriptors of the list; if it answers above 0 the reported ones, and no others, are read in list order, each once, and every successful read is followed at once by the callback of the timer that then is registered for it and has a handler; whatever callbacks start and stop, the list is what the whole history leaves, and every callback in the whole history went to a timer registered at that moment whose own descriptor was read just before; `Valid()`, which `Start`, `Stop` and `Round` require and keep, carries this over every run |
| LockrunArgs.Lockrun.ReadOption | src/lockrun.c:184-236 | one turn of the option loop is `First`: what is set, how many words are used up, or how the program ends |
| LockrunArgs.Lockrun.Scan | src/lockrun.c:171-248 | the loop and the checks behind it give the outcome the specification gives; the command's words are left as they were |
| LockrunArgs.AdvanceAppend | src/lockrun.c:171-237 | scanning a command line is scanning its first part and going on from there |
| LockrunArgs.LockfileMeans | src/lockrun.c:198-201 | `-L` and `--lockfile`, with the value behind `=` or in the next word, set the lock file and nothing else; at the end of the command line they are an error |
| LockrunArgs.SleepMeans | src/lockrun.c:208-211 | so do `-S` and `--sleep` for the seconds to sleep |
| LockrunArgs.RetriesMeans | src/lockrun.c:213-216 | so do `-R` and `--retries` for the attempts |
| LockrunArgs.MaxtimeMeans | src/lockrun.c:218-221 | so do `-T` and `--maxtime` for the time to report |
| LockrunArgs.WaitMeans | src/lockrun.c:203-206 | `-W` and `--wait` set waiting and nothing else; a value given to them is dropped |
| LockrunArgs.VerboseMeans | src/lockrun.c:223-226 | so do `-V` and `--verbose`, which count |
| LockrunArgs.QuietMeans | src/lockrun.c:228-231 | so do `-q` and `--quiet` for being quiet |
| LockrunArgs.ExitsMean | src/lockrun.c:186-196 | `--version` and `--help` end the program |
| LockrunArgs.OthersInvalid | src/lockrun.c:233-236 | every other word but `--` is an error, and `--` with a value is one, too |
| LockrunArgs.ChecksInOrder | src/lockrun.c:244-248 | the command is looked for first, then the lock file |
| LockrunArgs.PlainLaunch | src/lockrun.c:110-117 | `-L f -- c` launches `c` with every other setting as it is at the start: 10 seconds, no retries, no waiting |
| LockrunArgs.OptionsCommute | src/lockrun.c:198-221 | value options of different kinds may trade places, and of two of one kind only the later counts |
| LockrunArgs.RespellKeeps | src/lockrun.c:369-381 | respelling any number of `-X=V` at option positions as `-X V` keeps settings, command, early exit or error, also for an empty V, a V with `=`, or `--` |
| LockrunArgs.RespellExactly | src/lockrun.c:369-381 | at a place in a command line the spelling never matters if and only if the word there is neither the value of an option nor part of a command to launch |
| LockrunArgs.ValueLooksLikeOption | src/lockrun.c:369-381 | a command line with a different outcome in the other spelling |
| LockrunArgs.LaunchExactly | src/lockrun.c:178-182 | a command is launched if and only if it is the non-empty rest behind the `--` met at an option position and a lock file is set |
| LockrunProtocol.OneCommandAtATime | src/lockrun.c:262-320 | in every interleaving of N instances a launched process lives only while its parent holds the lock, so at most one lives at a time |
| LockrunProtocol.AttemptsBounded | src/lockrun.c:262-283 | with positive `retries` an instance calls for the lock at most that often, without `--wait` at most once |
| LockrunProtocol.GivesUpExactly | src/lockrun.c:262-283 | a refused instance leaves if and only if it would not wait or has called `retries` times, `retries` being positive; it fails, unless it is quiet and would not wait; otherwise it sleeps |
| LockrunProtocol.LockGrantedExactly | src/lockrun.c:262 | in every reachable state a call for the lock is granted if and only if no instance has it |
| LockrunProtocol.KeepsTrying | src/lockrun.c:262-283 | a waiting instance that stays shut out goes on trying, refused and asleep in turn, any number of times if `retries` is not positive, else as long as its attempts stay below it |
| LockrunProtocol.CannotFork | src/lockrun.c:340-343 | if `fork` fails the instance exits with 1 and the lock is free |
| LockrunProtocol.CannotOpen | src/lockrun.c:259-260 | if the lock file cannot be opened the instance exits with 1 without having called for the lock |
| LockrunProtocol.ExitTellsTheChild | src/lockrun.c:266-347 | an exited instance holds no lock and left no process; its status is that of the process it launched: a code below 256 as it is, 1 for a signal; without having launched one it is 0 or 1, and 0 only for a quiet instance that does not wait |
| LockrunProtocol.SuccessIsEarnedExactly | src/lockrun.c:266-347 | over every run, the success of an instance is that of a command that ran, or the refusal of a quiet instance that does not wait, if and only if no `execvp` of it failed and left the status 0; so it always is if none failed |
| LockrunProtocol.SuccessWithoutCommand | src/lockrun.c:290-347 | a run in which `execvp` fails and the instance exits with success |
| LockrunProtocol.MissingCommandRuns | src/lockrun.c:290-347 | if `execvp` fails the instance can exit with any status at all |
| LockrunProtocol.SomeoneMoves | src/lockrun.c:262-347 | no deadlock: an instance that has not exited can step, or its process can |
| LockrunProtocol.RunsItsCommand | src/lockrun.c:262-347 | an instance that finds the lock free can run its command to any end, exits with that end, and frees the lock (a code below 256 as it is, 1 for a signal) |

## Left out

- `config_load` reads its text from a file and then runs the same scanner as `config_load2`; the file reading is not modelled.
- `config_test`, `config_test2`, `config_get_hex`: debugging output, a function nobody calls, a call of `strtol`.
- The Judy array is an ordered map from strings to pointers; its memory and its own errors are not modelled beyond an insertion that may fail.
- Config.ConfigT.Scan: when a call for memory or a Judy insertion fails the loader answers an error, and nothing is said about the map but that strings stored before still read the same.
- The scanner's loop has one `switch`; here its cases are in two methods, `PlainByte` and `ValueByte`. Its buffers are arrays of their own and take no room on the modelled heap.
- Config.ConfigT.CopyUnder: requires that `dst` does not run on from `src` and that the new keys fit 64 bytes; the source demands both of its caller without checking them.
- Config.ConfigT.GetInt: requires digits that fit an `int`, because signed overflow has no meaning in C.
- Config.ConfigT.GetStr: the default is any address; that its storage outlives the call is the caller's affair.
- PoolAllocator.PoolT.Alloc: requires a valid pool, so a block size that is a multiple of 8 and holds a header and a list node; without the first blocks overflow, without the second the recursion is bounded by `malloc` alone; `PoolRuns.BlockSizeExactly` says so exactly, for addresses that do not end in the last bytes of the address space.
- PoolAllocator.PoolT.Delete: that headers and nodes are read before their storage is freed is asserted in its loops and is not part of its contract.
- PoolAllocator.PoolT.Cpy: takes the bytes to copy as a value, so a source that overlaps the new range is not expressed.
- Fields of block headers and list nodes are object fields, tied to their addresses; that they are bytes of the same memory is expressed by keeping those ranges apart from all allocations.
- `pool_alloc` is one function in C; its loop, its two endings and its large path are methods here.
- Freeing an allocation of no bytes is not modelled; it gives back nothing.
- ProcTitle.Process.SetTitle: requires a title outside the area, and room for at least one byte unless the title is empty; for an empty area the C code would compute a size below zero.
- Timers: calls and dispatch steps are atomic, although the source has no lock, and at most 1000 timers are registered when a round begins. Freed nodes are not reused by later timers.
- Timers.Timers.Stop: requires a registered timer or null, because the source reads through any other pointer.
- LockrunArgs: `atoi` is a parameter, and the count of `--verbose` does not overflow. Opening messages, help text and version are not modelled.
- LockrunProtocol: lock calls never fail except by refusal, locks are POSIX record locks that a child does not inherit, instances are not killed, and time does not pass; `sleep` is a step.
- Semaphore: the mapping of the shared file and the initialisation of mutex and condition variable are not modelled.
- `proc_daemonize`, pid files, `logger.c`, `file.c` and the `proc_msg` files: system calls and plumbing.
- `strcmpN`, `strcatp*` and `pstr_*` of str.h: straight-line comparisons and copies.
