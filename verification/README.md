# Verified models of metl

A Dafny model of the algorithms at the heart of metl, a C++ library for embedded
systems, and of the Python tools that release and check it, with proofs of what
they promise. `dafny verify dfyconfig.toml` checks the project.

| files | what they model |
|---|---|
| `Amalgamate` | the two-edge-kind depth-first order of `tools/amalgamate.py` |
| `Timers`, `TimerService`, `Orbit` | the timer service of `examples/armed_timers.cpp`, with 32-bit ticks that wrap, and how far repeated addition of a period gets modulo a power of two |
| `Bytes`, `ElfFormat`, `ElfWriter`, `ElfReader`, `ElfPositions`, `ElfRoundTrip`, `ElfSymbols`, `ElfProgram`, `ElfSizes`, `ElfMeasure`, `SectionChanges` | the ELF writer, reader and size accounting of `tools/check_size.py` (chapters 4 and 5 of the System V gABI) |
| `Lexical`, `Mutants`, `Packing`, `Shards`, `Driver` | mutant sharding and the mutate/judge/restore driver of `tools/check_mutants.py` |
| `Provenance` | the reuse decision, the gate and the commit history of `tools/check_provenance.py` |
| `Words`, `Crc`, `CanFrame` | `bitfield.hpp`, `crc8.hpp`/`crc16.hpp` and the frame codec of `examples/can_frame_parser.cpp` |
| `Numerals`, `Telemetry`, `LogLine` | `parse.hpp`, `format.hpp`, and the lines of `examples/wire_values.cpp`, `log_line.cpp` and `error_handling.cpp` |
| `ByteRing`, `RingThreads`, `Uart` | `spsc_byte_ring.hpp`, on one thread and on two, and the receive path of `examples/uart_byte_ring.cpp` |
| `Pipeline` | `spsc_queue.hpp` under the two threads of `examples/sensor_pipeline.cpp` |
| `Mpmc` | `mpmc_queue.hpp` with any number of threads |
| `HashMap` | `static_unordered_map.hpp`: probing, tombstones, and the rebuild in place |
| `Probes`, `Oracle` | the trace counter of `tools/check_qemu_probes.py` and the reference oracle of `fuzz/fuzz_model.hpp` |
| `Arith`, `Common` | division facts, options and set sizes the others share |

How to read them. Code that updates state is a class or a method with loops, proved
equal to a function on values; the promises are lemmas about that function. Code
with threads is a machine whose steps are the threads' accesses to shared memory,
and the lemmas quantify over every schedule. Machine words are explicit: indices and
ticks are taken modulo a parameter or a constant, and a word of `Words` is its bits,
lowest first. What comes from outside (hash functions, gates, builds, the map under
test, what GitHub answers) is a parameter.

## Where the code and its documentation part

The model follows the code.

- `mpmc_queue.hpp` says its sequence numbers leave no ABA window. They leave one: a
  thread held up between looking at its slot and claiming its ticket, while the others
  go once round the counter, overwrites an element nobody has popped
  (`Mpmc.StaleClaimOverwrites`, for every capacity and word size). Every run in which
  no claim is stale is safe (`Mpmc.EveryFreshRun`), and no run of fewer moves than the
  counter has values has a stale claim (`Mpmc.ShortRunsAreFresh`). A claim, stale or
  not, is safe if and only if the element a lap before has been handed over
  (`Mpmc.ClaimSafeIff`), and a whole run if and only if every claim in it is
  (`Mpmc.RunSafeIff`). A ticket loaded almost as long ago can also make a push give up
  on an empty queue (`Mpmc.StalePushRefused`) and a pop on a full one
  (`Mpmc.StalePopRefused`), again for every capacity and word size.
- `wire_values.cpp` calls itself the mirror of `log_line.cpp`. It accepts every line
  `log_line.cpp` renders and reads its status as 0, because the `0x` ends the hex
  field (`Telemetry.RenderedLosesStatus`). In the layout `wire_values.cpp` itself
  documents, every frame survives (`Telemetry.LineRoundTrip`).
- `log_line.cpp` declares a 32-bit status and renders it in four digits: it aborts
  exactly on the statuses above 0xFFFF (`LogLine.Line.Render`).
- `run_due` does not always return: on the last tick every deadline is due
  (`Timers.NeverStopsOnTheLastTick`). It returns if and only if, for every periodic
  timer armed, now < 2^32 - g + deadline % g, where g is the largest power of two that
  divides the period (`Timers.StopsIff`). When it returns, the dispatches come in order
  of deadline if and only if no re-arming wraps (`Timers.DispatchOrderIff`); a timer of
  period 5 due on the last tick but two is one for which they do not
  (`Timers.WrapBreaksOrder`, `Timers.OutOfOrder`).
- `topological_order` can refuse a tree with no dependency cycle, and which of two
  trees with the same edges it refuses depends on the order they are listed in
  (`Amalgamate.ListingOrderDecides`). Every header of a complete tree can be amalgamated
  on its own if and only if no closed walk over includes of both kinds uses a dependency
  (`Amalgamate.RefusedIffMixedCycle`).
- `sensor_pipeline.cpp` checks at its end what its own input makes true. For an
  arbitrary input the checks hold if and only if it has sixteen samples or more, all in
  range (`Pipeline.EndChecksIff`).
- `verify` of the fuzz oracle calls itself exact. In its unordered form it is exact if
  and only if no key is iterated twice (`Oracle.UnorderedIsExactIff`,
  `Oracle.RepeatedItemPasses`).
- `Elf.symbols` cannot read a file written with a section the caller marked as a symbol
  table and made large enough for an entry (`ElfSymbols.SymbolsReadIff`).
- `encode_frame` reads past the payload, where the C++ is undefined, if and only if the
  length code is above 8 and the buffer has room for that many bytes; with less room it
  returns 0 first (`CanFrame.EncodeFrame`).
- `encode_frame` stores its checksum low byte first, so the checksum does not detect
  every burst of sixteen bits that runs from the payload into it: no frame with a
  payload is safe from one of them (`CanFrame.StraddlingBurstAccepted`). Damage goes
  unnoticed if and only if the checksum of the difference, from a zero register, is the
  difference of the checksums (`CanFrame.DamageHiddenIff`).

## Model

| member | source | states |
|---|---|---|
| `Amalgamate.DepthPositiveIffLeftOpen` | tools/amalgamate.py:83-89 | The clamped running depth is positive exactly where a conditional is still open |
| `Amalgamate.FirstGuarded` | tools/amalgamate.py:88-94 | The include reported is the first one inside a conditional, and none is reported only if none is |
| `Amalgamate.SplitIncludes` | tools/amalgamate.py:66-104 | The pass refuses exactly when some internal include is guarded; otherwise the includes before the first line of code are the dependencies and those after it the re-exports, in order |
| `Amalgamate.SplitAtCode` | tools/amalgamate.py:66-104 | Dependencies and re-exports are the include targets before and after the first line of code, and together every internal include, once for every time it occurs |
| `Amalgamate.VisitAchieves` | tools/amalgamate.py:117-137 | From any state the search can be in, a visit emits the header and everything it owes, keeps the trace exactly the headers in progress, or reports a cycle the graph has |
| `Amalgamate.DependenciesAchieve` | tools/amalgamate.py:127-128 | The same for a header's dependencies taken one after the other |
| `Amalgamate.ReexportsAchieve` | tools/amalgamate.py:132-137 | The same for the re-exports followed after emission, though emitted headers may still have unvisited ones |
| `Amalgamate.OrderCorrect` | tools/amalgamate.py:107-141 | A finished run lists every header reachable over either kind of edge exactly once, each dependency before its dependent; a refusal is explained by the graph |
| `Amalgamate.FirstNoted` | tools/amalgamate.py:132-137 | A finished run has noted, for every header, the first of its re-exports still outstanding when it was emitted |
| `Amalgamate.DependencyCycleRefused` | tools/amalgamate.py:120-122 | A reachable dependency cycle is always refused |
| `Amalgamate.ReportedCycleIsMixed` | tools/amalgamate.py:120-122 | Every reported cycle is a closed walk over dependency and re-export edges with at least one dependency edge |
| `Amalgamate.NoMixedCycleAccepted` | tools/amalgamate.py:107-141 | With every reachable header present and unconditional and no reachable mixed cycle, the run succeeds |
| `Amalgamate.MixedCycleRefused` | tools/amalgamate.py:117-137 | Started at the header it begins with, a mixed cycle is always refused |
| `Amalgamate.RefusedIffMixedCycle` | tools/amalgamate.py:107-141 | In a complete tree some header is refused on its own if and only if there is a mixed cycle |
| `Amalgamate.RefusedIffDependencyCycle` | tools/amalgamate.py:117-137 | Where no re-export closes a cycle that uses a dependency edge, refusal means a dependency cycle and nothing else; loops of re-exports alone are accepted |
| `Amalgamate.RefusedWhenAFirst` | tools/amalgamate.py:117-137 | A dependency on a header that re-exports the dependent is refused when the dependent is listed first |
| `Amalgamate.AcceptedWhenBFirst` | tools/amalgamate.py:117-137 | The same edges are accepted, in the one right order, when it is listed second |
| `Amalgamate.ListingOrderDecides` | tools/amalgamate.py:117-137 | Two trees with the same edges and no dependency cycle, one refused and one accepted |
| `Amalgamate.Orderer.VisitHeader` | tools/amalgamate.py:117-137 | The closure that mutates order, state, trace and re-exports computes the recursive visit |
| `Amalgamate.Orderer.Run` | tools/amalgamate.py:107-141 | Without an error the order is right; with one the graph explains it; a reachable dependency cycle always is one |
| `Timers.ArmKeeps` | examples/armed_timers.cpp:74-82 | Arming keeps the list sorted, ties in arming order, each timer at most once, and the other entries as they were |
| `Timers.CancelKeeps` | examples/armed_timers.cpp:85-91 | Cancelling removes the timer and nothing else |
| `Timers.StepKeeps` | examples/armed_timers.cpp:96-104 | A dispatch removes the front entry, re-arms it one period on if periodic, and keeps the list's order |
| `Timers.SettlesIffOrbitEscapes` | examples/armed_timers.cpp:101-103 | A periodic timer stops being due exactly when its wrapped deadlines get past now |
| `Timers.SettlesIff` | examples/armed_timers.cpp:96-105 | A timer stops being due exactly when it is a one-shot or now < 2^32 - g + deadline % g, g the largest power of two dividing the period |
| `Orbit.GrainLargest` | examples/armed_timers.cpp:101-103 | No greater power of two divides the period |
| `Orbit.OddInverse` | examples/armed_timers.cpp:101-103 | An odd number has an inverse modulo every power of two |
| `Orbit.Reaches` | examples/armed_timers.cpp:101-103 | Repeatedly adding the period, modulo a power of two, gets to the greatest value with the deadline's remainder |
| `Orbit.Stays` | examples/armed_timers.cpp:101-103 | It never gets above that value |
| `Timers.DeadlineAfterIsModular` | examples/armed_timers.cpp:102 | After n re-arms the deadline is d + n * period modulo 2^32 |
| `Timers.TurnsWithoutWrap` | examples/armed_timers.cpp:94-107 | If the deadline after now does not wrap, a timer due at d has (now - d) / period + 1 turns and lands on the first later multiple, within one period |
| `Timers.TurnsWithWrap` | examples/armed_timers.cpp:94-107 | If it does wrap, the turns are not that many |
| `Timers.StopsIff` | examples/armed_timers.cpp:96-105 | The loop stops if and only if every armed timer meets the closed condition above, after exactly the turns they need together |
| `Timers.NeverStopsOnTheLastTick` | examples/armed_timers.cpp:96-105 | With a periodic timer armed, run_due on the last tick never returns |
| `Timers.RunDueServes` | examples/armed_timers.cpp:94-107 | Each armed timer fires its turns, one-shots are disarmed, others are untouched, nothing due is left, and the firings add up |
| `Timers.ClosedForm` | examples/armed_timers.cpp:94-107 | If no re-arming wraps the loop stops, a periodic timer fires (now - d) / period + 1 times and is armed in (now, now + period] |
| `Timers.ClosedFormIff` | examples/armed_timers.cpp:94-107 | When the loop returns, every periodic timer due fires (now - d) / period + 1 times if and only if no re-arming wraps |
| `Timers.DispatchOrder` | examples/armed_timers.cpp:72-82 | If no re-arming wraps, dispatches come in order of deadline, ties in arming order |
| `Timers.DispatchOrderIff` | examples/armed_timers.cpp:72-82 | When the loop returns, dispatches come in that order if and only if no re-arming wraps |
| `Timers.WrapBreaksOrder` | examples/armed_timers.cpp:94-107 | Whatever the odd period, run_due on any tick but the last from which its timer's re-arming wraps returns, with dispatches out of order and not the one turn due |
| `Timers.OutOfOrder` | examples/armed_timers.cpp:94-107 | There is a valid list on which run_due returns with dispatches out of order |
| `Timers.RunDueSplits` | examples/armed_timers.cpp:94-107 | Running to a and then to b has the log and the state of running to b |
| `Timers.EveryRunValid` | examples/armed_timers.cpp:68-107 | Every sequence of arm, cancel and dispatch leaves the list sorted, stable and free of duplicates |
| `TimerService.Service.Arm` | examples/armed_timers.cpp:74-82 | Arming in place, cancelling first, has the effect of arming on values |
| `TimerService.Service.Cancel` | examples/armed_timers.cpp:85-91 | Unlinks the timer and says whether it was armed |
| `TimerService.Service.Position` | examples/armed_timers.cpp:77-80 | The timer is linked after every equal or earlier deadline and before every later one |
| `TimerService.Service.NextDeadline` | examples/armed_timers.cpp:110-116 | The deadline given is the least one armed; none is given only when nothing is armed |
| `TimerService.Service.DispatchFront` | examples/armed_timers.cpp:97-104 | One turn advances only the front timer's count and re-arms it in place |
| `TimerService.Service.RunDue` | examples/armed_timers.cpp:94-107 | The loop over linked timers computes run_due on values: its count, each timer's firings, and the log it keeps, which is the ids of the timers dispatched, in order, up to its capacity |
| `Bytes.UnpackPack` | tools/check_size.py:353-358 | A value that fits its field comes back, in either byte order |
| `Bytes.UnpackAllPackAll` | tools/check_size.py:353-358 | A record of fields that fit comes back field by field |
| `Bytes.TableHolds` | tools/check_size.py:915-918 | A name and its terminator are in the string table at the offset handed out for it |
| `ElfFormat.ReadRecordsAt` | tools/check_size.py:325-330 | A table of packed records reads back as those records |
| `ElfPositions.TwoBytes` | tools/check_size.py:310 | Data encoding 1 is low byte first and 2 high byte first, for fields of two bytes |
| `ElfPositions.FourBytes` | tools/check_size.py:310 | The same for four bytes |
| `ElfPositions.EightBytes` | tools/check_size.py:310 | The same for the two halves of eight bytes |
| `ElfPositions.ReadMeans` | tools/check_size.py:303-314 | On any bytes: what is refused and why, and the file offset and width of every header field the reader uses, in both word sizes |
| `ElfPositions.NthIs` | tools/check_size.py:325-327 | Entry i of a table is i entry sizes past its start |
| `ElfPositions.SectionsMean` | tools/check_size.py:316-340 | The section headers, each at its own place with every field at its offset; their count and the name table by the header or the first row; truncated exactly when one is not in the file |
| `ElfPositions.StringMeans` | tools/check_size.py:370-383 | A string is the bytes from its offset to the next zero byte, which is inside the table; otherwise the error that says why |
| `ElfPositions.NamesMean` | tools/check_size.py:337-340 | Each section has the name its own row points at; the first row without one decides the error |
| `ElfPositions.SegmentsMean` | tools/check_size.py:342-351 | The program headers, each at its own place with every field at its offset in its word size |
| `ElfPositions.SymbolMeans` | tools/check_size.py:385-399 | Each symbol's name and value at their offsets; an entry without a name is skipped and a later one of the same name wins |
| `ElfPositions.TableMeans` | tools/check_size.py:390-394 | A section of type 2 is a symbol table with the strings it links to, 24 or 16 bytes an entry |
| `ElfPositions.HeaderWritten` | tools/check_size.py:952-964 | The identification, version, entry, flags and sizes the writer puts in the header, by offset |
| `ElfPositions.RowWritten` | tools/check_size.py:965-969 | The info and alignment it puts in every section header |
| `ElfPositions.SegmentWritten` | tools/check_size.py:957-962 | The flags, file offset and alignment it puts in every program header |
| `ElfPositions.NamesWritten` | tools/check_size.py:925-944 | The names of the sections the writer adds of its own accord |
| `ElfPositions.OwnRows` | tools/check_size.py:905-948 | Their section headers: types, places and sizes of their contents, and the string table the symbol table links to |
| `ElfPositions.CommentWritten` | tools/check_size.py:926-928 | The comment section holds each string and a zero byte, in order |
| `ElfPositions.SymbolWritten` | tools/check_size.py:930-936 | The size, info and section of every symbol it writes: absolute, but for the null entry |
| `ElfRoundTrip.SectionsRead` | tools/check_size.py:316-339 | The section table of a written file reads back named, with plain or extended numbering |
| `ElfRoundTrip.SegmentsRead` | tools/check_size.py:341-351 | The segments come back in either word size, though their fields are laid out differently |
| `ElfRoundTrip.RoundTrip` | tools/check_size.py:303-351 | Parsing what the writer prints gives what was asked for, in ELF32/64, both byte orders and both numberings, whenever the values fit |
| `ElfRoundTrip.SectionsComeBack` | tools/check_size.py:925-926 | Each section comes back one place later with its type, flags, size and entry size; its name exactly when it holds no zero byte |
| `ElfRoundTrip.RowKinds` | tools/check_size.py:925-943 | The rows after the caller's are the comment, the symbols and their strings if there are any, and the section names, in that order |
| `ElfSymbols.DictionaryHolds` | tools/check_size.py:385-399 | Distinct names without zero bytes all come back with their own values |
| `ElfSymbols.DictionaryOnly` | tools/check_size.py:385-399 | No other name comes back |
| `ElfSymbols.SymbolsComeBack` | tools/check_size.py:930-941 | The symbol map written is the one read, in both word sizes |
| `ElfSymbols.BareTableFails` | tools/check_size.py:390-398 | A caller's own symbol-table section of at least one entry makes reading the symbols fail |
| `ElfSymbols.SymbolsReadIff` | tools/check_size.py:385-399 | The symbols can be read back if and only if there is no such section |
| `ElfProgram.BuildElf` | tools/check_size.py:900-970 | The writer that grows byte arrays produces a file exactly when every value fits, and that file reads back |
| `ElfProgram.BuildTables` | tools/check_size.py:907-945 | Names, rows and blobs are grown in step, failing exactly when a symbol does not fit |
| `ElfProgram.BuildSymbols` | tools/check_size.py:930-937 | Each symbol's entry points at its own string |
| `ElfProgram.StringAt` | tools/check_size.py:371-383 | The search in place finds the name, or the same error |
| `ElfProgram.ReadSections` | tools/check_size.py:316-339 | The loop reads the section table the reader's function defines, error paths included |
| `ElfProgram.ReadSegments` | tools/check_size.py:341-351 | The loop reads the segment table the reader's function defines, error paths included |
| `ElfProgram.ReadSymbols` | tools/check_size.py:385-399 | The dictionary filled table by table is the one the reader's function defines |
| `ElfProgram.ReadElf` | tools/check_size.py:303-351 | The constructor accepts and refuses as the reader's function does |
| `ElfMeasure.MeasuredAsAsked` | tools/check_size.py:417-450 | Every class total measured from a written file is that of the sections asked for; the writer's own tables count for nothing |
| `ElfSizes.Classify` | tools/check_size.py:417-450 | Refuses exactly an ALLOC section of unknown type, the first one; otherwise the totals partition the ALLOC bytes, ram is its two parts, and every ALLOC section is listed with the class its own letters and type call for |
| `ElfSizes.LettersTell` | tools/check_size.py:411-414 | A letter is listed exactly when its flag is set |
| `ElfSizes.TypesTell` | tools/check_size.py:268-287 | The type names stand for the section type numbers of the gABI |
| `ElfSizes.RefusedMeans` | tools/check_size.py:424-434 | What is refused, by type number, flag bit and machine |
| `ElfSizes.ListedAre` | tools/check_size.py:427-449 | The ALLOC sections are listed in order, each once, with its own name, size, type and flags |
| `ElfSizes.OneMoreCounts` | tools/check_size.py:435-447 | One more section of n bytes raises the total its letters and type call for by n, and no other |
| `ElfSizes.ListingTells` | tools/check_size.py:417-450 | The type and flags listed for a section determine its class |
| `ElfSizes.ClassesPartition` | tools/check_size.py:435-447 | The five classes partition the bytes of the ALLOC sections |
| `ElfSizes.ListedAddUp` | tools/check_size.py:448-449 | The sections listed for a class add up to its total |
| `ElfSizes.Place` | tools/check_size.py:468-488 | Refuses exactly when a loaded segment has no place; flash is the stored bytes of all loaded segments, ram the bytes that run in RAM |
| `ElfSizes.OneMoreSegment` | tools/check_size.py:465-488 | By addresses: a loaded segment counts as RAM if all of it runs there, what it stores counts as flash, and it has no place if its bytes are not where they must be |
| `ElfSizes.ApartIff` | tools/check_size.py:468-482 | Segments are apart when they have no address in common |
| `ElfSizes.OccupiedCount` | tools/check_size.py:465-473 | Segments that do not overlap occupy as many RAM addresses as they measure |
| `ElfSizes.RamFits` | tools/check_size.py:465-473 | Segments that do not overlap never measure more RAM than the region has |
| `SectionChanges.Sizes` | tools/check_size.py:660-666 | Sizes are summed by name over the chosen classes |
| `SectionChanges.Compare` | tools/check_size.py:667-670 | The rows are exactly the names whose size changed, largest change first, ties by name |
| `SectionChanges.ChangesAccountForAll` | tools/check_size.py:657-672 | The listed deltas add up to the change of the class total |
| `Lexical.LtMeans` | tools/check_mutants.py:131-139 | The order of the sort: up to the first difference equal, then the lower code point or the shorter string first |
| `Mutants.SortedUnique` | tools/check_mutants.py:131-139 | Sorting forgets the input's order |
| `Packing.Balanced` | tools/check_mutants.py:135-138 | Dealing to the lightest shard keeps any two within the largest file |
| `Packing.SomeShardHasRoom` | tools/check_mutants.py:135-138 | Sizes above a third of a bound that some split meets always leave a shard with room for the last of them |
| `Packing.FourThirds` | tools/check_mutants.py:135-138 | Dealing largest first is within (4m - 1) / 3m of every split into whole files |
| `Shards.Shard` | tools/check_mutants.py:119-139 | The grouping, ordering and dealing loops compute the shard defined on the set of mutants |
| `Shards.ShardDetermined` | tools/check_mutants.py:119-139 | A shard does not depend on the order of the input |
| `Shards.ExactlyOnce` | tools/check_mutants.py:119-139 | The shards hold every mutant exactly once and never split a file |
| `Shards.FilesAdjacent` | tools/check_mutants.py:139 | A shard's mutants of one file are adjacent |
| `Shards.ShardsBalanced` | tools/check_mutants.py:135-138 | Two shards differ by at most the largest file |
| `Shards.NearlyOptimal` | tools/check_mutants.py:125-138 | No shard is more than four thirds of the largest shard of any whole-file split |
| `Shards.NoEmptyShard` | tools/check_mutants.py:135-138 | With no more shards than files no shard is empty |
| `Shards.ShardsNeedFiles` | tools/check_mutants.py:135-138 | There are never more non-empty shards than files |
| `Driver.ReplacedShape` | tools/check_mutants.py:176-188 | A mutant with one anchor changes that occurrence and nothing around it |
| `Driver.OnceIff` | tools/check_mutants.py:180-186 | An anchor is counted once exactly when it is found at one place and not again past it |
| `Driver.JudgeMeans` | tools/check_mutants.py:357-383 | Said of the tools alone: dead is rejected, alive is accepted, and what escapes is a missing file or a gate that raises |
| `Driver.Driver.BaselinesPass` | tools/check_mutants.py:314-336 | Raises exactly when the tree builds where a test needs it and some gate raises; otherwise passes exactly when it builds and every gate accepts the unmutated tree |
| `Driver.Driver.TryMutant` | tools/check_mutants.py:353-374 | Mutates, judges and restores: dead if its gate rejects the tree with the anchor replaced where it is found once, alive if the gate accepts it, and the tree is as before on every way out |
| `Driver.Driver.Rebuild` | tools/check_mutants.py:390-398 | The build trees of every gate used are rebuilt from the restored source |
| `Driver.Driver.Check` | tools/check_mutants.py:339-416 | Exits 0 exactly when there is a mutant and every gate accepts the tree as it is and rejects it mutated, with all that is needed building; raises exactly when a gate or a missing file does; a surviving mutant never exits 0; the tree is as before |
| `Driver.ShardedAgrees` | tools/check_mutants.py:339-416 | All shard runs return 0 if and only if the unsharded run does and there are no more shards than files |
| `Provenance.MergedPull` | tools/check_provenance.py:77-88 | The pull request if one alone was merged as the commit into main and it came from this repository; otherwise how many were, or the repository it came from |
| `Provenance.Decide` | tools/check_provenance.py:91-122 | Reuses exactly when some run qualifies, the first that does; otherwise gives a true reason for each run |
| `Provenance.ReuseIsMonotone` | tools/check_provenance.py:100-119 | Neither the order of the runs nor further runs can revoke a reuse |
| `Provenance.AskingLateIsEnough` | tools/check_provenance.py:175-183 | Asking about the parent only when some run skipped its builds gives the same decision |
| `Provenance.GateVerdict` | tools/check_provenance.py:125-141 | No problem is reported exactly when all jobs succeeded and the right one of the two alternatives ran; missing jobs are named alone, otherwise the failed jobs by name, then the two alternatives |
| `Provenance.ReuseMeans` | tools/check_provenance.py:163-184 | A reuse rests on this very tree having been built, or on a documentation-only change to a parent that passed |
| `Provenance.InvestigateIff` | tools/check_provenance.py:163-184 | A commit is reused exactly when it has one pull request and some run on its head recorded this very tree, as built or, for a documentation-only change to a parent that passed, as documentation |
| `Provenance.DocsOnlyIff` | tools/classify_change.py:37-65 | A change is documentation only exactly when something changed and every file not ending in .md is as it was |
| `Provenance.PassingIsVerified` | tools/check_provenance.py:125-184 | In any history a commit that passes main-gate has the code of an ancestor or itself whose exact tree was built and passed, with only documentation changes since |
| `Bitfield.ExtractReads` | include/metl/bitfield.hpp:56-58 | Extracting reads exactly the field's bits, right-aligned, for every width and position |
| `Bitfield.InsertReplaces` | include/metl/bitfield.hpp:64-66 | Inserting replaces exactly the field's bits by the low bits given |
| `Bitfield.ReadBack` | include/metl/bitfield.hpp:56-66 | What was inserted is read back, cut to the field |
| `Bitfield.WriteBack` | include/metl/bitfield.hpp:56-66 | Inserting what is there changes nothing |
| `Bitfield.Apart` | include/metl/bitfield.hpp:56-66 | Fields that do not overlap do not disturb each other |
| `Crc.BuildTable` | include/metl/detail/crc.hpp:61-76 | The table built holds, for each nibble, the register after four zero bits |
| `Crc.LookUp` | include/metl/detail/crc.hpp:97-106 | Four bits at once: the top nibble alone decides what is folded back in |
| `Crc.UpdateByTable` | include/metl/crc16.hpp:54-65 | The table-driven byte step equals the eight bitwise ones, for every width and polynomial |
| `Crc.ChecksumByTable` | include/metl/detail/crc.hpp:121-127 | The checksum is the same with and without the table |
| `Crc.InParts` | include/metl/crc16.hpp:36-44 | Seeding a second part with the first part's checksum, final xor undone, gives the checksum of the whole |
| `Crc.FoldIsFeeding` | include/metl/crc16.hpp:54-65 | A checksum is the register after the message's bits, most significant first |
| `Crc.BurstDetected` | include/metl/crc16.hpp:52-65 | No change confined to as many consecutive bits as the register is wide goes unnoticed |
| `Crc.OddDetected` | include/metl/crc16.hpp:52-65 | With an odd polynomial no odd number of flipped bits goes unnoticed |
| `Crc.FoldLinear` | include/metl/crc16.hpp:52-65 | The difference of two checksums is the checksum, from a zero register, of the messages' difference |
| `CanFrame.HeaderLayout` | examples/can_frame_parser.cpp:129-133 | The four inserts lay the fields out as documented, each cut to its width, reserved bits clear |
| `CanFrame.ParseFrame` | examples/can_frame_parser.cpp:86-121 | The parser fills its frame in place as the function on bytes does, every error included |
| `CanFrame.ParseMeans` | examples/can_frame_parser.cpp:86-121 | On any bytes: the error of the first test that fails, and every field of the frame by the bits it comes from |
| `CanFrame.WhichCrc` | include/metl/crc16.hpp:46-54 | The checksum is CRC-16/CCITT-FALSE: all ones at the start, x^16 + x^12 + x^5 + 1, nothing xored in at the end |
| `CanFrame.EncodeFrame` | examples/can_frame_parser.cpp:123-145 | Reads past the payload exactly when the length is above 8 and fits the buffer; otherwise writes the encoding and nothing past it, and nothing at all when it does not fit |
| `CanFrame.Normal` | examples/can_frame_parser.cpp:45-51 | A frame is what survives the wire exactly when its id is below 2048 and its payload is zero past its length |
| `CanFrame.ParseEncode` | examples/can_frame_parser.cpp:86-145 | Parsing an encoded frame, whatever follows it, gives its normal form |
| `CanFrame.EncodeParse` | examples/can_frame_parser.cpp:86-145 | A parsed frame is normal, and encoding it gives back its bytes exactly when the fifteen reserved bits were clear |
| `CanFrame.BurstRefused` | examples/can_frame_parser.cpp:112-117 | A burst of up to sixteen bits in header or payload that leaves the length field alone is refused for its checksum |
| `CanFrame.AcceptedIsEven` | examples/can_frame_parser.cpp:112-117 | Every accepted frame has an even number of ones, checksum included |
| `CanFrame.OddFlipsRefused` | examples/can_frame_parser.cpp:112-117 | Any odd number of flips anywhere in a frame that leaves the length field alone is refused for its checksum |
| `CanFrame.DamageHiddenIff` | examples/can_frame_parser.cpp:112-117 | Any damage that leaves the length alone is accepted exactly when the checksum of the difference is the difference of the checksums; otherwise it is refused for its checksum |
| `CanFrame.StraddlingBurstAccepted` | examples/can_frame_parser.cpp:139-142 | Every frame with a payload has a damaged form, different in sixteen consecutive bits at most, that is accepted |
| `Numerals.HeadAndTail` | include/metl/parse.hpp:162-177 | Comparing with the pre-divided limit decides whether the next digit overflows, without computing the product |
| `Numerals.FoldDecimal` | include/metl/parse.hpp:162-177 | The whole run of digits is consumed, overflow is reported exactly when its number exceeds the limit, and the accumulator never does |
| `Numerals.FoldHex` | include/metl/parse.hpp:184-199 | The same for hexadecimal digits of either case |
| `Numerals.TryParseUint` | include/metl/parse.hpp:232-258 | The number the text starts with and exactly what follows it, or the right error |
| `Numerals.TryParseInt` | include/metl/parse.hpp:292-337 | The same with a sign, the most negative value included |
| `Numerals.TryParseHex` | include/metl/parse.hpp:368-392 | The same in base 16 for limits that end in the digit F |
| `Numerals.UnsignedRoundTrip` | include/metl/parse.hpp:232-258 | A number printed in any width that holds it parses back, leaving what followed, exactly when it is within the limit |
| `Numerals.SignedRoundTrip` | include/metl/parse.hpp:292-337 | The same for signed numbers of every width |
| `Numerals.HexRoundTrip` | include/metl/format.hpp:252-274 | Hex in either case, padded or not, parses back |
| `Numerals.WriteDigits` | include/metl/format.hpp:90-113 | Digits written backwards fill exactly their place |
| `Numerals.TryFormatUint` | include/metl/format.hpp:145-162 | The decimal text, or an untouched buffer when it does not fit |
| `Numerals.TryFormatInt` | include/metl/format.hpp:191-220 | The same with a sign |
| `Numerals.TryFormatHex` | include/metl/format.hpp:252-274 | Too few digits are refused like too small a buffer, not truncated to |
| `Telemetry.ExpectAllIs` | examples/wire_values.cpp:49-54 | A prefix is skipped if it is there in full; otherwise nothing is left |
| `Telemetry.ParseTenths` | examples/wire_values.cpp:66-87 | The parser updates its tenths as the function on text does |
| `Telemetry.TenthsMean` | examples/wire_values.cpp:61-87 | The sign applies to the whole and the fraction together, and a reading outside 16 bits is refused |
| `Telemetry.NoTenths` | examples/wire_values.cpp:66-70 | Without a number there is no reading, only the right error |
| `Telemetry.TenthsRoundTrip` | examples/log_line.cpp:64-72 | Every 16-bit reading, -32768 and those between -1 and 0 included, survives printing and parsing whatever follows it |
| `Telemetry.ParseFrame` | examples/wire_values.cpp:103-143 | The loops over prefixes and up to the separator read a line as the function on text does |
| `Telemetry.AcceptedIff` | examples/wire_values.cpp:99-143 | A line is accepted as a frame exactly when it has the three-field layout, its fields are a decimal, a signed reading with at most one digit of tenths read, and a hexadecimal, and they say that frame |
| `Telemetry.LineRoundTrip` | examples/wire_values.cpp:99-143 | Every frame of the declared widths survives printing in the documented layout, in any hex width and case |
| `Telemetry.RenderedLosesStatus` | examples/log_line.cpp:74-84 | Every rendered log line is accepted with status 0, so it comes back exactly when its status was 0 |
| `LogLine.DigitsBelow` | include/metl/format.hpp:70-87 | A number has at most k digits exactly when it is below the base to the k |
| `LogLine.Line.AppendTenths` | examples/log_line.cpp:64-72 | Whole and fraction, formatted separately through the scratch buffer, give the printed reading; the program aborts exactly when that does not fit the line |
| `LogLine.Line.Render` | examples/log_line.cpp:40-84 | Every reading fits the line without truncation, in at most 37 characters; the program aborts exactly when the status needs more than four digits |
| `ParseU32.Parse` | examples/error_handling.cpp:39-55 | A value exactly for non-empty digits up to 2^32 - 1; otherwise the error of the first position that spoils the text |
| `ParseU32.PrintedParses` | examples/error_handling.cpp:39-55 | A printed number is digits that say it, so it parses exactly when it fits |
| `ByteRing.WrapKeepsDistance` | include/metl/spsc_byte_ring.hpp:112-116 | The wrapped difference of two indices is how far apart they are |
| `ByteRing.WrapKeepsSlot` | include/metl/spsc_byte_ring.hpp:130-133 | Wrapping an index at a multiple of the capacity keeps its place in the buffer |
| `ByteRing.Ring.ReadableSize` | include/metl/spsc_byte_ring.hpp:199-203 | Exactly the bytes queued |
| `ByteRing.Ring.WritableSize` | include/metl/spsc_byte_ring.hpp:112-116 | Exactly the room left |
| `ByteRing.Ring.WritableSpan` | include/metl/spsc_byte_ring.hpp:130-133 | The first contiguous free run: all the room or up to the seam, empty only when the ring is full |
| `ByteRing.Ring.Commit` | include/metl/spsc_byte_ring.hpp:155-164 | Appends exactly the bytes written at the start of the span |
| `ByteRing.Ring.TryWrite` | include/metl/spsc_byte_ring.hpp:170-181 | All of the source across the seam, or nothing |
| `ByteRing.Ring.ReadableSpan` | fuzz/fuzz_byte_ring.cpp:80-92 | The first contiguous run holds the oldest bytes in order, never more than are there, empty only when the ring is |
| `ByteRing.Ring.Consume` | include/metl/spsc_byte_ring.hpp:223-230 | Drops the oldest bytes, across the seam if asked |
| `ByteRing.Ring.Read` | include/metl/spsc_byte_ring.hpp:237-247 | As many of the oldest bytes as fit, in order |
| `RingThreads.StepKeeps` | include/metl/spsc_byte_ring.hpp:112-247 | Every access of either side, each with the other's index as last loaded, keeps positions, queued bytes and written bytes in agreement |
| `RingThreads.EveryRun` | include/metl/spsc_byte_ring.hpp:51-57 | So does every interleaving of the two sides, whatever they do |
| `RingThreads.SizesConservative` | include/metl/spsc_byte_ring.hpp:59-63 | In every interleaving each side's size falls short by exactly what the other has published since its index was loaded, so it is never over |
| `RingThreads.RunsApart` | include/metl/spsc_byte_ring.hpp:51-57 | No byte the producer may write is one the consumer may look at |
| `RingThreads.ReadsTheStream` | include/metl/spsc_byte_ring.hpp:155-247 | What the consumer looks at is the byte published at that position, the one put there if any was, and what is published never changes |
| `RingThreads.UnwrittenPublished` | include/metl/spsc_byte_ring.hpp:148-164 | The guard of a commit lets through a byte nobody wrote |
| `Uart.FeedConcat` | examples/uart_byte_ring.cpp:85-117 | However the bytes are cut into runs, the outcome is that of their concatenation |
| `Uart.SegmentsSplit` | examples/uart_byte_ring.cpp:98-103 | The lines are the newline-free pieces that join to the text |
| `Uart.FeedIs` | examples/uart_byte_ring.cpp:85-117 | After any text: the first four lines and the unfinished one, each cut to 32, whether any was cut, and how many ended |
| `Uart.LineAssembler.Scan` | examples/uart_byte_ring.cpp:95-106 | A run is scanned up to its first newline, over-long lines cut and reported |
| `Uart.LineAssembler.Drain` | examples/uart_byte_ring.cpp:85-117 | Every byte in the ring is taken, whatever its runs, and the lines that ended are counted |
| `Uart.Peripheral.ReceiveInto` | examples/uart_byte_ring.cpp:48-64 | As many bytes of the wire as remain, fit and a transfer of five takes, in order, into the region; every other byte of the storage is unchanged |
| `Uart.Run` | examples/uart_byte_ring.cpp:140-153 | For any wire and any ring the super-loop stops with every byte delivered and the lines of the whole wire |
| `Pipeline.ProcessedIs` | examples/sensor_pipeline.cpp:95-138 | Samples in order leave the data of the summary below |
| `Pipeline.SummaryMeans` | examples/sensor_pipeline.cpp:95-138 | For any samples: how many were kept and refused, the last eight readings in millivolts, their average rounded toward zero, a flush for every sixteen, no sequence error |
| `Pipeline.ReadingsAre` | examples/sensor_pipeline.cpp:51-62 | The readings are the samples in range, in order, times 100 |
| `Pipeline.TruncatedMeans` | examples/sensor_pipeline.cpp:125 | An average is the quotient rounded toward zero, negative sums included |
| `Pipeline.AveragesAre` | examples/sensor_pipeline.cpp:117-125 | Each average is that of the last eight readings up to it, or of all there are |
| `Pipeline.SumConcat` | examples/sensor_pipeline.cpp:121-124 | Sums of windows add up |
| `Pipeline.EndChecksIff` | examples/sensor_pipeline.cpp:143-158 | What the program checks at its end holds exactly for sixteen or more samples, all in range |
| `Pipeline.TestsMean` | include/metl/spsc_queue.hpp:127-185 | On the positions that occur, the wrapped full and empty tests mean full and empty |
| `Pipeline.ProducerKeeps` | include/metl/spsc_queue.hpp:127-145 | Every producer step, with its stale copy of the head, keeps the queue's invariant |
| `Pipeline.ConsumerKeeps` | include/metl/spsc_queue.hpp:152-171 | Every consumer step, with its stale copy of the tail, keeps the queue's invariant |
| `Pipeline.EveryRun` | examples/sensor_pipeline.cpp:70-138 | Every interleaving keeps the invariant |
| `Pipeline.AlwaysInOrder` | examples/sensor_pipeline.cpp:95-138 | At every moment what was consumed is a prefix of the input, with no sequence error and no failed batch push |
| `Pipeline.ExitsWithEverything` | examples/sensor_pipeline.cpp:95-103 | The consumer exits only with every sample consumed in order |
| `Pipeline.NoRace` | include/metl/spsc_queue.hpp:142-168 | The threads are never at one slot at the same time |
| `Pipeline.FairRunsFinish` | examples/sensor_pipeline.cpp:70-138 | However the threads are interleaved, once both have moved in 14 N + 12 rounds the consumer has exited |
| `Pipeline.CanFinish` | examples/sensor_pipeline.cpp:70-138 | So from wherever an interleaving has led the consumer can exit |
| `Mpmc.StepKeeps` | include/metl/mpmc_queue.hpp:210-313 | Every step of every thread but a stale claim keeps tickets, slots and owners in agreement |
| `Mpmc.EveryFreshRun` | include/metl/mpmc_queue.hpp:31-36 | So does every run of any number of threads, spurious failures included, without a stale claim |
| `Mpmc.FirstInFirstOut` | include/metl/mpmc_queue.hpp:208-239 | The n-th pop claimed gets the n-th push claimed; nothing is popped twice or before it is pushed |
| `Mpmc.NothingLost` | include/metl/mpmc_queue.hpp:155-164 | Once every thread is idle each push was handed to exactly one pop or is in its slot |
| `Mpmc.StorageExclusive` | include/metl/mpmc_queue.hpp:233-311 | No two threads are ever at one slot's storage |
| `Mpmc.PushGivesUp` | include/metl/mpmc_queue.hpp:299-301 | A push gives up exactly when its ticket is current and the ticket a lap before still occupies the slot, or its ticket is so old that the distance has wrapped into the upper half of the range |
| `Mpmc.PopGivesUp` | include/metl/mpmc_queue.hpp:210-239 | A pop gives up exactly when its ticket is current and nothing is queued or its producer has not published it, or its ticket is so old that the distance has wrapped |
| `Mpmc.StalePushRefused` | include/metl/mpmc_queue.hpp:280-306 | For every capacity and word size some run makes a push with an old ticket give up while the queue is empty and no other thread is in it |
| `Mpmc.StalePopRefused` | include/metl/mpmc_queue.hpp:210-231 | For every capacity and word size some run makes a pop with an old ticket give up while every slot holds a published element |
| `Mpmc.LockFree` | include/metl/mpmc_queue.hpp:51-60 | Wherever a run without a stale claim has led, among any 4 N + 1 moves of N threads with work to do, no exchange failing spuriously, one advances a counter or finishes an operation |
| `Mpmc.ShortRunsAreFresh` | include/metl/mpmc_queue.hpp:31-36 | No run with at most as many moves as the counter has values has a stale claim |
| `Mpmc.ClaimSafeIff` | include/metl/mpmc_queue.hpp:293-298 | A claim, stale or not, keeps all that exactly when the element a lap before has been handed over; for a pop, when its element is pushed and no producer still holds it |
| `Mpmc.RunSafeIff` | include/metl/mpmc_queue.hpp:31-36 | A run keeps all that at every moment exactly when every claim in it, stale or not, is made in time |
| `Mpmc.ReadyIff` | include/metl/mpmc_queue.hpp:280-301 | A slot has come round to the next ticket exactly when the element a lap before has been handed over |
| `Mpmc.UnreadyPushOverwrites` | include/metl/mpmc_queue.hpp:293-313 | A push that claims too early overwrites the storage of a ticket never handed over, whose element waits or whose popper or producer is at it |
| `Mpmc.UnreadyPopTakes` | include/metl/mpmc_queue.hpp:225-239 | A pop that claims too early takes the storage of a ticket never pushed or not yet published |
| `Mpmc.StaleClaimOverwrites` | include/metl/mpmc_queue.hpp:280-313 | For every capacity and word size some run makes a stale claim overwrite an element nobody has popped |
| `HashMap.Absent` | include/metl/static_unordered_map.hpp:834-851 | A probe that runs out or meets an empty bucket without the key proves it is not in the table |
| `HashMap.Placed` | include/metl/static_unordered_map.hpp:946-964 | A new element where its probe may end keeps every key reachable |
| `HashMap.Buried` | include/metl/static_unordered_map.hpp:966-976 | A tombstone keeps every probe going that ran through the element |
| `HashMap.FullCount` | include/metl/static_unordered_map.hpp:986-988 | A table without a free bucket holds as many keys as it has buckets |
| `HashMap.WalkEnds` | include/metl/static_unordered_map.hpp:986-988 | With fewer elements than buckets no walk past occupied buckets goes all round |
| `HashMap.SettledCompact` | include/metl/static_unordered_map.hpp:1001-1040 | Settling an element, displacing another or not, leaves every settled one reached through occupied buckets alone |
| `HashMap.StaticMap.FindIndex` | include/metl/static_unordered_map.hpp:834-851 | Finds the key's bucket exactly when the map has the key |
| `HashMap.StaticMap.Find` | include/metl/static_unordered_map.hpp:834-851 | Answers as the map does, value and all |
| `HashMap.StaticMap.Locate` | include/metl/static_unordered_map.hpp:853-888 | Gives the key's bucket, or one where it may be put; there always is one |
| `HashMap.StaticMap.PlaceAt` | include/metl/static_unordered_map.hpp:946-964 | Adds the element and keeps the size and tombstone counts exact |
| `HashMap.StaticMap.DestroyAt` | include/metl/static_unordered_map.hpp:966-976 | Removes the element, leaves a tombstone, and keeps both counts exact |
| `HashMap.StaticMap.Settle` | include/metl/static_unordered_map.hpp:1015-1039 | Settles the element in hand and every one it displaces, and stops |
| `HashMap.StaticMap.RehashInPlace` | include/metl/static_unordered_map.hpp:989-1041 | The rebuild loses, duplicates and hides no element and leaves no tombstone |
| `HashMap.StaticMap.ConstructAt` | include/metl/static_unordered_map.hpp:915-944 | A new element is added whether or not a rebuild comes first |
| `HashMap.StaticMap.TryEmplace` | include/metl/static_unordered_map.hpp:505-533 | Adds a new key exactly when it is new and there is room; otherwise changes nothing |
| `HashMap.StaticMap.TryInsertOrAssign` | include/metl/static_unordered_map.hpp:894-912 | Assigns an old key, adds a new one if there is room |
| `HashMap.StaticMap.Erase` | include/metl/static_unordered_map.hpp:651-659 | Removes the key exactly when it is there, and nothing else |
| `HashMap.StaticMap.Clear` | include/metl/static_unordered_map.hpp:678-687 | Leaves the empty map |
| `Probes.CountRegions` | tools/check_qemu_probes.py:231-261 | The loop over lines computes the scan of the trace's events, with the error of the first offending line |
| `Probes.ClassifyMeans` | tools/check_qemu_probes.py:236-253 | A marker is told by its address without the lowest bit, the beginning first |
| `Probes.FaultNamed` | tools/check_qemu_probes.py:245-256 | A refused trace fails at a beginning inside a region or an end outside one, and the error says which |
| `Probes.AcceptedIff` | tools/check_qemu_probes.py:231-261 | A trace is accepted with given counts exactly when it names an address and is alternating regions of those lengths |
| `Probes.NoiseIgnored` | tools/check_qemu_probes.py:239-242 | A line that names no address changes nothing, wherever it is |
| `Probes.AcceptedConcat` | tools/check_qemu_probes.py:231-261 | Accepted traces one after the other give their counts one after the other |
| `Probes.SameAddress` | tools/check_qemu_probes.py:245-253 | With one address for both ends nothing is ever counted |
| `Probes.ZippedPairs` | tools/check_qemu_probes.py:275 | With distinct names each name has its own count and no other name is there |
| `Probes.MeasuredByName` | tools/check_qemu_probes.py:264-275 | A well-formed trace measures each named region by its own length |
| `Oracle.Verify` | fuzz/fuzz_model.hpp:120-154 | The comparison passes exactly when sizes, lookups of every reference key, and iteration agree |
| `Oracle.AnswerMeans` | fuzz/fuzz_model.hpp:65-96 | The reference takes a new key while there is room, assigns an old key at any time, and erases a key that is there |
| `Oracle.AfterMeans` | fuzz/fuzz_model.hpp:65-115 | What the reference holds after each operation, entry by entry |
| `Oracle.OrderedIsExact` | fuzz/fuzz_model.hpp:137-154 | The ordered form passes only if iteration is the reference's, entry for entry |
| `Oracle.UnorderedIsExactIff` | fuzz/fuzz_model.hpp:137-154 | The unordered form makes iteration a permutation of the reference exactly when no key is iterated twice |
| `Oracle.RepeatedItemPasses` | fuzz/fuzz_model.hpp:137-154 | A repeated item in place of another passes the unordered form |
| `Oracle.MapOracle.TryEmplace` | fuzz/fuzz_model.hpp:65-75 | Passes exactly when the answer is the reference's and the comparison agrees with it after |
| `Oracle.MapOracle.TryInsertOrAssign` | fuzz/fuzz_model.hpp:77-90 | The same, with an old key always assignable |
| `Oracle.MapOracle.Erase` | fuzz/fuzz_model.hpp:92-96 | The same for erasing |
| `Oracle.MapOracle.Clear` | fuzz/fuzz_model.hpp:111-115 | Passes exactly when the map compares equal to the empty reference after |
| `Oracle.MapOracle.Lookup` | fuzz/fuzz_model.hpp:98-109 | Passes exactly when the lookup answers as the reference does, value and all |
| `Oracle.MapOracle.Replay` | fuzz/fuzz_model.hpp:60-154 | A run of the harness passes exactly when every turn does; then every answer was the reference's and so was every iteration, in order or, if no key is repeated, in some order; a map that behaves like the reference always passes |
| `Oracle.FaithfulPasses` | fuzz/fuzz_model.hpp:60-154 | A run in which the map behaves like the reference is one the harness passes: no false alarm |
| `Oracle.PassedRunIsReference` | fuzz/fuzz_model.hpp:60-154 | In a run the harness passes the map iterates the reference's entries after every operation |

## Left out

- Text recognised by regular expressions (include lines, conditionals, trace lines, region names): a line is represented by what the expressions make of it.
- `strip_body`, `main` and the banner of the amalgamation: they edit text the order has already fixed.
- The list of all timers, the idle loop and the self-checks of `armed_timers.cpp`; the intrusive list's link cells (`TimerService` holds the armed timers in a sequence of references).
- `Elf.comment`, and `regions`' lookup of the four region symbols (none without them): `ElfSizes.Place` takes the two regions.
- `load_mutants`: that mutant names are distinct is a precondition of the sharding.
- Subprocesses, git, the GitHub API and the file system: gates and builds are functions of the source tree, and `Provenance.Honest` says what a recorded run is trusted for.
- Memory orderings: a step of `Pipeline`, `Mpmc` and `RingThreads` sees every earlier step.
- The queues' and the byte ring's approximate sizes, which are hints. That the MPMC queue is not wait-free.
- CRC-32, whose register is reflected; two-bit errors further apart than the register is wide.
- Tombstone thresholds and probe lengths as performance: `HashMap` proves meaning, not cost. Iterators, copies, moves and swaps of the map.
- Constructors, destructors and exceptions of stored elements: elements are values.
- The wording of messages: reasons and problems are values (`Provenance.Merged`, `Provenance.Problem`).
- ElfSymbols.BareTableFails: for files of fewer than 0x464c457f sections. From there on (over 70 GB) the file's magic number, read as a symbol's name, can be an offset inside the section count taken for a string table's size.
- ElfSymbols.SymbolsReadIff: the same.
- Budget tables, tolerances, reports and command lines of the tools; `flat_map`, `handle_pool`, `fsm`, coroutines and the other headers.
