# Verified model of the ucore support library

This project models the support library shared by the ucore labs and proves what it is
for.  The library is small C code that the rest of the kernel trusts: a skew heap with
parent links, a `printf` family and `strtol`, a 48-bit random number generator, a
multiplicative hash, overlapping memory copies, circular lists and a line editor.  The
stride scheduler of lab8 is modelled as well, because it is the client that supplies the
skew heap's comparator.

Run `dafny verify dfyconfig.toml` to check everything.

## How the model is laid out

| files | what they model |
|---|---|
| `SkewTree`, `SkewCost`, `SkewRun` | the skew heap on immutable trees: contents and heap order, amortised cost, whole runs |
| `SkewHeap` | the same operations on linked entries with `parent`, `left` and `right`, each specified by the tree operation it performs |
| `StrideOrder`, `StrideSched`, `StrideQueue` | the wrapped 32-bit stride comparison, the scheduler as a state machine, and the scheduler on linked entries |
| `StrideShare`, `StrideTurns`, `StridePriority` | how turns are shared among competitors, as a game on wrapped strides, and what follows for the scheduler: shares, waits, starvation, and when a priority pays |
| `StrideRuns` | runs from the scheduler's start that show where its promises end |
| `Powers`, `Modular`, `Words` | powers, logarithms, remainders, fixed-width integers |
| `Lcg`, `Rand`, `Hash` | congruential generators in general, `rand`/`srand`, `hash32` |
| `Text`, `Numerals` | bytes, NUL-terminated strings, positional numerals |
| `Format`, `FormatLaws`, `Directives`, `Printfmt` | the meaning of a format string, laws about it, what each directive prints, and the C functions that carry it out on a bounded buffer |
| `Strtol`, `RoundTrip` | `strtol`, and which printed fields it reads back |
| `Memory`, `ListRing`, `Readline` | `memmove`/`memcpy`, circular lists, the line editor |

Functions that change state are methods with loops over fields and arrays, as in C, and
are proved against pure functions; the laws are proved about those functions.

Conventions and platform choices:

* The platform is riscv64: `int` is 32 bits, `long` and `long long` 64, plain `char`
  unsigned.
* A variable argument is a 64-bit slot or a string.  `va_arg(ap, int)` takes the low 32
  bits, sign-extended.
* A C string is a byte sequence without NUL; the NUL is what `At` returns at its end.
* C pointers into a buffer are offsets into an array.
* The heap's comparator is a parameter.  It has to be a total preorder only on the entries
  in the heap, and it says "smaller" only by returning -1, which is what the code tests.

Where the code and its comments differ, the model follows the code:

* `rand` never returns 0: `do_div(result, RAND_MAX + 1)` expands to a remainder by
  `RAND_MAX`, plus 1 (`Rand.Output`).
* `strtol` accepts the prefix `0x` but not `0X` (`Strtol.CapitalPrefix`).
* "Bigger value will get more CPU time" holds of two priorities up to `BIG_STRIDE` exactly
  when `BIG_STRIDE / priority` is smaller for the bigger one
  (`StridePriority.BiggerPriorityPaysIff`); two processes that ask for 2^30 and 2^31 - 1 are
  served alike (`StrideRuns.UnequalPrioritiesAlike`).
* A width applies to `%s` too (`FormatLaws.StrWidth`); a `0` right after the `.` of a
  precision is the flag it would be before it (`FormatLaws.ZeroAfterDot`).

Results that are not in the code's own comments:

* Removing an arbitrary entry of a skew heap keeps the bound of 3 log2(n+1) + 1 merge calls
  per operation, the same as insertion (`SkewRun.RunCost`).
* The numbers `rand` returns, not only its hidden state, have period exactly 2^48 from
  every seed (`Rand.ValuesPeriod`).
* The stride comparison is usable by the heap exactly when all strides fit in half the
  32-bit circle (`StrideOrder.PreorderIffWindow`).  Over a run with any number of wakings,
  departures and changes of priority the scheduler stays in order exactly when every process
  that wakes fits, with its wrapped stride, at that moment (`StrideSched.RunOrderedIff`).  A
  process is created with stride 0 and need not fit: `StrideRuns.NewcomerBreaksOrder` is a
  run of six events from the start after which the comparison goes round in a circle.
* Turns are shared in inverse proportion to the passes, to within one pass of each of the
  two processes compared (`StrideTurns.ProportionalShare`).  A process with a priority up to
  `BIG_STRIDE` gets ahead of another without bound exactly when its pass is smaller and
  nobody's priority exceeds `BIG_STRIDE` (`StridePriority.PriorityPaysIff`).
* `lab6_set_priority` accepts priorities above `BIG_STRIDE`, whose pass is 0.  Every
  competitor keeps running exactly when nobody has such a priority, or it is alone
  (`StrideTurns.NoStarvationIff`); then a competitor that is ahead of nobody runs within one
  round (`StrideTurns.LevelWait`), and any other within a number of turns that depends on
  how far it is ahead (`StrideTurns.WaitByLead`).  `StrideRuns.ThirdTurnNeverComes` is a run
  in which a new process gets two turns altogether, because another asks for 2^31.
* A format can be followed by another one, the arguments going on where the first left
  them, exactly when it ends outside a directive (`FormatLaws.ComposesIffClosed`).
* The round trip of printing and `strtol` fails for some flags;
  `RoundTrip.DirectiveReadsBackIff` gives the exact condition for every numeric directive.
* `memcpy` does the work of `memmove` exactly when the destination does not start strictly
  inside the source (`Memory.MemcpyIsMemmoveIff`).

## Model

| member | source | states |
|---|---|---|
| SkewTree.Merge | lab7/libs/skew_heap.h:29-59 | merging keeps exactly the entries of both heaps |
| SkewTree.MergeDistinct | lab7/libs/skew_heap.h:29-59 | merging heaps without common entries links no entry twice |
| SkewTree.RemoveKeys | lab7/libs/skew_heap.h:69-85 | removing any entry removes exactly that one |
| SkewTree.MergeHeapOrdered | lab7/libs/skew_heap.h:29-59 | merging keeps heap order |
| SkewTree.RemoveHeapOrdered | lab7/libs/skew_heap.h:69-85 | the splice at any depth keeps heap order |
| SkewTree.RootIsMinimum | lab7/libs/skew_heap.h:29-59 | the root of a heap, ordered between parents and children, is below every entry |
| SkewCost.SpinesAreLogarithmic | lab7/libs/skew_heap.h:29-59 | right-heavy nodes on the left spine, and the others on the right spine, are logarithmically few |
| SkewCost.CallsBySpines | lab7/libs/skew_heap.h:29-59 | a merge goes down the two right spines until one is used up |
| SkewCost.MergeAmortised | lab7/libs/skew_heap.h:29-59 | calls of a merge plus change of potential are bounded by spine counts |
| SkewCost.TurnedHeavyDoubles | lab7/libs/skew_heap.h:69-85 | ancestors that a removal can turn right-heavy double in size going up |
| SkewCost.TurnedHeavyLog | lab7/libs/skew_heap.h:69-85 | those ancestors and the left spine of the merged part together stay within one logarithm |
| SkewCost.RemovePotential | lab7/libs/skew_heap.h:69-85 | how removal of an inner entry changes the potential of its ancestors |
| SkewCost.RemoveAmortisedLog | lab7/libs/skew_heap.h:69-85 | amortised bound of removing any entry |
| SkewCost.InsertAmortisedLog | lab7/libs/skew_heap.h:61-67 | amortised bound of insertion |
| SkewRun.RunRefinesPriorityQueue | lab7/libs/skew_heap.h:23-85 | over any run whose comparator orders the entries present at each moment, the heap holds what was inserted and not removed, and its root is a minimum of it |
| SkewRun.RunCost | lab7/libs/skew_heap.h:29-85 | any run of m operations on at most n entries makes at most m * (3 log2(n+1) + 1) merge calls |
| SkewRun.DrainSorts | lab7/libs/skew_heap.h:69-85 | removing the root again and again yields a sorted permutation of the contents |
| SkewHeap.LinksDetermineTree | lab7/libs/skew_heap.h:4-6 | linked entries represent one tree only |
| SkewHeap.LinksKept | lab7/libs/skew_heap.h:29-59 | the shape does not depend on the root's own parent field |
| SkewHeap.Adopt | lab7/libs/skew_heap.h:42-44 | the stores after the recursive call build the winner's new shape |
| SkewHeap.Merge | lab7/libs/skew_heap.h:29-59 | the linked result has the shape of the merged trees, keeps its root's parent field, and makes the counted number of calls |
| SkewHeap.Init | lab7/libs/skew_heap.h:23-27 | an initialised entry is a heap of one |
| SkewHeap.Insert | lab7/libs/skew_heap.h:61-67 | the linked heap becomes the insertion into its tree |
| SkewHeap.Locate | lab7/libs/skew_heap.h:69-85 | the parent field of an inner entry leads to the child slot that names it |
| SkewHeap.RemoveLinks | lab7/libs/skew_heap.h:73-84 | re-pointing that one slot yields the shape of the removal |
| SkewHeap.Splice | lab7/libs/skew_heap.h:75-84 | which fields the stores after the merge change |
| SkewHeap.RemoveEntry | lab7/libs/skew_heap.h:69-85 | the linked heap becomes the removal from its tree, for a root and for an inner entry; the removed entry is not written |
| StrideOrder.PreorderIffWindow | lab8/kern/schedule/default_sched_stride.c:15-24 | the comparator is a total preorder on a set exactly when its strides fit in half the circle |
| StrideOrder.UnwrapsIffPreorder | lab8/kern/schedule/default_sched_stride.c:15-24 | the wrapped strides of a set have counters without wrap-around exactly when the comparator is a total preorder on it, which is then the order of any such counters |
| StrideOrder.ChargeKeepsPreorder | lab8/kern/schedule/default_sched_stride.c:153-155 | the minimum may advance by any pass below half the circle |
| StrideSched.PicksMinimum | lab8/kern/schedule/default_sched_stride.c:125-157 | the process that runs next is below all in the queue, and has the least of any counters that unwrap the strides |
| StrideSched.PassIsQuotient | lab8/kern/schedule/default_sched_stride.c:153-155 | the pass is the quotient of BIG_STRIDE by the priority, and BIG_STRIDE for priority 0 |
| StrideSched.AdvanceOrder | lab8/kern/schedule/default_sched_stride.c:153-155 | changing the root's stride while it is in the pool does no harm to what remains |
| StrideSched.StepKeepsFormed | lab8/kern/schedule/sched.c:58-100 | no event links a process twice or leaves the current process in the queue, whatever the strides are |
| StrideSched.StepKeepsInvariantIff | lab8/kern/schedule/sched.c:58-100 | an event keeps the order of the queue exactly when whoever wakes fits in half the circle |
| StrideSched.ScheduleEffect | lab8/kern/schedule/sched.c:78-100 | who competes after schedule(), with the current process staying or blocking; which one runs, and that only its stride changes, by its pass |
| StrideSched.WakeEffect | lab8/kern/schedule/sched.c:58-76 | a waking process competes and nothing else changes |
| StrideSched.SetPriorityEffect | lab8/kern/process/proc.c:1132-1139 | only the priority of the current process changes |
| StrideSched.RunCompetitors | lab8/kern/schedule/sched.c:58-100 | over any run those compete who woke and have not blocked since |
| StrideSched.RunOrderedIff | lab8/kern/schedule/sched.c:58-100 | over any run of scheduling, waking and priority changes the comparator is a total preorder on the competitors and the pool is in heap order at every moment, exactly when everyone who wakes fits at that moment |
| StrideShare.LeadStaysBounded | lab8/kern/schedule/default_sched_stride.c:125-157 | the lead of one competitor over another counts their turns and never leaves the interval between their passes, whatever wraps around |
| StrideShare.Overtaking | lab8/kern/schedule/default_sched_stride.c:125-157 | while one waits, another is charged at most the distance between them and one more pass |
| StrideShare.WaitIsBounded | lab8/kern/schedule/default_sched_stride.c:125-157 | a competitor that leads every other by at most b of its passes waits for b + 1 turns of each at most |
| StrideShare.FreeOneRuns | lab8/kern/schedule/default_sched_stride.c:125-157 | beside a competitor that is never charged, one such runs within bounded time |
| StrideTurns.TurnEffect | lab8/kern/schedule/sched.c:78-100 | a turn goes to a competitor that nobody is behind, charges it its pass and changes nothing else about the competitors |
| StrideTurns.TurnsAreFair | lab8/kern/schedule/sched.c:78-100 | the scheduler's turns are such a game on its wrapped strides |
| StrideTurns.TurnsEffect | lab8/kern/schedule/default_sched_stride.c:125-157 | a stride counts its process's turns, modulo 2^32 |
| StrideTurns.ChargesBalance | lab8/kern/schedule/default_sched_stride.c:125-157 | what two competitors have been charged stays within a fixed distance of their first lead |
| StrideTurns.ProportionalShare | lab8/kern/schedule/default_sched_stride.c:113-157 | after any number of turns two processes that started level have been charged the same, to within one pass of theirs |
| StrideTurns.HugePriorityStarves | lab8/kern/process/proc.c:1132-1139 | a process level with one whose priority exceeds BIG_STRIDE gets one turn at most |
| StrideTurns.WaitByLead | lab8/kern/schedule/default_sched_stride.c:113-157 | the turn within which a competitor runs, by how many passes it leads the others |
| StrideTurns.LevelWait | lab8/kern/schedule/default_sched_stride.c:113-157 | a competitor that is ahead of nobody runs within one round |
| StrideTurns.BoundedWait | lab8/kern/schedule/default_sched_stride.c:113-157 | when no other priority exceeds BIG_STRIDE, a competitor runs within (r-1) * 2^31 + 1 turns of r competitors |
| StrideTurns.NoStarvationIff | lab8/kern/schedule/default_sched_stride.c:113-157 | every competitor keeps running for ever exactly when it is alone or no priority exceeds BIG_STRIDE |
| StridePriority.NeverFarAhead | lab8/kern/schedule/default_sched_stride.c:113-157 | a competitor whose pass is no smaller never gets far ahead, and no more than a turn when they start level |
| StridePriority.PriorityPaysIff | lab8/kern/process/proc.c:1131-1139 | a process with a priority up to BIG_STRIDE gets ahead of another without bound exactly when its pass is smaller and nobody's priority exceeds BIG_STRIDE |
| StridePriority.HugePriorityPays | lab8/kern/process/proc.c:1131-1139 | a process whose own priority exceeds BIG_STRIDE gets ahead of everybody if it is behind all others of the kind, and of nobody if it is ahead of one |
| StridePriority.BiggerPriorityPaysIff | lab8/kern/process/proc.c:1131-1139 | of two priorities the smaller never gets ahead, and the bigger does exactly when its quotient is smaller |
| StridePriority.PriorityShare | lab8/kern/process/proc.c:1131-1139 | turns of two processes that start level are in proportion to their priorities, to within one turn and the rounding of the quotients |
| StrideRuns.NewcomerBreaksOrder | lab8/kern/process/proc.c:149 | from the start, two processes get three turns in good order; a third one wakes with stride 0 and the comparator is cyclic |
| StrideRuns.LevelAfterAsking | lab8/kern/process/proc.c:1132-1139 | two new processes that ask for priorities in their first turns are level afterwards |
| StrideRuns.ThirdTurnNeverComes | lab8/kern/process/proc.c:1132-1139 | of those two, when the other asks for 2^31, the first gets exactly one more turn |
| StrideRuns.UnequalPrioritiesAlike | lab8/kern/process/proc.c:1131-1139 | of those two, with priorities 2^30 and 2^31 - 1, neither ever gets two turns more than the other |
| StrideQueue.Scheduler.Enqueue | lab8/kern/schedule/default_sched_stride.c:62-85 | performs the enqueue step on the linked pool and renews the time slice |
| StrideQueue.Scheduler.Dequeue | lab8/kern/schedule/default_sched_stride.c:95-111 | performs the dequeue step on the linked pool |
| StrideQueue.Scheduler.PickNext | lab8/kern/schedule/default_sched_stride.c:125-157 | picks the root and advances its stride by BIG_STRIDE / priority; nothing on an empty pool |
| StrideQueue.Scheduler.Schedule | lab8/kern/schedule/sched.c:78-100 | performs one scheduling step on the linked pool |
| StrideQueue.Scheduler.Wake | lab8/kern/schedule/sched.c:58-76 | performs one waking step; nothing for a process that is current or runnable already |
| StrideQueue.Scheduler.SetPriority | lab8/kern/process/proc.c:1132-1139 | performs one change of priority of the current process |
| Lcg.GeometricDivisibility | lab7/libs/rand.c:13 | 1 + a + ... + a^(n-1) is divisible by exactly the powers of two that divide n |
| Lcg.ReturnsExactly | lab7/libs/rand.c:13 | a state recurs after n steps exactly when 2^k divides n |
| Lcg.SameStateIff | lab7/libs/rand.c:13 | two moments of a run show the same state exactly when a multiple of 2^k apart |
| Lcg.VisitsEveryState | lab7/libs/rand.c:13 | one period passes through every state |
| Lcg.HalfwayFlipsTopBit | lab7/libs/rand.c:13 | half a period changes only the top bit of the state |
| Rand.MaskIsRemainder | lab7/libs/rand.c:13 | the mask of k ones is reduction modulo 2^k |
| Rand.UpdateIsStep | lab7/libs/rand.c:13 | the wrapped and masked 64-bit update is one congruential step modulo 2^48 |
| Rand.Output | lab7/libs/rand.c:14-15 | every value lies in [1, RAND_MAX] |
| Rand.OutputIsResidue | lab7/libs/rand.c:14-15 | the value less 1 is congruent to the upper bits of the state modulo RAND_MAX |
| Rand.Generator.Rand | lab7/libs/rand.c:11-16 | the new state and the value returned |
| Rand.Generator.Srand | lab7/libs/rand.c:22-25 | the new state |
| Rand.GeneratorPeriod | lab7/libs/rand.c:11-16 | the state's period is exactly 2^48 from every state, and covers all states |
| Rand.HalfwayValuesDiffer | lab7/libs/rand.c:11-16 | calls 2^47 apart never return the same number |
| Rand.ValuesPeriod | lab7/libs/rand.c:11-25 | the returned numbers repeat after q calls exactly when 2^48 divides q |
| Rand.FirstValues | lab7/libs/rand.c:4-25 | the numbers that the first three calls return |
| Hash.SpreadIsBijection | lab7/libs/hash.c:13-15 | multiplication by the constant modulo 2^32 has an inverse |
| Hash.SpreadIsAdditive | lab7/libs/hash.c:13-15 | the product is additive modulo 2^32, and is the constant itself at 1 |
| Hash.HashOfOne | lab7/libs/hash.c:13-17 | hash32(1, bits) is the upper bits of the constant |
| Hash.Equidistributed | lab7/libs/hash.c:13-17 | every hash below 2^bits is taken by exactly 2^(32-bits) values, no other by any |
| Memory.Memmove | lab7/libs/string.c:292-311 | the old source bytes are at the destination and nothing else has changed, for every overlap |
| Memory.Memcpy | lab7/libs/string.c:327-339 | the exact memory left, also under overlap |
| Memory.CopiedUpReads | lab7/libs/string.c:327-339 | each byte copied is what the source holds at that moment |
| Memory.MemcpyIsMemmoveIff | lab7/libs/string.c:327-339 | when memcpy does the work of memmove for every memory |
| ListRing.Init | lab7/libs/list.h:40-43 | a ring of one |
| ListRing.AddBetween | lab7/libs/list.h:141-146 | the ring gains the entry between the given neighbours |
| ListRing.Unlink | lab7/libs/list.h:154-158 | the ring loses the entry between the given neighbours; a ring of one stays |
| ListRing.AddBefore | lab7/libs/list.h:66-69 | one insertion at the named place, other rings of the family untouched |
| ListRing.AddAfter | lab7/libs/list.h:53-82 | one insertion at the named place, other rings of the family untouched |
| ListRing.Del | lab7/libs/list.h:91-94 | one deletion at the named place; the deleted entry keeps its fields |
| ListRing.DelInit | lab7/libs/list.h:102-106 | one deletion, and the deleted entry becomes a ring of its own |
| ListRing.Empty | lab7/libs/list.h:112-115 | true exactly for a ring of the head alone |
| ListRing.WalkGoesRound | lab7/libs/list.h:121-124 | following next visits the ring in order, for ever |
| ListRing.SingleCycle | lab7/libs/list.h:121-124 | a walk is back at its start exactly after whole rounds |
| Readline.Readline | lab3/libs/readline.c:24-49 | the prompt and the echo are output, and the line and the buffer are those of the pure stack editor |
| Readline.EchoReplays | lab3/libs/readline.c:35-42 | the echoed characters, edited again, give the same line |
| Readline.PrintableLine | lab3/libs/readline.c:35-38 | printable characters are the line, up to 1023 of them |
| Readline.BackspaceUndoes | lab3/libs/readline.c:39-42 | a backspace takes back the last character kept |
| Readline.Ignored | lab3/libs/readline.c:35-42 | other control characters, and what does not fit, do nothing |
| Readline.ReadingEnds | lab3/libs/readline.c:29-49 | what ends a line and what makes it fail |
| Numerals.ValueOfDigits | lab7/libs/printfmt.c:39-54 | the digits printed have the value of the number |
| Numerals.DigitCount | lab7/libs/printfmt.c:39-54 | the number of digits is that of the canonical numeral |
| Numerals.DigitTable | lab7/libs/printfmt.c:58-60 | the digits are those of the table, in lower case |
| Words.IntIsCongruent | lab7/libs/printfmt.c:81-97 | an int has the low 32 bits of its slot |
| Words.LongIsCongruent | lab7/libs/printfmt.c:81-97 | a long has the 64 bits of its slot |
| FormatLaws.LiteralText | lab7/libs/printfmt.c:132-138 | text without '%' prints as it is |
| FormatLaws.ScanEnds | lab7/libs/printfmt.c:145-190 | a directive ends at the first character that is no flag, and what it is then |
| FormatLaws.ZeroAfterDot | lab7/libs/printfmt.c:145-175 | a '0' right after the '.' of a precision is the flag it would be before it |
| FormatLaws.Composition | lab7/libs/printfmt.c:125-285 | output and arguments of a format followed by another |
| FormatLaws.ComposesIffClosed | lab7/libs/printfmt.c:125-285 | exactly the formats that end outside a directive compose |
| FormatLaws.UnfinishedVerbatim | lab7/libs/printfmt.c:277-282 | a directive cut short by the end prints verbatim |
| FormatLaws.UnrecognisedVerbatim | lab7/libs/printfmt.c:277-282 | an unrecognised directive prints verbatim; its stars have consumed arguments |
| FormatLaws.NumberWidth | lab7/libs/printfmt.c:39-54 | a numeric field is as wide as asked or as its canonical numeral, which stands at its right end |
| FormatLaws.StrWidth | lab7/libs/printfmt.c:212-232 | width, precision, padding and masking of a string field, character by character |
| FormatLaws.ErrorFormat | lab7/libs/printfmt.c:203-205 | what the inner format of an unknown error prints |
| FormatLaws.StringFormat | lab7/libs/printfmt.c:206-208 | what the inner format of a known error prints |
| Directives.ConversionAlphabet | lab7/libs/printfmt.c:192-275 | the characters that end a directive |
| Directives.FlagAlphabet | lab7/libs/printfmt.c:148-190 | the characters that keep a directive open |
| Directives.UnsignedPrints | lab7/libs/printfmt.c:244-270 | %u, %o and %x with padding flags, a width and 'l': value, base, field |
| Directives.SignedPrints | lab7/libs/printfmt.c:234-242 | %d with padding flags, a width and 'l': sign, absolute value, field |
| Directives.PointerPrints | lab7/libs/printfmt.c:256-262 | %p with padding flags and a width: prefix and field |
| Directives.StringPrints | lab7/libs/printfmt.c:212-232 | %s with padding flags, '#', a width and a precision, character by character |
| Directives.NullPrints | lab7/libs/printfmt.c:213-215 | the null pointer prints as the string "(null)" would |
| Directives.CharPrints | lab7/libs/printfmt.c:193-196 | %c passes on its argument as an int |
| Directives.PercentPrints | lab7/libs/printfmt.c:272-275 | %% prints one '%' and takes no argument |
| Directives.ErrorPrints | lab7/libs/printfmt.c:198-209 | %e prints the message of the absolute value |
| Directives.ErrorMessages | lab7/libs/printfmt.c:17-28 | the table of messages, and what is printed for other numbers |
| Directives.StarIsWidth | lab7/libs/printfmt.c:169-186 | a star as the width stands for the numeral of its argument |
| Directives.StarsAreWidthAndPrecision | lab7/libs/printfmt.c:169-186 | two stars stand for the numerals of a width and a precision |
| Directives.StarWithoutWidth | lab7/libs/printfmt.c:169-186 | a star whose argument is not positive asks for no width |
| Directives.AddressPrints | lab7/kern/debug/kdebug.c:13-15 | what the kernel's "0x%08x" prints |
| Printfmt.SprintBuf.Putch | lab7/libs/printfmt.c:299-305 | stores while there is room and counts always |
| Printfmt.Printnum | lab7/libs/printfmt.c:39-61 | sends the padded numeral |
| Printfmt.Strnlen | lab7/libs/string.c:33-40 | the length, or the bound if that is less |
| Printfmt.PutChars | lab7/libs/printfmt.c:221-228 | sends the first characters of the string, masked if asked |
| Printfmt.PutString | lab7/libs/printfmt.c:212-232 | sends the string field |
| Printfmt.PutError | lab7/libs/printfmt.c:198-209 | sends the description of the error, through the formatter itself |
| Printfmt.Convert | lab7/libs/printfmt.c:192-275 | sends what the conversion renders and consumes its argument |
| Printfmt.ReadNumber | lab7/libs/printfmt.c:159-167 | the decimal value of the longest run of digits |
| Printfmt.OneFlag | lab7/libs/printfmt.c:148-190 | one flag, number or star leaves the reading of the directive as it was |
| Printfmt.TakeFlags | lab7/libs/printfmt.c:145-190 | stops at the first character that is no flag |
| Printfmt.Rewind | lab7/libs/printfmt.c:280-281 | the cursor goes back exactly to the character after the '%' |
| Printfmt.Directive | lab7/libs/printfmt.c:140-283 | one escape sequence sends what its format means |
| Printfmt.PutText | lab7/libs/printfmt.c:133-138 | sends exactly the text up to the next '%' or the end |
| Printfmt.Vprintfmt | lab7/libs/printfmt.c:125-285 | terminates, never reads past the NUL, and sends exactly what the format means |
| Printfmt.Vsnprintf | lab7/libs/printfmt.c:337-348 | the buffer holds the first min(size-1, L) characters and a NUL, nothing else is written, L is returned; the error cases |
| Printfmt.OrdinaryFormatLeft | lab7/libs/printfmt.c:337-348 | a format without '%' is copied to the buffer |
| Strtol.ReadDigits | lab7/libs/string.c:232-253 | the value and the end of the longest run of digits |
| Strtol.ReadMagnitude | lab7/libs/string.c:221-253 | prefix and digits |
| Strtol.Strtol | lab7/libs/string.c:203-259 | the value, wrapped to 64 bits, and the end of what was read |
| Strtol.ParseParts | lab7/libs/string.c:203-259 | of blanks, sign, prefix, digits and tail everything but the tail is read, with the signed positional value |
| Strtol.CapitalPrefix | lab7/libs/string.c:221-230 | of a text that starts with "0X" only the 0 is read, in base 0 and 16 |
| Strtol.OctalRead | lab7/libs/string.c:207-228 | blanks, a sign, "0" and octal digits in base 0 |
| Strtol.DecimalRead | lab7/libs/string.c:207-231 | blanks, a sign and decimal digits in base 0 |
| Strtol.HexRead | lab7/libs/string.c:207-248 | blanks, a sign, "0x" and hexadecimal digits of either case in base 0 or 16 |
| Strtol.LetterValues | lab7/libs/string.c:233-247 | letters count from 10 on, alike in either case |
| RoundTrip.UnsignedReadsBackIff | lab7/libs/printfmt.c:244-270 | exactly which unsigned fields, of any number, strtol reads back |
| RoundTrip.NegativeReadsBackIff | lab7/libs/printfmt.c:234-242 | which negative %d fields strtol reads back |
| RoundTrip.PointerReadsBackIff | lab7/libs/printfmt.c:256-262 | exactly which %p fields strtol reads back in base 0 or 16 |
| RoundTrip.ScanPads | lab7/libs/printfmt.c:140-156 | the padding character of a directive is a space, '0' or '-' |
| RoundTrip.DirectiveReadsBackIff | lab7/libs/printfmt.c:145-270 | any numeric directive, with any flags, width, stars and argument: exactly when strtol reads back what it printed |
| RoundTrip.LongReadsBack | lab7/libs/printfmt.c:234-242 | every long printed by "%ld" is read back |

## Left out

- Vprintfmt: putch is always sprintputch; other sinks would receive the same characters, which the contract names without referring to the buffer.
- Vprintfmt: a missing or mistyped argument, and INT_MIN for %e, are excluded by the precondition, being undefined in C.
- Printnum: base 1, which its comment allows; the recursion on num / 1 does not end there unless num is 0.
- Vsnprintf: the counter and the width, `int` in C, do not overflow here.
- NegativeReadsBackIff: the case of the least long relies on wrap-around that C leaves undefined.
- Strtol: overflow of `long`, undefined in C, wraps around here; the end is always returned, where C skips it for a null `endptr`.
- Readline: the re-use of one static buffer by all callers; an input that never ends the line gives the outcome Waiting instead of a call that does not return.
- Enqueue: `proc->rq`, which names the only run queue there is; strides, priorities and time slices are maps from heap entries instead of fields of the process.
- Schedule: `need_resched`, the run counter and the context switch; the idle process is the absence of a current one.
- `stride_proc_tick`: time slices are renewed here but not used up.
- Wake: `wait_state`, and the assertion that the process is no zombie.
- SetPriority: the line it prints.
- HugePriorityPays: of several such processes with the same stride the shape of the heap decides which one runs.
- RunCost: counts calls of skew_heap_merge, not machine steps.
- `snprintf`, `printfmt` and the console output functions: wrappers that pass their arguments on.
- The remaining string functions (`strcmp`, `strchr`, `memset` and the like): only easy properties.
- Timers and wait queues of the kernel, page allocation, the file system: separate subsystems.
- `atomic.h`, `sbi.h`, the assembly in `riscv.h`: no semantics to model beyond `do_div`.
