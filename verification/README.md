# Verified models of the simulation components of INET and of the cooperative TSN application

This project models nine self-contained components of the repository in Dafny and proves what they promise.
`dafny verify dfyconfig.toml` checks all of it.

| file | component |
|---|---|
| `IntervalTree.dfy` | the interval tree: heap nodes with parent pointers, two sentinels, `max_high`, and a query with an explicit stack |
| `IntervalTreeLaws.dfy` | what the invariants of that tree come to: ascending keys, logarithmic height, the order of a query |
| `MessageDispatcher.dfy` | flooding of service and protocol registrations through a network of dispatchers |
| `Macho.dfy` | the hierarchical state machine engine with history |
| `Int128.dfy` | the 128-bit integer in two words |
| `PatternMatcher.dfy` | glob patterns: tokenizer and backtracking matcher |
| `PatternSyntax.dfy` | the documented syntax of the patterns, and what the tokenizer makes of it |
| `DynamicScheduling.dfy` | TSN streams registered by arriving packets, and their time slots |
| `InitStageRegistry.dfy` | numbering of initialization stages |
| `MemoryStreams.dfy` | bit streams in memory |
| `ResultFilters.dfy` | throughput, packet rate and utilization filters |
| `ByteVectors.dfy` | vectors of bytes as bits, and what writing bytes off a byte boundary does to them |
| `NBitMasks.dfy` | the masks of fields of n bits |
| `Words.dfy`, `Arithmetic.dfy` | powers of two, bitwise operators on natural numbers, products and quotients |
| `Options.dfy`, `Strings.dfy` | what several modules have in common |

Code that changes fields is modelled by classes and methods with loops, in the source's own branches and
order; what the methods compute is stated by functions and predicates on values, and the properties are
lemmas about those. Ghost fields hold what a proof needs and the program does not have: the in-order
position of a tree node, the trace of a state machine, the arrivals of a filter.

How the parts of the source map to the model:

- **Interval tree.** Each node has ghost labels for its in-order position and the range of positions below
  it, so that the shape of the tree is a conjunction of local facts. The long functions of the source are
  split: `insert` into `Place`, `InsertFixup` and `FinishInsert`, `deleteNode` into `CutOut` (with `Splice`
  and `Transplant`) and `Rebalance`, `query` into `Descend` and `Backtrack`. Left and right cases that mirror
  each other in the source are separate members here. Stored and queried intervals have
  `low <= high`, and `low` lies above the key of `nil`.
- **Message dispatcher.** The four registration handlers differ only in the table and the flags they use;
  one member takes the kind of registration as an argument. Modules that are not dispatchers take note of a
  registration and do nothing.
- **Macho.** A state is a value: its place below its superstate, its history strategy, the kind of its box.
  The history and the box of a state instance are entries of maps and sets of the machine. What user code
  does in init actions is arbitrary, as long as it goes to a proper substate, as the engine asserts; entry
  and exit actions do nothing but appear in the trace. Events are finite: the event that a handler
  dispatches is part of the event.
- **Int128.** The words are integers with their ranges; each operator that can leave a range is followed by an
  explicit wrap. A signed word wraps around like an unsigned one.
- **PatternMatcher.** Case-sensitive, and without a prefix match. A cursor is the rest of the string.
- **TSN streams.** Times are integer picoseconds. A product with a floating-point constant is any integer
  within one tick of the exact result; the packet time may be one nanosecond short, as its conversion truncates.
- **Memory streams.** Bytes are numbers below 256. The widths of the integer fields are an argument (2, 3, 4,
  6 and 8 bytes in the source).
- **Filters.** Times are integer ticks, sums are exact and ratios are rationals; what is fired is appended to a
  sequence.

Where the code departs from what it or its documentation intends, the model follows the code:

- `operator<` of `Int128` orders two numbers with the same negative high word by their low words as signed
  numbers (`Int128s.LessIsOrder` gives the exact condition, `Int128s.LessCanFail` an example).
- `div` is wrong for the dividend INT128_MIN and does not end for the divisor INT128_MIN; `str` prints the least
  number as "-0"; assigning a negative 64-bit integer does not extend its sign, while constructing from one does.
- A backslash before a bracket with limits does not take away the meaning of the bracket
  (`PatternSyntax.EscapedBracketIsStillARange`); `PatternSyntax.EscapedInPattern` gives the exact condition.
- The parser of `Int128` takes 'a' for a digit in decimal and 'g' in hexadecimal texts (`Int128s.ExtraDigits`), so that
  "1a" is 20; `Int128s.MeaningIsUsual` says exactly when a text has its usual value.
- `writeByte` off a byte boundary is right only at half a byte, or for the byte 0; the longer forms only there, or if all
  their bytes are 0 (`ByteVectors.BytesAreWritten`). A field of 32 bits begins with a
  negative `int` as its mask, so that it is written rightly only without gaps below its highest bit and read rightly only if it is 0
  (`NBitMasks.WideIsWritten`, `NBitMasks.WideIsRead`); with more bits the shift is undefined, and no value of it is right
  for all numbers (`NBitMasks.NoMaskWrites`, `NBitMasks.NoMaskReads`).
- A window of the throughput filter can hold one packet more than its limit, as the packet that ends an interval is not
  counted in the next one (`ResultFilters.LimitIsExceeded`); `ReceiveSignal` says exactly when.
- A sampled offset of exactly 0 is no sample (`DynamicScheduling.ZeroIsNoSample`): the packet is left outside if and only if
  the slot starts later (`ZeroInside`, `ZeroIsOutside`). A packet of an unresolved source,
  or with a dotted destination, registers a new stream each time (`DynamicScheduling.FoundAgain`). The start time of
  a slot is negative if the first sample is nearer to the beginning of the cycle than the offset (`StartFits`, `NegativeStart`,
  `StartsBeforeCycle`).
- After a circle has been found the stage registry takes its incomplete numbering for a complete one
  (`InitStages.CircleIsForgotten`).
- `finish` of the throughput and packet rate filters does not fire what arrived at the very end of the last window
  (`ResultFilters.EndIsLost`).

## Model

| member | source | states |
|---|---|---|
| IntervalTrees.OverlapIsSharedPoint | inet/src/inet/common/IntervalTree.cc:463-471 | the comparison that decides overlapping is true exactly when the two closed intervals share a point |
| IntervalTrees.IntervalTree.LeftRotate | inet/src/inet/common/IntervalTree.cc:110-132 | a left rotation changes exactly the six links around `x` and leaves `max_high` of both rotated nodes the maximum of their subtrees |
| IntervalTrees.IntervalTree.RightRotate | inet/src/inet/common/IntervalTree.cc:134-156 | the mirrored rotation, likewise |
| IntervalTrees.IntervalTree.LeftRotateKeeps | inet/src/inet/common/IntervalTree.cc:110-132 | a left rotation keeps one binary tree with the same in-order sequence, and every `max_high` |
| IntervalTrees.IntervalTree.RightRotateKeeps | inet/src/inet/common/IntervalTree.cc:134-156 | so does a right rotation |
| IntervalTrees.IntervalTree.RecursiveInsert | inet/src/inet/common/IntervalTree.cc:158-178 | the new node becomes a leaf behind all keys that are not larger and before all larger ones |
| IntervalTrees.IntervalTree.FindSlot | inet/src/inet/common/IntervalTree.cc:158-170 | the way down ends at a free link between the keys not larger and the larger ones |
| IntervalTrees.IntervalTree.FixupMaxHigh | inet/src/inet/common/IntervalTree.cc:180-186 | if `max_high` is right except on the way up from `x`, walking up makes it right everywhere |
| IntervalTrees.IntervalTree.InsertFixup | inet/src/inet/common/IntervalTree.cc:199-238 | recolouring and rotating ends with equal black heights, no red node below a red one, a black top node and right `max_high` |
| IntervalTrees.IntervalTree.Insert | inet/src/inet/common/IntervalTree.cc:188-240 | inserting keeps key order, red-black balance and `max_high`, and adds exactly one node with the given interval at its place in the sequence |
| IntervalTrees.IntervalTree.GetMinimum | inet/src/inet/common/IntervalTree.cc:242-247 | following left links ends at the first node of the subtree |
| IntervalTrees.IntervalTree.GetSuccessor | inet/src/inet/common/IntervalTree.cc:256-270 | the successor is the node at the next in-order position, the root sentinel for the last one |
| IntervalTrees.IntervalTree.CutOut | inet/src/inet/common/IntervalTree.cc:410-441 | unlinking removes exactly `z` from the sequence and leaves at most one place where a black node is missing |
| IntervalTrees.IntervalTree.DeleteFixup | inet/src/inet/common/IntervalTree.cc:324-384 | a tree that is one black node short at `x` ends balanced again, also when the top node changes while the loop still compares with the old one |
| IntervalTrees.IntervalTree.DeleteNode | inet/src/inet/common/IntervalTree.cc:410-460 | deleting keeps every invariant of the tree, removes exactly the given node and returns its interval |
| IntervalTrees.IntervalTree.RecursiveSearch | inet/src/inet/common/IntervalTree.cc:393-408 | the search by identity finds a node that stores the interval if there is one below, and `nil` otherwise |
| IntervalTrees.IntervalTree.DeleteInterval | inet/src/inet/common/IntervalTree.cc:386-391 | deleting by interval removes one node that stores it, or nothing if there is none |
| IntervalTrees.IntervalTree.MaxHighIsMaximum | inet/src/inet/common/IntervalTree.cc:180-186 | in a valid tree `max_high` is the largest `high` of the subtree, and attained |
| IntervalTrees.IntervalTree.RightIsClean | inet/src/inet/common/IntervalTree.cc:486-511 | if nothing was found after descending to the left because of `max_high`, the right subtree holds nothing either |
| IntervalTrees.IntervalTree.Backtrack | inet/src/inet/common/IntervalTree.cc:503-511 | unwinding the stack keeps the flags right and skips only subtrees without a hit; it stops at a subtree still to be searched or with the stack at height 1 |
| IntervalTrees.IntervalTree.Descend | inet/src/inet/common/IntervalTree.cc:482-501 | visiting a node and choosing a side leaves exactly the hits before the current position collected |
| IntervalTrees.IntervalTree.Query | inet/src/inet/common/IntervalTree.cc:473-514 | for each range the query returns the intervals of exactly the nodes that overlap it, each node once and in preorder, and leaves the stack at height 1 |
| IntervalTreeLaws.InorderAscends | inet/src/inet/common/IntervalTree.cc:158-178 | following the links alone, in order, a valid tree gives each of its nodes once and the keys ascending |
| IntervalTreeLaws.HeightIsLogarithmic | inet/src/inet/common/IntervalTree.cc:188-240 | the colours balance the tree: no way down is longer than twice the logarithm of the number of nodes |
| IntervalTreeLaws.QueryIsFilteredPreorder | inet/src/inet/common/IntervalTree.cc:473-514 | so there is one answer to a query: the preorder of the tree, by its links, without the nodes that do not overlap |
| MessageDispatchers.Network.Register | inet/src/inet/common/IProtocolRegistrationListener.cc:27-37 | handing a registration over a gate restores the registration path, keeps all entries, and leaves the dispatcher behind the gate with an entry for it, unless the registration has come through that dispatcher |
| MessageDispatchers.Network.HandleRegister | inet/src/inet/common/MessageDispatcher.cc:289-395 | a handler ends for every topology; without an error it keeps routes, coverage and flags, and the dispatcher holds an entry, for the gate it heard through unless it was busy; it fails at once if it has an entry for another gate, and otherwise only if some dispatcher deeper in the flood clashes |
| MessageDispatchers.Network.Process | inet/src/inet/common/MessageDispatcher.cc:297-312 | a dispatcher without an entry records the gate and forwards; flags are set and cleared around it, and an error passes through with the clash it stands for |
| MessageDispatchers.Network.Forward | inet/src/inet/common/MessageDispatcher.cc:289-395 | after the loop over the gates every dispatcher behind a gate of the other direction has an entry if this one forwards |
| MessageDispatchers.Network.EnteredRouted | inet/src/inet/common/MessageDispatcher.cc:289-395 | recording the gate a registration came through keeps every route leading to an older entry or to a registered module |
| MessageDispatchers.Network.EnteredCovered | inet/src/inet/common/MessageDispatcher.cc:289-395 | recording an entry keeps the dispatchers that are done complete |
| MessageDispatchers.Network.RegisterGate | inet/src/inet/common/IProtocolRegistrationListener.cc:27-37 | a completed registration leaves no flag set, changes no older entry, gives the dispatcher the module is connected to an entry for this gate, and leaves routes and coverage intact; whether it is completed is decided by the topology: if and only if each dispatcher is reached on one way at most from the gates that have registered, which is also if and only if no dispatcher has a second route afterwards |
| MessageDispatchers.Network.RegisterModule | inet/src/inet/common/IProtocolRegistrationListener.cc:39-50 | registering by several gates, one primitive each, does that for all of them, adds exactly these registrations, keeps all older entries, and is completed if and only if the ways are unique for each primitive |
| MessageDispatchers.Network.RouteReachesModule | inet/src/inet/common/MessageDispatcher.cc:289-395 | from any dispatcher with an entry, following the recorded gates reaches a module that registered and passes no dispatcher twice |
| MessageDispatchers.Network.ClashMeansTwoRoutes | inet/src/inet/common/MessageDispatcher.cc:301-303 | a registration is refused only if some dispatcher has, besides its recorded gate, another one that leads to a registered module without coming back to the dispatcher |
| MessageDispatchers.Network.QuietHasNoClash | inet/src/inet/common/MessageDispatcher.cc:289-395 | conversely, as long as no registration has been refused no dispatcher has such a second gate |
| MessageDispatchers.Network.FreshIsQuiet | inet/src/inet/common/MessageDispatcher.cc:289-395 | empty tables are a state as it is between registrations |
| MessageDispatchers.Network.WayFollowsEntries | inet/src/inet/common/MessageDispatcher.cc:289-395 | between registrations every dispatcher on a way from a registered gate through forwarding dispatchers has its entry for the gate that the way comes by |
| MessageDispatchers.Network.QuietHasUniqueWays | inet/src/inet/common/MessageDispatcher.cc:289-395 | so each dispatcher is reached on one way at most |
| MessageDispatchers.Network.ClashHasTwoWays | inet/src/inet/common/MessageDispatcher.cc:301-303 | a dispatcher with a second route is reached on two ways |
| MessageDispatchers.Network.ThroughStays | inet/src/inet/common/MessageDispatcher.cc:289-395 | a route that passes a dispatcher still passes it after further registrations |
| MessageDispatchers.Network.EntryExactlyIfReached | inet/src/inet/common/MessageDispatcher.cc:289-395 | between registrations a dispatcher has an entry if and only if a path of forwarding dispatchers leads to it from one that a module registered with |
| MessageDispatchers.Network.PathIsCovered | inet/src/inet/common/MessageDispatcher.cc:289-395 | every dispatcher that a path of forwarding dispatchers leads to from one with an entry has an entry as well |
| MessageDispatchers.Network.ForwardersTell | inet/src/inet/common/MessageDispatcher.cc:289-395 | a dispatcher with the flag for a kind of registration has told its neighbours what it knows, and what it knows from a neighbour comes from one with that flag |
| MessageDispatchers.SlotsAreDistinct | inet/src/inet/common/MessageDispatcher.cc:289-395 | registrations of different kinds, protocols or primitives do not share an entry |
| MessageDispatchers.ModuleGates | inet/src/inet/common/IProtocolRegistrationListener.cc:39-50 | modules take in requests and responses of their services, and indications and confirmations of their protocols, so that a dispatcher has an output gate for these |
| MessageDispatchers.Network.Dispatch | inet/src/inet/common/MessageDispatcher.cc:138-287 | the entry for the protocol itself decides on the gate, the entry for any protocol only without it, and with neither there is an error |
| MessageDispatchers.Network.DispatchDelivers | inet/src/inet/common/MessageDispatcher.cc:125-287 | looking a message up at each dispatcher anew delivers it to a module registered for the protocol itself if the first dispatcher has an entry for that, else to one registered for any protocol |
| MessageDispatchers.Network.NoOwnBehind | inet/src/inet/common/MessageDispatcher.cc:289-395 | a dispatcher that knows only where to send any protocol heard that from one that knows no better either |
| MessageDispatchers.Network.RequestIsDelivered | inet/src/inet/common/MessageDispatcher.cc:138-287 | a request ends at a gate that registered exactly that service if the dispatcher has an entry for it, else at one that registered any service |
| MessageDispatchers.Network.IndicationIsDelivered | inet/src/inet/common/MessageDispatcher.cc:138-287 | an indication ends at a gate that registered exactly that protocol if the dispatcher has an entry for it, else at one that registered any protocol |
| Macho.KeptIsBase | inet/src/inet/common/Macho.cc:139-173 | what the exit actions leave entered is what the entry actions build on |
| Macho.EntriesCompleteBase | inet/src/inet/common/Macho.cc:139-154 | the states entered on a transition complete the list of entered states to the target and its superstates, outermost first |
| Macho.ExitsAre | inet/src/inet/common/Macho.cc:156-173 | a state is left if and only if it is entered and is the target itself or not one of its superstates |
| Macho.EntriesAre | inet/src/inet/common/Macho.cc:139-154 | a state is entered if and only if it is on the way to the target and is the target itself or was not entered before |
| Macho.LeftAndEntered | inet/src/inet/common/Macho.cc:139-173 | a target is always entered last, and is left before that if it was entered, as on a transition to itself or to a superstate |
| Macho.ReplayLeave | inet/src/inet/common/Macho.cc:156-173 | an exit action fits the trace if and only if its state is the innermost one entered |
| Macho.ReplayEnter | inet/src/inet/common/Macho.cc:139-154 | an entry action fits the trace if and only if its superstate is the innermost one entered; the state itself is not entered then |
| Macho.ReplayIsChain | inet/src/inet/common/Macho.cc:139-173 | a trace that fits leaves exactly one state and its superstates entered |
| Macho.Machine.Exit | inet/src/inet/common/Macho.cc:156-173 | exit actions come deepest first, for exactly the states left on the way to `next`, each with its box still there; of the boxes exactly the own ones of the states left go |
| Macho.Machine.Entry | inet/src/inet/common/Macho.cc:139-154 | entry actions come outermost first, for exactly the states not entered yet, each with its box there already; of the boxes exactly theirs are added |
| Macho.Machine.SetHistorySuper | inet/src/inet/common/Macho.h:276-297 | every superstate of the state that was left remembers what its strategy asks for, and no other state |
| Macho.Machine.SaveHistory | inet/src/inet/common/Macho.h:685-739 | passing history upwards reaches each superstate with history, and stops only where none is above |
| Macho.SavedInSteps | inet/src/inet/common/Macho.h:276-297 | saving the history of one state and then of its superstates leaves each with its substate towards the state that was left, that state itself, or what it remembered before |
| Macho.MoveRemembers | inet/src/inet/common/Macho.h:276-297 | after a move a superstate with shallow history remembers its own substate on the way to the state that was left, one with deep history that state itself, and every other state what it remembered before |
| Macho.NothingAbove | inet/src/inet/common/Macho.h:685-739 | a hook that does nothing loses no history, as no superstate has any |
| Macho.Machine.SavedHistoryOk | inet/src/inet/common/Macho.h:727-739 | a stored history is always a proper substate of the state that stores it |
| Macho.Machine.Init | inet/src/inet/common/Macho.cc:175-187 | an init with history asks for the stored state, any init clears it, and a chained transition goes to a proper substate |
| Macho.Machine.Transit | inet/src/inet/common/Macho.cc:348-396 | one turn of the inner loop: the trace grows by exactly the exits and entries, the target is the last state entered and has been left before if it was entered, persistent boxes stay and the others follow their states, history is saved, and a chained transition is strictly deeper |
| Macho.Machine.Settle | inet/src/inet/common/Macho.cc:348-396 | the inner loop makes at most as many turns as the hierarchy has levels, and ends at the target or a substate of it |
| Macho.Machine.RattleOn | inet/src/inet/common/Macho.cc:342-405 | the outer loop ends with nothing pending and exactly the current state and its superstates entered, outermost first; on the way it takes the steps of the transition system `Steps`, transitions before events, and leaves exactly their trace |
| Macho.RunReachesGoal | inet/src/inet/common/Macho.cc:342-405 | every run that comes to rest ends in the last state that a transition or a chain of events asked for, or in a substate of it |
| Macho.SavedThenInitialized | inet/src/inet/common/Macho.cc:348-396 | saving history, then clearing or using it by the initializer, is one step of the transition system |
| Macho.Machine.Start | inet/src/inet/common/Macho.cc:248-266 | after starting the machine is in the given state or a substate of it, with exactly those states entered |
| Macho.Machine.Dispatch | inet/src/inet/common/Macho.h:1909-1918 | handling an event and all that follows from it is a run from the request and the event of the handler, to the last state asked for or a substate of it |
| Macho.Machine.Shutdown | inet/src/inet/common/Macho.cc:268-278 | shutting down exits all states deepest first, leaves none entered, and of the boxes exactly those persistent ones that were there |
| Macho.Machine.ClearHistoryDeep | inet/src/inet/common/Macho.cc:301-309 | exactly the state and its substates forget |
| Int128s.Int128.Negated | inet/src/inet/common/Int128.cc:160-166 | the negative, for every number but the least, which is its own |
| Int128s.Int128.AddAssign | inet/src/inet/common/Int128.cc:202-212 | adding with a carry between the words is addition modulo 2^128, also of a number to itself |
| Int128s.Int128.SubAssign | inet/src/inet/common/Int128.h:128-131 | adding the negative is subtraction modulo 2^128, for the least number too |
| Int128s.Int128.AssignInt64 | inet/src/inet/common/Int128.h:89-89 | assignment from a signed word keeps its value if and only if it is not negative |
| Int128s.Int128.Bit | inet/src/inet/common/Int128.cc:289-298 | the bit asked for is the bit of the two's complement form, with the sign beyond bit 127 |
| Int128s.Int128.SetBit | inet/src/inet/common/Int128.cc:300-317 | setting or clearing a bit adds or takes away its weight, modulo 2^128 |
| Int128s.Int128.ShiftLeftAssign | inet/src/inet/common/Int128.cc:350-378 | a left shift is multiplication by a power of two modulo 2^128, for every distance |
| Int128s.Int128.ShiftRightAssign | inet/src/inet/common/Int128.cc:319-348 | a right shift is division by a power of two rounded down, for every distance |
| Int128s.Int128.MulAssign | inet/src/inet/common/Int128.cc:214-235 | shifting and adding is multiplication modulo 2^128 of signed operands |
| Int128s.LessIsOrder | inet/src/inet/common/Int128.cc:380-391 | the operator is the order of the values if and only if the high words differ, are not negative, or the low words agree in their top bit |
| Int128s.LessCanFail | inet/src/inet/common/Int128.cc:380-391 | an input for which it is not |
| Int128s.LeadingBits | inet/src/inet/common/Int128.cc:253-263 | the first loop brings bits of the dividend in until the divisor fits, and the unsigned counter is right again after it wrapped |
| Int128s.LongDivision | inet/src/inet/common/Int128.cc:265-277 | the second loop ends with dividend = quotient * divisor + remainder and a remainder below the divisor; nothing overflows on the way |
| Int128s.DivisionTurn | inet/src/inet/common/Int128.cc:265-277 | one turn of the second loop, for any operands, is what `Turn` says, with subtraction and shift modulo 2^128 |
| Int128s.Int128.Div | inet/src/inet/common/Int128.cc:237-287 | quotient and remainder are those of truncating division if and only if the dividend is not the least number |
| Int128s.TruncationIsUnique | inet/src/inet/common/Int128.cc:237-287 | there is only one such quotient and remainder |
| Int128s.LeastDivisorLoops | inet/src/inet/common/Int128.cc:245-277 | with the least number as divisor neither the early return nor the first loop applies, and after any number of turns the second loop has not ended: its remainder alternates between two values |
| Int128s.Int128.DivAssign | inet/src/inet/common/Int128.h:133-138 | division in place gives the truncated quotient |
| Int128s.Int128.ModAssign | inet/src/inet/common/Int128.h:140-144 | the remainder may be written over the dividend |
| Int128s.Int128.Str | inet/src/inet/common/Int128.cc:37-62 | the text is a sign and the digits of the magnitude in any radix from 2 to 37; the index into the buffer of 256 characters never reaches 0 |
| Int128s.TextIsPositional | inet/src/inet/common/Int128.cc:37-62 | that text is the usual notation of the number in each of these radices, with a sign and without leading zeros |
| Int128s.Int128.Set | inet/src/inet/common/Int128.cc:64-107 | parsing gives the number that `Meaning` reads from the text, modulo 2^128 |
| Int128s.DigitBeyondRadix | inet/src/inet/common/Int128.cc:89-97 | a character is read as a digit not below the radix if and only if it is 'a' or 'A' in decimal, or 'g' or 'G' in hexadecimal texts |
| Int128s.ReadIsPositional | inet/src/inet/common/Int128.cc:88-102 | the digits at the front of a text come in with their positional value if and only if no such character follows them |
| Int128s.MeaningIsUsual | inet/src/inet/common/Int128.cc:64-107 | so a text with sign and prefix is read as the number it usually denotes if and only if no such character follows its digits |
| Int128s.ExtraDigits | inet/src/inet/common/Int128.cc:88-102 | texts that are read as other numbers |
| Int128s.DecimalRoundTrip | inet/src/inet/common/Int128.cc:37-107 | parsing the decimal text of a number gives it back if and only if it is not the least one |
| Int128s.PrefixedRoundTrip | inet/src/inet/common/Int128.cc:37-107 | octal and hexadecimal texts of positive numbers are read back behind their prefixes |
| PatternMatchers.LiteralHead | inet/src/inet/common/PatternMatcher.cc:248-257 | a literal stands for itself at the beginning of the line only |
| PatternMatchers.NumberHead | inet/src/inet/common/PatternMatcher.cc:287-295 | a numeric range stands for the longest run of digits, if its number is within the limits |
| PatternMatchers.AnySeqBeforeLiteral | inet/src/inet/common/PatternMatcher.cc:297-304 | before a final literal "**" matches exactly the lines that end with the literal |
| PatternMatchers.LastTwoDiffer | inet/src/inet/common/PatternMatcher.cc:342-358 | the check of the last two characters rejects only lines that do not match |
| PatternMatchers.PatternMatcher.ParseNumRange | inet/src/inet/common/PatternMatcher.cc:147-174 | both limits, or no change of the cursor |
| PatternMatchers.PatternMatcher.ParseSet | inet/src/inet/common/PatternMatcher.cc:95-129 | the ranges up to the closing brace, which is a member if it comes first |
| PatternMatchers.PatternMatcher.ParseLiteralString | inet/src/inet/common/PatternMatcher.cc:131-145 | the literal and the rest of the pattern, or a read past its end |
| PatternMatchers.PatternMatcher.NextElem | inet/src/inet/common/PatternMatcher.cc:39-74 | a turn of the loop consumes something, or is an empty step at a bracket that the next turn consumes |
| PatternMatchers.PatternMatcher.SetPattern | inet/src/inet/common/PatternMatcher.cc:32-93 | the tokens of the text, between "**" for a substring match, and an end mark |
| PatternMatchers.PatternMatcher.DoMatch | inet/src/inet/common/PatternMatcher.cc:241-336 | the answer is whether the line can be cut into one fitting piece per token, for every token list; both shortcuts included |
| PatternMatchers.PatternMatcher.TrySeq | inet/src/inet/common/PatternMatcher.cc:306-324 | trying ever longer pieces finds a cut if there is one, without a dot for a single star |
| PatternMatchers.PatternMatcher.Matches | inet/src/inet/common/PatternMatcher.cc:338-362 | so is the answer for the whole line, with the check of its last characters first |
| PatternMatchers.PlainText | inet/src/inet/common/PatternMatcher.cc:390-395 | a text without wildcards is a single literal, and matching it is string equality |
| PatternMatchers.PlainTextInside | inet/src/inet/common/PatternMatcher.cc:76-88 | in substring mode it matches exactly the lines it occurs in |
| PatternMatchers.UndefinedNeedsBackslash | inet/src/inet/common/PatternMatcher.cc:131-145 | no pattern is read past its end unless it ends in a backslash |
| PatternSyntax.WrittenIsRead | inet/src/inet/common/PatternMatcher.h:28-78 | a pattern in the documented syntax, of plain and escaped text, wildcards in either mode, sets of single characters and spans, and ranges in braces and in brackets, is read as the tokens that its parts mean |
| PatternSyntax.BracketInPlain | inet/src/inet/common/PatternMatcher.h:34-34 | a range in brackets between plain texts is a range, and its brackets belong to the texts |
| PatternSyntax.BracketBehindWildcard | inet/src/inet/common/PatternMatcher.cc:39-74 | so it is behind a wildcard |
| PatternSyntax.BracketMatches | inet/src/inet/common/PatternMatcher.h:34-34 | such a pattern stands for the texts with a number between the limits in the brackets |
| PatternSyntax.OneElem | inet/src/inet/common/PatternMatcher.cc:241-336 | what each token alone stands for |
| PatternSyntax.WildcardsStandFor | inet/src/inet/common/PatternMatcher.h:28-30 | "?" and "*" exclude the dot in dotted mode only, "**" never |
| PatternSyntax.SetStandsFor | inet/src/inet/common/PatternMatcher.h:31-32 | a set stands for one character that is among its members, a negated one for one that is not |
| PatternSyntax.BracesStandFor | inet/src/inet/common/PatternMatcher.h:33-33 | a range in braces stands for the numbers between its limits, either of which may be missing |
| PatternSyntax.SurroundedMatchesInside | inet/src/inet/common/PatternMatcher.cc:76-88 | in substring mode a pattern matches if and only if it matches from some place on with anything behind it |
| PatternSyntax.TwoDotsIsSubstring | inet/src/inet/common/PatternMatcher.cc:390-395 | the test for two dots is that ".." occurs |
| PatternSyntax.EscapedTextIsPlain | inet/src/inet/common/PatternMatcher.h:35-35 | a text with every character escaped matches itself alone |
| PatternSyntax.EscapedInLiteral | inet/src/inet/common/PatternMatcher.cc:131-145 | a backslash makes the next character part of the literal if and only if that does not start a bracket with limits |
| PatternSyntax.EscapedInPattern | inet/src/inet/common/PatternMatcher.cc:131-145 | so it takes the meaning away in a whole pattern, unless the pattern is malformed further on in any case |
| PatternSyntax.EscapedBracketIsStillARange | inet/src/inet/common/PatternMatcher.cc:131-145 | an escaped bracket with limits is still a numeric range |
| DynamicScheduling.TsnStream.PushTime | cooperative_tsn/src/cooperative_tsn/applications/DynSchedForwardingApplication.h:294-314 | the window keeps the last ten arrivals, each as its offset in [0, 100 ms) from the creation of the module |
| DynamicScheduling.TsnStream.SetStartTime | cooperative_tsn/src/cooperative_tsn/applications/DynSchedForwardingApplication.h:316-326 | the start time is the smallest sample that is not zero |
| DynamicScheduling.TsnStream.GetNewSlotSize | cooperative_tsn/src/cooperative_tsn/applications/DynSchedForwardingApplication.h:221-286 | at packets 2, 12, 22, ... the window from the new start time covers each nonzero sample and a packet transmission after it, and is no longer than that plus a tenth and 21 microseconds |
| DynamicScheduling.SlotCovers | cooperative_tsn/src/cooperative_tsn/applications/DynSchedForwardingApplication.h:253-286 | such a window covers the samples whatever the rounding of the tenth and its half |
| DynamicScheduling.TsnStream.EachPacketIsServed | cooperative_tsn/src/cooperative_tsn/applications/DynSchedForwardingApplication.h:221-332 | each packet enters exactly one recomputation; its slot has the packet inside if and only if the packet did not come at offset 0 or the slot does not start later |
| DynamicScheduling.ZeroIsNoSample | cooperative_tsn/src/cooperative_tsn/applications/DynSchedForwardingApplication.h:241-252 | a packet at offset 0 has no influence on the slot |
| DynamicScheduling.ZeroInside | cooperative_tsn/src/cooperative_tsn/applications/DynSchedForwardingApplication.h:241-286 | the packet at offset 0 is inside of the slot if and only if the slot does not start after it |
| DynamicScheduling.ZeroInsideBySamples | cooperative_tsn/src/cooperative_tsn/applications/DynSchedForwardingApplication.h:241-286 | on the samples, up to the rounding: if and only if the first sample is less than a twentieth of their range |
| DynamicScheduling.ZeroIsOutside | cooperative_tsn/src/cooperative_tsn/applications/DynSchedForwardingApplication.h:241-286 | two packets of which the second is left outside |
| DynamicScheduling.StartFits | cooperative_tsn/src/cooperative_tsn/applications/DynSchedForwardingApplication.h:328-332 | the remainder leaves the start time alone; it is negative if and only if the offset is beyond the first sample |
| DynamicScheduling.NegativeStart | cooperative_tsn/src/cooperative_tsn/applications/DynSchedForwardingApplication.h:253-273 | so, up to the rounding, if and only if the first sample is less than a twentieth of the range of the samples |
| DynamicScheduling.StartsBeforeCycle | cooperative_tsn/src/cooperative_tsn/applications/DynSchedForwardingApplication.h:253-273 | two packets for which it is |
| DynamicScheduling.SlotsGrow | cooperative_tsn/src/cooperative_tsn/applications/DynSchedForwardingApplication.cc:207-221 | one more packet of a stream adds the slot of its window or none, and the last slot is in effect |
| DynamicScheduling.DynSchedForwardingApplication.FindRule | cooperative_tsn/src/cooperative_tsn/applications/DynSchedForwardingApplication.cc:145-153 | the rule is the first whose pattern occurs in the packet's name |
| DynamicScheduling.DynSchedForwardingApplication.FindStream | cooperative_tsn/src/cooperative_tsn/applications/DynSchedForwardingApplication.cc:156-186 | the stream is the first of this source with the priority, the external source and the destination |
| DynamicScheduling.DynSchedForwardingApplication.AdaptSchedule | cooperative_tsn/src/cooperative_tsn/applications/DynSchedForwardingApplication.cc:122-226 | a packet from inside changes nothing, nor does one that fails an assertion; one from outside counts for the first stream it meets, or registers a new one if the rule passes the assertions; its offset goes to that stream alone, and all slots in effect cover the samples of their recomputation |
| DynamicScheduling.DynSchedForwardingApplication.UpdateStream | cooperative_tsn/src/cooperative_tsn/applications/DynSchedForwardingApplication.cc:204-221 | an update changes one stream only, publishes it, and leaves its slot covering its window |
| DynamicScheduling.DynSchedForwardingApplication.RunKeepsAccounts | cooperative_tsn/src/cooperative_tsn/applications/DynSchedForwardingApplication.cc:122-226 | over every run there is one stream per priority, external source and destination that has been heard from outside by a packet that matches a rule, resolves and passes the assertions or met its stream already; it has counted its packets and is published from the second one on |
| DynamicScheduling.DynSchedForwardingApplication.RegularPacketsAreCounted | cooperative_tsn/src/cooperative_tsn/applications/DynSchedForwardingApplication.cc:122-226 | if all packets come from outside, match a rule, resolve and pass the assertions, none of them is missed |
| DynamicScheduling.DynSchedForwardingApplication.OutcomeOf | cooperative_tsn/src/cooperative_tsn/applications/DynSchedForwardingApplication.cc:122-226 | in such a run a packet is ignored if and only if it does not come from outside; one that matches a rule and resolves updates a stream if and only if its key has been heard, and registers one if and only if it has not and the assertions pass |
| DynamicScheduling.MetIfHeard | cooperative_tsn/src/cooperative_tsn/applications/DynSchedForwardingApplication.cc:156-186 | a stream is met if and only if its key has been heard before |
| DynamicScheduling.FirstRuleIsFirst | cooperative_tsn/src/cooperative_tsn/applications/DynSchedForwardingApplication.cc:145-153 | a rule is taken if its pattern occurs in the name and none before does |
| DynamicScheduling.FullNameIsLast | cooperative_tsn/src/cooperative_tsn/applications/DynSchedForwardingApplication.cc:158-186 | of a path the last name counts |
| DynamicScheduling.PublishedInOrder | cooperative_tsn/src/cooperative_tsn/applications/DynSchedForwardingApplication.cc:228-247 | streams are handed over in the order of their registration, each one that has an interval |
| DynamicScheduling.DynSchedForwardingApplication.StreamLeadsToDestination | cooperative_tsn/src/cooperative_tsn/applications/NicForwardingApplication.cc:137-147 | the destination of the stream a packet counts for is the one the packet is forwarded to |
| DynamicScheduling.DynSchedForwardingApplication.GetSchedulerConfiguration | cooperative_tsn/src/cooperative_tsn/applications/DynSchedForwardingApplication.cc:228-247 | the streams handed to the scheduler are those with an interval, in their order |
| DynamicScheduling.PublishedIff | cooperative_tsn/src/cooperative_tsn/applications/DynSchedForwardingApplication.cc:228-247 | a stream is handed over exactly if its interval is not zero |
| DynamicScheduling.FoundAgain | cooperative_tsn/src/cooperative_tsn/applications/DynSchedForwardingApplication.cc:158-186 | the next packet of the same kind finds a stream among all registered ones if and only if its source resolves and its destination has no dot |
| InitStages.NumberedHasNoCircle | inet/src/inet/common/InitStageRegistry.cc:61-98 | numbers that respect the dependencies rule out a circle |
| InitStages.StuckIsCircle | inet/src/inet/common/InitStageRegistry.cc:76-90 | a pass that numbers no stage means that there is a circle of dependencies |
| InitStages.InitStageRegistry.Link | inet/src/inet/common/InitStageRegistry.cc:63-74 | the lists of preceding stages are the dependencies, or the first name that no stage has is reported |
| InitStages.InitStageRegistry.Pass | inet/src/inet/common/InitStageRegistry.cc:78-89 | a pass numbers exactly the stages whose predecessors have a number when it looks at them; without progress no stage is ready |
| InitStages.InitStageRegistry.AssignInitStageNumbers | inet/src/inet/common/InitStageRegistry.cc:61-98 | numbering succeeds exactly if all names are known and there is no circle; then the stages are sorted by a bijection onto 0..n-1 that puts each after all it depends on and goes by passes, and stages already in order stay where they are |
| InitStages.TargetComesFirst | inet/src/inet/common/InitStageRegistry.cc:68-73 | the stage that a dependency names first has a larger number than the one it names second |
| InitStages.PassesAreUnique | inet/src/inet/common/InitStageRegistry.cc:76-90 | each stage is numbered in the first pass that finds its predecessors numbered, which the dependencies and the order of declaration determine |
| InitStages.NumberingIsDetermined | inet/src/inet/common/InitStageRegistry.cc:61-98 | so there is only one numbering that goes by passes |
| InitStages.SortedIsInOrder | inet/src/inet/common/InitStageRegistry.cc:91-93 | with distinct names the sorted stages are in order, so that numbering them again gives the same numbers |
| InitStages.InitStageRegistry.EnsureInitStageNumbersAssigned | inet/src/inet/common/InitStageRegistry.cc:55-59 | numbers are assigned only while the count is -1, with everything that the numbering promises; a circle ends that, with fewer stages counted than there are |
| InitStages.InitStageRegistry.GetNumInitStages | inet/src/inet/common/InitStageRegistry.cc:40-44 | the number of stages, or the error of the numbering; afterwards the count as it stands |
| InitStages.InitStageRegistry.GetNumber | inet/src/inet/common/InitStageRegistry.cc:46-53 | the number of a stage in every state: its place among the sorted stages if all stages are numbered, which after the first call fails exactly if there is a circle; an error if the stage is not declared or the numbering fails |
| InitStages.CircleIsForgotten | inet/src/inet/common/InitStageRegistry.cc:46-59 | a circle is reported once; the next question is answered with -1 |
| MemoryStreams.MemoryOutputStream.WriteBit | inet/src/inet/common/MemoryOutputStream.h:92-100 | the bits of the stream with one more, and zeros behind them |
| MemoryStreams.MemoryOutputStream.WriteByte | inet/src/inet/common/MemoryOutputStream.h:127-137 | the eight bits of the byte are appended if and only if the length is a multiple of four or the byte is 0 |
| ByteVectors.BytesAreWritten | inet/src/inet/common/MemoryOutputStream.h:127-137 | any bytes written one after the other are appended if and only if the length is a multiple of four or all of them are 0 |
| MemoryStreams.MemoryOutputStream.WriteUintBe | inet/src/inet/common/MemoryOutputStream.h:207-302 | the bytes of the number, most significant first, as `writeByte` puts them; they are the bits of the number if and only if the length is a multiple of four or all the bytes are 0 |
| MemoryStreams.MemoryOutputStream.WriteUintLe | inet/src/inet/common/MemoryOutputStream.h:216-318 | the bytes of the number, least significant first, with the same condition |
| MemoryStreams.MemoryOutputStream.WriteUint2 | inet/src/inet/common/MemoryOutputStream.h:179-182 | the lowest two bits |
| MemoryStreams.MemoryOutputStream.WriteUint4 | inet/src/inet/common/MemoryOutputStream.h:188-193 | the lowest four bits |
| MemoryStreams.MemoryOutputStream.WriteNBitsOfUint64Be | inet/src/inet/common/MemoryOutputStream.h:363-371 | the bits that the mask selects: the lowest n for n up to 31, with 32 if and only if the value has no gap, an error for 0 and above 64 |
| MemoryStreams.MemoryOutputStream.WriteString | inet/src/inet/common/MemoryOutputStream.h:354-357 | the characters and a terminator, on a byte boundary |
| MemoryStreams.MemoryInputStream.ReadBit | inet/src/inet/common/MemoryInputStream.h:138-151 | the bit at the position, or a flag at the end |
| MemoryStreams.MemoryInputStream.ReadByte | inet/src/inet/common/MemoryInputStream.h:184-203 | at any position the number of the next eight bits, as eight single reads would give it, or a flag at the end |
| MemoryStreams.MemoryInputStream.ReadUintBe | inet/src/inet/common/MemoryInputStream.h:289-402 | the number of the next 8n bits; the flag and the position beyond the end |
| MemoryStreams.MemoryInputStream.ReadUintLe | inet/src/inet/common/MemoryInputStream.h:300-419 | the number of the next bytes, least significant first |
| MemoryStreams.MemoryInputStream.ReadUint2 | inet/src/inet/common/MemoryInputStream.h:257-262 | the number of the next two bits |
| MemoryStreams.MemoryInputStream.ReadUint4 | inet/src/inet/common/MemoryInputStream.h:268-275 | the number of the next four bits |
| MemoryStreams.MemoryInputStream.ReadNBitsToUint64Be | inet/src/inet/common/MemoryInputStream.h:471-482 | the number that the mask gathers: that of the next n bits for n up to 31, with 32 if and only if they are all clear; the flag and the position |
| NBitMasks.NarrowIsWritten | inet/src/inet/common/MemoryOutputStream.h:363-371 | up to 31 bits the mask selects the lowest n bits |
| NBitMasks.NarrowIsRead | inet/src/inet/common/MemoryInputStream.h:471-482 | up to 31 bits the mask gathers the number of the bits |
| NBitMasks.WideIsWritten | inet/src/inet/common/MemoryOutputStream.h:366-366 | with 32 bits a value is written rightly if and only if below each of its bits all of the lowest 32 are set |
| NBitMasks.WideIsRead | inet/src/inet/common/MemoryInputStream.h:474-474 | with 32 bits a field is read rightly if and only if it is 0 |
| NBitMasks.NoMaskWrites | inet/src/inet/common/MemoryOutputStream.h:366-366 | with more bits any `int` that the undefined shift may give writes some number wrongly |
| NBitMasks.NoMaskReads | inet/src/inet/common/MemoryInputStream.h:474-474 | and reads some field wrongly |
| MemoryStreams.MemoryInputStream.ReadString | inet/src/inet/common/MemoryInputStream.h:460-465 | the bytes before the next zero byte, or up to the end |
| MemoryStreams.StringRoundTrip | inet/src/inet/common/MemoryInputStream.h:460-465 | a string that has been written is read back if and only if it has no zero byte |
| MemoryStreams.RoundTrip | inet/src/inet/common/MemoryOutputStream.h:92-371 | any sequence of typed writes, with bytes at multiples of four bits and strings on byte boundaries, is undone by the same sequence of reads, up to the length of the stream and not beyond it |
| ResultFilters.ThroughputFilter.EmitThroughput | inet/src/inet/common/ResultFilters.cc:771-779 | a window is closed with exactly what arrived in it, and its bits per time are fired |
| ResultFilters.ThroughputFilter.ReceiveSignal | inet/src/inet/common/ResultFilters.cc:781-806 | at the limit the packet ends a window, which holds one packet more than the limit if and only if its first one ended an interval; after an interval what was pending is in a window of exactly one interval, empty ones follow, and the packet comes after them; otherwise it is pending; the windows keep tiling the time and account for all arrivals |
| ResultFilters.LimitIsExceeded | inet/src/inet/common/ResultFilters.cc:781-806 | three packets that share a window with a limit of two |
| ResultFilters.ThroughputFilter.Finish | inet/src/inet/common/ResultFilters.cc:814-829 | the windows reach to the end, and all bits have been fired if and only if the last window has a duration or nothing is pending |
| ResultFilters.EndIsLost | inet/src/inet/common/ResultFilters.cc:814-829 | a packet that is never fired |
| ResultFilters.AllIsAccountedFor | inet/src/inet/common/ResultFilters.cc:771-829 | the totals of the windows and the pending total add up to what has arrived |
| ResultFilters.ThroughputFilter.FiredAccounts | inet/src/inet/common/ResultFilters.cc:771-829 | each fired value times the time since the one before it is the bits of its window; all of them, with the windows without a duration and what is pending, add up to what has arrived |
| ResultFilters.PacketRateFilter.FiredAccounts | inet/src/inet/common/ResultFilters.cc:704-747 | so do the fired packet rates add up to the packets |
| ResultFilters.FiredBitsAddUp | inet/src/inet/common/ResultFilters.cc:704-829 | any emissions that give back the bits of their windows add up like that |
| ResultFilters.TimeIsCovered | inet/src/inet/common/ResultFilters.cc:771-829 | every moment from the start to the end of the last window is in a window |
| ResultFilters.PacketRateFilter.EmitPacketRate | inet/src/inet/common/ResultFilters.cc:704-710 | a window is closed with its packets, and their rate is fired |
| ResultFilters.PacketRateFilter.ReceiveSignal | inet/src/inet/common/ResultFilters.cc:712-731 | windows that have passed are closed before the packet is counted; they keep tiling the time |
| ResultFilters.PacketRateFilter.Finish | inet/src/inet/common/ResultFilters.cc:733-747 | the windows reach to the end |
| ResultFilters.UtilizationFilter.UpdateTotalValue | inet/src/inet/common/ResultFilters.cc:325-329 | the running total is the integral of the signal since the last window |
| ResultFilters.BusyTimeIsIntegral | inet/src/inet/common/ResultFilters.cc:325-329 | that integral is the number of ticks at which the signal is 1 |
| ResultFilters.UtilizationFilter.EmitUtilization | inet/src/inet/common/ResultFilters.cc:315-323 | what is fired is the exact share of the window that the signal was 1 |
| ResultFilters.UtilizationFilter.Process | inet/src/inet/common/ResultFilters.cc:282-313 | a new value of the signal keeps all that exact and the windows tiling the time; a window closed at the limit holds one value more than the limit if and only if its first one ended an interval |
| ResultFilters.UtilizationFilter.Finish | inet/src/inet/common/ResultFilters.cc:331-349 | so does the end, which the last window reaches |
| ResultFilters.ShareIsBounded | inet/src/inet/common/ResultFilters.cc:315-323 | the share of a 0/1 signal is between 0 and 1, so that the clamp changes nothing |
| ResultFilters.SharesAddUp | inet/src/inet/common/ResultFilters.cc:282-349 | the shares weighted with the durations of their windows add up to the time that the signal was 1 |

## Left out

- Kernel objects of the simulator (modules, gates, signals, event scheduling): identifiers, graphs and integers stand for them.
- Lifetime of interval tree nodes: freeing a node, which frees its interval, and the pointer returned by a deletion; the overflow of the growing stack's size.
- Predecessor search, printing and the destructor of the interval tree.
- Interface registration, packet queueing and the lookup by interface in the message dispatcher; modules that pass registrations through without being dispatchers.
- What follows a refused registration: the error ends the simulation, with flags left set and the flood incomplete.
- Macho snapshots, template states, event parameters and the deprecated pending box; handlers that dispatch events forever; the order of instances in `clearHistoryDeep`.
- Int128: conversions from and to floating point, increment and decrement, the bitwise operators on whole numbers; `div` with divisor 0.
- Int128s.Int128.Div: does not say what happens for the divisor INT128_MIN, because the loop does not end for it.
- PatternMatcher: case-insensitive matching, `patternPrefixMatches`, numbers beyond the range of `long`, characters above 127 where their sign matters.
- Packets of a stream that are longer than its first one, by whose size the slots are computed.
- The time that arrives between two recomputations in the TSN streams: the slot stays as it was, also if a packet falls outside of it.
- The text format of the scheduler configuration, the fields of a stream that are only printed, the recording of statistics, and the delay of the first update.
- ForwardingAutoConfigurator: depends on tables that are not part of this model.
- The lists of following stages in the stage registry, which are written and never read; the registry as a shared variable.
- NBitMasks.IsMask: for more than 32 bits, where the shift of the source is undefined, it admits any `int` and no other behaviour.
- MAC and IP addresses in the streams, repeated writes and bulk reads, copying of stream data: sequences of members that are modelled.
- Raw memory (growing buffers, placement of boxes): values stand for it.
- The configuration lookup and `clone` of the filters, and the live variants with timers.
