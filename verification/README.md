# A verified model of micro-ROS for Arduino

micro-ROS for Arduino ships the headers of the ROS 2 client stack (`rcl`, `rcl_action`,
`rcl_lifecycle`, `rclc`, `micro_ros_utilities`) around a precompiled library, together with the
bodies of its Arduino transports.  This project models the behaviour those files fix and proves
properties of it.  Where a body is in the repository (the microsecond clock and the two receive
loops) the model follows it statement by statement.  Elsewhere it is a machine that meets the
contract in the header; nothing is claimed about the compiled code behind it.

The code that changes state in place is modelled by classes and loops.  Each such method is tied to
a function on values, and the results over whole runs are about those functions.

| module | component | main results |
|---|---|---|
| `RolloverClock` | `clock_gettime` | monotone exactly until 2^32 wraps; true time minus wraps exactly if polled often enough |
| `TransportDeadline` | WiFi and Ethernet receive loops | exactly when the WiFi loop terminates, and when both loops stop at the same test, across wraps of `millis()` |
| `GoalStates` | goal state machine | terminal states absorb; a goal ends exactly by the event that says so, canceled only through canceling |
| `ActionServer` | tracked goals, expiry, cancel policy | ids are unique and conserved over every run; a goal follows its events; from its end to an expiry it stays exactly for the timeout |
| `GoalHandlePool` | free and used goal-handle lists | every node is in exactly one list, once, after every operation |
| `ExecutorHandles` | handle array, counters, wait set | the array holds exactly what was added and not removed, in order; each handle reads its own wait-set entry |
| `ExecutorSpin` | the two data-taking semantics | logical execution time is isolated from arrivals; exactly when both semantics agree; over many spins messages come once, in order, and none is lost exactly if nothing overflows |
| `MessageMemory` | message sizing and buffer carving | the static size suffices; regions are in bounds, aligned, disjoint, and sized by the first rule for their dotted path |
| `Lexer` | name lexemes | the token expression characterised; longest lexeme; languages disjoint |
| `LexerLookahead` | two-lexeme buffer | any mix of calls yields the lexemes of plain analysis |
| `Arguments` | argument scopes | three classes cover argv; rules in argv order; stripping is idempotent |
| `CommandLine` | the command line as its user writes it | what is written is read back, with every flag of the header |
| `TopicNames` | topic validation and expansion | valid exactly if no rule is broken; expansion is absolute; exactly when it fails and when it is idempotent |
| `Remap` | name remapping | one first-match search; where each form of rule leads; later rules change nothing |
| `RosClock` | ROS time override, jump callbacks | callbacks bracket every jump and are called exactly as the readings say; after every run the clock reads the last value set |
| `Lifecycle` | lifecycle state machine | consistent map over every run; requests complete or are undone; finalized reachable and final |

`Common` holds machine words, an option type and what is needed of sequences.

## Readings chosen

- `src/rclc/executor.h:637-638` and the comments for clients, services and guard conditions say that
  removal increments a counter; `src/rclc/executor_handle.h:172-191` calls the counters totals and
  `src/rclc/executor.h:609-610` says decrement, so every removal decrements.
- The edges of the goal state machine are not in the headers; they are those of the ROS 2 Actions
  design article, section "Goal States".
- In `src/default_transport.cpp:26` the product is of a 64-bit signed type on a 32-bit board; it is
  taken as wrapping modulo 2^64, and the wrapped value is shown to be the exact one.
- `RCL_LEXEME_DOT` (`src/rcl/lexer.h:81-82`) is read as a backslash and a dot.  The scanner takes the
  longest lexeme.  A text without a lexeme gets the length up to the character that rules every
  lexeme out.
- Peeking past the end of the text goes on reporting what plain analysis reports there.
- An argument scope takes the argument after a flag as its value, whatever it spells.  Whether a value
  is well formed is a parameter.
- A topic name is checked in this order: empty, trailing slash, characters from left to right, tokens
  from left to right.  A lone `~` is not followed by a slash and so is invalid.
- Expansion replaces each substitution once, then makes the name absolute.  The three built-in
  substitutions come before the map.
- A remapping rule whose match cannot be expanded matches nothing.
- A jump's delta is the new reading minus the old one also when the override is enabled or disabled
  (`src/rcl/time.h:98-99`).
- Memory rules match the exact qualified field name and the first one holds; a sequence of strings is
  sized as a sequence of basic items; a zero capacity stands for the default
  (`examples/micro-ros_types_handling/micro-ros_types_handling.ino`).
- The static size reserves the alignment minus one bytes with every region, since the header does not
  say how the user's buffer is aligned; the dynamic size reserves nothing.
- Goal handles are taken from and returned to the heads of the lists.  Whether the client has asked for
  a result is kept as a flag of the handle, set by the request; the header keeps the request's header
  there and a flag in the server.
- An output array that is full stops further goals from expiring in that call.

## Model

| member | source | states |
|---|---|---|
| `RolloverClock.Clock.GetTime` | src/default_transport.cpp:17-32 | Seconds and nanoseconds recombine to the microsecond count of the two statics, and the statics advance by one observed wrap at most |
| `RolloverClock.MicrosDoNotTruncate` | src/default_transport.cpp:26 | The 64-bit count is exact for every state of the two 32-bit words |
| `RolloverClock.StepIsMonotoneIff` | src/default_transport.cpp:23-29 | One call runs time backwards exactly when the wrap counter itself wraps |
| `RolloverClock.StepStallsIff` | src/default_transport.cpp:15-29 | Two readings report the same time exactly when equal, or across a wrap from the largest value to zero: the price of scaling by 2^32 - 1 |
| `RolloverClock.RunIsMonotoneIff` | src/default_transport.cpp:17-32 | Over every sequence of readings the reports never decrease exactly when fewer than 2^32 falls of the counter are seen |
| `RolloverClock.TimeMayRunBackwards` | src/default_transport.cpp:17-32 | Readings that fall 2^32 times make a report decrease |
| `RolloverClock.WrapTestIsExactIff` | src/default_transport.cpp:23-24 | The comparison with the last reading finds the number of wraps exactly when the instants are less than a period apart |
| `RolloverClock.ReportedFromIff` | src/default_transport.cpp:17-32 | As the next row, from any state of the statics that agrees with true time |
| `RolloverClock.ReportedTimeIff` | src/default_transport.cpp:15-32 | Over every sequence of true times each report is true time minus the wraps so far exactly when no two calls are 2^32 microseconds or more apart |
| `TransportDeadline.WrappedDifference` | src/wifi_transport.cpp:57-59 | The 32-bit subtraction gives true elapsed time modulo 2^32 |
| `TransportDeadline.DecisionsAgreeIff` | src/wifi_transport.cpp:57-61 | For a non-negative timeout the 32-bit and the 64-bit test agree exactly until elapsed time reaches 2^32, and then exactly while the remainder is past the timeout |
| `TransportDeadline.SameDecisionsIff` | src/native_ethernet_transport.cpp:64-68 | Within one period the tests agree at every instant exactly for non-negative timeouts |
| `TransportDeadline.WifiPoll` | src/wifi_transport.cpp:53-61 | While no pass can skip the span in which the wrapped deadline reads as expired, the loop ends within one counter period, at the first packet or at the first test no sooner than the timeout as C converts it |
| `TransportDeadline.EthernetPoll` | src/native_ethernet_transport.cpp:64-68 | If the clock advances at all the loop ends at the first packet or at the first test no sooner than the timeout |
| `TransportDeadline.WaitsWithinPeriod` | src/wifi_transport.cpp:57-61 | Within one counter period the WiFi loop waits exactly while less than the converted timeout has passed |
| `TransportDeadline.WifiTerminatesIff` | src/wifi_transport.cpp:57-61 | The loop terminates in every environment with passes of at most a given length exactly when the timeout is zero or that length is at most 2^32 minus the wrapped timeout |
| `TransportDeadline.SkippingNeverExpires` | src/wifi_transport.cpp:57-61 | A clock that ticks up to the deadline and then skips the rest of the period never shows it as passed |
| `TransportDeadline.WifiMayNeverStop` | src/wifi_transport.cpp:57-61 | Passes of a full period can keep the loop going for ever |
| `TransportDeadline.StopTogetherIff` | src/native_ethernet_transport.cpp:64-68 | For every timeout the WiFi loop never stops first, and stops with the Ethernet loop exactly if a packet is there or the wrapped deadline has passed |
| `TransportDeadline.LoopsStopTogetherIff` | src/native_ethernet_transport.cpp:64-68 | In every environment with passes of at most a given length, however often the millisecond counter wraps, both loops leave at the same test exactly when the timeout is not negative and no pass can skip the span in which the wrapped deadline reads as expired |
| `TransportDeadline.EthernetCountIsSoundIff` | src/native_ethernet_transport.cpp:70-74 | The unsigned count is within the buffer, and equals what the WiFi read reports, exactly when the client reported no error |
| `GoalStates.AfterConcat` | src/rcl_action/goal_state_machine.h:27-41 | Event sequences compose |
| `GoalStates.TerminalIsAbsorbing` | src/rcl_action/goal_state_machine.h:27-41 | Whatever events follow, a goal that has ended stays as it ended |
| `GoalStates.ActiveUntilTerminal` | src/rcl_action/goal_handle.h:223-243 | Over every event sequence a goal is active exactly when it is not terminal, and never unknown |
| `GoalStates.CanceledExactlyThroughCanceling` | src/rcl_action/types.h:63-91 | A goal is canceled after some events exactly when it was canceling before one that reported the cancellation |
| `GoalStates.AtMostThreeChanges` | src/rcl_action/goal_state_machine.h:27-41 | No event sequence changes a goal's state more than three times |
| `GoalStates.IsCancelable` | src/rcl_action/goal_handle.h:245-264 | A goal can go to canceling exactly while it is accepted or executing |
| `GoalStates.EnteredExactly` | src/rcl_action/goal_state_machine.h:27-41 | For each state, from which states and by which event a goal comes to be in it; and which events are refused where |
| `GoalStates.EndedExactlyBy` | src/rcl_action/types.h:63-91 | Over every event sequence a goal has succeeded, or aborted, exactly if that event came while it was executing or canceling |
| `ActionServer.GoalHandle.constructor` | src/rcl_action/goal_handle.h:223-243 | A new goal is accepted and has no terminal timestamp |
| `ActionServer.GoalHandle.UpdateState` | src/rcl_action/goal_handle.h:122-145 | Follows the state machine, stamps terminal states, and on an invalid event changes nothing and says so |
| `ActionServer.GoalHandle.GetTerminalTimestamp` | src/rcl_action/goal_handle.h:197-221 | A timestamp is returned exactly when the goal is not active |
| `ActionServer.Server.constructor` | src/rcl_action/action_server.h:594-602 | No goal is tracked; the timeout is as configured |
| `ActionServer.Server.GoalExists` | src/rcl_action/action_server.h:879-902 | True exactly if a tracked goal has the id, whatever its state |
| `ActionServer.Server.AcceptNewGoal` | src/rcl_action/action_server.h:349-368 | Refused exactly if the id is tracked; otherwise one fresh goal is appended and the others stay |
| `ActionServer.Server.UpdateTracked` | src/rcl_action/goal_handle.h:122-145 | One tracked goal changes as its handle does and no other does |
| `ActionServer.Server.ExpireGoals` | src/rcl_action/action_server.h:594-645 | The array keeps the goals not expired, in order; the others are reported |
| `ActionServer.Server.ProcessCancelRequest` | src/rcl_action/action_server.h:712-753 | The response lists exactly the selected goals, in order; no goal changes |
| `ActionServer.Find` | src/rcl_action/action_server.h:879-902 | The first goal with the id, or -1 exactly if there is none |
| `ActionServer.ExpireMembers` | src/rcl_action/action_server.h:596-615 | Kept and expired goals together are the goals before; at most the capacity is expired |
| `ActionServer.ExpireRemovesExactly` | src/rcl_action/action_server.h:596-605 | Without an output array exactly the goals terminal for longer than the timeout go: none if it is negative, all terminal ones if zero, never an active one |
| `ActionServer.ExpireFillsOutput` | src/rcl_action/action_server.h:610-615 | With an output array the goals that go are the first ones of those, up to its capacity |
| `ActionServer.ExpireKeepsConsistency` | src/rcl_action/action_server.h:604-605 | Expiry keeps ids unique and timestamps in step with states |
| `ActionServer.ExpireConservesIds` | src/rcl_action/action_server.h:604-615 | No id is lost or invented by expiry |
| `ActionServer.StepKeepsAccounts` | src/rcl_action/action_server.h:349-368 | Each accept, update or expiry keeps the account of ids |
| `ActionServer.RunsKeepAccounts` | src/rcl_action/action_server.h:349-368 | Over every run ids stay unique, timestamps exist exactly in terminal states, and each accepted id is tracked or reported as expired |
| `ActionServer.ActiveGoalsStayTracked` | src/rcl_action/action_server.h:596-602 | No single operation loses an active goal |
| `ActionServer.OnlyEndedGoalsGo` | src/rcl_action/action_server.h:596-605 | Over every run a tracked goal is still tracked at the end unless at some moment before it had ended |
| `ActionServer.ExpiredAreGone` | src/rcl_action/action_server.h:604-605 | After an expiry the expired goals are no longer found, and the others are |
| `ActionServer.UpdateRecordsEnd` | src/rcl_action/goal_handle.h:197-221 | An update that ends a goal records its time |
| `ActionServer.TrackedAfterEndIff` | src/rcl_action/action_server.h:596-605 | A goal that an update ended at one time is, after any accepts and updates and an expiry at another, still tracked exactly if the timeout is negative, or positive and no less than the time between |
| `ActionServer.StateFollowsEvents` | src/rcl_action/goal_handle.h:122-145 | Over every run, while no expiry reports a tracked goal, its state is the one the events sent to it lead to |
| `ActionServer.SelectedExactly` | src/rcl_action/action_server.h:716-727 | A goal is in the response exactly if it is tracked and the policy selects it |
| `ActionServer.SelectedHasNoDuplicates` | src/rcl_action/action_server.h:739-740 | The response lists no goal twice |
| `ActionServer.CancelPolicyIsUnion` | src/rcl_action/action_server.h:721-727 | With both fields set the selection is the union of the two selections by one field; with neither it is everything |
| `ActionServer.SelectedByTime` | src/rcl_action/action_server.h:716-727 | By time alone, the tracked goals accepted up to that time, in seconds and nanoseconds |
| `ActionServer.SelectedByBoth` | src/rcl_action/action_server.h:721-727 | With both fields, the tracked goal with that id and those accepted up to that time |
| `ActionServer.SelectedById` | src/rcl_action/action_server.h:724-725 | By id alone, the goal found by that id and no other |
| `ActionServer.CancelByIdSelectsOne` | src/rcl_action/action_server.h:724-725 | By id alone the response has that one goal, or none if it is not tracked |
| `GoalHandlePool.Pool.constructor` | src/rclc/action_goal_handle.h:66-70 | All nodes of the memory block are free, in order |
| `GoalHandlePool.Pool.Acquire` | src/rclc/action_goal_handle.h:28-70 | Fails exactly when every node is used; otherwise the first free node becomes the first used one, cleared, and both lists stay well linked |
| `GoalHandlePool.Pool.Release` | src/rclc/action_goal_handle.h:66-70 | A used node goes to the head of the free list and the other used ones keep their order; any other node is refused |
| `GoalHandlePool.Pool.TakeResultRequest` | src/rclc/action_server.h:53-58 | The client asks for a result; the lists stay |
| `GoalHandlePool.Pool.SendResultFor` | src/rclc/action_server.h:89-113 | Only marks the node, and only if the result has been requested; the lists stay |
| `GoalHandlePool.Pool.ReleaseEnded` | src/rclc/action_server.h:89-91 | The next spin frees exactly the marked nodes and keeps the order of the others |
| `GoalHandlePool.Pool.Sweep` | src/rclc/action_server.h:89-91 | The single pass over the used list deals every node to the list it belongs to |
| `GoalHandlePool.Pool.Visit` | src/rclc/action_server.h:89-91 | One step of the pass unlinks a marked node or moves on |
| `GoalHandlePool.Pool.Unlink` | src/rclc/action_goal_handle.h:28-30 | Unlinking keeps both lists acyclic, disjoint and complete |
| `GoalHandlePool.Pool.Bypass` | src/rclc/action_goal_handle.h:28-30 | Relinking around a node leaves the rest of both lists as they were |
| `GoalHandlePool.Pool.PushFree` | src/rclc/action_goal_handle.h:28-30 | A node becomes the head of the free list |
| `GoalHandlePool.DealtIs` | src/rclc/action_server.h:89-91 | Dealing nodes out one by one keeps the unmarked in order and stacks the marked |
| `GoalHandlePool.WithoutMembers` | src/rclc/action_server.h:89-91 | What remains are the unmarked nodes |
| `GoalHandlePool.EveryNodeOnce` | src/rclc/action_goal_handle.h:66-70 | Every node of the block is in exactly one list, and once |
| `ExecutorHandles.Executor.constructor` | src/rclc/executor_handle.h:211-235 | An empty array of unused handles |
| `ExecutorHandles.Executor.Add` | src/rclc/executor.h:245-275 | Refused exactly when the array is full; otherwise the handle is appended and its counter goes up by one, variants included |
| `ExecutorHandles.Executor.Remove` | src/rclc/executor.h:605-631 | Refused exactly when the entity is not held; otherwise the first handle for it goes, the others keep their order and the counter goes down |
| `ExecutorHandles.Executor.FindHandle` | src/rclc/executor.h:605-608 | The first handle for the entity, or -1 |
| `ExecutorHandles.Executor.ShiftDown` | src/rclc/executor.h:90-95 | Closing the gap keeps the survivors' order and frees the last position |
| `ExecutorHandles.Executor.Prepare` | src/rclc/executor.h:773-775 | The wait set of a spin holds exactly the handles' entities and each handle knows its entry; it is never too small, because the counters are right |
| `ExecutorHandles.Executor.CheckForNewData` | src/rclc/executor.h:773-778 | After the wait each handle is flagged by the readiness of its own entity |
| `ExecutorHandles.WaitSet.Resize` | src/rcl/wait.h:272-275 | Every entry becomes empty |
| `ExecutorHandles.WaitSet.Add` | src/rcl/wait.h:201-233 | Fills the next empty entry and returns its index; refused exactly when there is none |
| `ExecutorHandles.WaitSet.Wait` | src/rcl/wait.h:383-390 | Entries are left or emptied; what remains is ready |
| `ExecutorHandles.EntityAtRank` | src/rclc/executor_handle.h:156-162 | A handle's entry is the number of handles of its kind before it |
| `ExecutorHandles.PrepareStep` | src/rcl/wait.h:201-233 | Adding the next handle finds an empty entry, and it is the one of its rank |
| `ExecutorHandles.EntriesTell` | src/rcl/wait.h:383-390 | Pruning leaves every handle an entry that tells about its own entity |
| `ExecutorHandles.CountDropped` | src/rclc/executor_handle.h:172-191 | Removing a handle lowers the count of its kind by one and of no other |
| `ExecutorHandles.CountersByType` | src/rclc/executor_handle.h:172-191 | Each counter is the number of handles with one of its types, variants counted together |
| `Common.SubsequenceOfDropped` | src/rclc/executor.h:605-609 | Removal keeps the order of addition |
| `ExecutorHandles.StepKeepsAccounts` | src/rclc/executor.h:90-100 | Each addition or removal keeps the account |
| `ExecutorHandles.RunsKeepAccounts` | src/rclc/executor.h:90-100 | Over every run the array holds exactly the handles added and not removed, in order of addition, never more than fit, and the counts per kind balance |
| `ExecutorHandles.RemoveUndoesAdd` | src/rclc/executor.h:605-610 | Removing an entity just added restores the array |
| `ExecutorSpin.Middleware.Arrive` | src/rcl/wait.h:387-389 | Arrivals go to the queues of their entities, oldest dropped |
| `ExecutorSpin.SpinSome` | src/rclc/executor.h:768-802 | Under logical execution time the callbacks depend on the queues at the sampling point alone, whatever arrives; under the other semantics each handle sees what has arrived by its turn; without the trigger nothing happens |
| `ExecutorSpin.SpinExecutor` | src/rclc/executor.h:773-778 | A spin of an executor prepares the wait set, waits and processes the handles of its own array from first to last, as SpinSome says |
| `ExecutorSpin.SpinsFollowAddition` | src/rclc/executor.h:777-778 | After any run of additions and removals a spin runs its callbacks in the order in which their handles were added, under either semantics |
| `ExecutorSpin.CallsInOrder` | src/rclc/executor.h:777-778 | The callbacks run are those of some of the handles, in the order of the array |
| `ExecutorSpin.SpinsAccount` | src/rclc/executor.h:43-58 | As the next row, from any state in which what callbacks got and what still waits are, in order, among the messages that came |
| `ExecutorSpin.MessagesComeOnceInOrder` | src/rclc/executor.h:43-58 | Over every run of spins under any mix of semantics each message is taken at most once, and in the order of arrival |
| `ExecutorSpin.TurnOf` | src/rclc/executor.h:768-802 | In its turn a ready handle that takes data runs its callback with exactly the oldest message and the queue keeps the rest; when it runs without data or not at all; other queues are untouched |
| `ExecutorSpin.SamplingKeeps` | src/rclc/executor.h:43-58 | At a sampling point what callbacks get and what still waits are together the queue |
| `ExecutorSpin.DeliveryKeeps` | src/rclc/executor.h:43-58 | A batch of arrivals is kept whole if it fits the depth, and loses messages if not |
| `ExecutorSpin.SpinsKeep` | src/rclc/executor.h:768-802 | Over every run of spins from any queues, data got and what still waits are what waited and what came, as sequences, if nothing overflowed, and fewer messages otherwise |
| `ExecutorSpin.NothingIsLostIff` | src/rclc/executor.h:768-802 | From empty queues, data got followed by what still waits equals what came, exactly if nothing overflowed |
| `ExecutorSpin.FewMessagesFit` | src/rclc/executor.h:768-802 | Nothing overflows while no more messages come than a queue has room for |
| `ExecutorSpin.SampleHandles` | src/rclc/executor.h:47-49 | At the sampling point every ready handle takes its data |
| `ExecutorSpin.ProcessSamples` | src/rclc/executor.h:49-53 | What arrives during processing goes to the queues and not to the samples |
| `ExecutorSpin.TakeAndProcess` | src/rclc/executor.h:44-46 | Data is taken just before each callback |
| `ExecutorSpin.SemanticsAgreeInSilence` | src/rclc/executor.h:43-58 | If nothing arrives both semantics run the same callbacks with the same data and leave the same queues |
| `ExecutorSpin.DeliverIsNewest` | src/rcl/wait.h:387-389 | A bounded queue holds the newest of what it held and what came |
| `ExecutorSpin.QueueBeforeTurn` | src/rclc/executor.h:44-46 | Before its turn a handle's queue has seen arrivals only |
| `ExecutorSpin.SamplesAtTurn` | src/rclc/executor.h:44-53 | The samples of a handle under both semantics, from its own queue |
| `ExecutorSpin.SampleUnchangedIff` | src/rclc/executor.h:44-53 | Arrivals change a sample exactly when they fill an empty queue or overflow a filled one |
| `ExecutorSpin.SemanticsAgreeIff` | src/rclc/executor.h:43-58 | For distinct entities and messages the two semantics agree exactly when, for every ready handle, what arrives before its turn neither fills an empty queue nor overflows a filled one |
| `MessageMemory.MsgRequestsAreSized` | src/micro_ros_utilities/type_utilities.h:36-80 | Every region asked for is sized by the first rule for its field or the default for its kind |
| `MessageMemory.FirstRuleHolds` | examples/micro-ros_types_handling/micro-ros_types_handling.ino:93-104 | The first rule with a name gives its size to the fields of that name |
| `MessageMemory.NoRuleGivesDefault` | src/micro_ros_utilities/type_utilities.h:36-66 | A name without a rule gets the default |
| `MessageMemory.SizedFollowsRules` | src/micro_ros_utilities/type_utilities.h:36-66 | In terms of the user's configuration: the first rule for the name, or else 20, 5 and 5 or what replaces them |
| `MessageMemory.MsgRequestPath` | src/micro_ros_utilities/type_utilities.h:39-52 | Every request is for a field that a path reaches, carries the dotted path as its name, and has the unit of that field's items or text |
| `MessageMemory.PathHasRegion` | src/micro_ros_utilities/type_utilities.h:146-212 | Every sequence and string field that is reached has its request |
| `MessageMemory.ArraysRepeat` | src/micro_ros_utilities/type_utilities.h:146-212 | A fixed array asks once for each of its items, and a sequence for its items and then for each that fits |
| `MessageMemory.MsgSizeIsTotal` | src/micro_ros_utilities/type_utilities.h:125-165 | For every type tree the size formulas equal the sum of what the builder asks for |
| `MessageMemory.Arena.Allocate` | src/micro_ros_utilities/type_utilities.h:190-212 | Carves the next aligned region, or fails without carving |
| `MessageMemory.Arena.BuildMsg` | src/micro_ros_utilities/type_utilities.h:190-212 | Walking a message carves its requests in order |
| `MessageMemory.Arena.BuildItem` | src/micro_ros_utilities/type_utilities.h:190-212 | The same for one item |
| `MessageMemory.Arena.BuildItems` | src/micro_ros_utilities/type_utilities.h:190-212 | The same for repeated items |
| `MessageMemory.Arena.BuildField` | src/micro_ros_utilities/type_utilities.h:190-212 | The same for a field of any arity |
| `MessageMemory.Padding` | src/micro_ros_utilities/type_utilities.h:190-212 | The distance to the next aligned address |
| `MessageMemory.CarvingIsSound` | src/micro_ros_utilities/type_utilities.h:190-212 | On success the regions answer the requests, aligned, in bounds and disjoint |
| `MessageMemory.CarvingSucceedsIff` | src/micro_ros_utilities/type_utilities.h:190-212 | Carving succeeds exactly when the buffer is as long as the requests use |
| `MessageMemory.UsageIsBounded` | src/micro_ros_utilities/type_utilities.h:125-165 | Usage lies between the dynamic and the static size |
| `MessageMemory.CreateStaticMemory` | src/micro_ros_utilities/type_utilities.h:146-212 | For every type and configuration a buffer of the static size suffices wherever it lies and one below the dynamic size never does; on success each region is in bounds, aligned, disjoint from the others, has the capacity of the first rule for its dotted path or the default, and the unit of its field; together they have the dynamic size |
| `Lexer.TokenRegexIff` | src/rcl/lexer.h:71-72 | The token expression accepts exactly the non-empty words over letters, digits and underscore without a leading digit or two adjacent underscores |
| `Lexer.TokenEndIsLongest` | src/rcl/lexer.h:71-72 | The token scan finds the longest token |
| `Lexer.LanguagesAreDisjoint` | src/rcl/lexer.h:33-83 | A text has at most one lexeme; no token is `__node`, `__name` or `__ns` |
| `Lexer.AnalyzeTakesLongest` | src/rcl/lexer.h:86-115 | End of input is reported exactly for the empty text; otherwise the length is positive and within the text, and the lexeme is the longest the text starts with |
| `Lexer.NoLexemeLength` | src/rcl/lexer.h:89-91 | Without a lexeme the length reaches to the character that rules every lexeme out, and no prefix is one |
| `LexerLookahead.LexingTerminates` | src/rcl/lexer.h:86-92 | As many lexemes as there are characters use up the text, and then the input has ended |
| `LexerLookahead.PiecesCoverText` | src/rcl/lexer_lookahead.h:239-258 | Lexeme texts and the rest make up the text |
| `LexerLookahead.OneMore` | src/rcl/lexer_lookahead.h:117-173 | The next lexeme of plain analysis |
| `LexerLookahead.Buffer.constructor` | src/rcl/lexer_lookahead.h:84-91 | A new buffer stands at the start of the text with nothing cached |
| `LexerLookahead.Buffer.GetText` | src/rcl/lexer_lookahead.h:239-258 | What is before the position and what is ahead make up the text |
| `LexerLookahead.Buffer.Peek` | src/rcl/lexer_lookahead.h:117-143 | Reports the next lexeme and caches at least it; the position stays, so repeated calls agree |
| `LexerLookahead.Buffer.Peek2` | src/rcl/lexer_lookahead.h:145-173 | Reports the next two lexemes; the position stays |
| `LexerLookahead.Buffer.Accept` | src/rcl/lexer_lookahead.h:175-203 | Refused exactly if nothing was peeked; otherwise moves past exactly the next lexeme and returns its text |
| `LexerLookahead.Buffer.Expect` | src/rcl/lexer_lookahead.h:205-237 | Succeeds exactly if the next lexeme is the expected one, and then moves past it; otherwise stays |
| `LexerLookahead.Perform` | src/rcl/lexer_lookahead.h:117-237 | One call of any kind accepts at most one lexeme, as the count of peeked ones says, and peeks report the lexemes ahead |
| `LexerLookahead.DriveOver` | src/rcl/lexer_lookahead.h:117-258 | Over any scanner and any mix of calls the buffer accepts the first lexemes of plain analysis, as many as the calls ask for; every peek reports the lexemes that plain analysis finds next; the accepted texts are exactly what was consumed |
| `LexerLookahead.Drive` | src/rcl/lexer_lookahead.h:117-258 | The same over the lexer itself |
| `Arguments.ParseArguments` | src/rcl/arguments.h:99-163 | The loop fills the two index lists and the list of rules as the parse says, and fails exactly when a flag has no valid value |
| `Arguments.RulesAreInOrder` | src/rcl/arguments.h:106-109 | The remap rules are exactly the values of remap flags, in the order of argv; unparsed for ROS are exactly the arguments inside a scope that are neither values nor known words |
| `Arguments.RulePlacesAre` | src/rcl/arguments.h:106-109 | The places of the rules, each once and upwards |
| `Arguments.IndicesAre` | src/rcl/arguments.h:185-190 | An index list has each index of its class once, upwards, and no other |
| `Arguments.RemoveRosArguments` | src/rcl/arguments.h:348-383 | Returns the arguments at the unparsed indices, in order |
| `Arguments.ParseClassifiesAll` | src/rcl/arguments.h:124-135 | Every index of argv is unparsed, unparsed for ROS or consumed, exactly one of them; index 0 is unparsed |
| `Arguments.ScopeIffNotOutside` | src/rcl/arguments.h:103-104 | Counting scopes word by word is standing behind an unclosed opening flag |
| `Arguments.UnparsedIffOutside` | src/rcl/arguments.h:127-135 | The unparsed arguments are exactly those outside every scope, exactly when no flag takes as its value a `--` that would have ended its scope before an argument that opens none |
| `Arguments.StrippingIsIdempotent` | src/rcl/arguments.h:348-383 | Parsing stripped arguments succeeds and finds nothing for ROS, so stripping again changes nothing; the process name stays first |
| `Arguments.StrippedCommandLine` | src/rcl/arguments.h:103-104 | A stripped command line does not open a scope |
| `Arguments.ValueMayHideTheEnd` | src/rcl/arguments.h:103-104 | A flag that accepts `--` as its value keeps its scope open |
| `CommandLine.HeaderKnows` | src/rcl/arguments.h:45-93 | The words of the header: which flags take a remap rule, which another value, which stand alone, and that anything else is unknown |
| `CommandLine.ItemsAreRead` | src/rcl/arguments.h:103-127 | Inside a scope a list of flags, values, switches and unknown words is read as just that |
| `CommandLine.LineIsRead` | src/rcl/arguments.h:103-127 | The same for a whole command line of scopes and of arguments outside |
| `CommandLine.WhatIsWrittenIsRead` | src/rcl/arguments.h:103-127 | Parsing a written command line gives back its rules in order and a class for every argument, and is refused exactly if some value is not valid for its flag |
| `TopicNames.ScanCharsIff` | src/rcl/validate_topic_name.h:69-101 | The character scan reports a violation that is one, and passes over none of the rules about characters |
| `TopicNames.ScanTokensIff` | src/rcl/validate_topic_name.h:69-101 | The same for the rules about tokens and the tilde |
| `TopicNames.ValidIff` | src/rcl/validate_topic_name.h:59-101 | A reported violation is one at the reported index, and a name is valid exactly if no index breaks any of the nine rules |
| `TopicNames.SplitLosesNothing` | src/rcl/expand_topic_name.h:84-91 | Splitting a name into characters and substitutions loses nothing |
| `TopicNames.RunConcat` | src/rcl/validate_topic_name.h:69-101 | Token rules can be checked piece by piece |
| `TopicNames.RunIff` | src/rcl/validate_topic_name.h:69-101 | The two-state machine accepts exactly the names whose characters and tokens are allowed |
| `TopicNames.PlainIsValidIff` | src/rcl/validate_topic_name.h:69-101 | Without `~` and braces a name is valid exactly if the machine accepts it |
| `TopicNames.ValidByPartsIff` | src/rcl/validate_topic_name.h:59-101 | A name is valid exactly if its characters and keys are, part by part |
| `TopicNames.NamespaceIsTopicIff` | src/rmw/validate_namespace.h:62-76 | A namespace other than the root is a valid absolute plain topic name of bounded length without repeated slashes, and conversely |
| `TopicNames.NodeIsTopicIff` | src/rmw/validate_node_name.h:36-40 | A node name is a valid plain topic name of one token and bounded length, and conversely |
| `TopicNames.SuffixRuns` | src/rcl/validate_topic_name.h:69-101 | The parts of a valid name follow the token rules |
| `TopicNames.SubstituteIsPlainIff` | src/rcl/expand_topic_name.h:84-91 | The substituted text is free of `~` and braces exactly if the values are |
| `TopicNames.NamespaceRuns` | src/rmw/validate_namespace.h:62-76 | A valid namespace, but for the root, is a piece of a valid name |
| `TopicNames.NodeRuns` | src/rmw/validate_node_name.h:36-40 | A valid node name is one token |
| `TopicNames.ExpandedIsAbsolute` | src/rcl/expand_topic_name.h:31-36 | An expanded name is absolute, and free of `~` and braces exactly if every value put in is |
| `TopicNames.SubstituteRuns` | src/rcl/expand_topic_name.h:84-91 | With well-formed values the substituted text keeps the token rules, unless the root namespace ends it or stands before a digit |
| `TopicNames.ExpandingTwice` | src/rcl/expand_topic_name.h:31-91 | With well-formed values expanding twice changes nothing exactly when the root namespace was not substituted at the end or before a digit; else the result is not a valid topic name |
| `TopicNames.ExpandingTwiceInNamespace` | src/rcl/expand_topic_name.h:31-91 | In any other namespace expansion is idempotent |
| `TopicNames.ExpandPlain` | src/rcl/remap.h:70-74 | A name without substitutions: an absolute one stays, a relative one becomes the namespace, a slash and the name, one after `~` the namespace, a slash, the node and the rest; in the root only one slash |
| `TopicNames.ExpandBody` | src/rcl/expand_topic_name.h:31-91 | Where the substituted text of any valid name goes: nowhere if absolute, below the namespace if relative, below the node after `~` |
| `TopicNames.ExpandFailsIff` | src/rcl/expand_topic_name.h:84-91 | Expansion of a valid name fails exactly if some key in it is neither built in nor in the map |
| `TopicNames.SplitConcat` | src/rcl/expand_topic_name.h:84-91 | A name whose braces are closed splits on its own |
| `TopicNames.SubstituteConcat` | src/rcl/expand_topic_name.h:84-91 | Pieces of a name are substituted one by one, and fail if one does |
| `TopicNames.ExpandSubstitution` | src/rcl/expand_topic_name.h:84-91 | Wherever they stand in a valid name, `{node}` stands for the node, `{ns}` and `{namespace}` for the namespace and any other key for its value, and the whole goes where a plain name would; an unknown key is an error |
| `TopicNames.RootNamespaceExample` | src/rcl/expand_topic_name.h:84-91 | In the root namespace `x{ns}` expands to a name that ends with a slash |
| `Remap.FirstMatchConcat` | src/rcl/remap.h:52-63 | Searching two lists of rules is searching the second if the first has no match |
| `Remap.RemapIsOneSearch` | src/rcl/remap.h:52-63 | Remapping is one first-match search over local rules followed by global ones |
| `Remap.RenamedIff` | src/rcl/remap.h:62-68 | A name is left alone exactly if no rule matches, and becomes what the first matching rule makes of it |
| `Remap.LaterRulesChangeNothing` | src/rcl/remap.h:66-68 | Rules after a match change nothing, so the result is not remapped again |
| `Remap.RenamedIsAbsolute` | src/rcl/remap.h:70-74 | A renamed topic or service has an absolute name |
| `Remap.PlainRule` | src/rcl/remap.h:62-74 | For every form of pattern and replacement without substitutions: the one name the rule is for, and what it becomes |
| `Remap.TrudyExample` | src/rcl/remap.h:72-74 | The example of the header: `foo:=~/bar` for node `trudy` in `/ns` turns `/ns/foo` into `/ns/trudy/bar` |
| `Remap.RuleOfOtherNode` | src/rcl/remap.h:76-83 | A rule for another node makes no difference |
| `Remap.RuleOfThisNode` | src/rcl/remap.h:76-83 | A rule for this node does what it does without naming one |
| `Remap.RuleOfOtherKind` | src/rcl/remap.h:52-63 | A rule for names of other kinds makes no difference |
| `Remap.FirstNodeRuleHolds` | src/rcl/arguments.h:106-109 | Of several rules for node names or namespaces the first given holds, and is an error if what it gives is invalid |
| `RosClock.Clock.constructor` | src/rcl/time.h:136-152 | No callbacks, the override off |
| `RosClock.Clock.GetNow` | src/rcl/time.h:531-536 | The set value while the override is on, else the system time |
| `RosClock.Clock.CallCallbacks` | src/rcl/time.h:102-123 | Calls the callbacks whose threshold the jump exceeds, in the order they were added |
| `RosClock.Clock.EnableOverride` | src/rcl/time.h:531-560 | Calls before and after the switch; a second enable calls nothing |
| `RosClock.Clock.DisableOverride` | src/rcl/time.h:562-591 | The same for switching back to system time |
| `RosClock.Clock.SetOverride` | src/rcl/time.h:625-657 | Calls around the new value while the override is on; while off only stores it |
| `RosClock.Clock.Add` | src/rcl/time.h:659-696 | Appends the callback unless the threshold is bad or the key in use |
| `RosClock.Clock.Remove` | src/rcl/time.h:698-728 | Removes exactly that callback, or fails if it is not there |
| `RosClock.KeysStayUnique` | src/rcl/time.h:659-664 | Every operation keeps callback and user data unique |
| `RosClock.RemoveUndoesAdd` | src/rcl/time.h:659-690 | Adding succeeds exactly for a good threshold and a new key, and removing undoes it |
| `RosClock.RemovedIsGone` | src/rcl/time.h:698-722 | Removing succeeds exactly for a key in use, and the key is gone |
| `RosClock.RemovingKeepsOthers` | src/rcl/time.h:698-722 | The other callbacks stay |
| `RosClock.CallsCount` | src/rcl/time.h:102-123 | One round calls each concerned callback exactly once and no other |
| `RosClock.CalledOnceBeforeAndAfter` | src/rcl/time.h:93-110 | Each enable, disable or set that makes a jump calls every over-threshold callback exactly once before and once after with the same jump, the new reading minus the old, and no other; other operations call nothing |
| `RosClock.CalledExactlyIf` | src/rcl/time.h:112-123 | For every operation: a callback is called exactly if the source switched and it asks for that, or the reading went forwards or backwards by at least its minimum |
| `RosClock.RefusedExactlyIf` | src/rcl/time.h:659-722 | Which operations are refused with which error, and that they change nothing |
| `RosClock.RunsAreBracketed` | src/rcl/time.h:102-110 | Over every run each callback sees its jumps well bracketed: before, the change, after, and nothing else |
| `RosClock.ReadingAfterRun` | src/rcl/time.h:625-636 | After every run a ROS clock reads the argument of the last set, on or off, if the last switch enabled the override, and else the system time; other clocks always the system time |
| `RosClock.ThresholdsStayValid` | src/rcl/time.h:112-123 | Over every run the thresholds in place have the right signs |
| `RosClock.JumpsAccountForReading` | src/rcl/time.h:93-100 | Over every run the reading at the end is the reading at the start plus all jumps plus what the system time moved it |
| `RosClock.NoDriftWhileActive` | src/rcl/time.h:531-536 | While the override stays on the system time moves nothing |
| `Lifecycle.StateMachine.constructor` | src/rcl_lifecycle/rcl_lifecycle.h:202-209 | A zero-initialized machine |
| `Lifecycle.StateMachine.GetState` | src/rcl_lifecycle/transition_map.h:148-169 | The registered state with the id, or none |
| `Lifecycle.StateMachine.Register` | src/rcl_lifecycle/transition_map.h:92-117 | Appends the state unless its id is registered |
| `Lifecycle.StateMachine.Connect` | src/rcl_lifecycle/transition_map.h:119-146 | Appends the transition to the map and to its start state unless one of its ends is not registered |
| `Lifecycle.StateMachine.Find` | src/rcl_lifecycle/rcl_lifecycle.h:306-352 | The first valid transition with the id or name |
| `Lifecycle.StateMachine.Trigger` | src/rcl_lifecycle/rcl_lifecycle.h:354-412 | Follows the transition found among those valid in the current state, or fails and changes nothing |
| `Lifecycle.StateMachine.InitFrom` | src/rcl_lifecycle/default_state_machine.h:39-73 | Registering states and then transitions fills the map as the table says |
| `Lifecycle.StateMachine.InitDefault` | src/rcl_lifecycle/default_state_machine.h:39-91 | The default machine holds the table of the header and starts unconfigured |
| `Lifecycle.StartingAre` | src/rcl_lifecycle/data_types.h:39-42 | A state lists exactly the transitions that start in it |
| `Lifecycle.TriggerIff` | src/rcl_lifecycle/rcl_lifecycle.h:306-412 | A trigger succeeds exactly if a registered transition with that id or name starts in the current state, follows one that does, and otherwise changes nothing |
| `Lifecycle.RegisteredIff` | src/rcl_lifecycle/transition_map.h:92-146 | Exactly when a registration is refused, and what it adds otherwise |
| `Lifecycle.StepKeepsConsistency` | src/rcl_lifecycle/transition_map.h:92-146 | Every registration and trigger keeps state ids unique, valid transitions complete, and the current state registered; what fails changes nothing |
| `Lifecycle.RunsKeepConsistency` | src/rcl_lifecycle/transition_map.h:92-146 | The same over every run |
| `Lifecycle.RunsArePaths` | src/rcl_lifecycle/rcl_lifecycle.h:354-412 | In every machine built from a table a run of triggers is a path along registered transitions |
| `Lifecycle.TransitionIsTriggered` | src/rcl_lifecycle/rcl_lifecycle.h:354-412 | Without ambiguity every transition can be triggered by id and by name with the same effect |
| `Lifecycle.DeadEnd` | src/rcl_lifecycle/rcl_lifecycle.h:354-412 | A state that no transition leaves is final |
| `Lifecycle.TableIsUnambiguous` | src/rcl_lifecycle/default_state_machine.h:47-72 | No id is used twice in the default machine, and no name twice for a state |
| `Lifecycle.TableShape` | src/rcl_lifecycle/default_state_machine.h:44-72 | No transition joins two primary states; two transition states are joined only on the way to error processing |
| `Lifecycle.TableNumber` | src/lifecycle_msgs/msg/detail/transition__struct.h:30-226 | The identifier of a transition is determined by its start and its name |
| `Lifecycle.DefaultTriggers` | src/rcl_lifecycle/default_state_machine.h:47-72 | Every transition of the table fires in its state, by id and by name alike |
| `Lifecycle.OutcomesResolve` | src/rcl_lifecycle/default_state_machine.h:50-72 | Success, failure and error of every transition state have a transition; an error leads to error processing, and there to finalized |
| `Lifecycle.RequestCompletesOrIsUndone` | src/rcl_lifecycle/default_state_machine.h:47-72 | Configure, cleanup, activate and deactivate lead on if their callback succeeds, back if it fails and to error processing on an error, by the numbers of the messages and by name |
| `Lifecycle.ShutdownFinalizes` | src/rcl_lifecycle/default_state_machine.h:47-72 | A shutdown ends in finalized whether its callback succeeds or fails |
| `Lifecycle.ErrorIsProcessed` | src/rcl_lifecycle/default_state_machine.h:47-72 | Error processing leads to unconfigured on success and else to finalized |
| `Lifecycle.RunsAreOrderly` | src/rcl_lifecycle/default_state_machine.h:39-72 | Over every run no step joins two primary states, at most two transition states follow one another, unknown is neither entered nor left and finalized is never left |
| `Lifecycle.FinalizedIsFinal` | src/rcl_lifecycle/default_state_machine.h:44-72 | Once finalized, whatever is triggered, nothing changes |
| `Lifecycle.FinalizedIsReachable` | src/rcl_lifecycle/default_state_machine.h:47-72 | From every state but unknown triggers lead to finalized |

## Left out

- SendResultFor: a status that is not terminal is refused, since the header asks for a terminal state without saying what happens otherwise.
- SemanticsAgreeIff: needs distinct entities and distinct messages; two handles for one entity share a queue, and equal messages cannot be told apart by a callback.
- ExpireGoals: what a full output array does is a reading of the header.
- Prepare: action clients and servers take one wait-set entry here, although they wait on several entities each.
- CreateStaticMemory: sizes are unbounded, so an overflow of `size_t` is not modelled.
- SetOverride: differences of times are unbounded, so an overflow of 64-bit nanoseconds is not modelled.
- GetTime: the width of `time_t` is not modelled, nor is `struct timespec` itself.
- InitDefault: the texts of the label constants are not in the headers, so they are eight different constants; state labels are left out, and states refer to one another by id and not by pointer.
- WifiPoll: for longer passes the loop need not end, as WifiTerminatesIff shows.
- The code behind the headers of the precompiled library is not part of this model.
- The middleware: its queues are modelled as bounded and dropping the oldest message, readiness and arrivals as arbitrary; discovery, quality of service, loaned messages and content filters are left out.
- Serial, WiFi and Ethernet calls, opening, closing and writing, and board setup are foreign input and output.
- The action client's response flags in `src/rclc/action_client.h`; its pool is the one modelled.
- Goal requests, feedback, status and result messages, and the filter of cancel requests by goal state.
- Validity of remap rules, parameter overrides and log levels as text; the values of parameters; wildcards and back references in rules.
- Repeated slashes in an expanded name, and full topic name validation, which come after expansion.
- The default substitutions of `rcl_get_default_topic_name_substitutions`: the map is a parameter.
- Allocation failure, null arguments, atomics and thread safety.
- Logging, security, enclaves, type hashes, environment variables, introspection printing.
- Lifecycle services and notifications; steady and system clocks beyond their type; timers and periods of the executor.
