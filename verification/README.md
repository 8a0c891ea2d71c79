# Verified models of the array algorithms, the script flow engine and the chat programs

Four parts of the repository are modelled here and proved correct in Dafny.

* **Array algorithms** (`data_structure/408/program.cpp`). One module per algorithm. The loops are
  kept as methods with invariants; those that write into the vector work in place on an array. The
  optimality results (fewest jumps, best trading plan, largest h) quantify over every route, plan or h.
* **Script flow engine** (`data_structure/executor_factory`). `Scripts.dfy` gives an execution of a
  script as a sequence of atomic updates of the shared context. `FlowSystem.dfy` is the engine as a
  step system: the dispatching thread (`ExecuteFlow`, then `Wait`) and the threads it starts take steps
  in any order. `FlowSafety.dfy`, `FlowDispatch.dfy`, `FlowStatus.dfy`, `FlowResults.dfy` and `FlowErrors.dfy` prove what
  holds for every schedule. `FlowExecutor.dfy` is the code in the shape of the source; before each
  access of the dispatching thread to the context the other threads may take any number of steps, and
  every run of that code is proved to be a schedule of the step system.
* **Chat server** (`smallchat_learn/smallchat-server.c`). `ChatCommands.dfy` parses one read,
  once as a function and once in the source's way, cutting the buffer up in place. `ChatRound.dfy`
  says who is registered and who receives what after a round and after a run of rounds;
  `ChatServer.dfy` is the client table with its cached count and maximum, proved against that.
* **Chat client** (`smallchat_learn/smallchat-client.c`). `LineEditor.dfy` is the bounded line buffer;
  `EndToEnd.dfy` composes it with the server, from key presses to names and outboxes.

What a script prints and how it ends, what `select` reports and what each `read` yields are arbitrary
inputs. A client's outbox holds what was written to its descriptor since it was accepted. The flow
engine checks the error flag and starts a node's run in one step; starting a thread touches no shared
field, so every real interleaving has the same effect as one in which the two are adjacent. The branch
taken on an unsatisfied condition is unreachable in the source, because `EvaluateCondition` always
returns true, and is not written out.

Some facts the proofs brought out:

* The two jump tests disagree on the empty vector (`canJump1` says false, `canJump2` says true) and
  agree on every other.
* `rotate` moves index i to (i + k) mod n for every vector of length n if and only if k is non-negative
  and n - 1 + k is a 32-bit int, or k is negative and n divides 2^64 (`Rotation.RotatesExactlyWhen`). The
  sum i + k is an int, whose overflow is undefined, and a negative sum is converted to a 64-bit unsigned
  number before the remainder is taken.
* In the line editor DEL undoes a key if and only if the buffer was not full
  (`LineEditor.DeleteUndoesExactlyWhenRoom`).
* `SetError(false, ...)` never erases a failure in a flow without asynchronous nodes. In general it can.
  Let the horizon be the nodes before the first that is rejected, or up to and including the first
  synchronous one that fails. For every flow, whatever its mix of synchronous, asynchronous, branch and DAG
  nodes, the final error flag tells on every schedule whether some script that ran failed, if and only if it
  is clear at the start and there is no failing script within the horizon together with a succeeding shell
  script that can come last there: one on a thread of its own, or one with no shell script after it
  (`FlowErrors.ErrorFlagReliableExactlyWhen`).

## Model

| member | source | states |
|---|---|---|
| JumpGame.Jump | data_structure/408/program.cpp:191-204 | if the last index is reachable at all, some route to it makes exactly the returned number of hops and none makes fewer |
| JumpGame.ReachableWithinIsPrefix | data_structure/408/program.cpp:196-202 | the indices reachable in at most k hops are exactly those up to the window's end after k window changes |
| JumpGame.CanJump1 | data_structure/408/program.cpp:163-178 | true iff a hop route from 0 to the last index exists; false on the empty array |
| JumpGame.CanJump2 | data_structure/408/program.cpp:180-189 | true iff a hop route from 0 to the last index exists; true on the empty array |
| Trading.MaxProfit2 | data_structure/408/program.cpp:152-160 | no plan of non-overlapping trades earns more than the result and some plan earns it |
| Trading.MaxProfit1 | data_structure/408/program.cpp:136-150 | the best profit of a single trade, or 0 if none earns anything |
| Trading.SingleNeverBeatsPlan | data_structure/408/program.cpp:136-160 | the best single trade never earns more than the best plan |
| Majority.MajorityElement | data_structure/408/program.cpp:90-107 | the result occurs in the array, and any value whose multiplicity exceeds n/2 is the result |
| Compaction.RemoveElement | data_structure/408/program.cpp:38-49 | in place, the prefix becomes the order-preserving filter of the original and the rest keeps its values |
| Compaction.RemoveDuplicates | data_structure/408/program.cpp:51-62 | in place, the prefix becomes the original with one element per run and the rest keeps its values |
| Compaction.RemoveDuplicates2 | data_structure/408/program.cpp:64-88 | in place, the prefix becomes the original with every run capped at two and the rest keeps its values |
| Compaction.CapTwice | data_structure/408/program.cpp:51-88 | capping runs at a wider bound first does not change the result of a narrower cap, so dedupe-to-one after dedupe-to-two equals dedupe-to-one |
| Compaction.RunIsCapped | data_structure/408/program.cpp:50-88 | on any input, a maximal run of n equal elements is cut to its first min(n, cap), whatever comes before it |
| Compaction.CapSorted | data_structure/408/program.cpp:63-88 | on sorted input every value survives min(cap, count) times and the result is sorted |
| Compaction.FilterCounts | data_structure/408/program.cpp:40-45 | the removed value disappears and every other value keeps its number of occurrences |
| Compaction.FilterDistributes | data_structure/408/program.cpp:40-45 | the filter treats every element by itself and keeps the order: it distributes over concatenation |
| MergeSorted.Merge | data_structure/408/program.cpp:19-36 | in place, the first m + n slots become the merge of both original inputs and later slots keep their values, so no unread element was overwritten |
| MergeSorted.MergedIsSorted | data_structure/408/program.cpp:18-36 | the merge of sorted inputs is sorted |
| MergeSorted.MergedKeepsElements | data_structure/408/program.cpp:18-36 | the merge holds exactly the elements of both inputs, with multiplicity |
| HIndex.ComputeHIndex | data_structure/408/program.cpp:206-217 | for the array as passed in, at least h entries are >= h and no greater number has that; the array is left a descending permutation of itself |
| HIndex.AtLeastCounts | data_structure/408/program.cpp:209-214 | the number the h-index is defined by is the number of indices whose entry is at least the threshold |
| Rotation.Rotate | data_structure/408/program.cpp:109-115 | given that the greatest sum i + k is an int: the vector ends as the scatter of its original elements to the slots the source computes, which is the right rotation by k if k >= 0 or the length divides 2^64 |
| Rotation.ScatteredIsRotated | data_structure/408/program.cpp:109-115 | for k >= 0 without overflow of the greatest sum, or k < 0 and a length that divides 2^64, the scatter is defined and is the right rotation by k |
| Rotation.RotatesExactlyWhen | data_structure/408/program.cpp:112 | every vector of length n is rotated by k, without overflow, iff k >= 0 and n - 1 + k is an int, or k < 0 and n divides 2^64 |
| Rotation.RotatedMovesIndex | data_structure/408/program.cpp:112 | rotation takes index i to (i + k) mod n |
| Rotation.RotatedIsPermutation | data_structure/408/program.cpp:109-115 | rotation is a permutation of the elements |
| Rotation.RotatedTwice | data_structure/408/program.cpp:109-115 | rotating by a then by b is rotating by a + b |
| Rotation.RotatedBack | data_structure/408/program.cpp:109-115 | rotating by k then by n - k mod n restores the vector |
| Products.ProductExceptSelf | data_structure/408/program.cpp:219-234 | each result is the product of all other elements; the two passes evaluate exactly every prefix product, product of the others and suffix product; if the product of max(1, abs(s[k])) fits a 32-bit int, so does each of these |
| Products.ExceptTimesSelf | data_structure/408/program.cpp:219-234 | each result times its own element is the total product |
| Scripts.FramedRunSetsError | data_structure/executor_factory/src/script_executor.cpp:113-132 | run to its end from any context, an execution leaves the error flag set exactly when it fails |
| Scripts.WholeExecution | data_structure/executor_factory/src/script_executor.cpp:30-148 | from any context, for every exit path: error flag, final status, appended output and exit code (the exit status, the signal or 0 of a script that ran), and the status returned |
| ExecContexts.ExecContext.Perform | data_structure/executor_factory/src/exec_context.cpp:13-54 | each setter changes its own field as the step system says and no other |
| ScriptFactory.Factory.Init | data_structure/executor_factory/src/script_factory.cpp:7-40 | OK iff every path ends in .sh or .dag, spelled out; otherwise exactly the scripts before the first unsupported one are registered; under each registered id is the last script declared with it, as a shell executor iff its last three characters are .sh, as a DAG executor iff its last four are .dag |
| ScriptFactory.RegisteredIds | data_structure/executor_factory/src/script_factory.cpp:8-22 | the registered ids are the earlier and the declared ones, no others, and a shell executor made by the factory has a path |
| FlowSafety.HistoryExplainsContext | data_structure/executor_factory/src/exec_context.cpp:13-54 | on every schedule the context is the result of the updates made, and these interleave the runs' programs: each run's part in program order, nothing lost, duplicated or invented |
| FlowSafety.OutputInterleavesLines | data_structure/executor_factory/src/exec_context.cpp:42-45 | at any moment of any schedule the output is an interleaving of the lines each started run has appended so far |
| FlowSafety.ExecShape | data_structure/executor_factory/include/flow_executor.h:13-20 | in every reachable state each run is inside its program, and only threads not yet joined or the current synchronous run have work left |
| FlowDispatch.RunsAreNodes | data_structure/executor_factory/src/flow_executor.cpp:42-71 | on every schedule run i executes the script that node i names, by the executor registered for it; it has a thread iff the node is common and asynchronous, and any other run is over before the next node is looked at |
| FlowDispatch.WhyItReturned | data_structure/executor_factory/src/flow_executor.cpp:8-71 | on every schedule ExecuteFlow returns OK only after the last node, FailedPrecondition only with a failure behind it, NotFound or InvalidArgument only before a node that names no registered script or has no known type, and otherwise what a synchronous script returned |
| FlowStatus.RunningIsOwed | data_structure/executor_factory/src/script_executor.cpp:32-141 | on every schedule a kRunning status means some started run still has its final status write to make |
| FlowStatus.FinishedRuns | data_structure/executor_factory/include/flow_executor.h:13-20 | after Wait every started run has made each of its updates exactly once |
| FlowStatus.StatusAfterWait | data_structure/executor_factory/include/flow_executor.h:13-20 | after Wait the status is kSucceeded or kFailed iff a shell script ran, and kNotStarted otherwise |
| FlowStatus.LastWriterDecidesError | data_structure/executor_factory/src/script_executor.cpp:113-132 | after Wait the error flag tells how the run fared that wrote it last, whatever the others did |
| FlowStatus.SchedulesAreBounded | data_structure/executor_factory/src/flow_executor.cpp:8-40 | no schedule is longer than a bound computed from the flow |
| FlowStatus.CanAlwaysFinish | data_structure/executor_factory/include/flow_executor.h:13-20 | every schedule can be continued until Wait has returned |
| FlowResults.LookupNeverMisses | data_structure/executor_factory/src/flow_executor.cpp:42-69 | once every script a node can use has been registered, its lookup succeeds and only an unknown step type is rejected |
| FlowResults.ScheduleIndependence | data_structure/executor_factory/src/flow_executor.cpp:8-57 | if every script succeeds and every lookup hits, every schedule dispatches the whole flow, returns OK and ends with no error, exit code 0, status kSucceeded if a shell script ran, and an interleaving of the same lines |
| FlowResults.TwoSchedulesAgree | data_structure/executor_factory/src/script_executor.cpp:30-143 | two complete schedules of a successful flow end alike but for the interleaving of the output |
| FlowResults.LinesOfScript | data_structure/executor_factory/src/script_executor.cpp:64-101 | a script that ran contributes its start message and then every line it printed, in order |
| FlowResults.SyncFlowStopsAtFirstFailure | data_structure/executor_factory/src/flow_executor.cpp:8-71 | without asynchronous nodes the runs are the flow up to and including the first failing node, or before the first that cannot start; the context is that of running them one after the other; it has an error iff some run failed |
| FlowResults.SyncFlowExitCode | data_structure/executor_factory/src/script_executor.cpp:102-111 | after a flow without asynchronous nodes the exit code is that of the last script that ran to an exit code |
| FlowResults.OkMeansAllRan | data_structure/executor_factory/src/flow_executor.cpp:39-57 | an OK return of such a flow means every node ran and all but possibly the last succeeded |
| FlowErrors.ErrorFlagReliableExactlyWhen | data_structure/executor_factory/src/flow_executor.cpp:8-57 | for every flow: the final error flag says on every schedule whether a script that ran failed, iff it is clear at the start and no script within the horizon fails while one that succeeds can come last |
| FlowErrors.AnyThreadCanHaveTheLastWord | data_structure/executor_factory/src/flow_executor.cpp:48-53 | for each asynchronous shell node within the horizon, some schedule runs all nodes of the horizon and ends with the flag telling about that node alone |
| FlowErrors.LastSyncCanHaveTheLastWord | data_structure/executor_factory/src/script_executor.cpp:129-131 | a synchronous success with no shell script after it can end the flow with the flag clear, whatever the threads reported |
| FlowErrors.NeverMisleads | data_structure/executor_factory/src/script_executor.cpp:113-132 | when no success can come last beside a failure, the flag is right at the end of every schedule |
| FlowErrors.ReportIsSomeRuns | data_structure/executor_factory/src/script_executor.cpp:113-132 | on every schedule of every flow the final flag is the report of some shell script that ran; if none ran the context is as it was |
| FlowErrors.AllAsyncReliableExactlyWhenUniform | data_structure/executor_factory/src/flow_executor.cpp:48-53 | with every node an asynchronous shell script, the flag is right on every schedule iff the scripts all succeed or all fail |
| FlowExecutors.FlowExecutor.ExecuteShell | data_structure/executor_factory/src/script_executor.cpp:30-148 | on the dispatching thread, with other threads interfering, it makes exactly the updates of its program, starts no thread and returns the status of the exit path taken |
| FlowExecutors.FlowExecutor.ExecuteFlow | data_structure/executor_factory/src/flow_executor.cpp:8-40 | every run, with other threads interfering anywhere, reaches a state of the step system in which ExecuteFlow has returned that status, and in which the runs and threads are those of the nodes |
| FlowExecutors.FlowExecutor.ExecuteCommonStep | data_structure/executor_factory/src/flow_executor.cpp:42-57 | an unregistered name gives NotFound; an asynchronous node adds exactly one thread, holding the program of the registered executor, and returns OK; any other runs that program on the dispatching thread, adds no thread and returns its status |
| FlowExecutors.FlowExecutor.ExecuteBranchStep | data_structure/executor_factory/src/flow_executor.cpp:59-71 | an unregistered true script gives NotFound; otherwise its program runs on the dispatching thread, no thread is added and its status is returned |
| FlowExecutors.FlowExecutor.Wait | data_structure/executor_factory/include/flow_executor.h:13-20 | joins every thread while all of them go on running, and leaves the thread list empty |
| FlowExecutors.FlowExecutor.RunFlow | data_structure/executor_factory/main.cpp:25-27 | ExecuteFlow then Wait: the results for all schedules, on runs, return status and error flag included, hold of the real context whatever the threads did |
| ChatCommands.ParseBuffer | smallchat_learn/smallchat-server.c:129-162 | cutting the read buffer up in place recognises exactly the input that the bytes read mean |
| ChatCommands.RenameMeans | smallchat_learn/smallchat-server.c:131-145 | a read is a rename to n iff it is the six bytes of `/name `, then n without NUL, CR or LF, then nothing or one of these three |
| ChatCommands.SayExactly | smallchat_learn/smallchat-server.c:123-160 | a read is a hangup iff it is empty, and a chat text t iff it does not start with `/` and t is what precedes its first NUL |
| ChatCommands.RenameRoundTrip | smallchat_learn/smallchat-server.c:131-145 | the command for n, ended by CR, LF, NUL or nothing, is parsed back to n |
| ChatRound.TableAfterRound | smallchat_learn/smallchat-server.c:110-150 | after a round a client is gone iff its read was empty, has the name it asked for, or keeps its name; a newcomer is called `user:` and its descriptor in decimal |
| ChatRound.ReplyBytes | smallchat_learn/smallchat-server.c:145-160 | the bytes a ready client causes: to all others the first 255 bytes of its name, `>` and text; to itself alone the error text of an unsupported command; otherwise none |
| ChatRound.InSenderOrder | smallchat_learn/smallchat-server.c:119-164 | within a round whatever lower descriptors send is heard before what higher ones send |
| ChatRound.RunKeepsNamesClean | smallchat_learn/smallchat-server.c:88-171 | no reachable table holds a name with CR, LF or NUL |
| ChatRound.FreshClientStartsEmpty | smallchat_learn/smallchat-server.c:111-117 | what a client registered at the end has received depends on nothing from before its accept |
| ChatServer.Chat.CreateClient | smallchat_learn/smallchat-server.c:29-42 | registers the client under its initial name and keeps the count, the maximum and the slot-descriptor agreement |
| ChatServer.Chat.FreeClient | smallchat_learn/smallchat-server.c:44-61 | empties exactly that slot and keeps the count exact and the maximum the greatest occupied index or -1 |
| ChatServer.Chat.SendMsgToAllClientsBut | smallchat_learn/smallchat-server.c:77-83 | every registered client but the excluded one gets the message once, nobody else gets anything |
| ChatServer.Chat.Serve | smallchat_learn/smallchat-server.c:121-162 | one ready client's read changes its own slot as the input says; a chat message adds to every other registered client's outbox as much of the sender's name, `>` and the text as 255 bytes hold |
| ChatServer.Chat.Scan | smallchat_learn/smallchat-server.c:119-164 | every ready client is served exactly once although the loop bound may fall during the scan |
| ChatServer.Chat.EventRound | smallchat_learn/smallchat-server.c:110-164 | the table afterwards, and each remaining client's outbox extended by its welcome if new and then by what the ready clients sent it in ascending order, under the names at round start |
| ChatServer.Chat.Run | smallchat_learn/smallchat-server.c:88-171 | the same over any number of rounds of connects, messages and disconnects, with the table invariant kept |
| LineEditor.InputBuffer.Append | smallchat_learn/smallchat-client.c:67-73 | adds the byte, or reports an error and changes nothing when 128 bytes are there |
| LineEditor.InputBuffer.FeedChar | smallchat_learn/smallchat-client.c:78-97 | CR reports a line and changes nothing; any other key edits the line as the functional editor does |
| LineEditor.InputBuffer.FeedChunk | smallchat_learn/smallchat-client.c:154-166 | after a read chunk the buffer and the messages sent are those of everything typed so far |
| LineEditor.Session | smallchat_learn/smallchat-client.c:131-170 | from an empty buffer: however the keys are split into chunks, the messages and the line left over depend only on the keys, and the line has at most 128 bytes |
| LineEditor.NextEdit | smallchat_learn/smallchat-client.c:78-97 | LF changes nothing, DEL takes the last byte if there is one, any other key is added if fewer than 128 bytes are there; nothing is sent |
| LineEditor.NextReturn | smallchat_learn/smallchat-client.c:157-163 | CR sends the line, ended by LF iff it has fewer than 128 bytes, and empties it |
| LineEditor.CarriageReturnResets | smallchat_learn/smallchat-client.c:157-163 | CR sends the line and what follows is edited as if from an empty buffer |
| LineEditor.DeleteUndoesExactlyWhenRoom | smallchat_learn/smallchat-client.c:84-94 | a key followed by DEL leaves the line as it was iff the line was not full |
| EndToEnd.RenameExactlyWhen | smallchat_learn/smallchat-client.c:154-163 | for every n, typing `/name n` and CR sends one message that names the client exactly n iff n has at most 122 bytes and no NUL, CR, LF or DEL; otherwise no message sent does |
| EndToEnd.RenameTakesWhatFits | smallchat_learn/smallchat-client.c:67-73 | a longer name is cut to its first 122 bytes |
| EndToEnd.RenameReachesServer | smallchat_learn/smallchat-server.c:131-150 | from the keys to the table: that client and nobody else is renamed, and nobody hears anything |
| EndToEnd.ChatReachesOthers | smallchat_learn/smallchat-server.c:152-160 | from the keys to the outboxes: a line that is no command is sent with LF if it has fewer than 128 bytes and reaches every other client once, as the first 255 bytes of the sender's name, `>` and the line |
| EndToEnd.UnsupportedReachesSender | smallchat_learn/smallchat-server.c:146-150 | from the keys to the outboxes: a line that starts with `/` but not with `/name ` changes no name, and the error text reaches its sender alone |

## Left out

- `can_complete_circuit` (data_structure/408/program.cpp:236-258): it returns the first station that can pay for its own leg, so there is no circuit property to prove.
- Overflow of 32-bit integers in the array algorithms, except for the bound of the product routine and the index arithmetic of `rotate`, where it matters.
- The internals of `std::sort`: `HIndex.SortDescending` writes back the result of a verified insertion sort.
- `print`, `cout` and the `main` driver of the array algorithms.
- Sockets, `select`, return codes of `write`, terminal modes and the echo on the terminal; one message written by the client is taken to be one read of the server, as TCP segmentation is not modelled.
- Heap management and string terminators of the chat programs: names are byte strings, so the copy of a fresh name without its terminator (smallchat_learn/smallchat-server.c:35) is not visible.
- The server socket and the limit of the file-descriptor table: `accept` yields a free descriptor below 100.
- Which error message remains in the context, `params_` and the output file path.
- Races below the level of one setter call: each setter is one atomic step.
- JSON loading, log files, timestamps and `popen`; the start message, the lines and the outcome of a script are inputs. An exception inside a script execution may arrive before or after the exit code is written.
- Scripts.ShellProgramIsFramed: does not cover an exception that reaches the outer `catch` (data_structure/executor_factory/src/script_executor.cpp:145-147), raised while the output path is made up; that execution would return an internal error and leave the status at kRunning.
- LineEditor.Session: starts from an empty buffer; the source leaves `ib.len` uninitialised (smallchat_learn/smallchat-client.c:128), and nothing is claimed about other starting lengths.
- Rotation.Rotate: requires the greatest sum i + k to be a 32-bit int, because signed overflow is undefined in the source; `Rotation.RotatesExactlyWhen` counts an overflow as a failure.
- ScriptFactory.Factory.Init: an earlier registration under the same id is replaced by value; shared ownership of executors is not modelled.
- The camera, SLAM and bone-pose code and `linked_list.hpp`, whose `append` never links a second node.
