# Proofs about the Maroon runtime, the redb servers and the identifier grammar

A Dafny model of the parts of the repository whose correctness is not visible in one function body, with proofs of
what they promise. `dafny verify dfyconfig.toml` checks everything.

**The Maroon runtime (step 11).** Programs are compiled by hand into the states of `global_step`; each task is an
explicit stack of `State`, `Retrn` and `Value` entries plus a private heap, and a heap ordered by timestamps alone
interleaves the tasks in logical time.

- `MaroonMachine` is the transition function: one step of a popped task, with every panic of the source a value
  (`Panicked`) and every u64 operation checked.
- `MaroonPrograms` proves what the four programs write and when, for all inputs and start times, in an exact number of
  steps; above all that the hand-compiled factorial calls and returns like the recursive function, over any stack.
- `MaroonTyping` is a frame grammar for stacks, preserved by every step; no panic other than an overflow follows.
  `MaroonValidator` compares it with the program's own debug validator, which is weaker.
- `MaroonScheduler` is the process: `schedule` at any moment, iterations that pop *some* entry of least timestamp. All
  its theorems hold for every tie-break, every interleaving and every sequence of cutoffs.
- `MaroonService` combines them: what a client of the process gets. `MaroonRuntime` is the object with its fields
  and loops, proved to do exactly the transitions of `MaroonScheduler`.
- `MaroonWrapping` is a task in a build without overflow checks: when it does the same, and what it computes otherwise.
- `AckermannLog` is `async_ack` with the lines it writes.

**The database protocol (steps 7 and 12).** Requests of many clients go through one FIFO channel to one worker, which
handles each in a transaction; the procedures of the clients take several requests and are not atomic.

- `SumsDatabase`, `SumsProtocol` and `SumsAnswers`: `/sums` and `/journal` over the three tables, with clients that vanish, requests
  that fail, a bounded queue, a worker that stops, restarts of the process, and builds with and without overflow checks.
- `TradeIds`, `TradeDatabase`, `TradeFeed`, `TradeHandler`: the trade feed, its textual ids and its tables, with
  messages cut short between any two requests, restarts, and readers at any moment.

**The identifier grammar (step 4).** `Peg` is a matcher with ordered choice and greedy, committed repetition, proved
against the regular language of the same expression; `Identifiers` is the grammar, and `IdentifierCharacters` says what
its rules accept in plain characters.

Where arithmetic of step 11 can overflow, the model panics, as a build with overflow checks does. The `Fits` conditions
say exactly when no operation overflows, and then a build without checks does the same (`MaroonWrapping`).

## Model

| member | source | states |
|---|---|---|
| MaroonPrograms.FactorialCallReturns | step11_ws_state_machine/code/src/main.rs:499-553 | Started on k above any stack ending in a return point S, the machine comes back to S with k! and everything below untouched, having written exactly f(k), ..., f(1), in a fixed number of steps, if and only if neither the product nor the clock overflows; otherwise the overflow is the only panic |
| MaroonPrograms.FactorialRuns | step11_ws_state_machine/code/src/main.rs:481-564 | A whole factorial task: its calls at T0+50(n+...+(k+1)), then n!=r at T0+50(n+...+1), then gone, in 4*max(n,1)+2 steps, exactly when n <= 20 and the clock fits |
| MaroonPrograms.FactorialFitsExactly | step11_ws_state_machine/code/src/main.rs:544-553 | n! fits u64 if and only if n <= 20 |
| MaroonPrograms.CallEventsClosed | step11_ws_state_machine/code/src/main.rs:499-542 | The nested calls, each starting when its caller's sleep ends, write the closed-form list of events |
| MaroonPrograms.SumDownClosed | step11_ws_state_machine/code/src/main.rs:513-525 | The sleeps k + (k-1) + ... of j calls add up to j(2k-j+1)/2 |
| MaroonPrograms.DivisorsRuns | step11_ws_state_machine/code/src/main.rs:380-421 | The divisors task writes the divisors of n, the one numbered j at T0 + 10 * (the first j divisors), and the done message at T0 + 10 * sigma(n); for n = 0 only the latter; exact step count, exact overflow condition |
| MaroonPrograms.DivisorsDownIsExact | step11_ws_state_machine/code/src/main.rs:388-421 | That list holds every divisor once, nothing else, in strictly descending order |
| MaroonPrograms.LargestDivisorIsNext | step11_ws_state_machine/code/src/main.rs:388-409 | Where the inner search stops is the next divisor still to be written, or 0 if there is none |
| MaroonPrograms.DivisorsLoopRuns | step11_ws_state_machine/code/src/main.rs:388-421 | From any turn of the outer loop, after any output, exactly the remaining divisors and the done message follow |
| MaroonPrograms.FibonacciRuns | step11_ws_state_machine/code/src/main.rs:422-480 | The Fibonacci task writes fib(k) at T0+5k(k-1)/2 for k = 1..n-1 and then fib(n); for n <= 1 only n; in 2n+2 steps (2 for n <= 1); exactly when n <= 93 (for n >= 2) and the clock fits |
| MaroonPrograms.FibonacciLoopRuns | step11_ws_state_machine/code/src/main.rs:439-480 | From any turn with a = fib(i-1) and b = fib(i), the rest of the sequence follows, or the overflow if fib(n) or the clock does not fit |
| MaroonPrograms.FibFitsExactly | step11_ws_state_machine/code/src/main.rs:455-470 | fib(n) fits u64 if and only if n <= 93 |
| MaroonPrograms.SumBelowClosed | step11_ws_state_machine/code/src/main.rs:439-470 | The sleeps before index n add up to n(n-1)/2 units |
| MaroonPrograms.DelayRuns | step11_ws_state_machine/code/src/main.rs:348-379 | The delay task writes its message once, at T0 + ms, in three steps, exactly when that time fits |
| MaroonPrograms.ProgramsRunAsSpecified | step11_ws_state_machine/code/src/main.rs:344-567 | For every request of a handler and every start time: the exact trace and step count when the bounds hold, an overflow otherwise |
| MaroonWrapping.BuildsAgreeExactly | step11_ws_state_machine/code/src/main.rs:344-567 | A build without overflow checks does the same with a request as a checked one, step by step, if and only if the request fits |
| MaroonWrapping.NeverOverflows | step11_ws_state_machine/code/src/main.rs:344-567 | Such a build never panics with an overflow, from any stack |
| MaroonWrapping.WrappingCallReturns | step11_ws_state_machine/code/src/main.rs:499-553 | In it a factorial call above any stack returns there with k! modulo 2^64 after the same number of steps, having written the same calls, at times modulo 2^64, for every k |
| MaroonWrapping.WrappingProgramsRun | step11_ws_state_machine/code/src/main.rs:344-567 | Whatever the request and its start time, such a build ends it in the step count of its program and writes exactly the lines of its trace, with times and computed numbers modulo 2^64 |
| MaroonTyping.InitialTaskTyped | step11_ws_state_machine/code/src/main.rs:692-781 | Every stack a handler schedules is well typed, with all the program's steps still to do |
| MaroonTyping.TypedStep | step11_ws_state_machine/code/src/main.rs:344-567 | A step of a well-typed task of any program gives a well-typed task with one step less to do, ends it at its last step, or overflows; nothing else |
| MaroonTyping.TypedRun | step11_ws_state_machine/code/src/main.rs:863-979 | The same over any number of steps: the steps left, read off the stack and heap alone, count down exactly |
| MaroonTyping.NoStructuralPanic | step11_ws_state_machine/code/src/main.rs:344-567 | From a handler's stack no panic or failed expectation is reachable but an overflow, and that only if the bounds fail; otherwise the task is there, well typed, until exactly its number of steps is done, and then gone |
| MaroonTyping.FactorialStackBounded | step11_ws_state_machine/code/src/main.rs:527-553 | The stack of a factorial task never exceeds 2*max(n,1)+2 entries |
| MaroonTyping.FactorialDepthReached | step11_ws_state_machine/code/src/main.rs:527-553 | That depth is reached if and only if the sleeps before f(1) fit the clock, for every n; the last sleep and the product do not matter |
| MaroonTyping.FactorialDescends | step11_ws_state_machine/code/src/main.rs:499-542 | A call for k whose sleeps before f(1) fit leads to a call for 1 that stands k-1 frames higher |
| MaroonTyping.StaysShallow | step11_ws_state_machine/code/src/main.rs:499-542 | A call for k whose sleeps before f(1) do not fit never gets to the depth of f(1) |
| MaroonValidator.DebugValidateMaroonStack | step11_ws_state_machine/code/src/main.rs:822-858 | The validator's index loop computes its verdict on every stack, empty and ill-formed ones included |
| MaroonValidator.ValidatorChecksFramesAboveEntryZero | step11_ws_state_machine/code/src/main.rs:822-858 | A stack is accepted if and only if it is not empty and consists of complete frames above at most one entry that is never looked at |
| MaroonValidator.ValidatorMissesEntryZero | step11_ws_state_machine/code/src/main.rs:837-857 | A concrete family of stacks that it accepts and that no program has |
| MaroonValidator.TypedStackAccepted | step11_ws_state_machine/code/src/main.rs:822-858 | Every well-typed stack is accepted |
| MaroonValidator.ReturnKeepsStackAccepted | step11_ws_state_machine/code/src/main.rs:960-970 | After a return the stack is accepted again if the frame of the state returned to is one larger than that of the return point |
| MaroonValidator.ReturnKeepsStacksAcceptedExactly | step11_ws_state_machine/code/src/main.rs:960-970 | The states for which a return keeps every accepted stack accepted are exactly those whose frame grows by one |
| MaroonValidator.ReturnPointsGrowByOne | step11_ws_state_machine/code/src/main.rs:219-241 | Every return point on a well-typed stack has a frame that grows by exactly one |
| MaroonScheduler.PendingMatchesActive | step11_ws_state_machine/code/src/main.rs:863-979 | No task id is pending twice, the pending ids are exactly the active ones, all below the next id |
| MaroonScheduler.NextStep | step11_ws_state_machine/code/src/main.rs:576-584 | Every action keeps that invariant; an iteration advances the popped task by one step of its own and changes nothing any other task can see |
| MaroonScheduler.RunKeepsInv | step11_ws_state_machine/code/src/main.rs:863-979 | The invariant holds in every state of every run |
| MaroonScheduler.TasksRunAlone | step11_ws_state_machine/code/src/main.rs:863-979 | Between any two moments of a run a task has made exactly as many solo steps as it was popped |
| MaroonScheduler.SchedulerRefinesSoloRuns | step11_ws_state_machine/code/src/main.rs:576-584 | From its scheduling on, stack, heap, due time and output of a task are those of its solo run, whatever else happens |
| MaroonScheduler.RunsAreConfluent | step11_ws_state_machine/code/src/main.rs:613-618 | In any two runs, a task scheduled with the same stack, heap and time writes prefixes of one sequence, and the same sequence once both have finished |
| MaroonScheduler.MaximalRunDrains | step11_ws_state_machine/code/src/main.rs:863-979 | Iterating until nothing is due at the cutoff, with any tie-breaks and any smaller cutoffs on the way, makes each task run exactly until it is not due |
| MaroonScheduler.EachTaskIsDrained | step11_ws_state_machine/code/src/main.rs:863-979 | The same with schedules in between: once nothing is due, each task that was there at the start has run exactly until it was not due |
| MaroonScheduler.EachArrivalIsDrained | step11_ws_state_machine/code/src/main.rs:576-584 | And so has each task that was scheduled on the way, from its scheduling on |
| MaroonScheduler.DrainIsDeterministic | step11_ws_state_machine/code/src/main.rs:863-979 | Two drains of one state to one cutoff agree on the active tasks, the pending entries, the output of every task, and the multiset of everything written |
| MaroonScheduler.DrainsCompose | step11_ws_state_machine/code/src/main.rs:863-979 | Draining at c1 and then at c2 >= c1 is draining once at c2 |
| MaroonScheduler.FullDrainLeavesNothing | step11_ws_state_machine/code/src/main.rs:863-979 | A drain to the end of time leaves no active task and no pending entry |
| MaroonScheduler.DrainEmitsExactlyWhatIsDue | step11_ws_state_machine/code/src/main.rs:863-979 | For every task of a drained process: everything it wrote in the drain is at or before the cutoff, everything it writes in any number of later steps is after it |
| MaroonScheduler.TaskTimeOrder | step11_ws_state_machine/code/src/main.rs:863-979 | A task's due time never goes back, and it writes nothing before it |
| MaroonScheduler.TaskWritesInOrder | step11_ws_state_machine/code/src/main.rs:863-979 | In every run, whatever is scheduled and popped in between, the writes of each task are in time order, none is before its start, and none after the time it is due next |
| MaroonScheduler.RunIsInTimeOrder | step11_ws_state_machine/code/src/main.rs:863-979 | Written timestamps of the whole process are non-decreasing in every run in which no late schedule is followed by a pop |
| MaroonScheduler.LateScheduleGoesBack | step11_ws_state_machine/code/src/main.rs:576-584 | After a late schedule the next pop, however many schedules come before it and whichever entry is popped, goes back in time |
| MaroonScheduler.PopsInOrderExactly | step11_ws_state_machine/code/src/main.rs:863-979 | The pops of a run are in time order if and only if no schedule before the last popped time is followed by a pop |
| MaroonService.IterationDoesOneStep | step11_ws_state_machine/code/src/main.rs:864-978 | Each iteration lowers the total of the steps left over all active tasks by exactly one, zero-length sleeps included |
| MaroonService.RunStaysTyped | step11_ws_state_machine/code/src/main.rs:863-979 | In every run of a process that serves handlers every state is well typed, which the drain loop demands |
| MaroonService.RunStaysOnTrack | step11_ws_state_machine/code/src/main.rs:863-979 | If their requests fit, every task of every state is on the solo run of its request |
| MaroonService.PopIsSafe | step11_ws_state_machine/code/src/main.rs:877-925 | Whatever is popped, its task exists and its step meets no panic but an overflow, and none at all on track |
| MaroonService.ServiceNeverPanics | step11_ws_state_machine/code/src/main.rs:863-979 | In every run of a process that serves handlers, any entry that may be popped has a task, its stack passes the validator before and after the step, and the step panics at most by overflow; never if all requests fit |
| MaroonService.TimeCanGoBack | step11_ws_state_machine/code/src/main.rs:576-584 | A run from the initial state, for every request that fits and every start time but 0, in which a pop goes back in time |
| MaroonService.ClientGetsTrace | step11_ws_state_machine/code/src/main.rs:863-979 | At any moment of any run a client has a prefix of its program's exact trace, and all of it once its task is gone |
| MaroonService.DueBeforeTheEnd | step11_ws_state_machine/code/src/main.rs:344-567 | A running task is never due after T0 plus the program's duration |
| MaroonService.ClientServedByEndTime | step11_ws_state_machine/code/src/main.rs:863-979 | Once the queue has passed that time the task is gone and the client has the complete trace |
| MaroonService.IterationStaysOnTrack | step11_ws_state_machine/code/src/main.rs:863-979 | Iterations keep every task on the solo run of a request that fits |
| MaroonService.ScheduleStaysOnTrack | step11_ws_state_machine/code/src/main.rs:692-781 | So does scheduling a request that fits |
| MaroonService.LastStepWrites | step11_ws_state_machine/code/src/main.rs:344-567 | Every program's last step before `Completed` writes one message and takes no time |
| MaroonRuntime.SearchDivisor | step11_ws_state_machine/code/src/main.rs:390-393 | The inner loop stops at the largest divisor not above its start, or 0 |
| MaroonRuntime.StepTaskInPlace | step11_ws_state_machine/code/src/main.rs:344-567 | The step with its field updates and its loop gives the result and the heap of the transition function, panics included |
| MaroonRuntime.PopVars | step11_ws_state_machine/code/src/main.rs:914-924 | Popping the variables gives them topmost first, or fails exactly when an entry is missing or not a value |
| MaroonRuntime.PushAll | step11_ws_state_machine/code/src/main.rs:934-958 | The new entries end up on the stack in their order |
| MaroonRuntime.ExecuteStep | step11_ws_state_machine/code/src/main.rs:900-970 | Pop, step and push together are one step of the machine on the popped task |
| MaroonRuntime.Runtime.NextTaskId | step11_ws_state_machine/code/src/main.rs:107-122 | Ids are handed out in order, up to the overflow of the counter |
| MaroonRuntime.Runtime.Schedule | step11_ws_state_machine/code/src/main.rs:576-584 | Adds the task under a new id with the entry for it, or changes nothing if there is no id left |
| MaroonRuntime.Runtime.Peek | step11_ws_state_machine/code/src/main.rs:613-618 | Some entry that none is due before |
| MaroonRuntime.Runtime.IterateOnce | step11_ws_state_machine/code/src/main.rs:863-979 | One lock-protected iteration is a transition of the scheduler, or leaves the state alone because nothing is due, or reports the exact panic of the popped task |
| MaroonRuntime.Runtime.Requeue | step11_ws_state_machine/code/src/main.rs:930-970 | The output is appended; task and entry go back together unless the task is over |
| MaroonRuntime.Runtime.Turn | step11_ws_state_machine/code/src/main.rs:863-979 | Handlers that take the lock have their requests scheduled in order, then an iteration: one step of the run, or nothing is due, or the overflow of the popped task |
| MaroonRuntime.Runtime.ExecutePendingOperationsInner | step11_ws_state_machine/code/src/main.rs:863-979 | With a clock re-read and handlers scheduling before each iteration the loop terminates; every request that comes is scheduled, once, in order and under consecutive ids, until the ids run out; every task that was there or came has run exactly until it is not due at the last reading; the steps there were and came equal those left and made; it dies only of the overflowing step of a popped task, and never if every task is on track and every request fits |
| MaroonRuntime.EarliestExists | step11_ws_state_machine/code/src/main.rs:594-618 | A non-empty queue always has an entry to pop |
| AckermannLog.AckermannExceedsArgument | step11_ws_state_machine/code/src/main.rs:650-656 | A(m,n) > n |
| AckermannLog.AckermannStrictlyMonotone | step11_ws_state_machine/code/src/main.rs:650-656 | A is strictly increasing in n |
| AckermannLog.AsyncAckIsAckermann | step11_ws_state_machine/code/src/main.rs:658-680 | For m, n >= 0 `async_ack` returns the reference value if and only if that value fits i64, and otherwise meets the overflow of `n + 1` |
| AckermannLog.IntermediateValuesAreBounded | step11_ws_state_machine/code/src/main.rs:658-680 | Every value computed anywhere in the recursion is at most the final one and fits i64, even if the final one does not |
| AckermannLog.LogIsWellNestedTree | step11_ws_state_machine/code/src/main.rs:658-680 | In the log, every opening line at indent d is closed at indent d with the same arguments and the reference value, only lines at indent >= d+2 stand between, and the only closing lines without an opening one are the leaves m = 0 |
| AckermannLog.LogFollowsTheRecursion | step11_ws_state_machine/code/src/main.rs:658-680 | Line by line, whether the call returns or overflows: after the beginning of (m, n) comes its first inner call, (m-1, 1) or (m, n-1); after an end with value v comes the inner call (m-1, v) of its caller or the end of its caller with v; the first and last lines are those of the call itself |
| AckermannLog.ClosingIsUnique | step11_ws_state_machine/code/src/main.rs:658-680 | An opening line is closed by only one line |
| Peg.Match | step04_pest/code/src/grammar.pest:1-16 | The matcher consumes no more than there is, and repetition never fails |
| Peg.MatchIsSound | step04_pest/code/src/grammar.pest:13-16 | What an expression matches is a word of its regular language |
| Peg.MatchIsComplete | step04_pest/code/src/grammar.pest:13-16 | If one character of lookahead decides each choice, every word of the language is matched to its end by greedy committed matching |
| Identifiers.RuleIsComplete | step04_pest/code/src/grammar.pest:13-16 | The four rules match each of their words to its end before a comma or the end of input, although `lo+ ~ (lo \| dg)*` is ambiguous |
| Identifiers.EarlierRuleHasNoPrefix | step04_pest/code/src/grammar.pest:3-8 | No prefix of a word of one rule is a word of a rule tried before it: committing never hides a later full match |
| Identifiers.RulesAreDisjoint | step04_pest/code/src/grammar.pest:13-16 | The four languages are pairwise disjoint |
| Identifiers.WordIsRecognised | step04_pest/code/src/grammar.pest:3-8 | A word followed by a comma or the end is recognised in full, as what it is |
| Identifiers.TermIsRegular | step04_pest/code/src/grammar.pest:1-8 | `term` accepts a string with rule R if and only if the whole string is in R's regular language |
| IdentifierCharacters.LowerSnakeInCharacters | step04_pest/code/src/grammar.pest:15-20 | `term` says lower_snake exactly for strings of a-z, 0-9 and _ that begin with a letter, do not end in _ and have no two _ in a row |
| IdentifierCharacters.UpperSnakeInCharacters | step04_pest/code/src/grammar.pest:16-20 | The same for upper_snake with A-Z |
| IdentifierCharacters.CamelCaseInCharacters | step04_pest/code/src/grammar.pest:13-20 | `term` says camel_case exactly for strings of letters and digits that begin with a capital and have after each capital, possibly after digits, a lower-case letter |
| IdentifierCharacters.CamelBackInCharacters | step04_pest/code/src/grammar.pest:13-20 | The same for camel_back, beginning with a lower-case letter and with a capital somewhere |
| Identifiers.LowerSnakeFirstBreaksCamelBack | step04_pest/code/src/grammar.pest:3-8 | With lower_snake before camel_back every camel_back identifier is rejected |
| Identifiers.PieceOfList | step04_pest/code/src/grammar.pest:11 | At the start of a piece of a list, the piece is consumed in full if `term` accepts it, and never in full otherwise |
| Identifiers.TermsBySplit | step04_pest/code/src/grammar.pest:11 | `terms` accepts a string if and only if `term` accepts every comma-separated piece, with the classifications in order |
| Identifiers.SplitJoin | step04_pest/code/src/grammar.pest:11 | Splitting undoes joining for pieces without commas |
| Identifiers.JoinSplit | step04_pest/code/src/grammar.pest:11 | Joining undoes splitting for every string |
| Identifiers.JoinedTermsParseBack | step04_pest/code/src/grammar.pest:11-16 | Any non-empty list of identifiers, joined with commas and parsed, gives back its classifications |
| SumsDatabase.Database.HandleGetJournal | step07_redb/code/src/main.rs:145-168 | The loop returns the window of keys below the counter, or the error of missing tables |
| SumsDatabase.Database.HandleRequest | step07_redb/code/src/db.rs:19-33 | Any request gets the effect and the answer of its kind |
| SumsDatabase.Database.ServeQueue | step07_redb/code/src/db.rs:40-52 | The worker answers request i on the database that the requests before it left, in one transaction, and hands out the answers in the order of the requests |
| SumsDatabase.QueueAnswers | step07_redb/code/src/db.rs:44-49 | What the worker answers on an empty database, in terms of the requests alone: an id is unique exactly the first time it comes, an entry is added, a read gets the last entries added before it |
| SumsDatabase.AddAppends | step07_redb/code/src/main.rs:121-143 | Adding an entry appends it to the log that the journal represents, with keys exactly 0..idx-1 |
| SumsDatabase.GetJournalReturnsLast | step07_redb/code/src/main.rs:145-168 | `GetJournal(n)` answers from the end of the log of appended entries, in order, and with an error exactly if it is empty |
| SumsDatabase.JournalAnswer | step07_redb/code/src/main.rs:145-168 | The answer is a suffix of the log, no longer than n and than 100, and shorter than both only if it is the whole log |
| SumsDatabase.JournalPageIsRecent | step07_redb/code/src/main.rs:214-231 | The page handler shows such a suffix, with 10 entries if no number is given, and an empty page for an error |
| SumsProtocol.NextKeepsInv | step07_redb/code/src/main.rs:233-269 | The protocol invariant is inductive under arrivals, each request of each client, reads, service, failures, vanishing clients, the end of the worker and restarts, in any order, with and without overflow checks |
| SumsProtocol.RunKeepsInv | step07_redb/code/src/main.rs:233-269 | It holds in every state of every run |
| SumsProtocol.AnsweredInOrder | step07_redb/code/src/db.rs:40-68 | In every run: messages are answered in the order they were sent, each at most once; what was answered and what is queued is, in order, a selection of all messages ever sent, and all of them unless the worker stopped or the process restarted |
| SumsProtocol.QueueIsConsistent | step07_redb/code/src/db.rs:44-49 | What the worker loop answers is a history of the protocol, and its last database is the replay of it |
| SumsProtocol.ReplayRepresentsLog | step07_redb/code/src/main.rs:121-143 | Whatever was served, the journal represents the log of the entries added |
| SumsProtocol.ProcessedIffUniqueAnswer | step07_redb/code/src/main.rs:85-100 | An id is in the table if and only if some check of it was answered Unique |
| SumsProtocol.OneUniqueAnswerPerId | step07_redb/code/src/main.rs:85-100 | Over every interleaving each id gets at most one Unique answer |
| SumsProtocol.JournalIsExact | step07_redb/code/src/main.rs:121-143 | In every reachable state the journal is the log with keys 0..idx-1; its ids are non-empty, processed and pairwise different; c is a + b as the build computes it, and the true sum if and only if that fits i32, as it does in every build with overflow checks |
| SumsProtocol.OneOkPerId | step07_redb/code/src/main.rs:233-269 | Of all clients with one id at most one is answered OK, and its sum was right |
| SumsProtocol.OkIsJournaledExactly | step07_redb/code/src/main.rs:242-254 | An OK does not promise an entry: there is one with the client's id if and only if its own request for it was served without an error, which the handler ignores; it was served at all unless the worker stopped |
| SumsProtocol.OkWithoutEntry | step07_redb/code/src/main.rs:242-254 | A run, for any valid request, in which a client is answered OK and nothing is journaled |
| SumsProtocol.OkAfterStop | step07_redb/code/src/db.rs:54-68 | A run, for any valid request, in which the worker stops, the send fails, and the client is answered OK |
| SumsProtocol.WrappedSumIsJournaled | step07_redb/code/src/main.rs:233-254 | Without overflow checks, for every a and b whose sum does not fit i32, a run that journals the wrapped sum |
| SumsProtocol.ConflictIsJustified | step07_redb/code/src/main.rs:239-261 | A client gets a conflict only if another one was told, before this client's own check was answered, that the id is unique |
| SumsAnswers.AnswersAreExact | step07_redb/code/src/main.rs:233-269 | In every run each answered client has exactly the answer of its case: EmptyId if and only if its id is empty, and then it never sent anything; Conflict if and only if it was told Duplicate; told Unique, OK if and only if c is the sum, HandlerPanicked if a + b overflows in a checked build, else WrongSum; InternalError if and only if it was told an error or nothing |
| SumsAnswers.ToldIsWhatWasServed | step07_redb/code/src/db.rs:54-68 | What a client is told about its check is what the worker served for it; and a served check has told its client so, unless the client is gone or the worker stopped before answering |
| SumsAnswers.NoFailureNoError | step07_redb/code/src/main.rs:85-168 | As long as no request fails in the database, an id is answered Unique exactly the first time it is checked and Duplicate after that, entries are added, and a read is an error exactly before the first entry |
| SumsAnswers.EntryIsOfItsClient | step07_redb/code/src/main.rs:242-254 | Every entry sent has its client's id and numbers, and the time the client read when it went on |
| SumsAnswers.ClientGoesOn | step07_redb/code/src/main.rs:233-269 | A client that knows the answer to its check can always go on to its answer or its entry, unless the queue is full |
| SumsProtocol.ReadsAgreeWithLog | step07_redb/code/src/main.rs:145-168 | In every run a journal read that is answered gets a suffix of the entries added before it was served, no longer than n and than 100, and shorter than both only if it is all of them; or an error |
| TradeIds.DecimalReadsBack | step12_ws_feed/code/src/main.rs:441-442 | The decimal numeral of an index consists of digits and reads back as the index |
| TradeIds.FirstDash | step12_ws_feed/code/src/main.rs:441-442 | The first dash of an id separates its index from its price |
| TradeIds.TradeIdInjective | step12_ws_feed/code/src/main.rs:441-442 | Ids are equal only for equal indexes and prices, even if prices contain dashes and digits |
| TradeDatabase.Database.StoreTradeBatch | step12_ws_feed/code/src/main.rs:219-240 | The loop stores every trade of the batch in both tables and counts them |
| TradeDatabase.Database.GetTradesByRange | step12_ws_feed/code/src/main.rs:300-322 | The loop returns the range read, stopping at the first missing index; if the end overflows u64 the request fails with overflow checks and reads nothing without |
| TradeDatabase.Database.GetRecentTrades | step12_ws_feed/code/src/main.rs:260-287 | The loop returns the trades present among the last min(n, total, 100) indexes |
| TradeDatabase.RangeIsLongestRun | step12_ws_feed/code/src/main.rs:300-322 | A range read is the longest unbroken run of trades from its start that the limit allows |
| TradeFeed.FreshIdIsNew | step12_ws_feed/code/src/main.rs:441-449 | An id made from an index not drawn before is not in the table |
| TradeFeed.StoreBatchOfIssued | step12_ws_feed/code/src/main.rs:219-240 | Storing a batch of consecutive trades whose ids are there adds exactly their indexes and leaves the ids as they are |
| TradeFeed.NextKeepsInv | step12_ws_feed/code/src/main.rs:426-472 | The feed's invariant is inductive under every request, failure, restart and new message; stored trades stay, and lost indexes stay lost |
| TradeFeed.RunKeepsInv | step12_ws_feed/code/src/main.rs:426-472 | It holds in every state of every run |
| TradeFeed.IdsAreUnique | step12_ws_feed/code/src/main.rs:441-449 | Each index is drawn once, no two trades share an id, and the duplicate branch is never taken |
| TradeFeed.TablesAgree | step12_ws_feed/code/src/main.rs:219-240 | At any moment, whatever was cut short, the trade stored at k has the id "k-price" and its id leads back to k |
| TradeFeed.KeysAreGapFreeExactly | step12_ws_feed/code/src/main.rs:426-472 | At message boundaries the keys are exactly 1..total if and only if no message was cut short after drawing an index |
| TradeFeed.PageIsPieceOfLog | step12_ws_feed/code/src/main.rs:632-646 | A page read in any state, mid-batch and after cut messages included, is a gap-free piece of the append-only log from its start on; it ends at the limit, clamped to 1000, or at the first index not stored |
| TradeFeed.QueryAnswer | step12_ws_feed/code/src/main.rs:632-646 | A query is answered by the unbroken run of stored trades from its start, 1 if none is given, up to its limit, 100 if none is given and never more than 1000 |
| TradeFeed.PagesAreFullExactly | step12_ws_feed/code/src/main.rs:632-646 | Every page reaches as far as the log and its limit do if and only if no message was cut short after drawing an index |
| TradeFeed.PagesFormPrefixOfLog | step12_ws_feed/code/src/main.rs:632-646 | In every run: pages read at later and later moments, each from where the ones before ended, concatenate to a prefix of the log |
| TradeFeed.RecentTradesExactly | step12_ws_feed/code/src/main.rs:260-287 | In every state: of the last trades ever made, as many as asked for but at most all and at most 100, exactly those stored, in order; complete if and only if none of these indexes is missing |
| TradeFeed.UncutRecentTrades | step12_ws_feed/code/src/main.rs:260-287 | If no message was cut short, recent trades are complete if and only if nothing is asked for or no index is drawn and not stored |
| TradeFeed.CutHidesTheRest | step12_ws_feed/code/src/main.rs:426-472 | After a message was cut short with an index drawn, some index is missing in all later states and no page from before it ever gets past it |
| TradeFeed.CutHappens | step12_ws_feed/code/src/main.rs:426-472 | A run from the initial state, for every row, in which a message is cut short and its index is lost |
| TradeHandler.HandleRow | step12_ws_feed/code/src/main.rs:441-468 | The requests for one row are steps of the feed; exactly if none fails the row's trade is numbered next and joins the batch |
| TradeHandler.HandleRows | step12_ws_feed/code/src/main.rs:426-468 | The loop over the rows skips short ones and numbers the others in order, and stops at the first failing request f, having drawn exactly min(m, (f+2)/3) indexes for m trades |
| TradeHandler.HandleBatch | step12_ws_feed/code/src/main.rs:470-472 | The batch is stored by one request, or not at all |
| TradeHandler.HandleTradeMessage | step12_ws_feed/code/src/main.rs:426-472 | Handling a message with m long enough rows is a run of the feed; it succeeds if and only if none of its 3m+1 requests fails (none are made for m = 0), and then the q-th of these rows is stored at index total+1+q, with price, volume, timestamp, side, order type and misc in their places, the pair, and the id index-price, and everything else is as before; if request f fails first no trade is stored and the indexes of the first min(m, (f+2)/3) rows are lost: some are if and only if 0 < f |

## Left out

- Unchecked arithmetic: the scheduler and the service are modelled with overflow checks; `MaroonWrapping` says when a task does the same without, and what factorial and Fibonacci compute when it does not. In an unchecked build times wrap around, so tasks may run in another order. The Ackermann bound says when nothing wraps.
- Negative arguments of `async_ack`: a negative `m` or `n` recurses differently; the types of the model exclude it.
- `async_ack` passes on errors of its writer and stops; the model's writer does not fail. The drain loop ignores such errors, as in the model.
- Message texts: writes are structured events, since the texts differ between builds; the one text modelled is the trade id.
- MaroonRuntime.StepTaskInPlace: the heap passed by mutable reference is an in- and an out-parameter, and a popped task is a value; the program holds no other reference to either.
- MaroonRuntime.Runtime.ExecutePendingOperationsInner: assumes a clock that never goes back, as the program's is.
- MaroonScheduler.NextStep: task ids are unbounded there.
- BinaryHeap, HashMap, locks, wake-ups and the 10 ms polling loop: a multiset with some minimal entry, a map, and atomic transitions.
- WebSocket, HTTP, Redis, the Kraken connection, signals and command lines; a publishing error after the batch is stored changes no table.
- redb and serde: tables are maps, a request takes effect in full or not at all, and an entry that was stored decodes to itself; bodies and messages that do not parse, and messages of other channels than "trade", change nothing.
- SumsProtocol.ReadsAgreeWithLog: any request may fail without a reason, so an error is always allowed.
- TradeFeed.PageIsPieceOfLog: `start + limit` is unbounded there; `TradeDatabase.Database.GetTradesByRange` says what its overflow does.
- TradeDatabase.Database.GetNextTradeCounter: the counter is unbounded.
- The design notes of step 12 check the id before drawing the counter; the code draws the counter first, and the model follows the code.
- The `EOI` token of the grammar, and pest's own reporting of errors.
- Counters, strings and their requests in step 7, the trade count, event messages and logging in step 12, `/add`, `/state` and the debug dump in step 11: simple members.
- The other steps of the repository: diagrams, a simpler grammar, user interfaces and wrappers over libraries.
