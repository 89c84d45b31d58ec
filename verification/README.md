# Verified model of the old-kernel layer and the path mapper

A Dafny model of the parts of the repository where a small slip has large effects, with proofs
of what they promise. `dafny verify dfyconfig.toml` checks all of it.

**The tracer** (`src/kernel_compat.rs`, `src/emulated_syscalls.rs`). On an old kernel the tracer
answers calls the kernel lacks: by rewriting them at their entry and putting things right at
their exit, or by taking them over and making a sequence of other calls in the tracee.

- `PtraceKernel.dfy` has the machine words, a tracee as ptrace shows it, and `RunsTo`, a relation
  that says what may happen between a resume and the next stop.
- `Sequences.dfy`, `Takeover.dfy`, `Translations.dfy` and `Supervision.dfy` specify, as functions
  of the tracee and of what the tracer remembers of it, what each stop leads to.
- `EmulatedSyscalls.dfy` (class `Emulations`) and `Tracer.dfy` (class `Tracer`) do it by updating
  per-pid maps and registers, and are proved to do exactly what is specified.
- `Protocol.dfy` puts tracer and kernel together into runs; `StopShapes.dfy`, `EverySyscallMode.dfy`,
  `FilteredMode.dfy`, `Runs.dfy`, `EchoedNumbers.dfy` and `EpollPwait.dfy` prove what holds of every
  run, and `FilterOrder.dfy`, `FirstSequence.dfy` and `Disturbance.dfy` when what one would expect of
  every run does not. `ExitCodes.dfy` is about what the tracer exits with.
- What the application sees of it: `CallMeanings.dfy` is about what rewritten calls ask for,
  `CompletedAnswers.dfy` about what is put in its memory at their exits, `TakenCalls.dfy` about which
  calls are taken over, `EmulationScripts.dfy` about the calls that are made for them, `NewFds.dfy`
  about the flags of the fds they give, and `Signals.dfy` about the signals it gets.
- `TimerFd.dfy` and `TimerRuns.dfy` are the emulated timerfds: the class that serves them, and every
  run of it. `TimerEvents.dfy`, `TimedRuns.dfy`, `TimerOwners.dfy` and `TimerCalls.dfy` join them to
  the tracer's runs.
- `TraceeMemory.dfy` has the word-wise reads and writes, and `Bpf.dfy` the filter generator with
  the kernel's interpreter for such programs.

**The path mapper** (`lib/pathmap_common.h`): the in-place normaliser (`Normalizer.dfy`), the star
matcher (`StarCapture.dfy`) and when it finds what there is (`StarCompleteness.dfy`), the in-place
parser of `PATH_MAPPING` (`MappingEnv.dfy`) and what it is to find (`MappingTexts.dfy`), mapping
forward (`PathMapping.dfy`, `MappingChoice.dfy`, `Paths.dfy`) and back (`ReverseMapping.dfy`), what
comes of texts and stars on either way (`PrefixMappings.dfy`, `StarMappings.dfy`), and both ways
together (`RoundTrips.dfy`, `StarRoundTrips.dfy`).

**Pattern substitution in dash** (`tools/dash-pattern-replace.patch`): `PatternReplace.dfy`, and what
it comes to in `Replacements.dfy`.

Where the source updates objects and buffers in place, so does the model; each such method is
proved against a function, and the properties are proved of that function, or of all runs.

## What the proofs found

These claims one would expect do not hold of the code. Each has a lemma that shows when it does.

- In the filtering mode a translated call is put right at its exit: not on kernels that report the
  entry before the filter's stop, which is to say from 4.8 on, while the tracer is used wherever
  statx is missing, up to 4.10. There the exit is skipped in the entry's place, and a statx comes
  back with its stack pointer at the scratch memory (`FilterOrder.PromisesHoldExactlyWhen`,
  `FilterOrder.StatxIsNotFinished`).
- An emulation is left alone by the application: not when a SIGTRAP arrives, which is passed on
  and not held, nor when the instruction it is made from is `int 0x80`. For every call that is
  answered by others there are runs in which another call of the application's is taken for one of
  the tracer's, with either alone; without both there are none (`Disturbance.AlwaysOursExactlyWhen`).
- An emulated timer ends by its own tracee's calls: it is kept by the number of its fd, so any tracee
  that closes a fd of that number ends it (`TimerOwners.AlwaysDropsItsOwnExactlyWhen`).
- Every deadline of an emulated timer comes: not by a clock that the tracer cannot read, for which
  timers are made and set all the same (`TimerRuns.CoveredExactlyWhen`).
- In the filtering mode the tracer exits with the child's code: not when a later tracee was given
  the child's pid and ended otherwise (`ExitCodes.ChildsCodeExactlyWhen`).
- A failed `pipe` is reported by the emulated timerfd_create: not when the scratch memory happens
  to hold two numbers of which the first is not negative and the second an fd that can be reopened;
  then the first is handed out (`Takeover.FailedPipeAnswer`, `Takeover.FailedPipeIsFdZero`).
- A failed step of an emulated eventfd is reported: only the first one is
  (`Takeover.CreatedFdIsAnswer`).
- An emulated eventfd or timerfd has the flags that were asked for: not close-on-exec; and an eventfd
  made by the call without flags is non-blocking when its second register happens to say so
  (`NewFds.FlagsReachExactlyWhen`).
- A rewritten call asks for what the application asked for: an epoll_create1 or a pipe2 loses its
  flags, a prlimit64 with both limits does one thing of the two, and a statx with AT_EMPTY_PATH is
  taken for one without a path (`CallMeanings.MeaningKeptExactlyWhen`).
- The stop that a new tracee starts with is the tracer's business: not when another signal stops that
  tracee first; then it is passed on, and stops it (`Signals.OwnStopIsKeptExactlyWhen`).
- The normaliser is idempotent: exactly on paths without a slash left by a last `..`
  (`Normalizer.SecondPass`).
- A FROM with `?` or `[` maps the paths it matches: it passes every path, in every configuration,
  and no prefix wins beside it (`MappingChoice.OtherWildcardsPassAll`).
- A FROM prefix keeps the rest of the path: not when a single-star FROM before it matches as much
  as every prefix before that one (`MappingChoice.PrefixKeepsRest`,
  `MappingChoice.CapturesAreLeftOver`, `MappingChoice.RestIsLost`).
- The star matcher finds what the stars of a matching FROM stand for: exactly when the last place of
  each literal will do. Otherwise some path is mapped to a text with stars in it
  (`StarCompleteness.CompleteExactlyWhenSafe`, `MappingChoice.StarsAreCopied`).
- Mapping back stays within its buffers: not when a wildcard target wins that is longer than the
  path and does not fill its source's stars (`ReverseMapping.WrongExactlyWhen`,
  `ReverseMapping.BracketOverruns`, `ReverseMapping.StarIsUnterminated`).
- What a star stands for comes back behind the text it was behind: with a slash put between them
  unless there is one (`StarMappings.StarRoundTrip`).
- A pattern's stars go in for the target's: the first eight do, and further stars of the target stay
  (`StarMappings.StarsMap`).
- Mapping back cuts off what the target matches: a wildcard target that fills no stars cuts off as
  many characters as it has itself (`PrefixMappings.PrefixComesBack`).
- The filter decides for any list of numbers: for up to 255 of them (`Bpf.FilterRightIff`).

Two comments in the source say more than the code does. The tracer's loop says that nothing of the
application may run inside an emulation (src/kernel_compat.rs:824-831), and then lets SIGTRAP
through. The forward mapper says that what stands before a star must match as a path segment
prefix (lib/pathmap_common.h:421), and compares characters only. The model follows the code.

## What is assumed

Of the kernel, in `RunsTo`:

- Reading and setting registers of a stopped tracee works. Reading or writing a word works exactly
  when its eight bytes are mapped; a write that fails writes nothing.
- A tracee resumed at a `syscall` instruction, with no signal that could have a handler, enters
  the kernel with the registers it was given. Of one at an `int 0x80` nothing is assumed.
- A call changes of the registers only `rax` and the ones the kernel overwrites, except execve,
  execveat and rt_sigreturn, and leaves the instruction it was made from in place.
- A failed rt_sigprocmask changes nothing. epoll_wait writes only into the events it was given.
- A new child's first stop is a signal stop, and its first syscall stop is an entry.
- Of a filtered call, either the entry stop follows the filter's stop, as on kernels before 4.8, or
  it comes first, as since then: `Config.order` says which.

Of the rest:

- `Taken.disturbed` marks an emulation during which a SIGTRAP was passed on, whose scratch area
  overlapped the instruction its calls are made from, or whose instruction is `int 0x80`. Claims
  about what the tracee runs inside an emulation are about the others.
- All clocks that timers count by show one time, which never goes back and stands still within one
  step; any of them may be one that cannot be read. In the runs of the timers the times handed over
  are normalised, as timerfd_settime itself demands; the methods are proved for any.
- Answers of probes and version checks, the clock, the random source, whether `/proc` lets a pipe
  be reopened, outcomes of writes into pipes, and fnmatch are parameters, and may be anything.

## Model

| member | source | states |
|---|---|---|
| `Runs.PhasesAgree` | src/kernel_compat.rs:886-924 | In every state of every run, in the mode where every call stops: a tracee without an emulation is recorded as inside a call exactly when its next stop is an exit; one with an emulation is never recorded so, and its sequence waits for an entry exactly when the next stop is one. |
| `Runs.InjectedStopsAreOurs` | src/emulated_syscalls.rs:547-678 | Every syscall stop inside an undisturbed sequence is the call the tracer asked for: the right way round, and with the number and all six arguments it was given. |
| `Runs.SequencesAreOnCourse` | src/emulated_syscalls.rs:550-678 | While a sequence of n calls is in flight, stops so far and stops to come add up to at most 2n-1, and to exactly that as long as no error was recorded. |
| `Runs.SequencesEnd` | src/emulated_syscalls.rs:680-707 | Whenever a sequence ends: all registers are those at the emulated call's entry except `rax`, which is the answer; it took at most 2n-1 stops, and exactly that many without errors; after a failed call at most one more was made; the signal held last, if any, is delivered at this stop and is no longer held. |
| `Runs.StandInsEnd` | src/emulated_syscalls.rs:489-500 | A stood-in call ends at its first stop with the result it was made for; every other register but the call number is as at its entry. |
| `Runs.SignalsAreHeld` | src/kernel_compat.rs:824-845 | In every state: only SIGSTOP and SIGTRAP are passed to a tracee inside an emulation; the slot holds the last signal held since the emulation began, and is empty outside one. |
| `Signals.SignalsReach` | src/kernel_compat.rs:815-862 | In every run a signal reaches the application as it is and with nothing else changed, unless it is the stop that a new tracee starts with, or one that comes inside an emulation, which is kept, or that of an XGETBV, which is skipped and has read zero. |
| `Signals.OwnStopIsKeptExactlyWhen` | src/kernel_compat.rs:815-823 | In every run the stop that a new tracee starts with is kept from it exactly when no other signal has stopped it since its birth. |
| `Signals.TermFirstIsStopped` | src/kernel_compat.rs:815-823 | For any two tracees, in every mode, there is a run in which the second gets a SIGTERM first, and is then stopped by the tracer's own SIGSTOP. |
| `Runs.DeadPidsAreBlank` | src/kernel_compat.rs:712-724 | In every state nothing is remembered of a pid that is not in use, so its next owner inherits nothing. |
| `Runs.PendingIsFollowed` | src/kernel_compat.rs:846-858 | In the filtering mode, where every call is followed through, every tracee with anything pending was last resumed with PTRACE_SYSCALL, signal stops included, and its next syscall stop is the expected entry or the exit. |
| `Runs.EntriesAreSkipped` | src/kernel_compat.rs:864-896 | In the filtering mode, where every call is followed through, a syscall stop is an entry exactly when one is expected; it is skipped without any change, and the next one is not. |
| `Runs.CallsReturn` | src/kernel_compat.rs:1117-1252 | A call whose exit stops, unless it replaces the registers, goes back with the stack pointer it was made with and with nothing pending: in the mode where every call stops always, and in the filtering mode where every call is followed through. |
| `FilterOrder.PromisesHoldExactlyWhen` | src/kernel_compat.rs:864-896 | In the filtering mode, over all runs: every entry and no exit is skipped, and every call comes back with its stack pointer and nothing pending, exactly when the entry stop comes after the filter's or no call of this kernel needs its exit. |
| `FilterOrder.ExitIsSwallowed` | src/kernel_compat.rs:887-892 | On a kernel that reports the entry before the filter's stop, the stop skipped after it is the exit; nothing is put right there, and all stays pending. |
| `FilterOrder.StatxIsNotFinished` | src/kernel_compat.rs:1257-1297 | So every statx that is translated there comes back with its stack pointer at the scratch memory and its buffer not filled in. |
| `EchoedNumbers.EchoesAreUndone` | src/kernel_compat.rs:1177-1240 | In every run where every call stops, a 64-bit call comes back with the kernel's result, except that a number above the table which the kernel gave back for itself has become ENOSYS; a rewritten call's result and a count of random bytes stand, whatever they are. |
| `EchoedNumbers.RunStaysNumbered` | src/kernel_compat.rs:1011-1020 | In every such run the number of the call a tracee is in is remembered, or the call was rewritten to one of an old kernel's table. |
| `CompletedAnswers.AnswersReachCaller` | src/kernel_compat.rs:1117-1252 | In every run, in the modes that wait for exits, a statx that the kernel lacks comes back with the 256 bytes at the address it was made with holding the fields of the 144 in scratch memory, a TCGETS2 with both speeds behind the flags it asked for, and a getrandom with its buffer filled and counted; nothing else in memory changes; and each is EFAULT or an error exactly when that cannot be done. |
| `CompletedAnswers.RunOwes` | src/kernel_compat.rs:1022-1109 | In every state of every such run what is remembered for the exit of the call a tracee is in is what that call asked for, at the addresses it was made with. |
| `Runs.RunsGoOn` | src/kernel_compat.rs:741-931 | In every run any tracee can stop by any signal next, and any traced one at its next entry or exit: what is assumed of the kernel can always be met. |
| `Runs.RunKeepsInv` | src/kernel_compat.rs:741-931 | The invariant of the mode holds of every tracee in every state of every run with births, deaths, stops of all kinds and reuse of pids. |
| `EverySyscallMode.StopKeepsInv` | src/kernel_compat.rs:886-924 | One stop of any kind keeps phases, held signals, moved stack and sequence progress consistent. |
| `EverySyscallMode.InjectedStopIsOurs` | src/emulated_syscalls.rs:561-570 | From a consistent state the next stop of an undisturbed emulation is its own call's. |
| `EverySyscallMode.OursExactlyWhen` | src/kernel_compat.rs:832-845 | The next entry is certain to be the tracer's call exactly when no handler can run first and the `syscall` instruction is still there; so not when a SIGTRAP was passed on, nor from an `int 0x80`. |
| `Disturbance.AlwaysOursExactlyWhen` | src/kernel_compat.rs:824-845 | Over all runs: the call a sequence is about to make is the one the tracee enters the kernel with, exactly when no call is answered by a sequence at all, or the runs have neither a SIGTRAP nor an emulation that starts from anything but a `syscall`. With either let in, there is a run in which another call of the application's is collected as the tracer's, whatever call the kernel lacks. |
| `Disturbance.TrapLetsInAnother` | src/kernel_compat.rs:832-845 | Every run in which a sequence is about to make a call can go on with a SIGTRAP, which is passed on, and then with the entry of another call, which the tracer counts as its own. |
| `Disturbance.OtherCallEnters` | src/emulated_syscalls.rs:927-937 | So can one whose emulation started at an `int 0x80`, without any signal. |
| `EverySyscallMode.SequenceEnds` | src/emulated_syscalls.rs:680-707 | The last stop of a sequence, from any consistent state: registers, number of stops, calls after a failure, delivery of the held signal. |
| `EverySyscallMode.StandInEnds` | src/emulated_syscalls.rs:553-559 | The one stop of a stood-in call, from any consistent state. |
| `EverySyscallMode.CallReturns` | src/kernel_compat.rs:1171-1175 | The exit stop of an application's call, from any consistent state, restores the stack pointer and leaves no speeds, statx or reservation behind. |
| `EverySyscallMode.StoppedSoon` | src/emulated_syscalls.rs:632-654 | In the record of calls that ran, an error is last or last but one. |
| `FilteredMode.StopKeepsInv` | src/kernel_compat.rs:846-896 | One stop of any kind, in either order of the kernel's stops, keeps what is pending consistent with how the tracee was resumed and with the side of its next stop, where every call is followed through. |
| `FilteredMode.EntryIsSkipped` | src/kernel_compat.rs:887-892 | Where every call is followed through, the stop after a filter's stop is an entry, and is passed over as it is. |
| `FilteredMode.CallReturns` | src/kernel_compat.rs:893-896 | There the stop after that is the exit; the stack pointer is put back, and nothing is left pending. |
| `EpollPwaitRefinement.EpollPwaitRefines` | src/emulated_syscalls.rs:267-287 | In every run an undisturbed emulated epoll_pwait ends as one call would: either setting the mask failed, nothing ran and nothing changed; or the wait ran with the fd, the events, their number and the timeout of the emulated call, under the caller's mask, its result is the answer, memory changed only in the events and the scratch mask, and the mask is what it was exactly when putting it back worked or it had not changed. |
| `EpollPwaitRefinement.SettingStep` | src/emulated_syscalls.rs:620-657 | A failed first mask call ends the sequence with neither wait nor restore; a successful one leads to the wait under the caller's mask, with the old mask saved. |
| `EpollPwaitRefinement.WaitingStep` | src/emulated_syscalls.rs:620-657 | Whether the wait succeeds or fails, the restore runs next. |
| `EpollPwaitRefinement.RestoringStep` | src/emulated_syscalls.rs:680-693 | After the restore the answer is the wait's own, and the mask is the one before when the restore worked. |
| `EpollPwaitRefinement.RunKeepsEpoll` | src/emulated_syscalls.rs:620-657 | In every state of every run an undisturbed epoll_pwait is in one of its three phases, with mask and saved mask as that phase has them. |
| `TakenCalls.TakenOverExactlyWhen` | src/emulated_syscalls.rs:222-259 | In every run a 64-bit call of the application's is answered by others exactly when the kernel lacks it, the two bytes behind the tracee enter the kernel, and an eventfd's address and value find room below the stack; and by the tracer itself exactly when it is about a timer of its own and can be carried out. |
| `TakenCalls.TakenExactlyWhen` | src/emulated_syscalls.rs:262-424 | The first half of this, of every entry. |
| `TakenCalls.AnsweredExactlyWhen` | src/emulated_syscalls.rs:428-500 | The second half: the setting can be read, the old one reported, and its clock read if it is relative; or the current one written. The answer is 0. |
| `EmulationScripts.EmulationsFollowScripts` | src/emulated_syscalls.rs:262-424 | In every run a call that is answered by others is one the kernel lacks, and the calls made for it, undisturbed, are those of a script written out number by number and argument by argument, in order, until one fails or all are made; the answer is the result of the call it is for. |
| `EmulationScripts.RunKeepsScripts` | src/emulated_syscalls.rs:547-705 | In every state of every run an undisturbed sequence is at one place of its script: the calls made are the first ones, the one running is the next, and the rest is queued. |
| `TakenCalls.EventfdsAreReady` | src/emulated_syscalls.rs:354-396 | In every run an eventfd that is taken over finds in memory, at the address its bind and connect are made with, an abstract address that a `struct sockaddr_un` has room for, and its value where it is written from. |
| `TakenCalls.AddressesAreApart` | src/emulated_syscalls.rs:364-372 | In every run no two eventfds have one address, whoever makes them and whatever becomes of pids. |
| `NewFds.NewFdHasFlagsExactlyWhen` | src/emulated_syscalls.rs:327-424 | In every run, when all its calls were made and none failed: a new fd is non-blocking and closed on exec as was asked for exactly when close-on-exec was not, but for F_DUPFD_CLOEXEC, and an eventfd did not have EFD_NONBLOCK in its second register, which it does not take. |
| `NewFds.FlagsReachExactlyWhen` | src/emulated_syscalls.rs:327-424 | The same of every script. |
| `StopShapes.BeginShape` | src/emulated_syscalls.rs:225-259 | Whatever call is taken over, the emulation starts with the registers saved, the gadget two bytes back and the first call in the registers; a call not taken over has its registers untouched. |
| `StopShapes.InjectedNumbers` | src/emulated_syscalls.rs:810-863 | No call of a sequence replaces the registers or makes an event stop. |
| `StopShapes.EntryShape` | src/kernel_compat.rs:997-1113 | Translating an entry moves the stack pointer only together with a record of where it was. |
| `StopShapes.FilterShape` | src/kernel_compat.rs:976-991 | The same for a filtered call, and whatever needs the exit stop asks for it. |
| `StopShapes.ExitShape` | src/kernel_compat.rs:1117-1252 | An exit of a 64-bit tracee clears speeds, statx, reservation and number, puts the stack pointer back, and changes no other register but `rax`; of any other tracee it changes nothing. |
| `Sequences.FirstErrorMeaning` | src/emulated_syscalls.rs:620-625 | The failure recorded is the first result in -4095..-1, and there is none when no result is. |
| `Sequences.AdvanceProgress` | src/emulated_syscalls.rs:550-678 | Every stop of a sequence brings its end nearer, by exactly one stop while nothing fails. |
| `Sequences.AnswerRule` | src/emulated_syscalls.rs:681-693 | The answer is the outcome when that is not negative, and otherwise the first error when there is one. |
| `Sequences.CleanupIsLast` | src/emulated_syscalls.rs:632-657 | The call made after a failure ends the sequence, whatever it returns. |
| `Sequences.FailureLeavesCleanup` | src/emulated_syscalls.rs:642-652 | Such a call is an `always` step, and is made only when everything before the failed call had worked. |
| `Takeover.TransferAnswer` | src/emulated_syscalls.rs:289-318 | preadv and pwritev become a seek to their offset and a transfer of their vectors: a failed seek is the answer and nothing is transferred; otherwise the transfer's result is the answer. |
| `Takeover.CreatedFdIsAnswer` | src/emulated_syscalls.rs:686-693 | A sequence answered by its first call reports an error exactly when that call failed; a later failure, such as an eventfd's bind, leaves the fd as the answer. |
| `Takeover.FailedPipeAnswer` | src/emulated_syscalls.rs:590-617 | A failed pipe call ends a timerfd creation. Its error is the answer exactly when the two numbers in scratch memory cannot be read, the second is no fd that /proc reopens, or the first is negative; otherwise that first number is. |
| `Takeover.FailedPipeIsFdZero` | src/emulated_syscalls.rs:590-617 | So with eight zero bytes in scratch memory and an fd 0 that can be reopened, the application is told that its new timer is fd 0. |
| `Takeover.MadePipeAnswer` | src/emulated_syscalls.rs:597-616 | A pipe that was made is adopted with its read end as the fd, the next calls close its write end in the tracee and make the read end non-blocking when asked for; or the creation ends with EIO. |
| `Takeover.DupfdAnswer` | src/emulated_syscalls.rs:320-349 | F_DUPFD_CLOEXEC becomes F_DUPFD with the same arguments and FD_CLOEXEC on the fd that gave; the first call is the answer, and its failure the end. |
| `Takeover.EventfdIsSelfConnected` | src/emulated_syscalls.rs:361-389 | The socket is bound and connected to one and the same address; that address and the eight bytes of the initial value are in memory when the sequence starts. |
| `Takeover.NamesApart` | src/emulated_syscalls.rs:365-371 | Different pids or counts give different socket names. |
| `Takeover.TimeLeftAfterSetting` | src/emulated_syscalls.rs:442-487 | What is left of any relative setting is, at any later reading, less by the time that has passed, down to nothing; of a normalised one, right after it, what was set. |
| `Takeover.SettingRoundTrip` | src/emulated_syscalls.rs:939-946 | A timer's setting written as bytes is read back the same. |
| `EmulatedSyscalls.Emulations.Begin` | src/emulated_syscalls.rs:225-259 | The new state of emulations, registers, memory and timers is exactly that of the specified takeover, and of no other tracee's. |
| `EmulatedSyscalls.Emulations.StartSequence` | src/emulated_syscalls.rs:504-545 | The first call is in the registers, the rest in the queue, and the saved registers are those given. |
| `EmulatedSyscalls.Emulations.StandIn` | src/emulated_syscalls.rs:491-500 | getpid replaces the call, and the result waits for its return. |
| `EmulatedSyscalls.Emulations.BeginEpollPwait` | src/emulated_syscalls.rs:267-287 | An epoll_pwait is taken over, with the three calls queued and the wait as the answer, when the kernel lacks it and there is an instruction to re-enter from; otherwise nothing changes. |
| `EmulatedSyscalls.Emulations.BeginVectorIo` | src/emulated_syscalls.rs:298-318 | Taken over as a seek and a transfer, with the transfer as the answer, before 2.6.30; otherwise nothing changes. |
| `EmulatedSyscalls.Emulations.BeginDupfdCloexec` | src/emulated_syscalls.rs:326-349 | Taken over exactly for F_DUPFD_CLOEXEC before 2.6.24, with the new fd as the answer; otherwise nothing changes. |
| `EmulatedSyscalls.Emulations.BeginEventfd` | src/emulated_syscalls.rs:352-396 | Taken over when the kernel lacks it and the initial value fits 32 bits; address and initial value are then below the stack. When they cannot be written the call is left alone, but the name is used up and what could be written stays. |
| `EmulatedSyscalls.Emulations.BeginTimerfdCreate` | src/emulated_syscalls.rs:399-424 | Taken over as a pipe, its write end closed, non-blocking when asked for, in the clock that stands in for the one named; otherwise nothing changes. |
| `EmulatedSyscalls.Emulations.BeginTimerfdSettime` | src/emulated_syscalls.rs:428-469 | For an emulated timer whose new setting can be read, whose old one can be written when asked for, and whose clock can be read when the setting is relative: the timer is set, the interval timer armed, and the call answered with 0; otherwise the call is left alone. |
| `EmulatedSyscalls.Emulations.BeginTimerfdGettime` | src/emulated_syscalls.rs:472-487 | For an emulated timer and a buffer that can be written: interval and time left, by its clock or from no time at all when that cannot be read, are in it, and the call is answered with 0. |
| `EmulatedSyscalls.Emulations.Gadget` | src/emulated_syscalls.rs:927-937 | Where to enter the kernel again, when the two bytes behind the tracee do that in either encoding. |
| `EmulatedSyscalls.Emulations.CapturePipe` | src/emulated_syscalls.rs:869-896 | Both fds when they can be read and the write end reopened, with a disarmed timer for the read end; otherwise nothing changes. |
| `EmulatedSyscalls.Emulations.Failure` | src/emulated_syscalls.rs:620-625 | The first error among the results. |
| `EmulatedSyscalls.Emulations.TakeNext` | src/emulated_syscalls.rs:627-654 | The next step and the queue after it: the front while nothing failed, and else a cleanup with something to take back. |
| `EmulatedSyscalls.Emulations.Collect` | src/emulated_syscalls.rs:572-618 | The emulation with the finished call's result taken in, and the pipe captured when it was one. |
| `EmulatedSyscalls.Emulations.Continue` | src/emulated_syscalls.rs:659-707 | The next call set up, or the application's registers back with the answer. |
| `EmulatedSyscalls.Emulations.Step` | src/emulated_syscalls.rs:550-708 | One stop of an emulation: its new state, the registers, and the timers. |
| `EmulatedSyscalls.Emulations.Forget` | src/emulated_syscalls.rs:218-220 | Only this tracee's emulation is dropped; timers stay. |
| `Tracers.Tracer.Supervise` | src/kernel_compat.rs:738-922 | One turn of the loop: due timers are served; a tracee that ended is forgotten, and its end is noted or ends the tracer; one that stopped is handled as specified, with the timers as the tick left them; nothing else changes. |
| `Tracers.Tracer.OnStop` | src/kernel_compat.rs:775-914 | A stop: what is remembered of the tracee and how it is resumed are exactly what is specified for the stop and the mode; every other tracee and what is remembered of it stay. |
| `Tracers.Tracer.OnEnd` | src/kernel_compat.rs:744-773 | A tracee that ended is forgotten; the child's end is noted in the filtering mode, and ends the tracer otherwise. |
| `ExitCodes.ExitsWithChild` | src/kernel_compat.rs:744-773 | Without a filter the tracer exits with the code of the child, when that ends, whatever else still runs. |
| `ExitCodes.ExitsWithLast` | src/kernel_compat.rs:744-917 | With a filter it exits when no tracee is left, with the code of the last that had the child's pid. |
| `ExitCodes.ChildsCodeExactlyWhen` | src/kernel_compat.rs:744-917 | So the child's own code is handed on exactly when no later tracee that was given its pid ended otherwise. |
| `Tracers.Tracer.Stopped` | src/kernel_compat.rs:775-863 | A signal stop: configuration of a new child, holding back, XGETBV, and how to resume. |
| `Tracers.Tracer.Deliver` | src/kernel_compat.rs:846-862 | A signal passed on or suppressed, with PTRACE_SYSCALL when something is pending. |
| `Tracers.Tracer.EmulateSigill` | src/kernel_compat.rs:1739-1794 | Exactly an XGETBV is skipped, reading zero. |
| `Tracers.Tracer.SeccompStopped` | src/kernel_compat.rs:864-877 | A filter's stop: translated, and followed to its exit when that is needed. |
| `Tracers.Tracer.TranslateFiltered` | src/kernel_compat.rs:976-991 | Whether a filtered call needs its exit stop, and its rewriting. |
| `Tracers.Tracer.CommonRewrites` | src/kernel_compat.rs:943-972 | futex, pipe2 and statx rewritten; a call that is none of these is untouched. |
| `Tracers.Tracer.TranslateFutex` | src/kernel_compat.rs:1371-1440 | The op brought to a form of before 2.6.25, or left alone when its timeout cannot be converted. |
| `Tracers.Tracer.ReserveRelativeTimeout` | src/kernel_compat.rs:1447-1486 | By the clock the op names, the time left is in scratch memory; or there is no timeout, or it could not be converted. |
| `Tracers.Tracer.SetupStatx` | src/kernel_compat.rs:1257-1297 | statx as fstat or newfstatat into scratch memory, with the stack pointer and the buffer recorded. |
| `Tracers.Tracer.RewriteOther` | src/kernel_compat.rs:1022-1109 | epoll_create1, prlimit64, termios2 ioctls, clock ids and ppoll rewritten, each only where the kernel lacks it. |
| `Tracers.Tracer.SetupTermios2` | src/kernel_compat.rs:1308-1328 | A termios2 ioctl becomes the older one, and where the answer to one that asks goes is remembered. |
| `Tracers.Tracer.FinishTermios2` | src/kernel_compat.rs:1341-1364 | The speeds are filled in when the older ioctl worked, and the call refused when they cannot be. |
| `Tracers.Tracer.Exited` | src/kernel_compat.rs:1117-1252 | An exit stop: speeds and statx completed or refused, the stack pointer put back, a random buffer filled, an echoed number turned into ENOSYS. |
| `Tracers.Tracer.FinishRandom` | src/kernel_compat.rs:1176-1201 | The fill is what the random source allows, and the result its count, or ENOSYS for an echoed number. |
| `Tracers.Tracer.InjectedStopped` | src/kernel_compat.rs:898-915 | A stop inside an emulation belongs to it; when it ends, a held signal goes with the resume. |
| `Tracers.Tracer.OwnStopped` | src/kernel_compat.rs:916-922 | A stop of the application's own call: taken over, or translated. |
| `Tracers.Tracer.SyscallStopped` | src/kernel_compat.rs:993-1113 | Entry and exit alternate, and each is handled as such. |
| `Tracers.Tracer.FilteredStopped` | src/kernel_compat.rs:887-896 | The expected entry is skipped; any other stop is an exit. |
| `Tracers.Tracer.Forget` | src/kernel_compat.rs:714-724 | Nothing is remembered of this tracee any more, and of the others everything still is. |
| `Translations.TimedWaitKeepsDeadline` | src/kernel_compat.rs:1447-1486 | A translated timed wait is a plain wait whose timeout, counted from now by the clock the op names, ends at the caller's point in time, normalised or not, or now when that has passed. |
| `Translations.FutexGetsPlainOp` | src/kernel_compat.rs:1371-1440 | A futex reaches an old kernel with a plain op, and as it was exactly when its op is plain already, the kernel is new enough, or its point in time cannot be converted: because it, its clock or the scratch memory is not there. It is marked for its exit exactly when a point in time was converted. |
| `Translations.SpeedsAreFromFlags` | src/kernel_compat.rs:1341-1364 | Both speeds read back are the one that the answered c_cflag stands for, and what the kernel answered before them is untouched. |
| `Translations.SpeedsTellCodes` | src/kernel_compat.rs:133-166 | Of any two c_cflag the higher baud code is the higher speed, and the same speed is the same code, but for the two that stand for none. |
| `Translations.MillisecondsRoundDown` | src/kernel_compat.rs:1093-1097 | A ppoll timeout in milliseconds is never longer than asked for, and less than one shorter unless it does not fit; one that is not normalised is less than a millisecond off, and one a millisecond or more below zero waits for ever. |
| `Translations.StatxFields` | src/kernel_compat.rs:1613-1653 | Read at the offsets of `struct statx`, every field is the one of `struct stat` it stands for. |
| `Translations.DeviceRoundTrip` | src/kernel_compat.rs:1604-1610 | Device numbers come apart into the major and minor numbers they were made of. |
| `CallMeanings.MeaningKeptExactlyWhen` | src/kernel_compat.rs:1022-1109 | What a rewritten call asks for, as read off its number and arguments by the manual pages, is what it asked for before exactly when the old call can say it: no flags to an epoll_create1 or a pipe2, either new limits or a place for the old ones, and with AT_EMPTY_PATH an empty path and an fd. |
| `CallMeanings.FilterKeepsMeaningExactlyWhen` | src/kernel_compat.rs:943-975 | The same in the filtering mode. |
| `CallMeanings.LackedGoesOnExactlyWhen` | src/kernel_compat.rs:1022-1109 | A call that the kernel lacks goes on to it exactly when it is about another process's limits, a statx without a buffer, a futex whose point in time cannot be converted, or a clock of a family of which the kernel answers not even the first. |
| `CallMeanings.KnownGoesOn` | src/kernel_compat.rs:1022-1109 | A call that the kernel has goes on as it is, with memory as it is. |
| `CallMeanings.PpollAsksPoll` | src/kernel_compat.rs:1084-1108 | A ppoll becomes a poll of the same fds that waits for as many whole milliseconds as were asked for, or for ever when no end was given or it cannot be read. |
| `CallMeanings.FutexKeepsKind` | src/kernel_compat.rs:1371-1440 | A futex stays a wait, a wake or what else it was, on the same word with the same value. |
| `TimerRuns.DeadlinesAreCovered` | src/emulated_syscalls.rs:712-806 | In every state of every run, a pending deadline by a clock that can be read has the handlers in place and either the alarm set, or the interval timer armed no later than that deadline or a microsecond after it was last set. |
| `TimerRuns.CoveredExactlyWhen` | src/emulated_syscalls.rs:716-719 | A clock's deadlines are covered in every run exactly when that clock can be read: a timer by another one is made, and set to a point in time, and then forgotten. |
| `TimerRuns.KeysAgree` | src/emulated_syscalls.rs:241-247 | In every state of every run a timer is tracked exactly when its write end is held. |
| `TimerRuns.NeverDrifts` | src/emulated_syscalls.rs:716-738 | In every state of every run an interval timer's deadline is its first one plus a whole number of intervals: the periods reported and dropped so far. |
| `TimerRuns.TickCatchesUp` | src/emulated_syscalls.rs:723-736 | A tick that does not reach the cap accounts for exactly the periods that have ended. |
| `TimerRuns.TickLeavesNoneDue` | src/emulated_syscalls.rs:711-779 | A tick leaves no deadline of a readable clock that has come, that moment included, but for a one-shot whose pipe had no room and for more periods than the loop counts. |
| `TimerRuns.OneShotReportsOnce` | src/emulated_syscalls.rs:751-772 | In every run a one-shot setting is reported by at most one successful write, of one expiration. |
| `TimerRuns.DeadlineIsNotLost` | src/emulated_syscalls.rs:739-779 | In every run a deadline goes away exactly through an eight-byte write for a one-shot that is due, a write for one that is due into a pipe nobody reads, a close, a setting to zero or a new pipe on its fd. |
| `TimerRuns.RunKeepsInv` | src/emulated_syscalls.rs:712-806 | The invariant behind these holds in every state of every run, under any write outcomes. |
| `TimerEvents.StopIsEvent` | src/emulated_syscalls.rs:241-247 | What a stop does to the timers is one event of their runs. |
| `TimerEvents.StopKeepsTimers` | src/emulated_syscalls.rs:453-468 | So the timers' invariant survives every stop the tracer handles. |
| `TimedRuns.TimersUnderTracer` | src/emulated_syscalls.rs:711-806 | In every run of the tracer with its timers, over all stops, births and deaths of tracees: a timer is tracked exactly when its write end is held, every pending deadline by a clock that can be read is covered, and no interval timer drifts. |
| `TimedRuns.DeadlinesEnd` | src/emulated_syscalls.rs:225-247 | In every such run a pending deadline goes away exactly by a write or a vanished reader at a tick, or when a 64-bit tracee enters a close of the fd or a setting of it to zero that is taken over, or a pipe call of the tracer's gives its number as the read end. |
| `TimerOwners.AlwaysDropsItsOwnExactlyWhen` | src/emulated_syscalls.rs:193-247 | In every such run the timers a stop drops were made by its own tracee: exactly when none are made. Where they are, there is a run in which a second tracee ends the first one's timer by closing its own fd of that number. |
| `TimerOwners.DropsAtClose` | src/emulated_syscalls.rs:241-247 | A stop drops a timer exactly when a 64-bit tracee, be it any, enters a close of its number. |
| `TimedRuns.TimedRunKeepsInv` | src/kernel_compat.rs:741-931 | The invariants of tracer and timers hold together in every state of every such run. |
| `TimerCalls.SettingTakes` | src/emulated_syscalls.rs:428-469 | In every run, a setting that is taken over gives the fd in rdi the interval in the first 16 of the caller's 32 bytes, and as deadline none, the value in the others, or the clock's time plus that value, by zero and by bit 0 of rsi; no other timer changes. |
| `TimerCalls.SettingReportsOld` | src/emulated_syscalls.rs:428-469 | And the setting before it is at r10 when that is not null, as a gettime would have shown it; otherwise memory is as it was. |
| `TimerCalls.GettimeReports` | src/emulated_syscalls.rs:472-487 | A gettime that is taken over puts interval and time left, by the timer's clock, at the address in rsi and changes no timer. |
| `TimerCalls.GettimeFindsSetting` | src/emulated_syscalls.rs:428-487 | In every run: a gettime gives back the interval that the last setting gave, and of its value what is left: of a relative one less by the time since, of an absolute one what is still to come. |
| `TimerCalls.PipeBecomesTimer` | src/emulated_syscalls.rs:590-617 | In every run: the ends that the kernel stored for the pipe are a new disarmed timer's, which counts by the clock that was asked for or the one that stands for it, and the read end is its fd. |
| `TimerCalls.ClockMovesOn` | src/emulated_syscalls.rs:711-806 | The clock that settings and ticks go by never goes back in a run. |
| `TimedRuns.TracerRun` | src/kernel_compat.rs:741-931 | The tracer's part of every run with timers is a run of the tracer. |
| `TimerFd.NextIsNext` | src/emulated_syscalls.rs:727-736 | The next deadline is the old one plus the counted periods, and the first one after now unless the count is capped. |
| `TimerFd.PeriodsHaveEnded` | src/emulated_syscalls.rs:727-736 | Of normalised times the count is min(u32::MAX, elapsed / interval + 1). |
| `TimerFd.ItimerNanos` | src/emulated_syscalls.rs:796-803 | The interval timer is never set to zero, and to no more than what is left or a microsecond. |
| `TimerFd.SoonestIsUnique` | src/emulated_syscalls.rs:786-794 | The least time left is one value, in whatever order the timers are looked at. |
| `TimerFd.TimerFds.Arm` | src/emulated_syscalls.rs:785-806 | The interval timer stands for the nearest deadline by a clock that can be read, or is off when there is none. |
| `TimerFd.TimerFds.SetTime` | src/emulated_syscalls.rs:453-467 | The timer has the new deadline and interval, and the interval timer is armed for all; or nothing changes, when the setting is relative and its clock cannot be read. |
| `TimerFd.TimerFds.Create` | src/emulated_syscalls.rs:892-894 | A disarmed timer, its write end, and the handlers. |
| `TimerFd.TimerFds.Close` | src/emulated_syscalls.rs:241-247 | Timer and write end are dropped together. |
| `TimerFd.TimerFds.CountPeriods` | src/emulated_syscalls.rs:727-736 | The loop ends at the first deadline after now or at the cap, whatever the times, with that count and that deadline. |
| `TimerFd.TimerFds.CollectDue` | src/emulated_syscalls.rs:716-738 | Exactly the due timers whose clock can be read, each with its count and next deadline. |
| `TimerFd.TimerFds.Serve` | src/emulated_syscalls.rs:739-779 | One timer after one write: moved on, kept, or dropped. |
| `TimerFd.TimerFds.Tick` | src/emulated_syscalls.rs:712-781 | Without the alarm nothing changes; with it every timer is as one service of each due one leaves it, and the interval timer is armed again. |
| `TimeMath.AddIsNanos` | src/emulated_syscalls.rs:954-962 | Addition of normalised times is addition of nanoseconds, and stays normalised. |
| `TimeMath.SubIsNanos` | src/emulated_syscalls.rs:965-976 | Subtraction is subtraction of nanoseconds, down to zero. |
| `TimeMath.SubUndoesAdd` | src/emulated_syscalls.rs:954-976 | Subtracting undoes adding. |
| `TraceeMemory.ReadStruct` | src/kernel_compat.rs:1517-1527 | The bytes asked for, exactly when the words that cover them can be read. |
| `TraceeMemory.WriteStruct` | src/kernel_compat.rs:1529-1552 | Success exactly when the covering words are mapped, and then only the bytes of the range change; on failure the words before the first gap are written. |
| `TraceeMemory.ReadAfterWrite` | src/kernel_compat.rs:1517-1552 | What was written is what is read back, for any length. |
| `TraceeMemory.ReadBesideWrite` | src/kernel_compat.rs:1529-1552 | A write does not disturb a range beside it. |
| `TraceeMemory.EmulateGetrandom` | src/kernel_compat.rs:1556-1586 | A fill works exactly when buffer and source allow; then the range holds the source's first bytes, each once; no byte outside ever changes. |
| `TraceeMemory.FillChunk` | src/kernel_compat.rs:1574-1584 | One chunk extends what is filled, and nothing else. |
| `Words.BytesRoundTrip` | src/emulated_syscalls.rs:939-946 | A number written as bytes is read back. |
| `Bpf.BuildFilter` | src/kernel_compat.rs:491-504 | For up to 255 numbers the kernel admits the program, and on every call it answers TRACE exactly for a wanted number of an x86_64 caller, and ALLOW otherwise. |
| `Bpf.AdmittedHalts` | src/kernel_compat.rs:492-504 | An admitted program, every jump of which lands inside, answers every call. |
| `Bpf.ComparisonsDecide` | src/kernel_compat.rs:497-504 | From any comparison on, the program finds out whether the number is still to come. |
| `Bpf.FilterRightIff` | src/kernel_compat.rs:497-504 | For distinct numbers the program is right exactly when there are at most 255. |
| `Bpf.LostNumberFallsThrough` | src/kernel_compat.rs:499-499 | With more, the number 256 places from the end is let through. |
| `PatternReplace.ExpandStack.SubEvalRepl` | tools/dash-pattern-replace.patch:163-262 | The value in place is replaced by the leftmost-longest replacement of the form, and everything built above it is dropped. |
| `PatternReplace.ExpandStack.LongestAt` | tools/dash-pattern-replace.patch:200-222 | The end of the longest match at a place, found by trying every end; the stack is as it was. |
| `PatternReplace.ExpandStack.FindAt` | tools/dash-pattern-replace.patch:183-224 | The end of the match to replace at a place, with or without the first-character test. |
| `PatternReplace.ExpandStack.TryMatch` | tools/dash-pattern-replace.patch:203-209 | A trial with a NUL put in decides for the slice, and puts the character back. |
| `PatternReplace.ExpandStack.Round` | tools/dash-pattern-replace.patch:178-245 | One round replaces, passes over a character, or stops; the place moves on. |
| `PatternReplace.ExpandStack.BuildReplacement` | tools/dash-pattern-replace.patch:178-245 | The loop ends, and what it built and the rest make up the replacement. |
| `PatternReplace.ExpandStack.Inspect` | tools/dash-pattern-replace.patch:164-167 | When the tests on the pattern's text succeed, every match starts with that character, and has one length. |
| `PatternReplace.ExpandStack.ReplCopy` | tools/dash-pattern-replace.patch:83-92 | A stretch of the stack is appended to it. |
| `PatternReplace.ReplacesFirstMatch` | tools/dash-pattern-replace.patch:94-102 | Without a match the value stays; with one, the text before the leftmost-longest match and the replacement start the result. |
| `PatternReplace.SelfReplacement` | tools/dash-pattern-replace.patch:94-102 | Replacing a literal by itself changes nothing, in every form. |
| `PatternReplace.EndsExplainRest` | tools/dash-pattern-replace.patch:178-245 | The longest end at each place determines the replacement from there on. |
| `Replacements.FirstIsReplaced` | tools/dash-pattern-replace.patch:163-262 | For every pattern that is not empty or is anchored, and every match that is leftmost and longest: the answer starts with what was before it and the replacement, and for the forms that replace once ends with what was after it. |
| `Replacements.AllAreReplaced` | tools/dash-pattern-replace.patch:163-262 | Replacing all makes one chain of matches, each leftmost and longest behind the one before, with the replacement in place of each. |
| `Replacements.EmptyPatternInserts` | tools/dash-pattern-replace.patch:174-176 | The empty pattern puts the replacement before or behind the value when it is anchored there, and changes nothing when it is not. |
| `Replacements.StarTakesAll` | tools/dash-pattern-replace.patch:163-262 | A pattern of one star replaces the whole value, whatever the form. |
| `Replacements.PlainTextIsReplaced` | tools/dash-pattern-replace.patch:163-262 | A pattern of literals replaces what a plain left-to-right search for its text finds. |
| `Replacements.PartsMatchInTurn` | tools/dash-pattern-replace.patch:94-120 | A pattern matches what its two parts match in turn. |
| `Replacements.OneElement` | tools/dash-pattern-replace.patch:94-120 | What each kind of element matches by itself. |
| `ShellPattern.LooksLiteralMeansLiterals` | tools/dash-pattern-replace.patch:164-166 | A text without wildcards is a pattern of literals. |
| `ShellPattern.LiteralsMatchOneString` | tools/dash-pattern-replace.patch:213-214 | Such a pattern matches one string, so stopping at the first match is right. |
| `ShellPattern.PrefilterIsSound` | tools/dash-pattern-replace.patch:167-167 | A pattern that passes the test on its first character matches only strings that start with it. |
| `Normalizer.NormalizeInPlace` | lib/pathmap_common.h:164-195 | For every path shorter than the scratch buffer the buffer then holds its normal form, cut to what fits, which is all of it unless a relative path has one character less than the buffer; beyond MAX_PATH nothing changes. |
| `Normalizer.NormalizedShape` | lib/pathmap_common.h:164-195 | The normal form starts with a slash, its components are exactly the names left by dropping empty and `.` ones and taking one back for `..`, none of them empty, `.` or `..`, and it ends in a slash exactly when the last change was a `..` that left some. |
| `Normalizer.SecondPass` | lib/pathmap_common.h:176-181 | A second pass takes only that slash away, a third changes nothing, and the normaliser is idempotent exactly where there was no such slash. |
| `Normalizer.NotIdempotent` | lib/pathmap_common.h:176-181 | For any names a and b, `/a/b/..` gives `/a/`, and that gives `/a`. |
| `Normalizer.RelativeIsFromRoot` | lib/pathmap_common.h:170-170 | A relative path normalises like the same path from the root. |
| `Normalizer.Reduce` | lib/pathmap_common.h:166-191 | The loop leaves the reduced stack spelled out in the scratch buffer, cut to what fits, within its bounds. |
| `Normalizer.Push` | lib/pathmap_common.h:182-186 | A name is pushed, after a slash when one is needed. |
| `Normalizer.Pop` | lib/pathmap_common.h:176-181 | The last name is taken back, and its slash stays. |
| `StarCapture.CaptureStars` | lib/pathmap_common.h:71-162 | -1 exactly when the pattern has other wildcards or does not match; otherwise the first captures, as many as there is room for. |
| `StarCapture.CapturesAreSound` | lib/pathmap_common.h:71-162 | The captures in place of the stars give the path back, and only the star that ends a pattern captures a slash. |
| `StarCapture.CapturesRebuildPath` | lib/pathmap_common.h:69-70 | The same of what the matcher returns when there is room for every star. |
| `StarCapture.MeasureStar` | lib/pathmap_common.h:92-156 | What one star stands for: all that is left, up to the next slash, or up to the last place of the literal in this segment. |
| `StarCapture.FindLast` | lib/pathmap_common.h:139-149 | The last place a literal occurs. |
| `StarCompleteness.CompleteExactlyWhenSafe` | lib/pathmap_common.h:92-156 | The matcher, which takes the last place for each literal and never goes back, finds captures for every text its pattern allows exactly when each star is safe: after its literal come a slash, the end or stars alone, or one more star and one more literal that it does not reach into. |
| `StarCompleteness.SafeIsComplete` | lib/pathmap_common.h:92-156 | With safe stars every text the pattern allows has captures. |
| `StarCompleteness.DeadIsNeverCaptured` | lib/pathmap_common.h:92-156 | A pattern in which two stars follow each other, with a literal after them in the same segment, has captures for no text at all. |
| `StarCompleteness.UnsafeMisses` | lib/pathmap_common.h:92-156 | With an unsafe star there is a text that the pattern allows and that has no captures. |
| `StarCompleteness.GreedyMisses` | lib/pathmap_common.h:139-149 | `/*a*ba` allows /aba, and no captures are found. |
| `StarCompleteness.CapturedIsSaid` | lib/pathmap_common.h:71-162 | Captures are only found for texts the pattern allows. |
| `MappingEnv.ParseEnv` | lib/pathmap_common.h:228-273 | The pairs of the variable, in order, as strings in the buffer; the table has 2 * (separators + 1) entries and is never exceeded. |
| `MappingEnv.RecordedOnce` | lib/pathmap_common.h:249-266 | What buffer and table hold is one list of pairs: no other one as long can be read from them. |
| `MappingEnv.ParseUndoesPrint` | lib/pathmap_common.h:228-273 | Pairs written as `from:to` with any blanks around the sides and any separators between them are parsed as exactly those pairs, in order. |
| `MappingTexts.ParsedExactlyWhenSaid` | lib/pathmap_common.h:220-273 | A variable parses to a list of pairs exactly when it says it by its characters: cut at commas and line ends, each piece two texts around its first colon, with blanks and tabs around either, and no pair where one is missing. |
| `MappingTexts.EntryExactlyWhen` | lib/pathmap_common.h:255-265 | The same of one piece. |
| `MappingEnv.PairsFit` | lib/pathmap_common.h:241-247 | Never more pairs than separators and one. |
| `MappingEnv.ParseSegment` | lib/pathmap_common.h:255-265 | One segment gives its two trimmed sides, or is skipped; nothing outside it changes. |
| `MappingEnv.SplitInPlace` | lib/pathmap_common.h:258-262 | Both sides of the colon, trimmed in place without disturbing each other. |
| `MappingEnv.TrimInPlace` | lib/pathmap_common.h:220-226 | The trimmed string, in the same place; nothing outside it changes. |
| `PathMapping.ApplyMapping` | lib/pathmap_common.h:399-569 | The forward mapping of the path, or the path as it came. |
| `PathMapping.Weigh` | lib/pathmap_common.h:418-488 | One mapping against the best so far, captures of earlier patterns included. |
| `PathMapping.SubstituteInto` | lib/pathmap_common.h:495-539 | The target with its stars replaced, in the buffer, or a buffer too small. |
| `PathMapping.JoinInto` | lib/pathmap_common.h:489-568 | The match written out by one of the three joins. |
| `PathMapping.AlreadyMapped` | lib/pathmap_common.h:401-407 | Whether the path is under some target. |
| `PathMapping.ForwardIsIdempotent` | lib/pathmap_common.h:399-569 | When no target has a star, mapping twice is mapping once, whatever the patterns are and whatever fnmatch answers. |
| `PathMapping.OutputIsUnder` | lib/pathmap_common.h:489-568 | Every join gives a path under its target. |
| `MappingChoice.BestWins` | lib/pathmap_common.h:408-488 | Whatever the configuration, the mapping chosen is the one that matches most of the path: the last of equals when a pattern, and otherwise the first; there is none only when nothing matches more than the root. |
| `MappingChoice.WinnerIsBest` | lib/pathmap_common.h:408-488 | The mapping that wins by lengths and order is the one chosen. |
| `MappingChoice.OtherWildcardsPassAll` | lib/pathmap_common.h:447-476 | In every configuration with `?` or `[` in some FROM, every path that is under no TO is mapped when there is room, by that mapping or a pattern after it, and never by a prefix; to the target as it stands when that has no star. |
| `MappingChoice.PrefixKeepsRest` | lib/pathmap_common.h:477-539 | For every winning prefix and target: without captures left behind the rest of the path is kept; with them they go into the stars of the target and the rest is dropped, and a target without a star keeps the rest exactly when none are left behind or there is no rest. |
| `MappingChoice.RestIsLost` | lib/pathmap_common.h:477-539 | With `/a*:/x` before `/a/b:/t` the path /a/b/c becomes /t. |
| `MappingChoice.StarsStay` | lib/pathmap_common.h:477-539 | When the pattern that wins has no captures because the matcher found none, the answer is the target with its stars in it, for every target that fits. |
| `MappingChoice.StarsAreCopied` | lib/pathmap_common.h:477-539 | With `/*a*ba:/x/*/*`, the path /aba becomes the text /x/*/*. |
| `MappingChoice.CapturesAreLeftOver` | lib/pathmap_common.h:477-486 | For every configuration and path that no other wildcards match: captures are left behind exactly when some single-star pattern matches that is at least as long as every prefix that matches before it, and they are those of the last such pattern. |
| `StarMappings.OneStarMaps` | lib/pathmap_common.h:422-445 | Where a pattern with one star wins and there is room, the path becomes the target with what the star stands for in place of its own: all that is left when the star ends the pattern, and up to the next slash otherwise, with no second slash behind it. |
| `StarMappings.StarsMap` | lib/pathmap_common.h:447-539 | Where a pattern with several stars wins, and its first eight captures are neither empty nor end in a slash: all captures give the path in place of the pattern's stars, and those eight the answer in place of the target's, which keeps any star for which there is none. |
| `StarMappings.CapturedHasCaptures` | lib/pathmap_common.h:489-539 | The join for a rest that a star stands for but that was not captured is never come to. |
| `StarMappings.StarComesBack` | lib/pathmap_common.h:914-987 | Mapping back by a target with one star at its end puts what it stands for in place of the source's, with a slash on either side where neither text has one. |
| `StarMappings.StarRoundTrip` | lib/pathmap_common.h:408-987 | There and back through a star, the path is the one it was exactly when the source's text before the star ends in a slash, or what the star stands for starts with one. |
| `StarRoundTrips.StarsRoundTrip` | lib/pathmap_common.h:408-1000 | There and back by patterns with several stars: where a mapping wins both ways, source and target have as many stars, at most eight, each a whole segment, and they stand for names, the path is what it was. |
| `StarRoundTrips.StarsComeBack` | lib/pathmap_common.h:914-987 | Mapping back by such a target puts its captures in place of the source's stars and nothing else. |
| `StarRoundTrips.FilledIsCaptured` | lib/pathmap_common.h:71-162 | The matcher finds in a pattern filled with names the names that were put in. |
| `PrefixMappings.PrefixGoes` | lib/pathmap_common.h:477-570 | Without patterns, the source that wins, less the slashes at its end, is cut off the path and the target put in its place as it is, exactly when that fits. |
| `PrefixMappings.PrefixComesBack` | lib/pathmap_common.h:989-1000 | Where no stars are filled, the target that wins, less its slashes, is cut off by its length and the source, less its own, put in its place, exactly when that fits; a target without wildcards is what was cut off. |
| `PrefixMappings.LongerComesBack` | lib/pathmap_common.h:989-997 | A wildcard target longer than the path leaves it alone exactly when it is longer than source and path or there is no room; of the others, one longer by one leaves the source without an end, and any longer one lets the copy run on. |
| `RoundTrips.ReverseUndoesForward` | lib/pathmap_common.h:914-1000 | Without wildcards and trailing slashes, with targets apart and room enough, back undoes forward for every path not under a target. |
| `RoundTrips.ForwardUndoesReverse` | lib/pathmap_common.h:399-569 | With sources apart from each other and from the targets too, forward undoes back for every path under a target. |
| `RoundTrips.ForwardMoves` | lib/pathmap_common.h:489-568 | Forward moves a path from under a source to under its target, and leaves a path under no source. |
| `RoundTrips.ReverseMoves` | lib/pathmap_common.h:989-997 | Back moves a path from under a target to under its source. |
| `ReverseMapping.ApplyReverse` | lib/pathmap_common.h:914-1000 | The reverse mapping of every path in every configuration, wildcard targets and their captures included, or the path as it came; and where the length of the rest wraps around, that it does. |
| `ReverseMapping.WrongExactlyWhen` | lib/pathmap_common.h:989-997 | Mapping back goes wrong exactly when the target that wins by lengths and order is a wildcard longer than the path, does not fill the stars of its source, and the sum of lengths wraps around to one that fits. |
| `ReverseMapping.BracketOverruns` | lib/pathmap_common.h:989-997 | So `/x:/a/[bc]` and the path /a/b: nearly 2^64 bytes would be copied. |
| `ReverseMapping.StarIsUnterminated` | lib/pathmap_common.h:989-997 | And `/x:/a/*` and the path /a/: the answer /x is not terminated. |
| `ReverseMapping.LaterTargetIsFine` | lib/pathmap_common.h:943-958 | A target after it that matches as much takes its place, and all is well. |
| `ReverseMapping.BestToWins` | lib/pathmap_common.h:929-959 | The target chosen is the one that matches most of the path, the last of equals when a wildcard and otherwise the first, with its own captures; there is none only when nothing matches more than the root. |
| `ReverseMapping.WeighBack` | lib/pathmap_common.h:929-959 | One target against the best so far. |
| `ReverseMapping.SubstituteBackInto` | lib/pathmap_common.h:964-988 | The source with its stars replaced, in the buffer, or a buffer too small. |
| `Paths.PathLength` | lib/pathmap_common.h:51-58 | The length without trailing slashes. |
| `Paths.PrefixMatches` | lib/pathmap_common.h:60-68 | Whether the prefix, without trailing slashes, is the path or one of its parents. |

## Left out

- EpollPwaitRefinement.EpollPwaitRefines: each tracee has memory of its own, so another thread that writes into this one's stack during the sequence is not covered.
- Runs.CallsReturn: is about the stack pointer and what is pending; the argument registers a translation rewrote stay rewritten, as in the source. `last_syscall` may stay set in the mode where every call stops, after an exec into a 32-bit program.
- Runs.RunKeepsInv: an exec by a thread other than the leader, which changes its pid, is not modelled.
- TimedRuns.TimersUnderTracer: is about settings with normalised times, which is what timerfd_settime accepts; what the kernel makes of microseconds out of range is left open in `TimerFd.ArmedWith`.
- Tracers.Tracer.Supervise: options, logging and the report of fatal signals are not part of it, and reading or setting the registers of a stopped tracee does not fail.
- TimeMath.SubIsNanos: times whose difference does not fit 64 bits are computed without overflow; so is the sum of a clock and a setting.
- ReverseMapping.ApplyReverse: stops where the copy would overrun; what that copy does is not modelled.
- TraceeMemory.WriteStruct: addresses do not wrap around at 2^64.
- TimerFd.TimerFds.Tick: seconds do not overflow 64 bits; a SIGALRM that lands just before the wait delays a tick, and no claim is made about when ticks happen.
- StarCapture.CaptureStars: returns its captures instead of writing them into the caller's arrays.
- MappingEnv.ParseEnv: a failed allocation is not modelled.
- PathMapping.ApplyMapping: targets are not empty, as the parser guarantees.
- PatternReplace.ExpandStack.SubEvalRepl: characters are single bytes; expansion of pattern and replacement before the loop, quoting, and recorded regions are not modelled, and `pmatch` is the relation `Matches`.
- ShellPattern: bracket expressions are sets of bytes.
- The libc interposers, process launch, environment set-up and file system probing elsewhere in the repository.
- The exclusion list, symlink resolution, start-up directory planning and directory renaming of the path mapper, which need the file system.
