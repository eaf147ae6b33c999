# Verified model of a teaching kernel

This Dafny project models the parts of a small x86 teaching kernel, and of three of its user
programs, whose correctness does not show in any single function: three terminals share six
process slots, one processor and one video page; a read-only inode file system feeds a program
loader, `cat`, `ls` and `grep`; and `fish` blinks characters from a list threaded through a fixed
pool. `dafny verify dfyconfig.toml` checks everything.

Each component comes in two layers. A specification says what the component is for, without its
tables and buffers (stacks of nested programs, a screen of one's own, a flat file, the lines of a
text). Classes and methods then follow the C and assembly code, with its arrays, masks and loops,
and are proved to do what the specification says; the lemmas about whole runs are about the
specification.

| files | component |
|---|---|
| Machine.dfy, Scheduling.dfy, Kernel.dfy | processes, scheduler, saved contexts |
| Screen.dfy, Display.dfy | one text screen, and three of them multiplexed on the video page |
| LineBuffer.dfy, Console.dfy, Keyboard.dfy | line editing, history, the keyboard handler |
| FileSystem.dfy, Loader.dfy, Descriptors.dfy | image, program loader, file descriptors |
| Command.dfy, Execution.dfy | command parsing and `getargs`; `execute` and `halt` put together |
| Grep.dfy, GrepProgram.dfy | streaming grep over a buffer, and the program over the kernel's descriptors |
| Blink.dfy | the blink list and its slot pool |
| Numbers.dfy | `itoa`, `strrev`, `%#x` |
| Prelude.dfy, CStrings.dfy, Division.dfy | shared types, C strings, division facts |

## Main results

* **Process stacks.** Over every run the live pids form one stack per terminal, linked by
  `parentid`, whatever pids the lowest-free rule hands out and whichever terminal is displayed.
  Calls of `execute` nest: `halt` returns to the very context that called.
* **Contexts.** Page-directory entry 32, `tss.esp0`, each process's remembered parent stack and
  the contexts saved by `schedule` agree with those stacks. `execute` uses the displayed terminal
  and everything else the scheduled one, so this is not unconditional: a successful `execute`
  keeps it if and only if all three base shells run and the scheduled terminal is displayed. Four
  events lead to one that does not. The typing flags have an exact condition of their own.
* **Going on.** While they agree, a program that a tick preempts goes on at the very ESP and EBP at
  which it was interrupted, and one that called `execute` at those of its call, whatever was done in
  between: on the page and kernel stack it had, which are its own and overlap no other.
* **Running a program.** From the command line through lookup, ELF check, descriptors and loader a
  new process starts with the whole file in its page and exactly its arguments, at the entry point
  that four bytes of the file spell.
* **Fairness.** A terminal waits for no more ticks than its cyclic distance from the running one:
  two if it waits while another runs, three at most. The kernel reaches machines on which no fewer
  are enough. A background shell is left scheduled only by the tick that starts it, as an
  undisturbed boot does once.
* **Terminals.** Under every interleaving each terminal behaves as if it had screen and keyboard
  to itself; each screen is a window on an endless sheet that holds what was typed and written;
  backspaces undo typing, on the screen too; the typed line is what stands before the cursor, in the
  buffer and in video memory, over every run of scan codes. Ctrl-L breaks the last one exactly when
  the line is not empty.
* **Files.** Block walking is slicing a flat file, which is its blocks one after the other, for
  every inode, offset and length, error cases included. Loading succeeds if and only if all blocks
  are there, and for lengths that are a multiple of the block size, 0 among them, the one just past
  the end too. What was read through a descriptor is a prefix of its file whatever the others do.
* **Grep.** Refills, carries and in-place copies print exactly the matching lines of a file; the
  program, run over the kernel's descriptors, does so for every listed file in directory order.
* **Blinking.** The list is exactly the allocated slots, unless a node is added at location 0; the
  phase of each node has a closed form that survives all other operations, sync included.
* **Round trips.** Numbers and their digits, command lines and their parts, listing and lookup.

## What the code does unexpectedly

* `execute` from a terminal that is scheduled but not displayed starts the program on the displayed
  one (student-distrib/system_calls.c:281-285). `Kernels.PushSyncedIff`,
  `Kernels.UnguardedExecuteIsReachable`.
* `mp1_ioctl_sync` computes both faces of the node, but its conditional move tests a flag that the
  preceding test never sets, so the off character always appears (fish/blink.S:279-282).
  `Blink.Blinker.Sync`, `Blink.Blinker.SyncShowsWrongFace`.
* A program name of 32 bytes fits its array but makes the parser stop before the blank, and its
  arguments are lost (student-distrib/system_calls.c:194-196). `Command.SplitUndoesJoinIff`,
  `Command.LongNameLosesArguments`.
* `getargs` without room for the terminator tests a byte behind the caller's share of the buffer
  (student-distrib/system_calls.c:473). `Command.ArgumentArea.GetArgs`.
* A backspace in a recalled line copies the line from before the deletion into the draft row
  (student-distrib/keyboard.c:130). `LineBuffers.LineBuffer.DraftAfterRecalledBackspace`.
* `read_data` looks at the block of the offset before it tests for the end of the file
  (student-distrib/file_system.c:131-139), so a file whose length is a multiple of the block size,
  an empty one too, needs one more valid block number. `FileSystem.LoadableUnlessLastBlockFull`,
  `FileSystem.EmptyFileMayFail`.
* An empty grep pattern is found in no line (syscalls/ece391grep.c:42-44).
  `Grep.EmptyPatternPrintsNothing`.

## Assumptions

* System calls, interrupts and the timer handler are atomic steps; `halt` does not mask interrupts.
* The base shell's image exists and loads; a failing copy inside `execute` is not modelled.
* A saved ESP/EBP pair is an opaque token, and where `execute` was called is one too.
* Image lengths are within what an inode can hold, entries have one of the three file types, and an
  entry named "." is a directory.
* A pointer to constant bytes that nobody writes is modelled as the sequence of those bytes.

## Model

| member | source | states |
|---|---|---|
| Machines.ChosenTerminal | mp3_group_08-master/mp3_group_08-master/student-distrib/pit.c:27-48 | the scan always ends on a terminal; an unstarted one is only ever reached in order, so its base shell gets the pid of its terminal |
| Machines.PushKeepsStacked | mp3_group_08-master/mp3_group_08-master/student-distrib/system_calls.c:281-285 | taking the lowest free pid founds an empty terminal exactly for pids 0-2, keeps every other process where it is, and keeps all stacks disjoint |
| Machines.StepKeepsWellFormed | mp3_group_08-master/mp3_group_08-master/student-distrib/system_calls.c:79-304 | execute, halt, switch and tick each keep: one place per pid, base shell t at the bottom of stack t, a program to run on the scheduled terminal |
| Machines.FreeFrom | mp3_group_08-master/mp3_group_08-master/student-distrib/system_calls.c:168-175 | the answer is free, everything below it is in use, and -1 means nothing is free |
| Scheduling.StepTouchesTopOnly | mp3_group_08-master/mp3_group_08-master/student-distrib/system_calls.c:126-128 | one step leaves a stack alone, adds one frame on top, or removes the top one, never the last |
| Scheduling.LowerFramesUntouched | mp3_group_08-master/mp3_group_08-master/student-distrib/system_calls.c:79-304 | over any run, frames below the height a stack keeps are untouched: pid, program and return point |
| Scheduling.CallReturnsToItsCaller | mp3_group_08-master/mp3_group_08-master/student-distrib/system_calls.c:247-303 | whatever all terminals do in between, halt of a program returns to the very context that called execute, with the caller's stack unchanged |
| Scheduling.BaseShellsNeverDie | mp3_group_08-master/mp3_group_08-master/student-distrib/system_calls.c:89-102 | over any run a started base shell stays at the bottom of its terminal with pid 0, 1 or 2 |
| Scheduling.ChoiceIsFirstEligible | mp3_group_08-master/mp3_group_08-master/student-distrib/pit.c:31-46 | a tick picks the first eligible terminal in cyclic order, and stays only if no other is eligible |
| Scheduling.BackgroundShellIff | mp3_group_08-master/mp3_group_08-master/student-distrib/pit.c:37-45 | a tick leaves a background shell scheduled if and only if the first unstarted terminal is not the displayed one and the scan meets no eligible terminal before it |
| Scheduling.BootLeavesBackgroundShell | mp3_group_08-master/mp3_group_08-master/student-distrib/pit.c:37-45 | the second tick of an undisturbed boot is such a tick: terminal 1's shell runs while terminal 0 is displayed |
| Scheduling.OnlyTicksReschedule | mp3_group_08-master/mp3_group_08-master/student-distrib/pit.c:27-48 | no run of executes, halts and terminal switches changes which terminal is scheduled |
| Scheduling.WaitingIsLeftAlone | mp3_group_08-master/mp3_group_08-master/student-distrib/pit.c:53-97 | over every run in which a terminal is not scheduled its saved context stays, and, if every execute satisfies the guard, its programs do too |
| Scheduling.PreemptedContextIsKept | mp3_group_08-master/mp3_group_08-master/student-distrib/pit.c:57-72 | after a tick that takes the processor from a terminal, and any events that do not give it back, the saved context is the very one the tick interrupted, and the terminal's programs are still there |
| Scheduling.TickMovesTowards | mp3_group_08-master/mp3_group_08-master/student-distrib/pit.c:31-48 | a tick schedules an eligible terminal or comes strictly closer to it |
| Scheduling.WaitsAtMostItsDistance | mp3_group_08-master/mp3_group_08-master/student-distrib/pit.c:27-48 | an eligible terminal waits for no more ticks than its cyclic distance from the running one |
| Scheduling.BoundedWaiting | mp3_group_08-master/mp3_group_08-master/student-distrib/pit.c:27-48 | a terminal that waits while another one runs is scheduled within two ticks at which it is eligible, any terminal within three, whatever shells the ticks start and whatever executes, halts and switches come between |
| Scheduling.BusyWaitsItsDistance | mp3_group_08-master/mp3_group_08-master/student-distrib/pit.c:31-43 | when all base shells run and every terminal has another program on top, a terminal is scheduled within given ticks if and only if there are as many as its distance, whatever shells the ticks would start |
| Scheduling.BootingWaitsItsDistance | mp3_group_08-master/mp3_group_08-master/student-distrib/pit.c:31-45 | while the system boots, an unstarted terminal is passed by until there are as many ticks as its distance |
| Scheduling.BusyRunTo | mp3_group_08-master/mp3_group_08-master/student-distrib/system_calls.c:281-285 | for each terminal a run that respects the guard, from the initial state, to such a machine on which that terminal is scheduled |
| Scheduling.FewerTicksAreNotEnough | mp3_group_08-master/mp3_group_08-master/student-distrib/pit.c:27-48 | the bounds are exact for every scheduled terminal, or none, and every waiting one: the kernel reaches a machine on which any ticks fewer than the distance pass an always eligible terminal by |
| Kernels.AncestorsAreTheStack | mp3_group_08-master/mp3_group_08-master/student-distrib/system_calls.c:599 | n steps along parentid from a process are n steps down its terminal's stack |
| Kernels.ParentLinksAreAcyclic | mp3_group_08-master/mp3_group_08-master/student-distrib/system_calls.c:599 | every live process reaches its base shell along parentid, and none is its own ancestor, although pid order gives no hint |
| Kernels.PushKeepsCoupled | mp3_group_08-master/mp3_group_08-master/student-distrib/system_calls.c:587-624 | after execute masks, pid array and parent links describe the stack with the new process on top |
| Kernels.PopKeepsCoupled | mp3_group_08-master/mp3_group_08-master/student-distrib/system_calls.c:104-126 | after halt they describe the stack without its top |
| Kernels.PushSyncedIff | mp3_group_08-master/mp3_group_08-master/student-distrib/system_calls.c:258-285 | page, kernel stack, remembered parent stack and saved contexts agree with the machine after execute if and only if the new process joined the scheduled terminal |
| Kernels.PopKeepsSynced | mp3_group_08-master/mp3_group_08-master/student-distrib/system_calls.c:104-122 | halt restores the parent's page and kernel stack, leaving every other terminal's saved context valid |
| Kernels.SuspendKeepsOthers | mp3_group_08-master/mp3_group_08-master/student-distrib/pit.c:57-72 | saving the outgoing context completes the invariant for the terminal switched out without disturbing the one switched in |
| Kernels.GuardMeansScheduledTerminal | mp3_group_08-master/mp3_group_08-master/student-distrib/system_calls.c:281-285 | a new process joins the scheduled terminal if and only if all base shells run and the scheduled terminal is the displayed one |
| Kernels.UnguardedExecuteIsReachable | mp3_group_08-master/mp3_group_08-master/student-distrib/system_calls.c:281-285 | the guard is needed: a guarded boot of all three shells, then an execute from the scheduled terminal 2 while terminal 0 is displayed, violates it, so by PushSyncedIff page, stack and contexts no longer agree |
| Kernels.StepTypingIff | mp3_group_08-master/mp3_group_08-master/student-distrib/system_calls.c:277-285 | one step keeps the typing flags equal to those of the top programs if and only if it starts on the displayed terminal or both programs concerned let one type, and a program it returns to lets one type |
| Kernels.TypingFollowsTop | mp3_group_08-master/mp3_group_08-master/student-distrib/system_calls.c:204-209 | over every run of such steps the typing flag of a terminal is on if and only if its top program lets one type |
| Kernels.TypingCanBeLost | mp3_group_08-master/mp3_group_08-master/student-distrib/system_calls.c:125-125 | the condition can fail: a guarded run from boot after which a halt turns typing on under a program that forbids it |
| Kernels.EligibleByTables | mp3_group_08-master/mp3_group_08-master/student-distrib/pit.c:37 | the table test of pit_handler is eligibility on the stacks |
| Kernels.KernelStacksApart | mp3_group_08-master/mp3_group_08-master/student-distrib/system_calls.c:595-596 | each process's kernel stack top is the end of the 8 KB block that its control block begins, the blocks are disjoint, and all lie in the 4 MB below 8 MB |
| Kernels.StackAndPageAreOwn | mp3_group_08-master/mp3_group_08-master/student-distrib/pit.c:81-85 | in sync, tss.esp0 lies in the block of a process if and only if that process is the scheduled program, and so for the mapped page, which is above the kernel's |
| Kernels.RememberedStackIsTheParents | mp3_group_08-master/mp3_group_08-master/student-distrib/system_calls.c:262-263 | what a nested program remembers for its end lies in its parent's block and in no other |
| Kernels.Kernel.constructor | mp3_group_08-master/mp3_group_08-master/student-distrib/system_calls.c:18-21 | the initial tables are the machine on which nothing has started |
| Kernels.Kernel.FindSlot | mp3_group_08-master/mp3_group_08-master/student-distrib/system_calls.c:168-173 | the scan finds the machine's lowest free pid, the least clear entry of the six in the mask, or -1 if there is none |
| Kernels.Kernel.StartProcess | mp3_group_08-master/mp3_group_08-master/student-distrib/system_calls.c:227-285 | all table entries of a new process, from the old tables |
| Kernels.Kernel.Execute | mp3_group_08-master/mp3_group_08-master/student-distrib/system_calls.c:163-285 | pushes one frame on the machine, or fails and changes nothing; from contexts in order it stays in sync if and only if it pushed on the scheduled terminal |
| Kernels.Kernel.UserExecute | mp3_group_08-master/mp3_group_08-master/student-distrib/system_calls.c:151-304 | the same called by the scheduled program: sync is kept if and only if the guard holds |
| Kernels.Kernel.StopProcess | mp3_group_08-master/mp3_group_08-master/student-distrib/system_calls.c:104-126 | all table entries after a process has ended, from the old tables |
| Kernels.Kernel.Halt | mp3_group_08-master/mp3_group_08-master/student-distrib/system_calls.c:79-141 | pops the scheduled terminal's top and resumes where its execute was called; a base shell restarts and nothing changes; sync is kept |
| Kernels.Kernel.SwitchOut | mp3_group_08-master/mp3_group_08-master/student-distrib/pit.c:57-72 | saves the context and kernel stack of the outgoing program; what that means for the interrupted program is `Kernels.Kernel.PreemptAndReturn` |
| Kernels.Kernel.SwitchIn | mp3_group_08-master/mp3_group_08-master/student-distrib/pit.c:78-87 | maps the incoming program and resumes its saved context |
| Kernels.Kernel.Schedule | mp3_group_08-master/mp3_group_08-master/student-distrib/pit.c:51-104 | in sync, resumes exactly the context the chosen terminal was last switched out with, or starts its base shell |
| Kernels.Kernel.NextTerminal | mp3_group_08-master/mp3_group_08-master/student-distrib/pit.c:29-43 | the table scan, which terminates, finds the machine's next terminal |
| Kernels.Kernel.PitHandler | mp3_group_08-master/mp3_group_08-master/student-distrib/pit.c:27-48 | one tick of the machine; staying put changes nothing; never loads an unsaved context while in sync |
| Kernels.Kernel.Dispatch | mp3_group_08-master/mp3_group_08-master/student-distrib/system_calls.c:79-304 | any one event does what the machine does, and keeps sync if and only if a successful execute satisfies the guard |
| Kernels.Kernel.RunAll | mp3_group_08-master/mp3_group_08-master/student-distrib/system_calls.c:79-304 | over every run tables and stacks agree, and so do page, kernel stack and contexts if every execute satisfies the guard |
| Kernels.Kernel.ComeBack | mp3_group_08-master/mp3_group_08-master/student-distrib/pit.c:51-104 | events that never schedule a terminal, then a tick that does: its saved context is resumed |
| Kernels.Kernel.PreemptAndReturn | mp3_group_08-master/mp3_group_08-master/student-distrib/pit.c:57-97 | preempted by a tick, a program goes on at the very ESP and EBP at which it was interrupted, on the page and kernel stack it had, whatever the others did in between |
| Kernels.Kernel.CallAndReturn | mp3_group_08-master/mp3_group_08-master/student-distrib/system_calls.c:247-303 | a program that executes another goes on, when that one halts, at the very ESP and EBP of its call, on its own page and kernel stack, whatever was done in between |
| Screens.ScreenIsWindowOnPaper | mp3_group_08-master/mp3_group_08-master/student-distrib/lib.c:176-241 | for every byte string from a cleared screen: rows shown are rows FirstRow onward of an endless 80-column sheet, and the cursor is the pen |
| Screens.PutMovesTheWindow | mp3_group_08-master/mp3_group_08-master/student-distrib/lib.c:176-214 | one byte anywhere keeps the screen a window on the sheet, through wraps and scrolls |
| Screens.WindowAfterShift | mp3_group_08-master/mp3_group_08-master/student-distrib/lib.c:222-241 | the row shift moves the window down by exactly one row |
| Screens.PlainTextIsContiguous | mp3_group_08-master/mp3_group_08-master/student-distrib/lib.c:198-208 | printable text lies on the sheet as one contiguous run across row ends |
| Screens.PutAllAppend | mp3_group_08-master/mp3_group_08-master/student-distrib/terminal.c:127-132 | writing two strings one after the other is writing their concatenation |
| Screens.WithoutNulIsByByte | mp3_group_08-master/mp3_group_08-master/student-distrib/terminal.c:127-132 | what terminal_write prints of a string is the string byte by byte, NULs left out |
| Screens.CursorAfterByte | mp3_group_08-master/mp3_group_08-master/student-distrib/lib.c:176-214 | a byte starts a new row exactly if it is a line feed or a carriage return or fills column 79; row 24 is the last |
| Screens.EraseUndoesPutIff | mp3_group_08-master/mp3_group_08-master/student-distrib/keyboard.c:117-132 | erasing undoes a character exactly if it was put on a blank cell |
| Screens.ErasesUndoText | mp3_group_08-master/mp3_group_08-master/student-distrib/keyboard.c:117-132 | as many backspaces as characters bring the whole screen back, across row ends |
| Displays.OneScreenChanges | mp3_group_08-master/mp3_group_08-master/student-distrib/terminal.c:241-258 | a write inside one terminal's page and cursor fields changes that logical screen only |
| Displays.SwitchKeepsScreens | mp3_group_08-master/mp3_group_08-master/student-distrib/terminal.c:206-225 | the two page copies of a switch leave all three logical screens as they were, also when switching to the displayed terminal |
| Displays.Display.constructor | mp3_group_08-master/mp3_group_08-master/student-distrib/terminal.c:146-168 | after initialisation every logical screen is cleared, in memory with blanks of colours 0xB, 0xD and 0xE, and the cursor shown is terminal 0's |
| Displays.Display.ClearScreen | mp3_group_08-master/mp3_group_08-master/student-distrib/lib.c:17-31 | blanks exactly the 2000 displayed cells of the target page |
| Displays.Display.Clear | mp3_group_08-master/mp3_group_08-master/student-distrib/terminal.c:177-180 | the target's logical screen becomes a cleared one, the others stay |
| Displays.Display.ShiftCells | mp3_group_08-master/mp3_group_08-master/student-distrib/lib.c:222-239 | the in-place forward copy is a true row shift of one page and touches no other cell |
| Displays.Display.ShiftScreen | mp3_group_08-master/mp3_group_08-master/student-distrib/lib.c:222-241 | the target's logical screen is shifted with its cursor on the last row, the others stay |
| Displays.Display.PutC | mp3_group_08-master/mp3_group_08-master/student-distrib/lib.c:176-214 | one byte acts on the target's logical screen as on a screen of its own; the shown cursor stays right |
| Displays.Display.EraseLast | mp3_group_08-master/mp3_group_08-master/student-distrib/keyboard.c:119-132 | the cursor steps back, also across a row start, its cell becomes a blank in the terminal's colour, and no other cell of the displayed page changes; never scrolls |
| Displays.Display.TerminalWrite | mp3_group_08-master/mp3_group_08-master/student-distrib/terminal.c:116-137 | prints the non-NUL bytes on the scheduled terminal's logical screen, displayed or not, and returns the count |
| Displays.Display.SwitchTerminal | mp3_group_08-master/mp3_group_08-master/student-distrib/terminal.c:182-231 | changes which terminal is displayed and no logical screen; keys beyond F3 are refused |
| LineBuffers.EditingPaddedLines | mp3_group_08-master/mp3_group_08-master/student-distrib/keyboard.c:125-131 | on a zero-filled buffer typing appends to the line and erasing drops its last character |
| LineBuffers.LineBuffer.LineIsInBuffer | mp3_group_08-master/mp3_group_08-master/student-distrib/keyboard.c:92-110 | the line of a zero-filled buffer is what its bytes and index say, and no other line is |
| LineBuffers.LineBuffer.TypeChar | mp3_group_08-master/mp3_group_08-master/student-distrib/keyboard.c:101-110 | accepts exactly up to 72 characters, starting afresh if an Enter is pending |
| LineBuffers.LineBuffer.Backspace | mp3_group_08-master/mp3_group_08-master/student-distrib/keyboard.c:118-131 | drops the last character; the draft row keeps the bytes from before; history rows stay |
| LineBuffers.LineBuffer.Up | mp3_group_08-master/mp3_group_08-master/student-distrib/keyboard.c:201-232 | moves back to the next non-empty history row if typing is on, saving the draft on the way; otherwise nothing changes |
| LineBuffers.LineBuffer.Down | mp3_group_08-master/mp3_group_08-master/student-distrib/keyboard.c:233-258 | moves towards the draft if typing is on, reloading it byte for byte at the end |
| LineBuffers.LineBuffer.UpThenDown | mp3_group_08-master/mp3_group_08-master/student-distrib/keyboard.c:201-258 | from the draft, up and down again restores the buffer |
| LineBuffers.LineBuffer.DraftAfterRecalledBackspace | mp3_group_08-master/mp3_group_08-master/student-distrib/keyboard.c:127-132 | a backspace in a recalled line leaves the deleted character behind the draft, if and only if it was not NUL |
| LineBuffers.LineBuffer.ShiftRows | mp3_group_08-master/mp3_group_08-master/student-distrib/terminal.c:85-90 | rows 1..8 become rows 2..9 |
| LineBuffers.LineBuffer.EnterHistory | mp3_group_08-master/mp3_group_08-master/student-distrib/terminal.c:92-98 | row 1 becomes the submitted buffer, the draft row empty |
| LineBuffers.LineBuffer.ConsumeLine | mp3_group_08-master/mp3_group_08-master/student-distrib/terminal.c:82-104 | a shell's line joins the submissions, so that rows 1..9 are again the nine most recent; the buffer is empty after it |
| Consoles.TerminalsAreIndependent | mp3_group_08-master/mp3_group_08-master/student-distrib/terminal.c:116-258 | under every interleaving of keys, output, reads and switches each terminal ends as a terminal of its own given only its own events |
| Consoles.StepIsWhatIsSeen | mp3_group_08-master/mp3_group_08-master/student-distrib/terminal.c:116-258 | one event changes each terminal by exactly what that terminal gets to notice |
| Consoles.TranscriptMovesTheWindow | mp3_group_08-master/mp3_group_08-master/student-distrib/keyboard.c:135-200 | keys other than backspace and Ctrl-L, and output, write on the sheet exactly the accepted characters, four blanks for a tab, a line feed for an accepted Enter, and the output |
| Consoles.ScreenShowsTranscript | mp3_group_08-master/mp3_group_08-master/student-distrib/terminal.c:116-258 | from a cleared screen, under every interleaving, a terminal's screen is a window on the sheet of that terminal's own transcript |
| Consoles.BackspaceUndoesCharacterIff | mp3_group_08-master/mp3_group_08-master/student-distrib/keyboard.c:117-134 | a backspace undoes a character, in the line and on the screen, exactly if the character was put on a blank cell |
| Consoles.TypingKeepsAgreement | mp3_group_08-master/mp3_group_08-master/student-distrib/keyboard.c:285-308 | a character keeps the edited line equal to the cells before the cursor, through a wrap and a scroll |
| Consoles.ErasingKeepsAgreement | mp3_group_08-master/mp3_group_08-master/student-distrib/keyboard.c:117-133 | so does a backspace, which the screen position never refuses while the line is not empty |
| Consoles.EditedLineIsOnScreen | mp3_group_08-master/mp3_group_08-master/student-distrib/keyboard.c:92-134 | after any editing keys the line is the edited text and stands before the cursor |
| Consoles.TypedLineAgreesWithScreen | mp3_group_08-master/mp3_group_08-master/student-distrib/keyboard.c:92-134 | the same from an empty line, over all events on all terminals |
| Consoles.ClearAgreesIffLineEmpty | mp3_group_08-master/mp3_group_08-master/student-distrib/keyboard.c:259-263 | Ctrl-L breaks that agreement exactly when the line is not empty |
| Consoles.ClearLosesTypedCharacter | mp3_group_08-master/mp3_group_08-master/student-distrib/keyboard.c:259-263 | one character and Ctrl-L from an empty line: the line keeps the character, the screen does not show it |
| Keyboards.CharactersNeverBreakTheLine | mp3_group_08-master/mp3_group_08-master/student-distrib/keyboard.c:13-31 | no scan code that is taken as a character yields a line break |
| Keyboards.TopRow | mp3_group_08-master/mp3_group_08-master/student-distrib/keyboard.c:13 | the keys of the number row are 1 to 0, minus and equals |
| Keyboards.UpperRow | mp3_group_08-master/mp3_group_08-master/student-distrib/keyboard.c:13-14 | q to the right bracket |
| Keyboards.HomeRow | mp3_group_08-master/mp3_group_08-master/student-distrib/keyboard.c:14-15 | a to the backquote |
| Keyboards.LowerRow | mp3_group_08-master/mp3_group_08-master/student-distrib/keyboard.c:15-16 | the backslash and z to the slash |
| Keyboards.ShiftedSigns | mp3_group_08-master/mp3_group_08-master/student-distrib/keyboard.c:23-26 | the signs that shift gives on the keys that are no letters |
| Keyboards.CapsLockIsForLetters | mp3_group_08-master/mp3_group_08-master/student-distrib/keyboard.c:18-31 | caps lock makes capitals of letters and changes nothing else; with shift it gives small letters and the upper signs |
| Keyboards.CharacterKeys | mp3_group_08-master/mp3_group_08-master/student-distrib/keyboard.c:293-304 | a character key types its letter, capital if exactly one of shift and caps lock is on, or its sign, the upper one under shift |
| Keyboards.NamedKeys | mp3_group_08-master/mp3_group_08-master/student-distrib/keyboard.c:115-264 | backspace, tab, enter and blank by their codes; L clears exactly under control, F1 to F3 switch exactly under alt, releases type nothing |
| Keyboards.ModifiersHold | mp3_group_08-master/mp3_group_08-master/student-distrib/keyboard.c:141-189 | shift, control and alt hold from the press of their key to its release, caps lock changes with each press, no other key touches them |
| Keyboards.EnterHandsTheLineOverOnce | mp3_group_08-master/mp3_group_08-master/student-distrib/terminal.c:82-104 | after Enter exactly the typed line is handed to the first reader, none to a second, and none at all while typing is off |
| Keyboards.LineKeysEdit | mp3_group_08-master/mp3_group_08-master/student-distrib/keyboard.c:285-308 | all keys but tab, enter and Ctrl-L that reach a terminal from scan codes edit its line |
| Keyboards.PressChar | mp3_group_08-master/mp3_group_08-master/student-distrib/keyboard.c:285-308 | a character key changes line and screen together, or neither |
| Keyboards.PressBackspace | mp3_group_08-master/mp3_group_08-master/student-distrib/keyboard.c:117-134 | backspace changes line and screen together, or neither |
| Keyboards.PressTab | mp3_group_08-master/mp3_group_08-master/student-distrib/keyboard.c:135-140 | tab writes four blanks to the screen and nothing to the line |
| Keyboards.PressEnter | mp3_group_08-master/mp3_group_08-master/student-distrib/keyboard.c:190-200 | enter starts a new row, by a shift on the last one, and marks the line as pending; nothing if typing is off |
| Keyboards.PressClear | mp3_group_08-master/mp3_group_08-master/student-distrib/keyboard.c:259-263 | Ctrl-L clears the displayed screen and keeps the line |
| Keyboards.Keyboard.TerminalInit | mp3_group_08-master/mp3_group_08-master/student-distrib/terminal.c:146-168 | three empty lines, three cleared screens |
| Keyboards.Keyboard.Handle | mp3_group_08-master/mp3_group_08-master/student-distrib/keyboard.c:56-271 | every scan code but the arrows does to the three terminals what its decoded event means |
| Keyboards.Keyboard.Output | mp3_group_08-master/mp3_group_08-master/student-distrib/terminal.c:116-137 | terminal_write is an output event of the scheduled terminal only |
| Keyboards.Keyboard.Read | mp3_group_08-master/mp3_group_08-master/student-distrib/terminal.c:80-104 | taking a pending line empties that terminal's line and, for a shell, adds it to the submissions; other terminals stay |
| Keyboards.Keyboard.Allow | mp3_group_08-master/mp3_group_08-master/student-distrib/system_calls.c:125-125 | setting a typing flag changes nothing else |
| Keyboards.Keyboard.RunAll | mp3_group_08-master/mp3_group_08-master/student-distrib/keyboard.c:56-271 | every run of scan codes, program output, reads and typing flags does to line buffers and video memory what its decoded events mean, and exactly the lines that it hands to shells join the submissions |
| Keyboards.Keyboard.RunHistory | mp3_group_08-master/mp3_group_08-master/student-distrib/terminal.c:82-99 | after every such run rows 1..9 of every terminal's history are its nine most recent submissions, those of the run being the newest, padded with empty lines |
| Keyboards.Keyboard.TypeLine | mp3_group_08-master/mp3_group_08-master/student-distrib/keyboard.c:92-134 | over every such run from an empty line on, the edited text is in the terminal's keyboard buffer, followed by zeros, and in its page right before its cursor |
| FileSystem.BytesAreASlice | mp3_group_08-master/mp3_group_08-master/student-distrib/file_system.c:122-156 | bytes found by block walking are a slice of the flat file, which is the blocks joined (`FileSystem.FlatIsItsBlocks`) |
| FileSystem.FlatIsItsBlocks | mp3_group_08-master/mp3_group_08-master/student-distrib/file_system.c:122-156 | the flat file is the inode's 4096-byte blocks one after the other, up to its length |
| FileSystem.IntactHasItsBlocks | mp3_group_08-master/mp3_group_08-master/student-distrib/file_system.c:131-134 | an intact inode has all the blocks that its length needs |
| FileSystem.ReadData | mp3_group_08-master/mp3_group_08-master/student-distrib/file_system.c:111-159 | returns ReadResult for every inode, offset and length, fills the buffer with exactly the bytes read, and touches nothing behind them |
| FileSystem.CopyBlocks | mp3_group_08-master/mp3_group_08-master/student-distrib/file_system.c:136-158 | the loop reads on across blocks until the count, the end of the file or an invalid block, and fills the buffer with exactly the bytes read |
| FileSystem.ReadIsSlice | mp3_group_08-master/mp3_group_08-master/student-distrib/file_system.c:111-159 | on an intact file the result is min(length, size-offset); at the very end it is 0 or -1 according to the slot past the end |
| FileSystem.LoadableUnlessLastBlockFull | mp3_group_08-master/mp3_group_08-master/student-distrib/file_system.c:131-134 | the slot past the end matters only for files that fill their last block |
| FileSystem.EmptyFileMayFail | mp3_group_08-master/mp3_group_08-master/student-distrib/file_system.c:131-139 | a file of length 0 whose first slot is invalid: all of its blocks are there, yet every read fails |
| FileSystem.SameName | mp3_group_08-master/mp3_group_08-master/student-distrib/file_system.c:58-70 | the 32-byte comparison decides equality of names, terminated or not |
| FileSystem.ReadDentryByName | mp3_group_08-master/mp3_group_08-master/student-distrib/file_system.c:43-80 | finds the first entry of that name, or nothing; names over 32 bytes are never found |
| FileSystem.LookupFindsListedEntry | mp3_group_08-master/mp3_group_08-master/student-distrib/file_system.c:43-98 | with unique names, looking up a listed name gives back the entry it came from |
| Loader.LoadProgramImage | mp3_group_08-master/mp3_group_08-master/student-distrib/paging.c:136-151 | copies the chunk to 0x08048000+offset and nothing else |
| Loader.CopyProgramImage | mp3_group_08-master/mp3_group_08-master/student-distrib/system_calls.c:634-646 | succeeds if and only if the file is loadable, then memory holds the whole flat file at 0x08048000; nothing outside that range changes |
| Descriptors.Tables.Start | mp3_group_08-master/mp3_group_08-master/student-distrib/system_calls.c:605-618 | a new process has terminal input and output open and nothing else; other processes are untouched |
| Descriptors.Tables.Open | mp3_group_08-master/mp3_group_08-master/student-distrib/system_calls.c:370-414 | takes the lowest free descriptor from 2 on at position 0 if the name exists, else -1; no other descriptor changes |
| Descriptors.Tables.DriverOpen | mp3_group_08-master/mp3_group_08-master/student-distrib/file_system.c:187-201 | a driver's own open agrees with the directory entry's type |
| Descriptors.Tables.Close | mp3_group_08-master/mp3_group_08-master/student-distrib/system_calls.c:424-442 | frees exactly that open descriptor; 0, 1 and closed ones are refused |
| Descriptors.Tables.CloseAll | mp3_group_08-master/mp3_group_08-master/student-distrib/system_calls.c:115-118 | after the loop of halt only the terminal's two descriptors of that process are open; other processes keep theirs |
| Descriptors.Tables.FileRead | mp3_group_08-master/mp3_group_08-master/student-distrib/file_system.c:242-257 | returns the next bytes of the flat file, keeping everything read since open a prefix of it and the position its length |
| Descriptors.Tables.DirectoryRead | mp3_group_08-master/mp3_group_08-master/student-distrib/file_system.c:322-354 | returns the next name, cut to the request, then 0 for ever without moving |
| Descriptors.Tables.Read | mp3_group_08-master/mp3_group_08-master/student-distrib/system_calls.c:316-332 | rejects bad arguments and closed or write-only descriptors, otherwise answers with the file's next bytes or the directory's next name; no other descriptor of any process changes |
| Descriptors.Tables.Cat | mp3_group_08-master/mp3_group_08-master/syscalls/ece391cat.c:16-28 | writes the whole file, all names of a directory up to the first empty one, or nothing for the clock; 2 exactly if the name is unknown or no descriptor is free |
| Descriptors.Tables.ListNames | mp3_group_08-master/mp3_group_08-master/syscalls/ece391ls.c:18-26 | the loop yields every listed name once and in order and ends |
| Descriptors.AllNamesListed | mp3_group_08-master/mp3_group_08-master/student-distrib/file_system.c:322-354 | only an empty name keeps entries from being listed |
| Descriptors.Tables.Ls | mp3_group_08-master/mp3_group_08-master/syscalls/ece391ls.c:13-28 | writes the names of the directory, one a line, and with unique names each looks up to its own entry; 2 exactly if there is no directory or no free descriptor |
| Command.SplitUndoesJoinIff | mp3_group_08-master/mp3_group_08-master/student-distrib/system_calls.c:179-202 | name and arguments come back from the command line if and only if the name has at most 31 bytes |
| Command.LongNameLosesArguments | mp3_group_08-master/mp3_group_08-master/student-distrib/system_calls.c:194-196 | a name of 32 bytes with arguments that are lost |
| Command.ParseCommand | mp3_group_08-master/mp3_group_08-master/student-distrib/system_calls.c:177-202 | the loop leaves the name and the arguments of every command whose arguments fit |
| Command.ArgumentArea.Store | mp3_group_08-master/mp3_group_08-master/student-distrib/system_calls.c:242-245 | the control block then holds exactly the arguments |
| Command.ArgumentArea.GetArgs | mp3_group_08-master/mp3_group_08-master/student-distrib/system_calls.c:453-481 | hands over exactly the arguments and forgets them, or fails and keeps them; without room for the terminator the byte behind the caller's share of the buffer decides |
| Command.RoundTrip | mp3_group_08-master/mp3_group_08-master/student-distrib/system_calls.c:177-245 | parse, store and fetch give back name and arguments, and a second fetch fails |
| Execution.FindProgram | mp3_group_08-master/mp3_group_08-master/student-distrib/system_calls.c:204-223 | finds a program exactly under names whose file starts with the ELF bytes and reaches its entry point; shell, pingpong and fish are recognised by their whole names |
| Execution.ProgramOfFile | mp3_group_08-master/mp3_group_08-master/student-distrib/system_calls.c:213-223 | for a loadable file that means 28 bytes or more starting with the ELF bytes, and the entry point is bytes 24 to 27, lowest first |
| Execution.EntryPointBytes | mp3_group_08-master/mp3_group_08-master/student-distrib/system_calls.c:213-223 | the entry point is a 32-bit number whose i-th lowest byte is byte 24 + i of the file, and the file begins with 0x7F and ELF |
| Execution.FlagsByName | mp3_group_08-master/mp3_group_08-master/student-distrib/system_calls.c:204-209 | only the program named shell is a shell, and typing is off exactly for pingpong and fish |
| Execution.ReadCommand | mp3_group_08-master/mp3_group_08-master/student-distrib/system_calls.c:177-223 | a command line leads to the program under its name and leaves its arguments |
| Execution.Prepare | mp3_group_08-master/mp3_group_08-master/student-distrib/system_calls.c:168-245 | everything execute does outside the process tables: fresh descriptors, the whole file in the slot's page and the arguments in its control block, or nothing at all |
| Execution.Halt | mp3_group_08-master/mp3_group_08-master/student-distrib/system_calls.c:79-141 | a base shell restarts with its descriptors as they were; any other program loses its descriptors and its parent resumes where it called execute |
| Grep.LinesJoinToText | mp3_group_08-master/mp3_group_08-master/syscalls/ece391grep.c:29-57 | joining the lines with newlines gives the file back |
| Grep.LinesHoldNoNewline | mp3_group_08-master/mp3_group_08-master/syscalls/ece391grep.c:29-57 | no line holds a newline, so the cuts are exactly at the newlines |
| Grep.FirstLine | mp3_group_08-master/mp3_group_08-master/syscalls/ece391grep.c:40-52 | reporting a text is reporting its first line and then the rest |
| Grep.ReportLines | mp3_group_08-master/mp3_group_08-master/syscalls/ece391grep.c:45-48 | read back line by line, the output is name, colon and line for exactly the matching lines, in order |
| Grep.EmptyPatternPrintsNothing | mp3_group_08-master/mp3_group_08-master/syscalls/ece391grep.c:42-44 | every line contains the empty pattern, but the search reports none |
| Grep.PieceIsShort | mp3_group_08-master/mp3_group_08-master/syscalls/ece391grep.c:33-39 | a newline-free piece never fills the buffer if all lines are short |
| Grep.CopyDown | mp3_group_08-master/mp3_group_08-master/syscalls/ece391support.c:14-17 | the overlapping forward copy moves the string to the front intact |
| Grep.SearchLine | mp3_group_08-master/mp3_group_08-master/syscalls/ece391grep.c:42-51 | finds the pattern if and only if the line contains it; an empty pattern is never found |
| Grep.Carry | mp3_group_08-master/mp3_group_08-master/syscalls/ece391grep.c:33-39 | the unfinished line moves to the front unchanged |
| Grep.FinishLine | mp3_group_08-master/mp3_group_08-master/syscalls/ece391grep.c:40-52 | prints the line if it matches and leaves what follows it to be searched |
| Grep.EndsWithBuffer | mp3_group_08-master/mp3_group_08-master/syscalls/ece391grep.c:33-39 | a line that ends with the buffer and is not carried is the last one of the file |
| Grep.NextLine | mp3_group_08-master/mp3_group_08-master/syscalls/ece391grep.c:30-56 | one turn of the inner loop: a finished line is searched, an unfinished one carried, and what is still to be printed is unchanged |
| Grep.SearchBuffer | mp3_group_08-master/mp3_group_08-master/syscalls/ece391grep.c:28-57 | one pass prints what it should of the complete lines and carries exactly the unfinished one |
| Grep.SearchChunk | mp3_group_08-master/mp3_group_08-master/syscalls/ece391grep.c:27-57 | a round over the next bytes of the file keeps printed plus remaining output equal to the wanted report; nothing is carried past the end of the file |
| Grep.DoneSearching | mp3_group_08-master/mp3_group_08-master/syscalls/ece391grep.c:58-59 | when the file is used up and nothing is carried, everything wanted has been printed |
| GrepProgram.ReadMore | mp3_group_08-master/mp3_group_08-master/syscalls/ece391grep.c:22-27 | the read through the kernel's descriptor puts the next bytes behind the carried ones and fills the buffer unless the file ends |
| GrepProgram.SearchRounds | mp3_group_08-master/mp3_group_08-master/syscalls/ece391grep.c:20-60 | the outer loop ends with the whole file read and searched, whatever else is open |
| GrepProgram.SearchFile | mp3_group_08-master/mp3_group_08-master/syscalls/ece391grep.c:20-60 | the output is name:line for exactly the lines of the open file that contain the pattern, once each and in order |
| GrepProgram.DoOneFile | mp3_group_08-master/mp3_group_08-master/syscalls/ece391grep.c:9-66 | the same from a file name: -1 exactly if the name is unknown or no descriptor is free, every other descriptor as before, its own free again |
| GrepProgram.SearchEntry | mp3_group_08-master/mp3_group_08-master/syscalls/ece391grep.c:89-93 | a listed name is opened and searched by that name; names that begin with a dot are passed over |
| GrepProgram.SearchListed | mp3_group_08-master/mp3_group_08-master/syscalls/ece391grep.c:84-94 | reading the directory to its end gives the reports of all entries in order |
| GrepProgram.GrepAll | mp3_group_08-master/mp3_group_08-master/syscalls/ece391grep.c:68-97 | started with free descriptors, the program prints the reports of all listed names in directory order, up to the first empty name, or answers 2 if there is no directory |
| GrepProgram.RunGrep | mp3_group_08-master/mp3_group_08-master/student-distrib/system_calls.c:605-618 | a process as created by execute is in that position |
| GrepProgram.ReportIsOfOwnEntry | mp3_group_08-master/mp3_group_08-master/syscalls/ece391grep.c:84-94 | with unique names the i-th report is that of the i-th entry's own file |
| CStrings.StrLen | mp3_group_08-master/mp3_group_08-master/syscalls/ece391support.c:6-12 | the length up to the first NUL |
| CStrings.StrNCmp | mp3_group_08-master/mp3_group_08-master/syscalls/ece391support.c:35-46 | zero if and only if the strings agree on their first n bytes, else the difference of the first bytes that differ |
| Blink.PhaseClosedForm | mp3_group_08-master/mp3_group_08-master/fish/blink.S:60-90 | for all 16-bit lengths: after k ticks a timer is on if and only if k modulo the period is below its on-time, and its countdown is the rest of that phase; a length of 0 or above 0x8000 lasts one tick |
| Blink.PushKeepsGoodList | mp3_group_08-master/mp3_group_08-master/fish/blink.S:156-162 | adding keeps list and allocation in step for a non-zero location and breaks it for location 0 |
| Blink.RemoveKeepsGoodList | mp3_group_08-master/mp3_group_08-master/fish/blink.S:206-222 | unlinking and freeing keeps list and allocation in step |
| Blink.TickKeepsGoodList | mp3_group_08-master/mp3_group_08-master/fish/blink.S:60-90 | a tick keeps the list and ages every timer by one |
| Blink.FullIffAllListed | mp3_group_08-master/mp3_group_08-master/fish/fish.c:160-170 | no slot is free if and only if 2000 nodes are listed |
| Blink.Blinker.PhaseOfListedNode | mp3_group_08-master/mp3_group_08-master/fish/blink.S:49-99 | a listed node's cell of the screen shows its on character exactly in the first part of its period, whatever happened to other nodes, as long as the screen is right |
| Blink.Blinker.Malloc | mp3_group_08-master/mp3_group_08-master/fish/fish.c:160-170 | the first free slot, or the null pointer if and only if there is none |
| Blink.Blinker.Add | mp3_group_08-master/mp3_group_08-master/fish/blink.S:105-184 | fails exactly for a location off the screen or a full pool; otherwise the node takes the first free slot and heads the list, and the list stays the allocated slots if and only if the location is not 0 |
| Blink.Blinker.FindHelper | mp3_group_08-master/mp3_group_08-master/fish/blink.S:351-379 | the first listed node at the location in the low half of the argument, or null if there is none |
| Blink.Blinker.FindPrevious | mp3_group_08-master/mp3_group_08-master/fish/blink.S:206-212 | the walk ends at the predecessor |
| Blink.Blinker.Remove | mp3_group_08-master/mp3_group_08-master/fish/blink.S:187-237 | frees the first listed node at the location in the low half of the argument and keeps the order and contents of all others; -1 if there is none |
| Blink.Blinker.Find | mp3_group_08-master/mp3_group_08-master/fish/blink.S:302-349 | copies the first listed node at that location; -1 if there is none |
| Blink.Blinker.Sync | mp3_group_08-master/mp3_group_08-master/fish/blink.S:240-300 | the target takes over timer and phase; the screen is right afterwards if and only if the new phase is off or both characters are equal |
| Blink.Blinker.SyncShowsWrongFace | mp3_group_08-master/mp3_group_08-master/fish/blink.S:277-285 | the case: a node that is on, synchronised with itself, stands on the screen with its off character |
| Blink.Blinker.TickNode | mp3_group_08-master/mp3_group_08-master/fish/blink.S:64-86 | one countdown step; the cell stays right if it was |
| Blink.Blinker.Tick | mp3_group_08-master/mp3_group_08-master/fish/blink.S:49-99 | every listed node ticks once, no other slot changes, and all cells stay right |
| Numbers.NumeralDenotes | mp3_group_08-master/mp3_group_08-master/student-distrib/lib.c:278-289 | the numeral has the value, valid digits and no leading zero |
| Numbers.DigitsAreCharacters | mp3_group_08-master/mp3_group_08-master/student-distrib/lib.c:261 | digits are 0 to 9 and then capitals, and stand for their place in that order |
| Numbers.NumeralIsUnique | mp3_group_08-master/mp3_group_08-master/student-distrib/lib.c:260-290 | it is the only digit string without leading zeros of that value |
| Numbers.NumeralLength | mp3_group_08-master/mp3_group_08-master/student-distrib/lib.c:86 | a value below radix to the n has at most n digits |
| Numbers.SwapEnds | mp3_group_08-master/mp3_group_08-master/student-distrib/lib.c:296-309 | swapping ends inwards reverses the bytes in place |
| Numbers.StrRev | mp3_group_08-master/mp3_group_08-master/student-distrib/lib.c:296-309 | reverses the string and touches nothing else |
| Numbers.PutDigits | mp3_group_08-master/mp3_group_08-master/student-distrib/lib.c:278-283 | writes the numeral backwards |
| Numbers.Itoa | mp3_group_08-master/mp3_group_08-master/student-distrib/lib.c:260-290 | leaves the numeral of the value as a string, "0" for zero, and touches nothing behind it |
| Numbers.PrintHex8 | mp3_group_08-master/mp3_group_08-master/student-distrib/lib.c:90-100 | prints exactly eight hexadecimal digits of the same value |

## Left out

- Kernels.Kernel.Execute: the image comes as a parameter, which `Execution.Prepare` finds and loads; `is_executing` and `ss0` are not part of the tables, being never read or constant.
- Kernels.Kernel.UserExecute: the same; that its image is the one from `Execution.Prepare` is not stated as one contract over both.
- Kernels.Kernel.Halt: descriptors are not part of the process tables; closing them is in `Execution.Halt`.
- Kernels.TypingFollowsTop: the mouse driver, which can also set typing flags, is not modelled.
- Execution.Prepare: a program that cannot be read to its end or does not fit its page is excluded, since its half-done copy leaves the page remapped.
- Keyboards.Keyboard.Handle: arrow keys are excluded, because their cursor subtraction can leave the 80 columns; their effect on buffer and history is in `LineBuffers.LineBuffer.Up` and `Down`. The keyboard status port is not modelled.
- LineBuffers.LineBuffer.ConsumeLine: the wait loop of `terminal_read`, its copy to the caller and its returned count, which race with the keyboard, are not modelled.
- Keyboards.Keyboard.Read: the same.
- GrepProgram.DoOneFile: files hold no NUL and no line over 1023 bytes; the byte after the buffer, which is never read from the file, must not happen to be a newline unless the file is shorter than the buffer. A directory other than the dotted ones is not searched. The messages on failing to open or close are not modelled.
- GrepProgram.GrepAll: the pattern is given; that it comes from `getargs` is `Command.RoundTrip`. What the uninitialised buffer holds at each call is a parameter. That the process starts with free descriptors is `GrepProgram.RunGrep`.
- Command.ParseCommand: arguments of 128 bytes or more are excluded, since the code then writes behind its array.
- Descriptors.Tables.Read: keyboard and clock drivers answer through a parameter.
- Displays.Display.constructor: `init_colors` writes cells that the following clear overwrites, and is not modelled.
- Register and stack assembly, `iret`, port input and output, TLB and control registers: replaced by the control results of the operations.
- `vidmap` and the remapping of the video page for user programs.
- RTC, PIC, mouse, IDT, GDT, boot and the filling of the page tables: device plumbing and finite tables.
- `write`, `set_handler`, `sigreturn`, the directory and file write drivers: constant answers or thin dispatch.
- The printing of signed numbers and the other conversions of `printf`.
- The other user programs, host emulation and the kernel's own test file.
