# A verified model of a small x86 teaching kernel

The kernel runs up to six programs on three terminals that share one screen. It has a read-only block file
system, a text console with a line discipline, and a set of user programs. This project models its stateful parts in
Dafny and proves what they promise over whole runs.

| files | what they model |
|---|---|
| `Stacks.dfy`, `TaskTable.dfy`, `TaskRuns.dfy` | the six task slots with their parent and child links, execute, halt, terminal switch, timer tick and boot, refined to three call stacks; theorems over all runs |
| `FileSystem.dfy`, `FileLayout.dfy`, `FileReads.dfy`, `Directory.dfy` | block reads exactly as the code performs them, what a text laid out in blocks reads as, sequences of reads, name lookup and directory listing |
| `Descriptors.dfy`, `Commands.dfy`, `Programs.dfy`, `Processes.dfy`, `Launches.dfy` | descriptor tables, command parsing, and the whole kernel: programs that are launched, use their files and end, under ticks and switches; theorems over all its runs |
| `Console.dfy`, `LineDiscipline.dfy`, `Terminals.dfy` | the 80x25 screen as a window of an unbounded page, typing and erasing, and the three terminals as independent machines |
| `BlinkList.dfy`, `BlinkPool.dfy` | the blink driver: a linked list inside a fixed pool of cells, and the blinking phase in closed form |
| `UserSupport.dfy`, `Grep.dfy` | the streaming line filter, on files of this kernel, against the whole file |
| `Numbers.dfy`, `Printf.dfy` | number formatting and its round trips |
| `Bytes.dfy`, `KernelStrings.dfy` | bytes, NUL-terminated strings and the kernel's string routines |

State that the kernel changes in place is held in classes and arrays (`TaskTable.Kernel`, `Processes.System`,
`Terminals.Display`, `BlinkPool.Driver`, `Grep.Reader`, and the buffers of the text routines). Each of their methods is proved
to perform a step of a small abstract machine, and the theorems over runs are about that machine. Two objects model the terminal
switch: `TaskTable.Kernel` its effect on tasks and paging, `Terminals.Display` its effect on the screen and the cursor.

## Where the code and its comments differ

The model follows the code.

- `read_data` is documented to cut a request at the end of the file. It computes the last block before it cuts, so a request
  whose last block starts behind the end delivers the rest of the blocks in front of it as well
  (student-distrib/fs_module.c:117, 131-132, 167). `FileSystem.ReadEndMeaning` says exactly when; a copy in 1024-byte reads
  prints exactly the file if and only if its length modulo 4096 is at most 3072 (`FileReads.KilobyteCopyIff`).
- The keyboard buffer is documented to hold up to 127 bytes; it accepts 126 (student-distrib/keyboard.c:334). An erasure
  clears the slot behind the erased byte. The line is right all the same, but a read also returns the last erased key if and
  only if the last accepted edit since the last enabled read was an erasure (`LineDiscipline.ReadReturnsLine`), as when Enter
  is typed and erased before the program reads (`LineDiscipline.EnterErased`). A read that asks for less than there is
  forgets the rest but leaves it in the buffer, where later lines pick it up (`LineDiscipline.ShortReadLeaves`); exactly the
  reads that ask for everything, or for nothing of a single byte, are harmless (`LineDiscipline.ShortReadHarmlessIff`).
- The cursor column is documented as 0 to 79. Erasing across a row boundary makes it negative, and the linear address still
  works (`LineDiscipline.ScreenShowsLine`). Ctrl-L on a line that is not empty breaks this: what was typed before can still
  be erased, but the cursor is at the start of the screen, and the page in front of video memory is not present
  (student-distrib/paging.c:12-23). Such an erasure is a page fault (`Terminals.Display.TerminalBackspace`), and so is every
  character that the fault's handler then prints at the same place (`Terminals.Display.Putc`). It never happens if Ctrl-L
  meets empty lines only (`LineDiscipline.ErasuresStayInside`), and a Ctrl-L is harmless for everything that may follow if
  and only if the line is empty (`LineDiscipline.ClearKeepsErasuresInsideIff`).
- A request of `read_data` whose end wraps around 32 bits delivers nothing. If it wraps into the block where it starts, the
  length of the copy is negative; this is the one request the model excludes (`FileSystem.ReadAllowed`).
- An execute copies two megabytes of a program's blocks into memory, whatever the length of its file
  (student-distrib/system_call.c:224, `Programs.LoadedHoldsFile`).
- An exception of a base shell leaves the exception flag set, so the next program that halts normally reports 256
  (`Programs.ExceptionPendingIff`).
- The line filter cuts lines after 1024 bytes, and it compares the first byte of the pattern as a signed character with an
  unsigned byte of the line (syscalls/ece391grep.c:10, 13, 43). It is right for a pattern if and only if no longer line
  contains it and, unless no line does, its first byte is below 128 (`Grep.GrepsLinesIff`, `Grep.HighByteMissed`).
- The blink driver accepts location 0, which marks a free cell; the next entry then points to itself
  (`BlinkPool.ZeroLocationLoops`). On and off lengths count only from 1 to 32768; every other length lasts one tick.
- A program started by a user while one of the first three slots is still free becomes a base task of its own
  (`TaskRuns.EarlyExecute`, `TaskRuns.EarlyExecuteHappens`).
- A file name that is not found is not noticed by execute, which goes on with an uninitialized directory entry. That entry is
  a parameter of `Processes.System.SyscallExecute`.

## Model

| member | source | states |
|---|---|---|
| TaskTable.Kernel.FindOpenTask | student-distrib/system_call.c:602-612 | the result is the lowest slot that is on none of the three stacks, or -1 |
| TaskTable.Kernel.FindBottomTask | student-distrib/system_call.c:619-637 | the walk along the child links ends, at the top of the terminal's stack; -1 for a terminal without a shell or a bad number |
| TaskTable.Kernel.SwitchRunningTask | student-distrib/system_call.c:644-653 | the top task of the terminal runs; nothing changes for a terminal without a shell or a bad number |
| TaskTable.Kernel.SyscallExecute | student-distrib/system_call.c:209-257 | a valid program is pushed on the launching task's stack, with links, slot mark and page entry in agreement; otherwise nothing changes |
| TaskTable.Kernel.SyscallHalt | student-distrib/system_call.c:26-91 | the running task is popped, its parent runs in its own frame and the video page is gone; a base shell stays |
| TaskTable.Kernel.SyscallVidmap | student-distrib/system_call.c:530-539 | the user video page becomes mapped, unless the pointer is refused |
| TaskTable.Kernel.VideomemMap | student-distrib/paging.c:63-75 | the table entry is set, its first page is the video memory and all others are absent |
| TaskTable.Kernel.VideomemUnmap | student-distrib/paging.c:81-86 | both the directory entry and the first page become absent, no other entry changes |
| TaskTable.Kernel.SyscallPagingSetup | student-distrib/paging.c:51-56 | only the program's directory entry changes |
| TaskTable.Kernel.SwitchDisplayTerminal | student-distrib/keyboard.c:372-401 | another terminal is displayed, its top task runs in its own frame, and no slot or link changes |
| TaskTable.Kernel.SelectTerminal | student-distrib/scheduler.c:13-35 | the boot ends, and a terminal whose shell is missing is displayed; the result says whether it is |
| TaskTable.Kernel.PassTurn | student-distrib/pit.c:43-45 | the turn passes to the next of the three terminals |
| Stacks.PushShape | student-distrib/system_call.c:233-254 | pushing a free slot keeps the slots of all stacks distinct and marks exactly that slot |
| Stacks.PopShape | student-distrib/system_call.c:66-91 | popping keeps them distinct and frees exactly the top slot |
| Stacks.FreeSlot | student-distrib/system_call.c:602-612 | a program gets a base slot only if that terminal has no shell, and otherwise some program is running to launch it |
| TaskTable.PushLinks | student-distrib/system_call.c:233-254 | after an execute parent and child links are mutual inverses along every stack |
| TaskTable.PopLinks | student-distrib/system_call.c:66-67 | after a halt parent and child links are mutual inverses along every stack |
| TaskRuns.FullAtSix | student-distrib/system_call.c:602-612 | the stacks hold at most six tasks, and no slot is free if and only if they hold six |
| TaskRuns.ExecuteRefusedAtSix | student-distrib/system_call.c:199-218 | a valid program is refused if and only if six tasks exist, and a refused execute changes nothing |
| TaskRuns.Boot | student-distrib/scheduler.c:13-37 | under any interleaving of ticks and switches, shell t lands in slot t at tick 2t+1, and the displayed terminal's shell runs |
| TaskRuns.BootDone | student-distrib/pit.c:39-48 | after six ticks the three shells exist, the flag is clear, the displayed shell runs in its frame, and ticks only pass the turn on |
| TaskRuns.BootedTick | student-distrib/scheduler.c:13-37 | from any state with three shells and a clear flag a tick changes nothing but the turn |
| TaskRuns.BootShows | student-distrib/scheduler.c:13-37 | under any interleaving of ticks and switches, the terminal shown is the last one that was switched to or whose shell was started; the sixth tick shows the first one again |
| TaskRuns.BootEndsAtFirst | student-distrib/scheduler.c:18-23 | a boot of six ticks or more without switches ends at terminal 0, whose shell runs |
| TaskRuns.SwitchShows | student-distrib/keyboard.c:372-401 | a switch shows the terminal it names; if that has a shell, its top task runs in its own frame; other numbers change nothing |
| TaskRuns.LastSwitchShown | student-distrib/keyboard.c:372-401 | over every run after the boot, the terminal shown is the last one that was switched to |
| TaskRuns.EventLeaves | student-distrib/system_call.c:530-539 | vidmap maps the user video page, a halt that returns unmaps it, and nothing else does; only ticks and switches change what is shown |
| TaskRuns.StepAgrees | student-distrib/system_call.c:199-254 | with three shells every event keeps the displayed terminal's top task running in its own frame |
| TaskRuns.RunAgrees | student-distrib/keyboard.c:372-401 | over every run the running task is the top of the displayed terminal's stack and page entry 32 maps its frame |
| TaskRuns.EarlyExecute | student-distrib/system_call.c:237-245 | an execute keeps display and running task in agreement if and only if its slot is 3 or higher or the displayed terminal's |
| TaskRuns.EarlyExecuteHappens | student-distrib/system_call.c:237-245 | an execute right after the first tick gives terminal 1 the processor while terminal 0 is displayed |
| TaskRuns.RunKeepsPrefix | student-distrib/system_call.c:66-91 | over every run the tasks of a terminal that never halt stay on its stack, in order |
| TaskRuns.HaltResumesLauncher | student-distrib/system_call.c:66-91 | a halt gives the terminal, the frame and the processor back to the task that executed the program, whatever happened in between |
| TaskRuns.OtherTerminalsUntouched | student-distrib/system_call.c:199-254 | an event changes no stack but the running terminal's, and a base shell never leaves |
| TaskRuns.TasksApart | student-distrib/system_call.c:545-547 | in every reachable state program frames, and control block and kernel stack regions, of different tasks are disjoint |
| FileSystem.ReadData | student-distrib/fs_module.c:114-187 | the bytes delivered are the inode's block stream from the offset to `Advance`, and the rest of the buffer is unchanged; -1 and 0 in the error, end and wrap-around cases |
| FileSystem.ReadEndMeaning | student-distrib/fs_module.c:116-170 | a read never exceeds the request, always delivers what the file has of it, and stops at the file's end if and only if its last block starts in the file |
| FileLayout.ContentsIsText | student-distrib/fs_module.c:114-187 | a text that is laid out in the blocks of an inode's table, 4096 bytes a block, is the contents of the file |
| FileLayout.ReadDeliversText | student-distrib/fs_module.c:114-187 | a read of such a file delivers the part of the text that was asked for, and more exactly where the request's last block starts behind the file's end |
| FileLayout.StreamIsJoined | student-distrib/fs_module.c:114-187 | the block stream is the blocks that the table names, one behind the other |
| FileLayout.LoadIsJoined | student-distrib/system_call.c:223-224 | a load of two megabytes brings the first 512 blocks of the table to memory |
| FileReads.FileRead | student-distrib/fs_module.c:248-255 | the position moves by exactly the bytes delivered, and not at all on failure |
| FileReads.SequentialReading | student-distrib/fs_module.c:248-255 | chunks of any possible lengths concatenate to the stream up to the stored position; they are a prefix of the file if and only if every read qualifies |
| FileReads.SingleBytesQualify | fish/fish.c:98-130 | reads of one byte always qualify |
| FileReads.ShortOnlyAtEnd | student-distrib/fs_module.c:114-187 | a read is short only where the file has ended, and every later read delivers nothing |
| FileReads.ReadToEnd | syscalls/ece391cat.c:21-28 | the loop that reads until 0 ends, and has collected the stream up to the first position at or behind the file's end |
| FileReads.KilobyteCopyIff | syscalls/ece391cat.c:21-28 | a copy in 1024-byte reads equals the file if and only if its length modulo 4096 is at most 3072 |
| KernelStrings.Strlen | student-distrib/lib.c:302-307 | the number of bytes in front of the first NUL |
| KernelStrings.Strncmp | student-distrib/lib.c:475-489 | zero if and only if the strings agree on their first n bytes, otherwise the difference of the first two bytes that differ, as signed bytes |
| Directory.ReadDentryByName | student-distrib/fs_module.c:49-80 | the entry found is the first with exactly that name, unterminated names included; names over 32 bytes fail |
| Directory.ReadDentryByIndex | student-distrib/fs_module.c:90-102 | the entry at the index, or -1 behind the last one; its name looks up the same entry if and only if no earlier entry has it |
| Directory.LookupOwnName | student-distrib/fs_module.c:49-102 | looking up an entry's name finds that entry if and only if no earlier entry has the same name |
| Directory.DirectoryRead | student-distrib/fs_module.c:333-358 | the name of the entry, cut to the buffer, and nothing else of the buffer changes |
| Directory.DirRead | student-distrib/fs_module.c:316-322 | the listing position moves by one exactly when part of a name was delivered |
| Directory.ListDirectory | syscalls/ece391ls.c:18-26 | the listing loop ends and collects the names of the entries in order up to the first empty one; it ends with -1 only behind the last entry |
| Directory.ListedNamesFound | student-distrib/fs_module.c:49-80 | with distinct names every listed name looks up the entry it came from |
| Descriptors.RunKeepsInv | student-distrib/system_call.c:389-490 | over every run the console descriptors stay open, and a closed descriptor has position 0 and inode 0 |
| Descriptors.OpenMeaning | student-distrib/system_call.c:389-449 | open succeeds if and only if the name exists and one of the six descriptors is closed; it takes the lowest, at position 0 |
| Descriptors.OthersUnchanged | student-distrib/system_call.c:318-490 | no event changes an open descriptor other than its own |
| Descriptors.PositionFollowsOwnReads | student-distrib/system_call.c:318-345 | over every run the position of an open file is the one its own possible reads give, whatever happens to the other descriptors |
| Descriptors.OpenedFileDelivers | student-distrib/fs_module.c:248-255 | a file opened and read among any other use of the table delivers its stream from the start, and the file where its reads qualify |
| Descriptors.CloseMeaning | student-distrib/system_call.c:456-490 | a close succeeds if and only if its descriptor from 2 to 7 is open, which is closed at position 0 then; the other descriptors stay |
| Descriptors.FailedOpen | student-distrib/system_call.c:389-449 | an open that fails changes no open descriptor, and opens none |
| Descriptors.DirectoryFollowsOwnReads | student-distrib/fs_module.c:316-322 | over every run the position of an open directory moves by one name for every read of its own that asks for anything, up to the first entry without a name |
| Descriptors.OpenedDirectoryLists | student-distrib/fs_module.c:316-322 | a directory opened and read among any other use of the table is listed from its first entry on |
| Descriptors.CloseAllMeaning | student-distrib/system_call.c:80-85 | closing every open descriptor closes 2 to 7 and keeps the console |
| Processes.System.FdaInit | student-distrib/system_call.c:554-576 | one task's table becomes the fresh one, nothing else of any control block changes |
| Processes.System.SyscallOpen | student-distrib/system_call.c:389-449 | one step of the whole kernel: the running task's table and the result are those of the table's open, all else is unchanged |
| Processes.System.SyscallClose | student-distrib/system_call.c:456-490 | one step of the whole kernel: the running task's table and the result are those of the table's close, all else is unchanged |
| Processes.System.SyscallRead | student-distrib/system_call.c:318-345 | one step of the whole kernel: only the descriptor's position moves; a file read delivers the bytes it moved over, a directory read the next name |
| Processes.System.SyscallExecute | student-distrib/system_call.c:133-309 | the outcome for every command line; a program that starts has its name, its argument, fresh descriptors and its file in memory, everything else is unchanged, and an execute that returns changes nothing |
| Processes.System.SyscallHalt | student-distrib/system_call.c:26-122 | the halting task's files are closed, its parent runs and gets the status, or 256 after an exception; every other program is unchanged, and a base shell keeps everything |
| Processes.System.CloseFiles | student-distrib/system_call.c:80-85 | every open descriptor of the task is closed as by close, nothing else changes |
| Processes.System.HandleException | student-distrib/interrupt_table.h:18-23 | the program ends like a halt, and its launcher gets 256 |
| Processes.System.SyscallGetargs | student-distrib/system_call.c:497-524 | a long enough buffer gets the argument of the running program, which is the one on its command line (`Launches.ArgumentStays`); -1 for a null buffer, no argument or a short buffer |
| Processes.System.CheckCommand | student-distrib/system_call.c:146-207 | the command line is parsed into the two buffers, and its file is accepted if and only if it starts with the four bytes of an executable |
| Processes.System.InstallTask | student-distrib/system_call.c:223-269 | the frame that is mapped holds the loaded image, the slot its name, argument, entry point and fresh descriptors; no other frame or slot changes |
| Processes.System.SwitchDisplayTerminal | student-distrib/keyboard.c:372-401 | one step of the whole kernel: no program changes |
| Processes.System.SyscallVidmap | student-distrib/system_call.c:530-539 | one step of the whole kernel, unless the pointer is refused |
| Processes.System.Scheduler | student-distrib/scheduler.c:13-37 | a terminal without a shell is displayed, and the shell is executed from its file; the flag tells whether control comes back |
| Processes.System.PitHandler | student-distrib/pit.c:39-50 | a tick is one step of the whole kernel; the turn passes on unless a shell was started |
| Programs.RunTasks | student-distrib/system_call.c:199-257 | every run of the whole kernel is the run of the task machine over the events that its calls are, so the theorems of `TaskRuns` hold for it |
| Programs.TasksLiveTheirOwnLives | student-distrib/system_call.c:199-309 | over every run from power on a live task is the program that was started in its slot, with its own argument, its descriptors are what its own calls alone have made of fresh ones, and its frame holds what was loaded for it |
| Programs.TaskReadsItsFiles | student-distrib/system_call.c:318-345 | a task that opens and reads a file gets its stream from the start, and the file where its reads qualify, whatever all other tasks do in between |
| Programs.LoadedHoldsFile | student-distrib/system_call.c:223-227 | a file of up to two megabytes is in memory as it is, and the entry point is the word at its bytes 24 to 27 |
| Programs.ExceptionPendingIff | student-distrib/system_call.c:97-103 | over every run the exception flag is set if and only if a base shell had an exception after the last program returned |
| Launches.ExecuteOutcome | student-distrib/system_call.c:146-309 | for every line of spaces, name, spaces and argument: if the first entry with that name is that of an executable, the name has at most 32 bytes and fewer than six tasks exist, the program runs in a slot that was free, with exactly that name and argument, its file in memory and its entry point from bytes 24 to 27; no other program or memory changes; in every other case nothing changes |
| Launches.BlankStartsNothing | student-distrib/system_call.c:187-194 | a line of spaces changes nothing |
| Launches.TickStartsShell | student-distrib/scheduler.c:29-36 | a tick that finds its terminal without a shell starts the program named shell, without an argument |
| Launches.LiveProgramStays | student-distrib/system_call.c:257-266 | over every run a task that lives keeps its name, argument, entry point and memory |
| Launches.ArgumentStays | student-distrib/system_call.c:260-266 | over every run from an execute on, the argument of the program is the one on its command line |
| Launches.FetchArgument | syscalls/ece391cat.c:12-15 | a program with a long enough buffer fetches the argument of its command line, whatever ran since it was started; it fails if there is none or the buffer is too short |
| Launches.CallKeeps | student-distrib/system_call.c:318-490 | a call changes the program of a living task only if that task opens, closes or reads, and then only its descriptors |
| Launches.HaltEnds | student-distrib/system_call.c:66-103 | a program that halts or has an exception leaves its slot with only the console descriptors open and clears the exception flag; no other program or memory changes, and a base shell stays as it was |
| Launches.ReportedStatus | student-distrib/system_call.c:97-103 | over every run the launcher gets the halting program's status, or 256 if and only if a base shell had an exception after the last program returned |
| Commands.ParseCommand | student-distrib/system_call.c:146-194 | the two buffers hold the name and the argument of the line; -1 for a name that is too long, 0 for a blank line |
| Commands.WrittenLineParses | student-distrib/system_call.c:146-194 | spaces, a name, spaces and an argument parse to exactly that pair, and a name over 32 bytes is rejected |
| Commands.ParsedLineWasWritten | student-distrib/system_call.c:146-194 | conversely every line that parses to a pair is made of spaces, the name, spaces, the argument and a rest |
| Commands.BlankLine | student-distrib/system_call.c:187-194 | a line is blank if and only if only spaces come before its end |
| Commands.SyscallGetargs | student-distrib/system_call.c:497-524 | fails for a null buffer, an empty argument or one longer than the buffer; a longer buffer holds the argument NUL-terminated |
| Console.PutcLinear | student-distrib/lib.c:213-239 | whatever row the cursor counts as its own, a character goes to the linear address and the screen scrolls exactly at the last cell |
| Console.ScreenIsPage | student-distrib/lib.c:30-41 | for every text the screen is the 25-row window of an unbounded page that ends at the cursor's row, and the cursor stays in range |
| Console.PageShowsLines | student-distrib/lib.c:213-239 | a text of lines shows line by line at the rows' starts, every line on as many rows as it needs, and nothing else of the page changes |
| Console.PutcAttributes | student-distrib/lib.c:223-228 | a character gets the standard attribute, all others move with their cells, and a blanked row keeps its own |
| Console.ClearedIsBlank | student-distrib/keyboard.c:204-208 | a cleared screen is blanks with the standard attribute, and its cursor is at the first cell |
| LineDiscipline.BufferHoldsLine | student-distrib/keyboard.c:214-230 | over every run with reads that ask for all there is the buffer holds the edited line and behind it the last erased key |
| LineDiscipline.ReadReturnsLine | student-distrib/keyboard.c:285-300 | over every such run an enabled read returns the line followed by what the last edit erased, as far as it asks for them, so exactly the line if and only if the last accepted edit since the last enabled read was no erasure; the buffer is all NUL then if and only if it asks for everything |
| LineDiscipline.EnterErased | student-distrib/keyboard.c:214-230 | a key, Enter and an erasure make the line that key, and the enabled read returns the newline as well |
| LineDiscipline.EnterThenRead | student-distrib/keyboard.c:332-352 | the read that Enter enables returns the typed line and the newline, as far as it asks for them |
| LineDiscipline.ShortReadHarmlessIff | student-distrib/keyboard.c:285-300 | after an enabled read all later reads are right, whatever follows, if and only if it asks for all bytes there are, or for none of a single one |
| LineDiscipline.ShortReadLeaves | student-distrib/keyboard.c:285-300 | the shortest failing run: a read of one byte of two, and a line of one key |
| LineDiscipline.EchoesInside | student-distrib/lib.c:53-55 | the cursor address stays inside video memory while a line is edited, and the line's start stays on the screen |
| LineDiscipline.ScreenShowsLine | student-distrib/keyboard.c:214-230 | over every run of keys and erasures the screen shows exactly the edited line, blanks where it was erased and the old screen elsewhere, across wraps and scrolls |
| LineDiscipline.OutputOnPage | student-distrib/keyboard.c:309-325 | a run of output for a text makes the screen the window of the page with the text typed on it, and leaves the line alone |
| LineDiscipline.TypedOnPage | student-distrib/keyboard.c:332-352 | what is typed shows in the same way, Enter included, as long as the buffer takes it, and is added to the line |
| LineDiscipline.EraseTakesBack | student-distrib/keyboard.c:214-230 | an erasure takes back the last key that the line accepted, and does nothing to an empty line |
| LineDiscipline.EnabledIff | student-distrib/keyboard.c:340-346 | over every run a read is enabled if and only if an accepted Enter came after the last read |
| LineDiscipline.EventsLeave | student-distrib/keyboard.c:204-217 | Ctrl-L blanks the screen and keeps the line, reads leave the screen alone, refused keys and erasures of an empty line change nothing |
| LineDiscipline.StepSafe | student-distrib/keyboard.c:204-230 | every event keeps the line in front of the cursor, except Ctrl-L if and only if the line is not empty |
| LineDiscipline.ErasuresStayInside | student-distrib/keyboard.c:214-230 | over every run of output, keys, erasures, clears and reads in which Ctrl-L meets empty lines only, every erasure writes inside video memory |
| LineDiscipline.ClearKeepsErasuresInsideIff | student-distrib/keyboard.c:204-208 | after Ctrl-L all later erasures stay inside, whatever follows without another such Ctrl-L, if and only if the line was empty |
| LineDiscipline.ErasesInsideIff | student-distrib/keyboard.c:204-230 | in a run of plain keys, erasures and Ctrl-L all erasures stay inside if and only if the line never gets shorter than it was at the last Ctrl-L |
| LineDiscipline.ClearThenErase | student-distrib/keyboard.c:204-208 | the shortest failing run: a key, Ctrl-L and an erasure |
| Terminals.Display.ScrollUp | student-distrib/lib.c:30-41 | every row moves up and the last is blanked, attributes kept |
| Terminals.Display.Putc | student-distrib/lib.c:213-239 | one character on the screen; an ordinary one faults, and changes nothing, if and only if the cursor is in front of video memory |
| Terminals.Display.CpyScreenPos | student-distrib/lib.c:65-68 | only the displayed terminal's saved cursor changes |
| Terminals.Display.SwitchDisplayTerminal | student-distrib/keyboard.c:372-398 | all three terminals stay as their users see them, only the displayed one changes |
| Terminals.Display.ClearScreen | student-distrib/keyboard.c:204-208 | the displayed terminal is blank with its cursor at the start, the others are unchanged |
| Terminals.Display.TerminalBackspace | student-distrib/keyboard.c:214-230 | one erasure on the displayed terminal, the others are unchanged; it faults if and only if it is accepted with the cursor at the first cell, after the key has left the buffer and the column has moved |
| Terminals.Display.TerminalBufAdd | student-distrib/keyboard.c:332-352 | one key on the displayed terminal, the others are unchanged |
| Terminals.Display.TerminalRead | student-distrib/keyboard.c:275-302 | the bytes up to the first NUL are returned and cleared, the other terminals are unchanged |
| Terminals.Display.TerminalWrite | student-distrib/keyboard.c:309-325 | the screen becomes the 25-row window of the page on which the text is typed from the cursor on, the other terminals are unchanged, and the result counts all but its newlines |
| Terminals.PrintedCounts | student-distrib/keyboard.c:314-323 | what a write returns and the number of newlines add up to the number of bytes |
| Terminals.CursorRoundTrip | student-distrib/keyboard.c:398 | a cursor saved unsigned in 32 bits and restored is the same, negative columns included |
| Terminals.StepSound | student-distrib/keyboard.c:204-230 | every event keeps the cursor inside video memory except an accepted erasure at the first cell |
| Terminals.SwitchReaches | student-distrib/keyboard.c:372-398 | after a switch, what is typed or printed next reaches the terminal it named, and only that |
| Terminals.TerminalsAreIndependent | student-distrib/keyboard.c:372-398 | over every run each terminal is what it would be alone with the events it was displayed for |
| Terminals.HiddenTerminalWaits | student-distrib/keyboard.c:372-398 | a terminal that is not displayed during a run is the same after it: screen, cursor, line and buffer |
| Terminals.GroupErasuresStayInside | student-distrib/keyboard.c:214-230 | on every terminal no erasure of a run faults if the Ctrl-L it received met empty lines only |
| BlinkPool.Driver.Malloc | fish/fish.c:160-170 | the lowest free cell, or NULL if and only if none is free |
| BlinkPool.Driver.Free | fish/fish.c:172-175 | the cell becomes blank, no other changes |
| BlinkPool.Driver.FindHelper | fish/blink.S:351-379 | the walk ends at the most recently added node at the location, or NULL if there is none |
| BlinkPool.Driver.IoctlAdd | fish/blink.S:105-184 | fails if and only if the location is off the screen or the pool is full; otherwise the node is first and one cell fewer is free, and pool and list agree if and only if the location is not 0 |
| BlinkPool.Driver.IoctlRemove | fish/blink.S:187-237 | the predecessor walk ends; exactly the first node at the location leaves the list, the others keep their order, and one more cell is free; without such a node nothing changes and the result is -1 |
| BlinkPool.Driver.IoctlFind | fish/blink.S:302-349 | a copy of the first node at the location, or -1 |
| BlinkPool.Driver.IoctlSync | fish/blink.S:240-300 | the target takes over lengths, countdown and status of the source, nothing else changes |
| BlinkPool.Driver.RtcTasklet | fish/blink.S:49-99 | every node of the list ticks exactly once |
| BlinkPool.Driver.Perform | fish/blink.S:101-103 | a request or a tick does to the chain of cells what it does to the list |
| BlinkPool.Driver.PerformAll | fish/blink.S:49-349 | over every run of adds at nonzero locations, removes, syncs and ticks the cells stay one chain, and its entries are those of the list |
| BlinkPool.AddKeepsChain | fish/blink.S:147-162 | linking a free cell in front keeps the list acyclic and equal to the used cells if and only if the location is not 0 |
| BlinkPool.RemoveKeepsChain | fish/blink.S:206-222 | unlinking and freeing a node keeps the list acyclic and equal to the used cells |
| BlinkPool.FullWhenAllUsed | fish/fish.c:160-170 | nodes and free cells together are 2000, and no cell is free if and only if the list has 2000 nodes |
| BlinkPool.ZeroLocationLoops | fish/blink.S:131-162 | after an add at location 0 the next add takes the same cell and links it to itself |
| BlinkList.AddMeaning | fish/blink.S:105-184 | an accepted entry stands in front, on and at the start of its first phase; a refused one changes nothing |
| BlinkList.RemoveMeaning | fish/blink.S:187-237 | a remove takes out exactly the most recently added entry at the location and keeps the order of the rest; without one nothing changes |
| BlinkList.AddThenRemove | fish/blink.S:105-237 | an accepted add and a remove of its location give back the list |
| BlinkList.SyncMeaning | fish/blink.S:240-300 | the target gets lengths, countdown and status of the source and keeps its place and characters; everything else stays |
| BlinkList.PhaseTicks | fish/blink.S:64-86 | one tick leads from the phase at n to the phase at n+1, for all 16-bit lengths |
| BlinkList.EntryInPhase | fish/blink.S:49-99 | n ticks after it was added an entry is on if and only if n modulo the period is below the on length, whatever else was added at nonzero locations, removed or synchronized |
| BlinkList.SyncedTogether | fish/blink.S:267-275 | two synchronized entries keep equal countdown and status over every run that leaves them alone and adds nothing at location 0 |
| UserSupport.Strlen | syscalls/ece391support.c:6-12 | the length of the string at the pointer |
| UserSupport.Strncmp | syscalls/ece391support.c:35-46 | zero if and only if the strings agree on their first n bytes, otherwise the difference of the first two bytes that differ |
| UserSupport.StrcpyDown | syscalls/ece391support.c:14-17 | the string moves to the front of its own buffer whole, although source and target overlap |
| Grep.SearchLine | syscalls/ece391grep.c:40-51 | the line is printed once, up to its first NUL, if the pattern starts with a byte below 128 and is in it, and not at all if it is not found and the line has no NUL |
| Grep.CarryOver | syscalls/ece391grep.c:33-39 | the unfinished line moves to the front of the window without losing or duplicating a byte up to its first NUL, and no newline appears |
| Grep.ScanBuffer | syscalls/ece391grep.c:28-57 | what was printed, followed by any report of the text from the carried bytes on, is a report of the text, whatever is still to be read |
| Grep.DoOneFile | syscalls/ece391grep.c:9-66 | the output is a report of the whole text that the kernel's reads deliver, for files of any bytes; the text is exactly the file if its length modulo 4096 is at most 3072, the loops end, and the error messages appear otherwise |
| Grep.GrepsLinesIff | syscalls/ece391grep.c:9-66 | for every pattern exactly the lines that contain it are printed, in order and once each, if and only if every line that contains it has at most 1024 bytes and the pattern starts with a byte below 128 |
| Grep.GrepsArgumentsIff | syscalls/ece391grep.c:72-75 | a file is filtered correctly for every argument if and only if it has no byte of 128 or more and its lines over 1024 bytes are made of spaces |
| Grep.GrepsTypedIff | syscalls/ece391grep.c:72-75 | a file is filtered correctly for every argument that can be typed if and only if the bytes below 128 of its lines over 1024 bytes are spaces |
| Grep.HighByteMissed | syscalls/ece391grep.c:43 | a file that fails: a line of one byte of 128 or more is not printed for that byte |
| Grep.NulFreeReport | syscalls/ece391grep.c:28-57 | a text without NUL bytes has exactly one report |
| Grep.MatchesMeaning | syscalls/ece391grep.c:40-51 | a line matches if and only if it is something, the nonempty pattern, and something |
| Grep.ReportNamesLines | syscalls/ece391grep.c:44-49 | a report reads back as exactly the lines that contain the pattern, in order and once each, each behind the file's name and a colon |
| Grep.SmallReadsQualify | student-distrib/fs_module.c:114-170 | no read of up to 1024 bytes runs over the end of a file whose length modulo 4096 is at most 3072; elsewhere it reaches the end of that block at most, and is short only behind the file's end |
| Grep.Reader.Read | student-distrib/fs_module.c:248-255 | the window gets the next bytes of the stream, and fewer than asked for only where the file has ended |
| Grep.LinesSpellText | syscalls/ece391grep.c:28-57 | the lines, each terminated, spell the text |
| Numbers.Itoa | student-distrib/lib.c:247-277 | the text of the number and a NUL stand at the index, the rest of the buffer is unchanged |
| Numbers.Strrev | student-distrib/lib.c:283-296 | the string is reversed in place, the rest of the buffer is unchanged |
| Numbers.TextValue | student-distrib/lib.c:247-277 | the text of a number evaluates back to it in every radix from 2 to 36, so texts of different numbers differ |
| Numbers.ValueText | student-distrib/lib.c:247-277 | every digit string without a leading zero is the text of its value |
| Numbers.NoLeadingZero | student-distrib/lib.c:253-258 | a text starts with a zero if and only if it is that of zero, which has one digit |
| Numbers.DigitTable | student-distrib/lib.c:248 | digit d is character d of 0 to 9 and A to Z |
| Printf.PutAlternateHex | student-distrib/lib.c:127-137 | exactly eight hexadecimal digits are printed, zeros first, and they evaluate to the value |
| Printf.PutSigned | student-distrib/lib.c:153-166 | a minus for a negative value and the digits of its magnitude, for every 32-bit value |
| Printf.SignedRoundTrip | student-distrib/lib.c:153-166 | the signed text evaluates back to the value |

## Left out

- FileSystem.ReadData: does not model a request that wraps around into the block where it starts, because the copy length is negative then; block numbers must be valid where a block is copied.
- FileReads.FileRead: has the same limits as FileSystem.ReadData.
- FileReads.SequentialReading: excludes the requests that `FileSystem.ReadData` excludes, and so do Descriptors.PositionFollowsOwnReads and what is built on it.
- Terminals.Display.TerminalBackspace: ends with the fault; what the handler does behind it is not part of the model.
- Programs.TasksLiveTheirOwnLives: speaks of memory as the kernel loads it; what programs write to it themselves is not modelled.
- Grep.GrepsLinesIff: is about texts as the filter prints them without NUL bytes; `Grep.DoOneFile` covers the others.
- Processes.System.SyscallRead: takes the number returned by a keyboard read as a parameter, because the line discipline is modelled separately in `Terminals`.
- Processes.System.SyscallExecute: asks that the first 512 blocks of an executable exist, because that is what a load copies; the return addresses in the control block are not modelled.
- Processes.System.HandleException: is not called for task 0, where the handler loops forever.
- Terminals.Display.TerminalRead: starts once Enter has enabled the read; the spinning before that is not modelled.
- Grep.DoOneFile: asks for a window whose last, uninitialized byte is not a newline, and leaves open whether a line with a NUL byte is printed for a match behind it; the file is a regular one, and a failing close is not modelled, because closing a file never fails.
- Interrupts inside system calls: each call is one step here, although the source runs calls with interrupts enabled (student-distrib/syscall_handler.S:27-28), so that ticks and terminal switches can arrive inside them.
- Stack and instruction pointers, privilege switches, the task state segment and TLB flushes: only the effect on the tables is modelled, and the assembly memory routines are array assignments.
- Boot and descriptor setup, the interrupt controller, and the real-time clock's registers: hardware access.
- Scan codes and the caps lock key: the line discipline takes characters, erasures and clears as events.
- The messages that the kernel itself prints, and `syscall_write` beyond the terminal.
- `terminal_open`, which no directory entry of type 0 to 2 reaches.
- The characters that the blink driver draws; only lists and timing are modelled.
- The main program of grep, which lists the directory and filters each file, and the other user programs.
