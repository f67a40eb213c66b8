# A verified model of a multi-terminal teaching kernel

This project models the stateful parts of a small x86 kernel and of two of its user programs, and
proves what they keep over whole runs. `dafny verify dfyconfig.toml` checks all of it.

## What is modelled

**Terminals** (`TerminalSpec`, `TerminalEffects`, `TextLayout`, `Transcript`, `Echo`, `LineEditor`,
`Multiplex`, `Memory`, `ConsoleModel`). `TerminalSpec` describes one 80x25 terminal alone: a 4096-byte page, a
cursor, the line being edited. `ConsoleModel.Console` is the kernel's version: one flat array with
the displayed page at 0 and a backup page for each terminal at 4096, 8192 and 12288, the terminal
records, `curr_term`, `sched_term`, and the value last sent to the VGA cursor registers. Every
routine of the class is proved equal to its effect on one terminal, so a whole session of output,
key presses, reads, display switches and scheduling is three terminals that do not disturb each
other. On top of that: the screen is the text laid out in rows; the line buffer is a stack of at
most 127 characters; the cursor position `80*y+x` is never less than the length of the edited line
and always inside the page, although backspacing can drive the column negative (C's truncating `%`
and `/` are written out as `TruncMod` and `TruncDiv`). `TerminalEffects` says, byte by byte and for every
such state, what each operation does to its terminal.

Whether the cells before the cursor always show the edited line turns out to depend on where the
edit starts. `Echo.EchoBoundary` gives the exact condition: at most one row to the left, and a
column, modulo 80, of at most 32. From further right a full line reaches a third row; since no
backspace moves the cursor up a row, it can then be driven more than a row to the left, where the
next character jumps.

**Processes** (`ProcessSpec`, `ProcessRuns`, `ProcessEffects`, `ProcessMemory`, `KernelModel`,
`UserVideo`).
`ProcessSpec` sees each terminal's processes as a stack of frames (a PID and a saved kernel
context). `KernelModel.Kernel` has the kernel's PID bitmap, control blocks in slots addressed by PID
with parent links, the per-terminal current process, the user page entry, `tss.esp0` and the user
video entry; each routine is proved equal to its step on the stacks. The saved `esp` and `ebp` are
opaque tokens. Whether the command given to `execute` is missing, not executable, or loadable is the
parameter `Command`, which `Loader` derives from the command line and the file system; the root
shell's is the parameter `shell`. The theorems of `ProcessRuns` are
about every run: which terminal is scheduled after k ticks, which context a return or a tick
resumes, which PIDs are taken. A tick that has to start a root shell can fail after the schedule has
already moved on; `ProcessRuns.GoodStep` gives the exact condition under which a step leaves a
running, correctly mapped process, `FailedLaunchSticks` says what happens otherwise, and
`SixProcessesStick` shows it reached from boot.

**Files** (`FileImage`, `FileReader`, `ImageFormat`, `CStrings`, `Directory`, `FileSystemModel`,
`CatProgram`). The image is a
byte sequence with a boot block, inode blocks and data blocks; a file is its listed blocks joined
and cut at its end. The end is the code's: both end-of-file tests are `>`, so a reader is given one
byte more than the recorded length (`bug_log.txt:50-52` describes the end-of-file condition as
handled). `FileSystemModel.OneBytePastTheEnd` says exactly which reads can tell the difference. A read goes
from the descriptor's inode number to the first entry with that number, and on to the first entry
with that entry's name; in `student-distrib/filesys_img` the directory and the clock device share
inode number 0. `CatProgram.CatNamed` therefore says what `cat` prints for every image, and
`CatProgram.OwnBytes` when that is the file that was named.

**Grep** (`GrepSpec`, `Grep`). `GrepSpec.Printed` is what a 1024-byte sliding window makes of a
text; `Grep.DoOneFile` is the program, in place on its 1025-byte array; `GrepSpec.PrintsWantedIff`
says when that is the list of matching lines: exactly when no line longer than the window matches.

**Blink list** (`BlinkPhase`, `BlinkList`). The 2000-slot pool with links by slot number, and the
per-tick countdown with its 16-bit wrap-around and signed test. A node at location 0 makes its slot
look free: the list still works, but the next node added closes a cycle (`BlinkPool.Add`).

**Command lines and numbers** (`CommandLine`, `Loader`, `NumberPrinting`). The splitter with its eight-bit
length, and `itoa`, `strrev` and the number cases of `printf`. The user library's `itoa` and
`strrev` (`syscalls/ece391support.c:49-103`) are the same code.

## Conventions

Each system call and each interrupt handler is one atomic step. `halt` appears twice: as the step
that forgets the edited line of its terminal (`TerminalSpec.Op.Forget`), and as the step that drops
a process (`ProcessSpec.Event.Exit`). `memset`, `memcpy` and `memmove` have their bytewise meaning.
Physical memory is divided as in the source; the user page's attribute bits are not part of its
modelled value. Where a property the code might be expected to have is false in general, the model
keeps the code, and a lemma states the exact condition under which it holds.

## Model

| member | source | states |
|---|---|---|
| CTypes.CString | student-distrib/lib.c:391-396 | a C string is everything before its first NUL |
| CTypes.CStringUnique | student-distrib/lib.c:391-396 | that prefix is the only NUL-free one that ends at a NUL or at the end of the buffer |
| TerminalSpec.Poke | student-distrib/lib.c:296-297 | one cell changes, every other cell keeps its character, the attributes stay the kernel's |
| TerminalSpec.Scrolled | student-distrib/lib.c:42-68 | every cell takes the character one row down, the bottom row is blank |
| TerminalSpec.Blank | student-distrib/lib.c:74-83 | every cell is blank |
| TerminalSpec.Put | student-distrib/lib.c:280-328 | from any sound state, a character leaves the cursor inside the page and strictly past the edited line, which it does not touch (the cells and the new position are in `TerminalEffects`) |
| TerminalSpec.Reduced | student-distrib/lib.c:310-311 | truncation brings any column to within a row of its row, never to the left, and never changes the row number |
| TerminalSpec.PutInRow | student-distrib/lib.c:296-311 | while the column is at least -80 the truncating remainder and quotient change nothing |
| TerminalSpec.PutFarLeft | student-distrib/lib.c:310-311 | further left, a character moves the cursor down by whole rows |
| TerminalSpec.PutAll | student-distrib/terminal.c:134-142 | printing any byte string keeps the cursor invariant and leaves the edited line alone |
| TerminalSpec.Type | student-distrib/keyboard.c:296-302 | typing keeps the cursor invariant: index <= 80*y+x < 2000 and index < 128 |
| TerminalSpec.Backspace | student-distrib/keyboard.c:258-282 | backspace keeps the cursor invariant even when it drives the column negative |
| TerminalSpec.Enter | student-distrib/keyboard.c:243-256 | Enter keeps the cursor invariant |
| TerminalSpec.Delivered | student-distrib/terminal.c:91-97 | the first min(length, n - 1) characters of the line, for n of at least 1, and a newline |
| TerminalSpec.DeliveredExactly | student-distrib/terminal.c:91-104 | a read delivers the whole line iff there is room for it and its newline, and no more than asked for iff at least one byte was |
| TerminalSpec.ApplyAll | student-distrib/keyboard.c:243-303 | the cursor invariant holds after every sequence of output, keys, reads and halts |
| TerminalEffects.BreakMoves | student-distrib/lib.c:288-294 | a line break at any column, also a negative one, homes the column and moves down a row, the page unchanged; on the bottom row every cell takes the one below and the bottom row is blank |
| TerminalEffects.EnterMoves | student-distrib/keyboard.c:244-256 | Enter does the same and makes the line readable |
| TerminalEffects.CharacterInRow | student-distrib/lib.c:296-298 | a character up to column 78 changes its own cell and moves the column on by one, nothing else |
| TerminalEffects.CharacterAtEdge | student-distrib/lib.c:302-309 | a character in column 79 also moves on to a new row, scrolling on the bottom one |
| TerminalEffects.CharacterFarLeft | student-distrib/lib.c:310-311 | a character left of column -80 cuts the column to its remainder, which is not positive, and keeps the row number |
| TerminalEffects.PutAllJoins | student-distrib/terminal.c:134-142 | texts are printed one after the other, character by character |
| TerminalEffects.NonNulKeeps | student-distrib/terminal.c:136-137 | the bytes printed are those that are not NUL, in order |
| TerminalEffects.TypeStores | student-distrib/keyboard.c:296-302 | a key shows its character as printed and puts it at the end of the line; on a line of 127 it does nothing |
| TerminalEffects.TabTypesFour | student-distrib/keyboard.c:286-295 | a tab is four space keys |
| TerminalEffects.BackspaceErases | student-distrib/keyboard.c:258-282 | backspace blanks the cell before the cursor, goes there and drops the last character, nothing else; on an empty line it does nothing |
| TerminalEffects.FieldsOnly | student-distrib/terminal.c:87-101 | reading, halting and releasing Enter leave the screen alone; the first two clear the line |
| TerminalEffects.ApplyAllJoins | student-distrib/keyboard.c:149-304 | operations follow one another in the order given |
| TextLayout.RowsFit | student-distrib/lib.c:302-309 | rows are at most 80 wide and the cursor's row has room |
| TextLayout.ClosedGrows | student-distrib/lib.c:288-309 | a row closed by a break or by 80 columns is unchanged by later text |
| TextLayout.RowsExtend | student-distrib/lib.c:280-328 | laying out one more character changes only the last row, or opens a new one |
| TextLayout.ClearedShows | student-distrib/lib.c:74-83 | a cleared screen shows the empty text |
| TextLayout.PutExtends | student-distrib/lib.c:280-328 | one printed character extends what is shown by that character |
| TextLayout.PrintedTextShows | student-distrib/lib.c:280-328 | after printing any byte string on a cleared screen, the cells are the last 25 rows of its layout, blank padded, with the cursor at its end |
| Transcript.EnterShows | student-distrib/keyboard.c:243-256 | Enter changes the screen as a printed newline does |
| Transcript.BackspaceShows | student-distrib/keyboard.c:270-281 | on a screen that shows a text, backspace leaves a screen that shows one, the same without its last character, iff the cursor's row is not empty |
| Transcript.OpShows | student-distrib/keyboard.c:243-303 | each operation adds its own characters to the shown text, none when the line is full; backspace takes the last one off, if it is in the cursor's row |
| Transcript.TranscriptShows | student-distrib/keyboard.c:243-303 | in any mix of output, typing, tabs, backspaces, Enter, reads and halts the screen is the layout of what was printed and typed and not erased, as long as nothing is erased beyond the cursor's row |
| Echo.TypeEchoes | student-distrib/keyboard.c:296-302 | on two rows, a typed character keeps the cells before the cursor equal to the edited line, across wrap and scroll |
| Echo.BackspaceEchoes | student-distrib/keyboard.c:258-282 | so does backspace, also with a negative column |
| Echo.BackspacesMove | student-distrib/keyboard.c:270-281 | n backspaces move the cursor n cells back, blank those cells and no later ones, and never change its row number |
| Echo.EditsEcho | student-distrib/keyboard.c:258-303 | so does any sequence of keys, from any state where it holds and the line began at column 32 or less |
| Echo.RightStartBreaks | student-distrib/keyboard.c:271-278 | from a column over 32 a given sequence of keys breaks the echo |
| Echo.FarLeftStartBreaks | student-distrib/lib.c:258-259 | from a column under -80 one letter breaks it |
| Echo.EchoBoundary | student-distrib/keyboard.c:243-303 | from an empty line, every key sequence keeps the screen in step with the buffer iff the column is at least -80 and, modulo 80, at most 32 |
| Echo.PromptBoundary | student-distrib/lib.c:280-328 | after a prompt printed on a cleared screen, editing is safe iff the last row of the prompt has at most 32 characters |
| Echo.LongPromptBreaks | student-distrib/lib.c:280-328 | a prompt of thirty-three letters leads to a screen on which some edit breaks the echo |
| LineEditor.Push | student-distrib/keyboard.c:286-302 | repeated characters are added to the end of the line, as many as fit under 127 |
| LineEditor.TypeRunView | student-distrib/keyboard.c:286-295 | a tab pushes four spaces, as many as fit under 127 |
| LineEditor.ApplyView | student-distrib/keyboard.c:243-303 | each operation acts on the buffer as a push, pop or reset of a stack capped at 127 |
| LineEditor.EditedLine | student-distrib/keyboard.c:243-303 | after any operations the buffer up to its index is that stack, and it is readable iff Enter was pressed and not yet released or read |
| LineEditor.EditedLineInRun | student-distrib/keyboard.c:149-304 | in a run of the whole kernel each terminal's line is made by its own operations alone |
| Multiplex.Step | student-distrib/scheduler.c:21-44 | every legal step keeps the cursor invariant on all three terminals |
| Multiplex.StepTouches | student-distrib/scheduler.c:21-44 | an event changes the one terminal it is for, or which one is displayed, or which one is scheduled |
| Multiplex.Isolation | student-distrib/lib.c:228-328 | after any interleaving each terminal is what its own operations alone make of it |
| Multiplex.TableHasNoBreaks | student-distrib/keyboard.c:25-115 | no key produces a line break, the control keys produce nothing, tab a space |
| Multiplex.KeyEvents | student-distrib/keyboard.c:149-304 | one scancode is at most one event, and a legal one |
| Multiplex.KeysGive | student-distrib/keyboard.c:156-303 | which event each key gives: Alt+F1 to Alt+F3 switch to terminals 0 to 2, Enter, Backspace and Tab act, any other key types its character, and of the releases only Enter's matters |
| Multiplex.ModifierKeys | student-distrib/keyboard.c:157-195 | shift, control and alt hold until released, caps lock until pressed again, no other key is a modifier |
| Multiplex.ColumnPicked | student-distrib/keyboard.c:197-205 | shift alone picks the shifted character, caps lock alone its own, neither or both the plain one |
| Multiplex.LetterColumns | student-distrib/keyboard.c:43-80 | on letters caps lock gives the shifted character, which is the capital |
| Multiplex.OtherColumns | student-distrib/keyboard.c:25-115 | on all other keys caps lock gives the plain character |
| Memory.WithPage | student-distrib/terminal.c:25 | storing one page leaves the three others as they were |
| Memory.PokeCell | student-distrib/lib.c:296-297 | the two byte stores put the character and the attribute into one cell of one page |
| Memory.ScrollPage | student-distrib/lib.c:48-64 | the row loops, in place, leave the scrolled page and no other change |
| Memory.BlankPage | student-distrib/lib.c:77-80 | the clearing loop leaves a blank page and no other change |
| Memory.CopyPage | student-distrib/scheduler.c:31 | a bytewise page copy |
| ConsoleModel.Console.constructor | student-distrib/terminal.c:15-31 | over any memory content, which it leaves alone, initialisation establishes the invariant, with cursors at the origin and empty lines |
| ConsoleModel.Console.SetCursor | student-distrib/lib.c:20-36 | stores the position of one terminal, and drives the registers only if it is displayed |
| ConsoleModel.Console.Scroll | student-distrib/lib.c:42-68 | scrolls the page where that terminal is, and homes its column |
| ConsoleModel.Console.Clear | student-distrib/lib.c:74-83 | blanks the displayed terminal and homes its cursor, no other terminal is changed |
| ConsoleModel.Console.PutChar | student-distrib/lib.c:228-328 | prints on one terminal exactly as on that terminal alone, others unchanged, registers in step |
| ConsoleModel.Console.TypeKey | student-distrib/keyboard.c:296-302 | a character key acts on the displayed terminal alone |
| ConsoleModel.Console.TypeTab | student-distrib/keyboard.c:286-295 | a tab is four space keys |
| ConsoleModel.Console.BackspaceKeyPress | student-distrib/keyboard.c:258-282 | backspace acts on the displayed terminal alone; the branch for column 80 is never taken |
| ConsoleModel.Console.EnterKeyPress | student-distrib/keyboard.c:243-256 | Enter acts on the displayed terminal alone |
| ConsoleModel.Console.TerminalSwitch | student-distrib/scheduler.c:21-44 | changes no terminal's screen, cursor or line, and puts the registers where the newly displayed cursor is |
| ConsoleModel.Console.TerminalRead | student-distrib/terminal.c:61-105 | for a request of n >= 1 bytes returns min(length, n - 1) + 1, having delivered that many characters of the line less one, from its beginning, and a newline; for 0 the newline alone; empties the line of the scheduled terminal and of no other, rejects a negative count at once |
| ConsoleModel.Console.ForgetLine | student-distrib/systemcalls.c:95-97 | empties the line of the scheduled terminal and of no other |
| ConsoleModel.Console.TerminalWrite | student-distrib/terminal.c:121-146 | prints the bytes that are not NUL in order and returns their number, rejects a negative count |
| ConsoleModel.Console.Handle | student-distrib/scheduler.c:21-44 | every event changes memory, records and registers as the three separate terminals say |
| ConsoleModel.Console.Session | student-distrib/lib.c:20-328 | over any run, each terminal is what its own operations alone produce, the terminals last switched to are displayed and scheduled, and the hardware cursor is at the displayed terminal's 80*y+x |
| ConsoleModel.Keyboard.constructor | student-distrib/keyboard.c:128-137 | no modifier is held at the start |
| ConsoleModel.Keyboard.PressKey | student-distrib/keyboard.c:180-205 | updates the modifiers and picks the column they call for |
| ConsoleModel.Keyboard.Interrupt | student-distrib/keyboard.c:149-304 | a scancode changes modifiers and terminals as the event it decodes to |
| ProcessSpec.LowestFree | student-distrib/systemcalls.c:286-299 | the lowest PID no process has, -1 iff all are taken |
| ProcessSpec.ExecutePids | student-distrib/systemcalls.c:124-180 | a failed execute changes no PID's use; a successful one takes exactly the lowest free one |
| ProcessSpec.StepForest | student-distrib/systemcalls.c:57-180 | PIDs stay in range and unique over all three chains through every execute, halt, tick and display switch, also the failing ones |
| ProcessRuns.ExecuteSucceeds | student-distrib/systemcalls.c:124-180 | execute starts a process iff the command can be loaded and a PID is free |
| ProcessRuns.PopFreesPid | student-distrib/systemcalls.c:64-71 | a halt frees its own PID, so a root shell can always be given one |
| ProcessRuns.GoodStep | student-distrib/scheduler.c:62-118 | after a step the scheduled terminal has a process and the user page and kernel stack are its own iff any root shell the step had to start could be |
| ProcessRuns.BootGood | student-distrib/systemcalls.c:124-180 | starting the first shell on an idle machine gives PID 0 and establishes that state |
| ProcessRuns.Run | student-distrib/pit.c:45-57 | that state holds after every run in which root shells can be started |
| ProcessRuns.Fairness | student-distrib/pit.c:45-57 | after k ticks terminal (start + k) mod 3 is scheduled, and it has a process |
| ProcessRuns.ResumedVideo | student-distrib/scheduler.c:99-109 | after a resuming tick the user video entry is the display or that terminal's backup page, and no two terminals have the same |
| ProcessRuns.VideoFollows | student-distrib/scheduler.c:83-109 | only a resuming tick sets the user video entry; from a state in which it is the scheduled terminal's, a step breaks that exactly if it is a tick that has to start a shell, or a switch that shows or hides the scheduled terminal |
| ProcessRuns.VideoStays | student-distrib/scheduler.c:99-109 | until a tick resumes a terminal, the page mapped before stays mapped |
| ProcessRuns.ProcessesApart | student-distrib/systemcalls.c:315-324 | no two processes share user memory or kernel stack |
| ProcessRuns.RunKeepsBelow | student-distrib/systemcalls.c:135-142 | while a terminal has more than d processes, its first d frames with their saved contexts never change |
| ProcessRuns.HaltReturnsToExecute | student-distrib/systemcalls.c:74-107 | a child's halt resumes exactly the context its parent's execute saved, whatever ran or reused PIDs in between |
| ProcessRuns.RunKeepsOthers | student-distrib/scheduler.c:69-78 | while a terminal is not scheduled, nothing changes its processes or contexts |
| ProcessRuns.TickResumesTick | student-distrib/scheduler.c:111-117 | the tick that brings a terminal back resumes exactly what the tick that left it saved |
| ProcessRuns.FailedLaunchSticks | student-distrib/scheduler.c:80-88 | a tick that must start a shell and cannot leaves a scheduled terminal without a process and the old mapping, and no later tick changes that |
| ProcessRuns.SixProcessesStick | student-distrib/scheduler.c:80-88 | such a tick is reached from boot: five programs started one from another before the first tick leave no PID for the second terminal's shell |
| ProcessEffects.Layout | student-distrib/systemcalls.c:317-383 | user pages start at 8 MB and adjoin, kernel stacks begin 4 below the end of their 8 KB blocks, a new process is saved at the top of its user page |
| ProcessEffects.ExecuteLeaves | student-distrib/systemcalls.c:124-180 | execute frame by frame: the caller's position saved, the least free PID pushed and mapped; after a failure only the saved position and the active mark remain |
| ProcessEffects.HaltChildLeaves | student-distrib/systemcalls.c:64-107 | halting a child takes its frame off and resumes and maps its parent, nothing else |
| ProcessEffects.HaltRootLeaves | student-distrib/systemcalls.c:64-71 | halting a root shell frees its PID and starts a new shell alone on the terminal, with the least PID that is then free |
| ProcessEffects.HaltRootFails | student-distrib/systemcalls.c:64-74 | if the shell cannot be loaded no process is left, the mapping stays, and a null pointer is used |
| ProcessEffects.SwitchResumes | student-distrib/scheduler.c:69-117 | switching to a terminal that has run saves the interrupted position and resumes the other's, with its page, kernel stack and video page |
| ProcessEffects.SwitchLaunches | student-distrib/scheduler.c:69-88 | switching to a terminal for the first time starts a shell there with the least free PID, or leaves it without a process and the mapping as it was |
| ProcessEffects.TickSwitches | student-distrib/pit.c:45-57 | a tick switches to the next terminal in turn, and does nothing if nothing runs |
| ProcessMemory.BitmapIsInUse | student-distrib/systemcalls.c:286-299 | a PID's bit is set iff the PID is on some terminal's parent chain |
| ProcessMemory.ValidIsForest | student-distrib/systemcalls.c:375-388 | the parent links spell out acyclic, pairwise disjoint chains |
| ProcessMemory.SetCtxSaves | student-distrib/scheduler.c:72-78 | writing one control block's context changes the top frame of one terminal and nothing else |
| ProcessMemory.CreatedPushes | student-distrib/systemcalls.c:355-391 | bitmap, slot, parent link and current process together push one frame and keep the invariant |
| ProcessMemory.DroppedPops | student-distrib/systemcalls.c:64-74 | clearing the bit and following the parent link together pop one frame and keep the invariant |
| KernelModel.Kernel.constructor | student-distrib/terminal.c:15-31 | no process, no active terminal, empty bitmap |
| KernelModel.Kernel.SaveContext | student-distrib/systemcalls.c:135-142 | stores the context of the current process, if there is one, in its control block |
| KernelModel.Kernel.FindPid | student-distrib/systemcalls.c:286-299 | returns the lowest PID on no chain and sets its bit, or -1 and no change |
| KernelModel.Kernel.CreatePcb | student-distrib/systemcalls.c:355-391 | fills the slot, links it to the running process and makes it current |
| KernelModel.Kernel.Launch | student-distrib/systemcalls.c:163-180 | takes the lowest free PID, pushes its process and maps it, or changes nothing |
| KernelModel.Kernel.ExecuteCommand | student-distrib/systemcalls.c:124-180 | execute on the kernel's arrays is execute on the stacks, with the same outcome |
| KernelModel.Kernel.HaltProcess | student-distrib/systemcalls.c:57-107 | halt on the kernel's arrays is halt on the stacks, with the same outcome (see `ProcessEffects`) |
| KernelModel.Kernel.MapVideo | student-distrib/scheduler.c:99-109 | the owner recorded in the control block is the scheduled terminal, so its page is the one mapped |
| KernelModel.Kernel.Schedule | student-distrib/scheduler.c:62-118 | scheduling any terminal is the switch on the stacks, and nothing for the terminal scheduled already |
| KernelModel.Kernel.PitInterrupt | student-distrib/pit.c:45-57 | the timer interrupt is a tick on the stacks, idle if nothing runs |
| KernelModel.Kernel.Boot | student-distrib/systemcalls.c:124-180 | from the initial state, the first execute leaves a running, mapped process |
| KernelModel.Kernel.RunEvents | student-distrib/pit.c:45-57 | over any run the kernel's arrays, links and registers are where the run on the stacks ends |
| UserVideo.MappedPageIsOwnPage | student-distrib/scheduler.c:99-109 | the page the scheduler maps for a program is the page the display code keeps for its terminal |
| FileImage.Word | student-distrib/filesystem.c:135 | little-endian 32-bit words are in range |
| ImageFormat.WordReadsBack | student-distrib/filesystem.c:135 | a number stored lowest byte first reads back as itself |
| ImageFormat.FormattedContent | student-distrib/filesystem.c:125-176 | byte j of a file in a formatted image is byte j % 4096 of the data block listed in place j / 4096 of its inode, up to one byte past the length |
| ImageFormat.EntryReads | student-distrib/filesystem.c:41-43 | a directory entry written as name, type and inode number reads back as them |
| ImageFormat.ImageFits | student-distrib/filesystem.c:31-46 | an image is large enough iff it has room for its boot block, inodes and data blocks |
| FileImage.ByteInImage | student-distrib/filesystem.c:141-171 | every byte up to the end of a well-formed file is inside the image |
| FileImage.ContentIsJoined | student-distrib/filesystem.c:150-172 | a file is its blocks in the order its inode lists them, cut at its end |
| FileReader.FetchByte | student-distrib/filesystem.c:159-171 | the running block address, moved on at most once, is the block of this byte, and the byte is the file's |
| FileReader.CopyBytes | student-distrib/filesystem.c:142-175 | the byte loop copies exactly the requested slice and leaves the rest of the buffer |
| FileReader.ReadData | student-distrib/filesystem.c:125-176 | 0 for an inode or offset out of range, else the slice of the file, cut at its end, byte by byte, and nothing else written |
| CStrings.StrLen | student-distrib/lib.c:391-396 | the length of the C string |
| CStrings.StrNCpy | student-distrib/lib.c:601-612 | n bytes: the string cut to n, then NULs; the rest of the buffer is left |
| CStrings.PaddedAt | student-distrib/lib.c:601-612 | byte for byte, the string up to its first NUL and NULs from there on |
| CStrings.StrNCmp | student-distrib/lib.c:564-578 | 0 iff the strings agree up to their ends or the first n characters, whichever comes first |
| Directory.ReadDentryByName | student-distrib/filesystem.c:86-109 | the first entry whose name, cut to 32 bytes, is the query; fails iff there is none |
| Directory.FindInode | student-distrib/filesystem.c:417-425 | the first entry with this inode number; fails iff there is none |
| Directory.ChaseReturns | student-distrib/filesystem.c:410-455 | inode to entry to name to entry ends at the inode it began with iff no earlier entry has that name |
| Directory.UniqueChase | student-distrib/filesystem.c:410-455 | with unique names and inode numbers it ends at the very entry it began with |
| Directory.SweepRepeats | student-distrib/filesystem.c:311-340 | repeated directory reads give every name once, cut to size, in order, then nothing, then the same again, for ever |
| Directory.EmptyMeansEnd | student-distrib/filesystem.c:311-340 | an empty delivery marks the end of the directory iff no name is empty |
| FileSystemModel.FileSystem.constructor | student-distrib/filesystem.c:31-50 | counts and entries are those of the boot block, the directory cursor is at the start |
| FileSystemModel.FileSystem.ReadFile | student-distrib/filesystem.c:238-248 | reads the slice of the content of the inode of the first entry of that name; -1 and no change iff there is none |
| FileSystemModel.FileSystem.ReadDirectory | student-distrib/filesystem.c:311-340 | delivers the next name cut to the request (the whole field for more than 32 bytes), or nothing at the end, and moves the cursor on, back to the start at the end |
| FileSystemModel.FileSystem.ReadEntry | student-distrib/filesystem.c:430-447 | reads by type: a slice of the file the name leads to, or the next directory name |
| FileSystemModel.Process.constructor | student-distrib/systemcalls.c:361-373 | descriptors 0 and 1 are the terminal, the others are free |
| FileSystemModel.Process.Open | student-distrib/systemcalls.c:446-491 | the lowest free descriptor at position 0 of the first file of that name; fails iff there is no such file or no free descriptor, and then changes nothing |
| FileSystemModel.Process.Close | student-distrib/systemcalls.c:560-578 | frees an open descriptor from 2 up and rejects every other number, changing nothing |
| FileSystemModel.Process.CloseAll | student-distrib/systemcalls.c:58-62 | leaves descriptors 0 and 1 open and every other one free |
| FileSystemModel.Process.FsRead | student-distrib/filesystem.c:410-455 | delivers the file from the descriptor's position on and advances the position by the bytes delivered, touching no other descriptor |
| FileSystemModel.Process.Read | student-distrib/systemcalls.c:505-520 | -1 for a descriptor that is not open or is for output, nothing for the clock device, else what `fs_read` delivers, without any other change |
| FileSystemModel.ReadsJoin | student-distrib/filesystem.c:449-454 | reads of any sizes join up to one read of their total |
| FileSystemModel.EmptyReadIsEnd | student-distrib/filesystem.c:138-157 | a read of at least one byte delivers nothing iff everything has been delivered |
| FileSystemModel.OneBytePastTheEnd | student-distrib/filesystem.c:156-157 | reading up to and including the byte at the recorded length differs from stopping before it exactly for reads that reach that byte |
| CatProgram.ServedRest | student-distrib/filesystem.c:430-454 | one read takes its bytes off the front of what is still to come, and delivers nothing iff nothing is |
| CatProgram.Next | syscalls/ece391cat.c:21 | the same for a read of 1024 bytes through any open descriptor |
| CatProgram.Cat | syscalls/ece391cat.c:21-28 | the loop ends, having printed all that was to come: nothing for the clock device, the rest of the directory's name fields, or the rest of the file the descriptor reaches |
| CatProgram.CatNamed | syscalls/ece391cat.c:16-30 | for every image and every name: status 2 iff the open failed, else exactly that output; for a file it is the named file's bytes if the first entry with its inode number is the first of its own name and no directory |
| CatProgram.OwnBytes | student-distrib/filesystem.c:410-455 | the entry read has the inode of the entry opened iff the first entry with that inode number is the first of its own name |
| CatProgram.UniqueNamesReturn | student-distrib/filesystem.c:410-455 | unique names are enough for that, inode numbers may be shared |
| CatProgram.UniqueEntriesReturn | student-distrib/filesystem.c:410-455 | with unique inode numbers as well, the entry read is the entry opened |
| GrepSpec.LongLine | syscalls/ece391grep.c:29-57 | what is left of a line too long for the window is treated as a line |
| GrepSpec.SilentLine | syscalls/ece391grep.c:40-51 | a line that does not match prints nothing, however it is cut |
| GrepSpec.FittingLine | syscalls/ece391grep.c:40-51 | a line of at most 1024 bytes prints whole or not at all |
| GrepSpec.ShortMatchesPrint | syscalls/ece391grep.c:20-60 | if no line over 1024 bytes matches, the output is the matching lines, in order, once each |
| GrepSpec.PrintsWantedIff | syscalls/ece391grep.c:20-60 | and only then |
| GrepSpec.TrailingNulUnseen | student-distrib/filesystem.c:156-157 | the NUL the file system adds at the end changes nothing that is printed |
| GrepSpec.PrintsWantedOnFile | syscalls/ece391grep.c:20-60 | the same exact condition for a text read through this file system |
| GrepSpec.LinesAreCut | syscalls/ece391grep.c:30-32 | a text is cut at every newline and only there |
| GrepSpec.ContainsSplits | syscalls/ece391grep.c:42-45 | a line that contains the pattern is something, the pattern, and something |
| GrepSpec.SplitContains | syscalls/ece391grep.c:42-45 | and conversely |
| GrepSpec.SelectGrows | syscalls/ece391grep.c:42-51 | the selection keeps the order and adds a line exactly if it contains the pattern |
| GrepSpec.LongLinePrints | syscalls/ece391grep.c:29-57 | of a line longer than the window the first 1024 bytes are taken for a line, and the rest for another |
| Grep.StrNCmp | syscalls/ece391support.c:35-46 | 0 iff the pattern is at this place before the closing NUL |
| Grep.StrCpyDown | syscalls/ece391support.c:14-17 | copying a tail forwards onto the front of its own array moves it intact, up to its NUL |
| Grep.SearchLine | syscalls/ece391grep.c:42-51 | found iff the line contains the pattern |
| Grep.PutLine | syscalls/ece391support.c:19-22 | writes the line up to its first NUL |
| Grep.FindEnd | syscalls/ece391grep.c:30-32 | the first newline from here on, or the end of what is loaded |
| Grep.LineTaken | syscalls/ece391grep.c:40-56 | taking one line off the window accounts for exactly the first piece of what is left |
| Grep.ShiftTail | syscalls/ece391grep.c:33-38 | the unfinished line is at the front, unchanged |
| Grep.TakeLine | syscalls/ece391grep.c:40-51 | what is printed and what is left together make up what was left before |
| Grep.ScanWindow | syscalls/ece391grep.c:29-57 | scanning a window accounts for all of it but the part kept, which is shorter than the window, so the next request is for at least one byte |
| Grep.ReadInto | syscalls/ece391grep.c:22 | places in the window the same slice of the file that the `read` call delivers, short only at the end |
| Grep.Fill | syscalls/ece391grep.c:22-27 | filling up the window loses and changes nothing |
| Grep.DoOneFile | syscalls/ece391grep.c:9-66 | both loops end, and the output is what the window specification says for the whole text |
| BlinkPhase.PhaseAfter | fish/blink.S:49-90 | after k ticks a node is lit iff k mod (on + off) < on, with the matching countdown, a misread length counting as 1 |
| BlinkPhase.TickIs | fish/blink.S:64-86 | a countdown of 2 to 32768 goes down by one, any other is set anew for the other half and the status bit flips |
| BlinkPhase.AddedBlinks | fish/blink.S:49-90 | a node added with valid lengths is lit after k ticks iff k modulo its period is under its on length, and keeps its characters and lengths |
| BlinkPhase.MisreadLengthShows | fish/blink.S:64-66 | for a length of 0 or over 32768 there is a tick at which the declared pattern is wrong |
| BlinkPhase.DeclaredLengths | fish/blink.S:64-86 | the declared lengths are honoured for ever iff both are in 1..32768 |
| BlinkPhase.SyncedStay | fish/blink.S:267-275 | two synchronised nodes agree in lengths, status and countdown at all later ticks |
| BlinkPhase.SyncedFields | fish/blink.S:267-275 | the target of a synchronisation keeps its location and characters and takes lengths, countdown and status |
| BlinkList.IndexOf | fish/blink.S:351-379 | the most recent node at a location, -1 iff there is none |
| BlinkList.InsertLinks | fish/blink.S:159-162 | linking a free slot in at the front keeps the chain acyclic |
| BlinkList.InsertMarks | fish/fish.c:160-170 | after insertion the slots that look free are exactly the free ones iff the location is not 0 |
| BlinkList.Unlink | fish/blink.S:214-222 | storing past a node and clearing its slot leaves the chain without it |
| BlinkList.WithoutOne | fish/blink.S:214-217 | exactly one element is gone from the list |
| BlinkList.UnlinkNodes | fish/blink.S:214-217 | the other nodes keep their contents and order |
| BlinkList.UnlinkMarks | fish/fish.c:172-175 | the freed slot, and no other, becomes free |
| BlinkList.BlinkPool.constructor | fish/fish.c:28 | a cleared pool and an empty list |
| BlinkList.FirstFree | fish/fish.c:160-170 | the first slot whose location is 0, none iff there is no such slot |
| BlinkList.FreeIsOff | fish/fish.c:160-170 | as long as no node is at location 0, that is the first slot not on the list, and none is found iff the list has all |
| BlinkList.UnmarkedIsNext | fish/fish.c:160-170 | a node added at location 0 leaves its slot the next to be given out |
| BlinkList.ReuseCycles | fish/blink.S:159-162 | giving out a slot that is on the list closes a cycle |
| BlinkList.BlinkPool.Malloc | fish/fish.c:160-170 | the first slot that looks free |
| BlinkList.BlinkPool.FindHelper | fish/blink.S:351-379 | the walk ends at the most recent node at the location |
| BlinkList.BlinkPool.Add | fish/blink.S:105-184 | fails, changing nothing, iff the location is 2000 or more or no slot looks free; else puts in front a node with the user's location, characters and lengths, status 1 and the on length as countdown, unless the slot found is on the list already, and then walking the list never ends; the pool stays consistent iff the location is not 0, and after an addition at 0 the next one finds such a slot |
| BlinkList.BlinkPool.FindPrevious | fish/blink.S:206-212 | the pointer-to-pointer walk ends, at the link that leads to the node |
| BlinkList.BlinkPool.Remove | fish/blink.S:187-237 | removes exactly the most recent node at the location and frees its slot, or fails and changes nothing |
| BlinkList.BlinkPool.Tasklet | fish/blink.S:49-99 | every node on the list takes one tick, in place, and nothing else changes |
| BlinkList.BlinkPool.TickNode | fish/blink.S:64-86 | the instructions for one node are one tick |
| BlinkList.BlinkPool.Wait | fish/fish.c:41-44 | after k ticks every node is where its own clock puts it |
| BlinkList.BlinkPool.Sync | fish/blink.S:240-300 | copies lengths, countdown and status of the most recent node at one location to that at the other, which keeps its characters, or fails and changes nothing |
| BlinkList.BlinkPool.Find | fish/blink.S:302-349 | a copy of the most recent node at the location, failing iff there is none |
| CommandLine.SkipSpaces | student-distrib/systemcalls.c:223-225 | stops at the first character that is not a space |
| CommandLine.TakeName | student-distrib/systemcalls.c:227-232 | takes the characters up to a space, 32 at most |
| CommandLine.TakeArgs | student-distrib/systemcalls.c:238-243 | takes what is left, 128 bytes at most |
| CommandLine.ParseArgs | student-distrib/systemcalls.c:209-244 | fills the buffers with the name and the arguments of the part of the command an eight-bit length covers, then NULs |
| CommandLine.SplitCovers | student-distrib/systemcalls.c:223-243 | the command is spaces, name, spaces, arguments and a remainder that is empty unless the arguments fill their buffer; the name ends at a space unless it has 32 characters, and the arguments do not begin with one |
| CommandLine.SplitRecovers | student-distrib/systemcalls.c:223-243 | a name and arguments composed under any padding are recovered iff they fit 32 and 128 bytes |
| CommandLine.ParsedRecovers | student-distrib/systemcalls.c:209-244 | the same through the eight-bit length: iff they fit and the command is under 256 bytes, or there are no arguments and the cut falls in the padding |
| Loader.ExecutableBytes | student-distrib/systemcalls.c:260-272 | the mark of an executable is E, L, F in bytes 1 to 3 |
| Loader.ExecutableCheck | student-distrib/systemcalls.c:260-272 | passes iff the file has that mark |
| Loader.NameInBuffer | student-distrib/systemcalls.c:147-156 | a lookup reads a name of fewer than 32 characters as it is, and a name of 32 together with the memory behind the buffer |
| Loader.FullName | student-distrib/systemcalls.c:147-157 | a name of 32 characters is found as itself if the byte behind the buffer is NUL, and not at all otherwise |
| Loader.Classify | student-distrib/systemcalls.c:146-161 | a command line can be loaded iff the name in it is an entry's and that file is an executable |
| Loader.ExecuteLine | student-distrib/systemcalls.c:124-195 | execute of a command line is execute on the stacks with that outcome of the lookup |
| NumberPrinting.ParseDigits | student-distrib/lib.c:336-366 | reading the digits back gives the number, in every radix from 2 to 36 |
| NumberPrinting.NoLeadingZero | student-distrib/lib.c:336-366 | the first digit is zero iff the number is |
| NumberPrinting.StrRev | student-distrib/lib.c:372-385 | reverses the string up to its NUL in place and touches nothing else |
| NumberPrinting.Itoa | student-distrib/lib.c:336-366 | leaves the number's digits, most significant first, and a NUL, and nothing before them is touched |
| NumberPrinting.DigitsFit | student-distrib/lib.c:160-161 | a k-bit number has at most k digits, so 32-bit numbers fit the conversion buffer |
| NumberPrinting.PrintUnsigned | student-distrib/lib.c:136-167 | the text parses back to the value and has no leading zero |
| NumberPrinting.PrintHex8 | student-distrib/lib.c:144-153 | exactly eight digits that parse back to the value, although the filling overlaps the converted string's buffer |
| NumberPrinting.PrintSigned | student-distrib/lib.c:168-182 | the text parses back to the value, also for the smallest integer, whose negation wraps |

## Left out

- ConsoleModel.Keyboard.Interrupt: not for Ctrl+L, whose flag and saved line are global and whose redraw `bug_log.txt:143-144` records as wrong (it moves the cursor behind the edited line), nor for scancodes 0x58 to 0x80, which index past the source's table.
- ConsoleModel.Console.TerminalRead: starts when Enter has been pressed; that the wait ends is not claimed, since releasing the key clears the flag. The Ctrl+L redraw at its start and a null buffer are not part of it.
- ConsoleModel.Console.TerminalSwitch: interrupt flags are not modelled, including that switching to the displayed terminal returns without restoring them.
- KernelModel.Kernel.ExecuteCommand: the copying of the program image and the arguments in the control block are not modelled, nor are exit statuses; the descriptors are `FileSystemModel.Process`, apart from the control block.
- KernelModel.Kernel.HaltProcess: the closing of descriptors is `FileSystemModel.Process.CloseAll`, apart from this method; the reset of the directory cursor and the exit status are not modelled, nor what follows the null-pointer use when a root shell cannot be loaded again.
- KernelModel.Kernel.Schedule: from the scheduled terminal, which must have a process, as its only caller ensures.
- FileReader.ReadData: the image must list every block a reader may follow, and the caller's buffer must hold what can be asked for; the source checks neither.
- FileSystemModel.Process.Open: entry types are 0, 1 and 2; for another type the source would call a stale table entry.
- FileSystemModel.Process.FsRead: likewise for entry types, so its -1 for other types is not reached; offsets and positions do not wrap, since files are far below 4 GB.
- FileSystemModel.FileSystem.constructor: for images whose boot block describes them and whose files can be read to their ends.
- Directory.ReadDentryByName: the name must end in a NUL somewhere in memory.
- CatProgram.CatNamed: the name comes as a parameter, and the printed bytes are collected, not sent to a terminal.
- FileSystemModel.Process.Read: not for descriptor 0, whose reads are `ConsoleModel.Console.TerminalRead`; the waiting of the clock device is not modelled.
- Grep.DoOneFile: contents with a NUL before their last byte are not covered, nor an array whose last byte happens to begin as a newline; the file is a byte sequence read as `FileSystemModel.Process.Read` delivers it; the `name:` prefix, the failure messages and the loop over the directory are not modelled.
- BlinkList.BlinkPool.Add: not for a list that is a cycle already; the character drawn is not modelled, nor for `Tasklet` and `Sync`, whose choice of character depends on a conditional move that is never taken.
- BlinkList.BlinkPool.Remove: not for a list that has become a cycle, nor are `Tasklet`, `Wait`, `Sync` and `Find`.
- Preemption inside a system call or handler: every step is atomic.
- What programs write through the user video entry.
- The dispatch of `write` through the table of operations, `getargs`, `vidmap`, the RTC and its virtual rates.
- Boot, descriptor tables, exception stubs, port I/O and end-of-interrupt signals: only the VGA cursor value is kept.
- The shell, the other demo programs, the Linux emulation layer and fish's frame files.
- `%c`, `%s`, `%%` and the format loop of `printf` are not modelled.
