# SCML in Dafny: compiler, image, virtual machine and front end

SCML is a small assembly-like script language with a compiler (`compiler/`), a binary image format (`.scmlbin`), a
bytecode virtual machine (`vm/`), a debugger (`debugger/`) and a line-based front end (`lexer/`, `parser/`). This project
models them and proves that they fit together.

**The headline.** `EndToEnd.CompiledFileRunsAsSource`: take any source files that the compiler accepts, compile them,
write the image, load it into a fresh VM and step it any number of times. The VM is then in exactly the state of a
*source machine* that runs labels and statements: its program counter, return positions and event handlers are
statement indices, and bytes come in only where a program uses a label as a number, which is its byte address. Every
step also returns what the source machine's step returns, down to the reported source line. Calls, returns, branches,
HALT, END_THREAD and events dispatched in the middle of the run are included. The one way out of the correspondence is
a jump to an integer literal that points into the middle of an instruction, and it is the only one:
`Correctness.StepSimulatedExactly` is an if-and-only-if.

How the files fit together:

- `Bytes`, `Chars`, `Opcodes`, `Program`: machine integers, C strings, the opcode table, parsed statements.
- `Machine` gives the VM state and the effect of every opcode as a function. Code positions occur in it only as numbers,
  so the same function drives both machines; `Positions` proves that effects commute with any renaming of positions.
- `Encoding`, `Layout`, `ImageFile`: instruction bytes, the two compiler passes, the image. `Compiler` is the compiler
  itself, loops and all, proved to write exactly the specified bytes.
- `Semantics` and `HeapSemantics` say what each opcode does without saying how: operand by operand, on variables as
  maps, handles as objects and output as what a terminal shows, and prove it of `Machine`.
- `Steps` is `scml_vm_step` as a function; `Vm` is the VM as a class whose methods update its tables, proved to take
  exactly those steps. Its ring buffer is the class in `EventQueue`, its dirty renderer the array algorithm in `Screen`.
- `Correctness` and `EndToEnd` hold the simulation. `Isolation`, `Heap`, `HandleReuse`, `Schedule` and `Capacity` prove
  what holds over whole runs of *any* code, compiled or not: call frames, heap handles, events, table sizes.
  `HandleLoop` is a program in which two live objects come to share a handle and a freed handle is handed out again.
- `Debugger` is the debugger class, and what sessions of step and continue commands do to a run.
- `Preprocessor`, `Lexer` and `SplitArgs` are the front end: the conditional stack against a tree semantics, the lexer
  against a printer, argument splitting against joining.

What the proofs assume about a program (`Correctness.Compilable`): the compiler accepts it, operand counts have passed
the parser's check, the code is smaller than 2 GiB (the compiler's pc is `uint32_t`, jump operands are read back as
`int32_t`), and texts hold no NUL byte.

Some properties one might expect do not hold of the code as they stand. Each has its exact condition and an instance:

- The parser and the compiler take an integer as a jump target of JMP and IF_* and as a handler of EVENT_BIND. Every
  step from instruction boundaries ends at instruction boundaries if and only if every such literal is the address of
  one, or belongs to a branch that no values of its operands can take (`Correctness.BoundariesKeptExactly`; `JMP 1`,
  `IF_EQ 0 0 1` and `EVENT_BIND "" 1` in `Correctness.LiteralsMiss`).
- A freed handle comes back to life if and only if there have been enough allocations for the 32-bit `next_ref` to come
  round to it (`HandleReuse.FreedStaysDead`; a program in `HandleLoop.FreedHandleComesBack`).
- Two live objects come to share a handle if and only if an allocation is about to hand out one that is alive
  (`HandleReuse.DistinctExactly`; a program in `HandleLoop.LiveObjectsShareHandle`).
- The states visited by debugger commands form a prefix of the run's states if and only if no command is given after
  one that reported the end (`Debugger.SessionFollowsRun`; such a session in `Debugger.SessionPastEnd`, where the
  command after the end dispatches a queued event).
- The dirty renderer leaves what the full one leaves if and only if the terminal already showed the unchanged cells
  (`Screen.DirtyEqualsFull`; a terminal on which they differ in `Screen.RenderersDiffer`).
- A token line comes back from printing if and only if no string in it holds a NUL (`Lexer.LexUndoesPrint`; the string
  `"\0"` in `Lexer.NulIsLost`).

## Model

| member | source | states |
|---|---|---|
| EndToEnd.CompiledFileRunsAsSource | compiler/compiler.c:74-202 | For any source files the compiler accepts and any number of steps before which no jump into the middle of an instruction has been taken, compiling, writing, loading and running on a fresh VM gives the source machine's state (positions replaced by byte addresses) and its step results. |
| EndToEnd.AlignedFileRunsAsSource | compiler/compiler.c:74-202 | The same state and step results for any number of steps when no jump literal points into the middle of an instruction. |
| EndToEnd.CompiledLoads | vm/vm.c:443-491 | The file written for an accepted program loads, and gives back exactly the compiled code, lines and labels. |
| Correctness.StepSimulated | vm/vm.c:611-1130 | Commuting square: from corresponding states, one VM step on compiled code and one source step reach corresponding states with the same outcome and reported line, for every opcode, idle step and failure, unless the step uses a literal that points into the middle of an instruction. |
| Correctness.StepSimulatedExactly | vm/vm.c:611-1130 | The VM step from a corresponding state ends in a state of the source machine if and only if it does not use such a literal. |
| Correctness.RunSimulated | vm/vm.c:1136-1148 | After any number of steps from any source state, up to the first use of such a literal, the VM is where the source machine is. |
| Correctness.OutcomesSimulated | vm/vm.c:1136-1148 | Every step of such a run returns what the source machine's step returns. |
| Correctness.RunAlignedExactly | vm/vm.c:711-730 | Over any run, pc, return addresses and handlers stay clear of the middle of instructions exactly as long as no such literal is used. |
| Correctness.AlignedNeverStrays | parser/parser.c:259-260 | If no jump literal points into the middle of an instruction, none is ever used. |
| Correctness.BoundariesKeptExactly | vm/vm.c:711-730 | Every step from every state whose code positions are instruction boundaries ends in such a state if and only if every literal jump target and handler of the program is a boundary or belongs to a branch that can never be taken. |
| Correctness.ReachableAtBoundaries | vm/vm.c:618-636 | In every state such a program reaches, pc, every return address and every bound handler is an instruction boundary or the code size, and no step reports a truncated instruction, unknown opcode, operand count or bad tag. |
| Correctness.FetchAt | vm/vm.c:618-636 | At a statement's address the VM decodes that statement with labels resolved, moves to the next statement's address, and reports its line. |
| Correctness.OperandResolved | compiler/compiler.c:51-64 | A resolved, encoded and decoded operand is the source operand with its label replaced by the label's address. |
| Correctness.LiteralsMiss | parser/parser.c:259-260 | JMP 1, IF_EQ 0 0 1 and EVENT_BIND "" 1 compile, and one step of each leaves a code position inside the instruction. |
| Correctness.ExecNamesDest | vm/vm.c:640-1128 | With a variable in the destination place no opcode reads a missing destination name. |
| Correctness.NamesNeverMissing | vm/vm.c:175-184 | If every destination operand is a variable, no step from an instruction boundary reads a missing name. |
| Correctness.GoesToLabel | vm/vm.c:648-654 | In the source machine a CALL of a label below depth 128 and a JMP to it go on at the statement that declares that label; the CALL pushes one frame, without locals, that returns to the next statement, and nothing else changes. |
| Semantics.BranchOnInts | vm/vm.c:714-730 | On integers x and y, IF_EQ, IF_NE, IF_GT, IF_LT, IF_GE and IF_LE set pc to the target if and only if x == y, x != y, x > y, x < y, x >= y and x <= y, and change nothing else. |
| Semantics.BranchOnTexts | vm/vm.c:113-140 | On two texts the same holds for lexicographic order: a proper prefix comes first, otherwise the smaller byte at the first difference. |
| Semantics.BranchOnFloats | vm/vm.c:113-140 | With a float, IF_GE and IF_LE also jump when neither value is the smaller one, IF_GT and IF_LT then do not. |
| Semantics.CompareIsOrder | vm/vm.c:130-134 | The byte-by-byte comparison has the sign of lexicographic order, and is 0 exactly on equal texts. |
| Semantics.EvalReads | vm/vm.c:186-192 | An operand's value: a variable in the map that the top frame's locals or the globals form, 0 if it is not there. |
| Semantics.SetVarAssigns | vm/vm.c:154-184 | Assignment updates that map at one name; it fails exactly on a new name with 64 locals or 256 globals. |
| Semantics.ReadBack | vm/vm.c:167-192 | A variable that was set is read back, and no other operand reads differently. |
| Semantics.SumExec | vm/vm.c:687-710 | ADD, SUB and MUL on integers store the sum, difference and product of the second and third operand wherever it fits 32 bits. |
| Semantics.DivisionExec | vm/vm.c:687-710 | DIV and MOD store quotient and remainder: x is y times the one plus the other, the remainder is smaller than y and has the sign of x; they fail exactly on a zero divisor. A quotient that does not fit 32 bits is left to the host. |
| Semantics.FloatExec | vm/vm.c:687-710 | With a float, arithmetic (and POW and ATAN2 always) is the host's on the operands in order, and DIV fails exactly on a zero divisor. |
| Semantics.TextExec | vm/vm.c:800-816 | STRCAT stores the first text followed by the second; STR_REPEAT stores n copies of a text, none if n is negative. |
| Semantics.SubstrExec | vm/vm.c:1081-1101 | SUBSTR stores the bytes between the given bounds, each replaced by the nearest one inside the text. |
| Semantics.BitExec | vm/vm.c:1043-1060 | Bitwise opcodes apply the host's operator to the operands in order; shifts fail exactly on a count outside 0 to 30. |
| Semantics.ConvertExec | vm/vm.c:1031-1042 | TO_INT and TO_FLOAT convert by the type of the value, BIT_NOT is -1 - x, and STRLEN is the length of a text of less than 2 GiB. |
| Semantics.PushExec | vm/vm.c:669-681 | PUSH_INT, PUSH_STR and LOAD put one value on top of the stack, and fail exactly when it holds 1024. |
| Semantics.StoreExec | vm/vm.c:682-686 | STORE assigns its second operand's value to its first, and fails exactly when the variable is new and its table full. |
| Semantics.ControlExec | vm/vm.c:640-647 | HALT, NOP, RETURN and END_THREAD: the whole new state. |
| Semantics.NamedExec | vm/vm.c:656-667 | A named CALL and CALL_NATIVE pass the values of the operands after the name, in order, and assign the answer to $RETVAL. |
| Semantics.ModuleExec | vm/vm.c:817-873 | WAIT, FILE_READ, FILE_WRITE, ENTITY_SPAWN and INPUT: which operands are passed and which one takes the answer. |
| Semantics.ConsoleExec | vm/vm.c:742-777 | Console opcodes emit one event, and fail exactly on an argument out of range. |
| HeapSemantics.WriteExec | vm/vm.c:893-900 | HEAP_STORE and SPAN_WRITE_U8: the third operand is stored at the second in the object the first denotes, modulo 256 in a byte span; that is all that changes, or the opcode's error is reported, exactly when there is no such cell or no byte is given. |
| HeapSemantics.ReadExec | vm/vm.c:901-910 | HEAP_LOAD and SPAN_READ_U8 store in the first operand the cell at the third of the object the second denotes, or report the opcode's error. |
| HeapSemantics.WriteThenRead | vm/vm.c:893-910 | A store followed by a load with the same handle and index yields the stored value. |
| HeapSemantics.FillExec | vm/vm.c:929-939 | SPAN_FILL sets exactly the cells from its second operand on, as many as its third says, to its fourth. |
| HeapSemantics.PinExec | vm/vm.c:921-928 | SPAN_PIN marks the object its operand denotes, or reports that there is none. |
| HeapSemantics.FreeExec | vm/vm.c:886-892 | FREE makes its operand's handle dead, unless two live slots share it, and touches no other. |
| HeapSemantics.LengthExec | vm/vm.c:1102-1108 | ARRAY_LEN stores the size of the object its second operand denotes, 0 if there is none. |
| HeapSemantics.AllocateExec | vm/vm.c:876-885 | The allocating opcodes make next_ref denote as many zeroed cells as the first operand says, and store that handle in the second; each failure is reported exactly in its case. |
| HeapSemantics.RenderExec | vm/vm.c:962-976 | CONSOLE_RENDER_SPAN puts out the full frame of a pinned byte span of at least w * h cells, and fails otherwise. |
| HeapSemantics.RenderDirtyExec | vm/vm.c:977-1006 | CONSOLE_RENDER_SPAN_DIRTY puts out the differing runs of the two spans, and changes only the previous one. |
| HeapSemantics.DirtyFrameShown | vm/vm.c:977-1006 | On a terminal that shows the previous span, replaying what the opcode has put out shows the current one. |
| HeapSemantics.FrameShown | vm/vm.c:962-976 | On any terminal, replaying what the full renderer has put out shows the span. |
| Positions.ExecCommutes | vm/vm.c:640-1128 | Every opcode whose jump operands are not literals commutes with any renaming of code positions that fixes 0. |
| Positions.ExecRetarget | vm/vm.c:711-730 | A jump literal acts as a reference to the position it stands for, and as any reference if the instruction does not use it. |
| Positions.ExecKeepsPositions | vm/vm.c:640-1128 | Opcodes invent no code positions: what holds of all positions in the state and the operands holds afterwards. |
| Positions.DispatchCommutes | vm/vm.c:397-412 | Event dispatch commutes with any renaming of code positions. |
| Positions.BindCommutes | vm/vm.c:364-369 | Binding a handler commutes with any renaming of code positions. |
| Opcodes.SearchIsOpcodeInfo | opcode/opcode.c:7-87 | For every byte, the search of the 79-row table gives the operand counts that the rest of the model uses, and finds nothing from 0x4A on. |
| Opcodes.FindInfo | opcode/opcode.c:112-117 | The search loop returns the first row's operand counts. |
| Opcodes.ParserArityPassesVm | parser/parser.c:258-260 | An operand count within the range of any row of an opcode, as the parser checks it, is within the range of its first row, which the VM checks. |
| Bytes.ReadWritten32 | vm/vm.c:151 | A 32-bit word reads back as it was written, whatever follows. |
| Bytes.WrittenRead32 | compiler/compiler.c:28 | Any four bytes, read as a word and written again, are the same bytes. |
| Encoding.FetchEncoded | vm/vm.c:212-238 | An emitted instruction followed by anything decodes to its opcode and operands and consumes exactly its own bytes. |
| Encoding.EncodeFetched | vm/vm.c:618-636 | On any bytes, a successful decode stays inside them, and re-encoding gives exactly the bytes consumed. |
| Encoding.DecodeEncodedOperand | compiler/compiler.c:142-171 | One operand of each type decodes to itself, whatever follows. |
| Encoding.EncodeDecodedOperand | vm/vm.c:212-238 | A decoded operand re-encodes to the bytes it came from. |
| Encoding.OperandFormat | compiler/compiler.c:140-171 | An operand is its tag (1 to 5) and a little-endian 32-bit word, or its tag, a 16-bit length and the text. |
| Encoding.InstrFormat | compiler/compiler.c:136-174 | An instruction is its opcode, the number of operands and the operands in order. |
| Encoding.FetchesExactly | vm/vm.c:618-636 | The VM decodes an instruction if and only if the bytes begin with an encoded one. |
| Encoding.CutOperand | vm/vm.c:212-238 | An operand cut off anywhere is reported by what is missing of it, with pc after the bytes that were read. |
| Encoding.FetchReports | vm/vm.c:618-636 | A fetch that fails reports, in this order, a truncated header, an unknown opcode, a wrong operand count or a bad operand. |
| Layout.CompileAccepts | compiler/compiler.c:96-195 | The compiler accepts exactly the statement lists with unique labels, bound references, and texts and label names of at most 65535 bytes; the duplicate-label error is reported exactly when labels repeat. |
| Layout.ErrorsMean | compiler/compiler.c:96-195 | The compiler's error is true of the program: a label declared twice, a reference to a label that is not declared, a text or a label name of more than 65535 bytes. |
| Layout.LabelsExact | compiler/compiler.c:96-119 | The first pass succeeds exactly on unique labels, and its table then holds exactly the declared labels. |
| Layout.LabelAddress | compiler/compiler.c:107-116 | A label's table entry is the total size of all statements before it, across source files. |
| Layout.EntryDeclared | compiler/compiler.c:107-110 | The label table holds no label that is not declared. |
| Layout.StmtEmitted | compiler/compiler.c:31-43 | A statement is emitted as exactly the number of bytes the first pass reserved for it. |
| Layout.EmittedAt | compiler/compiler.c:136-174 | The bytes from a statement's address to the next one's are that statement's instruction. |
| Layout.EmittedSize | compiler/compiler.c:132 | The emitted code is as long as the size in the header says. |
| Layout.LinesIncreasing | compiler/compiler.c:112-116 | Line-table addresses are strictly increasing and below the code size. |
| Layout.CurrentLineExact | vm/vm.c:248-255 | For every pc inside an instruction's bytes the early-exit scan returns that instruction's line, however lines jump between files. |
| Layout.LineOfEveryByte | vm/vm.c:248-255 | Every pc below the code size lies in exactly one instruction, and the scan returns its line. |
| Compiler.CompileFiles | compiler/compiler.c:96-202 | Behind the parser, the compiler's loops write exactly the specified file, or report the specified error, and succeed exactly on accepted programs. |
| Compiler.LayOut | compiler/compiler.c:96-119 | The first pass over all files builds the specified tables or reports the first duplicate label. |
| Compiler.LayOutFile | compiler/compiler.c:96-119 | One file's statements extend the tables and the 32-bit pc as specified, or fail as the whole list does. |
| Compiler.StmtSize | compiler/compiler.c:31-43 | The 32-bit size of a statement is its real size modulo 2^32. |
| Compiler.FindLabel | compiler/compiler.c:45-50 | The first entry with that name, or the end of the table. |
| Compiler.WriteOperand | compiler/compiler.c:142-171 | One operand's bytes, or the unresolved-label or text-too-long error. |
| Compiler.WriteOperands | compiler/compiler.c:142-172 | All operands' bytes, or the error of the first one that fails. |
| Compiler.WriteCode | compiler/compiler.c:136-174 | The second pass emits the specified code for all files. |
| Compiler.WriteLines | compiler/compiler.c:176-179 | The line table's bytes. |
| Compiler.WriteLabels | compiler/compiler.c:181-195 | The label table's bytes, or the label-too-long error exactly when a name exceeds 65535 bytes. |
| ImageFile.LoadsExactly | vm/vm.c:443-491 | A file loads as an image if and only if it begins with the bytes the compiler writes for that image. |
| ImageFile.LoadWritten | vm/vm.c:443-491 | Loading what was written restores code, line table and label table exactly, whatever follows in the file. |
| ImageFile.WriteLoaded | compiler/compiler.c:130-195 | Whatever loads begins with the bytes that writing it again produces. |
| ImageFile.CompiledIsWritable | compiler/compiler.c:130-134 | An accepted program's sizes fit the header's fields. |
| ImageFile.FindsFirst | vm/vm.c:580-590 | A query finds the first table entry with its name, after dropping one leading mark. |
| ImageFile.NameFound | vm/vm.c:580-590 | A name is found with an @ or a colon in front, or without if it does not start with one: the first entry of that name. |
| ImageFile.FileFormat | compiler/compiler.c:130-195 | Where everything stands in a written file: magic number, version, the three sizes, code, each line record and each label record. |
| ImageFile.LoadReports | vm/vm.c:443-476 | Every file is loaded or rejected for the first thing wrong with it: short header, other magic number or version, truncated code, line table or label table. |
| ImageFile.LabelsFound | vm/vm.c:580-590 | In the loaded image a query succeeds exactly for the declared labels, and gives the label's address. |
| Vm.Vm.constructor | vm/vm.c:414-419 | A created VM is empty, with next_ref 1. |
| Vm.Vm.Step | vm/vm.c:611-1130 | One call of step takes exactly the specified step: whole new state and return value. |
| Vm.Vm.Run | vm/vm.c:1136-1148 | The loop stops at the first step that is idle or fails, in the state after that many steps, and reports that outcome. |
| Vm.Vm.Execute | vm/vm.c:640-1128 | The switch changes the state as specified for every opcode and reports the specified error. |
| Vm.Vm.ExecuteHeap | vm/vm.c:876-1006 | The same for the heap and span opcodes. |
| Vm.Vm.ExecuteCall | vm/vm.c:648-668 | The same for CALL and the opcodes that leave the VM. |
| Vm.Vm.SetVar | vm/vm.c:175-184 | Assignment updates or creates the variable in the top frame or the globals, and fails, changing nothing, when the table is full. |
| Vm.Vm.EvalOperand | vm/vm.c:186-192 | An operand's value; an unknown variable reads as 0. |
| Vm.Vm.DecodeNext | vm/vm.c:212-238 | Reads one operand at pc and advances pc as specified, also when decoding fails. |
| Vm.Vm.DecodeAll | vm/vm.c:632-636 | Reads all operands of an instruction and advances pc as specified. |
| Vm.Vm.CurrentLineAt | vm/vm.c:248-255 | The scan returns the specified line. |
| Vm.Vm.HeapFind | vm/vm.c:263-268 | The first active slot with that handle, or 512. |
| Vm.Vm.HeapAlloc | vm/vm.c:270-288 | Fills the first free slot with zeroed cells under next_ref and advances next_ref modulo 2^32; fails, changing nothing, when no slot is free. |
| Vm.Vm.WriteCell | vm/vm.c:893-900 | A store changes the addressed cell or reports its error and changes nothing. |
| Vm.Vm.FillSpan | vm/vm.c:929-939 | A fill changes the addressed range or reports its error and changes nothing. |
| Vm.Vm.RenderDirty | vm/vm.c:977-1006 | The opcode emits the specified moves and runs and overwrites the previous span, also when both references name one object. |
| Vm.Vm.BindHandler | vm/vm.c:364-369 | Appends a handler to the event's list, or fails, changing nothing, when the registry is full. |
| Vm.Vm.TriggerEvent | vm/vm.c:371-385 | Queues the event, or fails, changing nothing, when 255 items are queued. |
| Vm.Vm.DispatchNextEvent | vm/vm.c:397-412 | Pops the front item, requeues it if it has handlers left, and enters its next handler if there is one. |
| Vm.Vm.ClearEvents | vm/vm.c:592-601 | Empties registry and queue and changes nothing else. |
| Vm.Vm.LoadFile | vm/vm.c:443-491 | A successful load replaces the image, resets pc and the halt flag and keeps everything else; a failed load changes nothing and reports the specified error. |
| Vm.Vm.LabelAddress | vm/vm.c:580-590 | The address of the label a query names, if any. |
| EventQueue.EventQueue.Push | vm/vm.c:371-395 | The ring buffer is a FIFO: pushing appends, and fails exactly when 255 items are queued. |
| EventQueue.EventQueue.Pop | vm/vm.c:397-402 | Popping removes and returns the oldest item. |
| EventQueue.EventQueue.Rotate | vm/vm.c:397-412 | Pop and requeue, as dispatch does them: the requeue never finds the ring full. |
| EventQueue.EventQueue.Clear | vm/vm.c:592-601 | Clearing empties the queue. |
| Schedule.WorkDrops | vm/vm.c:397-412 | With bindings fixed, each dispatch attempt lowers the sum of max(handlers left, 1) by exactly one. |
| Schedule.DrainIsRoundRobin | vm/vm.c:397-412 | Draining serves one handler of every queued item per round, in queue order, round after round. |
| Schedule.DrainServesAll | vm/vm.c:397-412 | Draining runs every remaining handler of every queued item exactly once. |
| Schedule.EachItemInBindOrder | vm/vm.c:364-369 | However queued items interleave and share handlers, the part of the drained sequence that belongs to one item is exactly its remaining handlers, in bind order. |
| Schedule.BindAppends | vm/vm.c:352-369 | Binding puts the handler behind those the event has and changes no other event; it fails exactly on a new name with 64 events, or when the event has 16 handlers. |
| Schedule.BindStep | vm/vm.c:847-854 | A step that executes EVENT_BIND binds the address or integer in its second operand to the event its first one names, or reports a full registry. |
| Schedule.TriggerStep | vm/vm.c:855-862 | A step that executes EVENT_TRIGGER queues the event, due its first handler, and fails exactly when 255 items are queued. |
| Schedule.BoundHandlersRun | vm/vm.c:352-412 | Handlers bound by one step after another, then a trigger on an empty queue: a quiet run to its end starts at those bound before and then at these, in the order they were bound. |
| Schedule.QuietStep | vm/vm.c:611-616 | Any step other than EVENT_BIND and EVENT_TRIGGER keeps the bindings, and keeps the queue or rotates it if it polls. |
| Schedule.PollStarts | vm/vm.c:397-412 | A step that polls the queue sets pc to the handler the front item is due and runs on, or halts if there is none. |
| Schedule.DrainConserved | vm/vm.c:611-642 | Over any run that binds and triggers nothing, the addresses the VM started running at after its polls, followed by the drain of what is still queued, are the drain of the initial queue, and each poll of a nonempty queue costs one unit of the measure. |
| Schedule.RunEndsExactly | vm/vm.c:611-616 | A step ends the run exactly when the VM is idle and the queue is empty or its front item has no handler left. |
| Schedule.QuietRunServesAll | vm/vm.c:611-616 | If every queued event has a handler and such a run ends, the queue is empty and the addresses the VM started at are exactly the round-robin schedule. |
| Isolation.StepFrames | vm/vm.c:643-654 | Any step on any code changes the top frame's locals, pushes a frame that returns to the next instruction, or pops one and resumes there; with a frame present, globals without a dollar sign keep their values. |
| Isolation.CallIsolated | vm/vm.c:167-184 | From a CALL at depth d to the first later state back at depth d, through nested calls and dispatches, all frames are the caller's, globals without a dollar sign are untouched, and pc is right after the CALL. |
| Isolation.CallEnters | vm/vm.c:648-654 | A step that executes a CALL of an address, below depth 128, ends with pc at that address and one more frame, without locals, that returns to the next instruction; at depth 128 it reports an overflow. Nothing else changes. |
| Isolation.ReturnResumes | vm/vm.c:643-647 | A RETURN resumes at the top frame's return address and drops the frame; without a frame it reports that. |
| Isolation.DecodeFails | vm/vm.c:618-636 | A step that cannot decode its instruction changes pc only, and halts exactly if a single byte is left. |
| Isolation.PutKeepsOthers | vm/vm.c:154-163 | Assigning one variable leaves every other name's value alone. |
| Heap.AllocRefines | vm/vm.c:270-292 | If the count is not negative and a slot is free, allocation advances next_ref, touches no handle but the old next_ref, and makes that one denote zeroed cells unless it was in use; otherwise it fails and changes nothing. |
| Heap.StoreRefines | vm/vm.c:308-319 | A store succeeds exactly on a live handle and an index in range and then changes one cell of one object, modulo 256 in byte spans; otherwise, also for negative indices, nothing changes. |
| Heap.FillRefines | vm/vm.c:294-306 | A fill succeeds exactly when the whole range lies in a live object, and then sets exactly that range. |
| Heap.LoadRefines | vm/vm.c:321-332 | A load succeeds exactly in range, yields the addressed cell, and leaves the heap alone. |
| Heap.ReleaseRefines | vm/vm.c:886-892 | FREE touches no other handle, and makes the named one dead exactly unless two live slots share it. |
| Heap.PinRefines | vm/vm.c:921-928 | SPAN_PIN marks exactly the named object. |
| Heap.RenderDirtyRefines | vm/vm.c:977-1006 | After a dirty render only the previous span has changed: it holds the current frame on its first w * h cells and its old cells beyond. |
| HandleReuse.StepKeepsHandles | vm/vm.c:611-1130 | Any step that does not wrap next_ref keeps handles distinct and below next_ref. |
| HandleReuse.HandlesStayDistinct | vm/vm.c:263-292 | A run whose allocations fit between next_ref and 2^32 keeps handles distinct and below next_ref, which has grown by their number. |
| HandleReuse.HandlesSafe | vm/vm.c:263-292 | From a fresh VM, with fewer than 2^32 - 1 allocations, live handles are pairwise distinct and below next_ref in every state. |
| HandleReuse.DeadStaysDead | vm/vm.c:263-292 | Under the same bound, a handle that was live and is dead is never resolved again, whatever slots are reused. |
| HandleReuse.CellsStayTyped | vm/vm.c:294-319 | On any run, however long, sizes are 32-bit counts and byte spans hold bytes. |
| HandleReuse.MovesExactly | vm/vm.c:270-288 | A step moves next_ref if and only if it is about to allocate: the VM is running, the next instruction is an allocation, its count is not negative and a slot is free. |
| HandleReuse.RevivedExactly | vm/vm.c:263-288 | On any code, however often next_ref wraps: a dead handle is resolved within n steps if and only if they make more allocations than next_ref needs to come round to it. |
| HandleReuse.FreedStaysDead | vm/vm.c:886-892 | A freed handle that no two live slots share is dead, and is resolved again within n steps if and only if they make more allocations than next_ref needs to come round to it. |
| HandleReuse.NoWrapExactly | vm/vm.c:279 | next_ref does not wrap within n steps if and only if it and their allocations add up to less than 2^32. |
| HandleReuse.NextRefCounts | vm/vm.c:279 | next_ref counts the executed allocations modulo 2^32. |
| HandleReuse.DistinctExactly | vm/vm.c:263-288 | Live handles are pairwise distinct in all states of a run if and only if no step is about to allocate a handle that is alive. |
| HandleLoop.FreedHandleComesBack | vm/vm.c:279 | In a compiled loop of ALLOC and FREE, handle 2 is live after two steps, dead after three, and live again 2^32 rounds later. |
| HandleLoop.LiveObjectsShareHandle | vm/vm.c:279 | In the same run two live objects, in slots 0 and 1, both have handle 1 once next_ref has come round. |
| HandleReuse.StepAlive | vm/vm.c:611-1130 | Any step moves next_ref by at most one, brings at most the old next_ref to life, which it does exactly when it moves, keeps live handles distinct exactly unless the old next_ref was alive when it moved, and keeps cells to their types. |
| Capacity.RunFits | vm/vm.c:154-163 | On any code, from a fresh VM, stack, tables, frames, registry and queue stay within their arrays, no table holds a name twice, and every registered event has a handler. |
| Capacity.StepFits | vm/vm.c:611-1130 | One step keeps all of that. |
| Screen.RenderDirty | vm/vm.c:977-1006 | The in-place dirty renderer emits the specified moves and runs and leaves previous equal to current on the first w * h cells and unchanged beyond. |
| Screen.RenderRow | vm/vm.c:989-1002 | One row's loop emits that row's runs and copies exactly that row. |
| Screen.RenderFull | vm/vm.c:962-976 | The full renderer emits one move and one run per row. |
| Screen.RunsExact | vm/vm.c:991-1002 | Runs are ordered, nonempty and maximal, and a cell is written exactly when it differs. |
| Screen.DirtyReplay | vm/vm.c:977-1006 | Replayed on a terminal, the dirty renderer's output sets exactly the differing cells and leaves every other cell alone. |
| Screen.FullReplay | vm/vm.c:962-976 | The full renderer's output sets exactly the cells of the area. |
| Screen.DirtyEqualsFull | vm/vm.c:962-1006 | Dirty and full rendering leave the same screen if and only if the terminal already showed the unchanged cells. |
| Screen.RenderersDiffer | vm/vm.c:991-1002 | On a terminal that does not show an unchanged cell, dirty rendering leaves it and full rendering writes it. |
| Screen.DirtyShowsCurrent | vm/vm.c:977-1006 | On a terminal that shows previous, dirty rendering shows current, cell for cell what full rendering leaves. |
| Screen.AnimationShowsLast | vm/vm.c:977-1006 | On a terminal that shows previous, any sequence of frames rendered into the same previous buffer leaves the last frame on the screen, cell for cell what one full rendering of it leaves. |
| Screen.AreaIsProduct | vm/vm.c:983 | The number of cells of a frame is width times height. |
| Debugger.Debugger.Continue | debugger/debugger.c:39-50 | Continue stops exactly at the first step, after at least one, that ends the run or reaches a breakpoint, in the run's state there. |
| Debugger.Debugger.Step | debugger/debugger.c:31-37 | Step takes one step of the run and pauses exactly on a breakpoint. |
| Debugger.Debugger.IsBreakpoint | debugger/debugger.c:23-29 | The search answers whether the 32-bit pc is a breakpoint. |
| Debugger.Debugger.AddBreakpoint | debugger/debugger.c:11-15 | Adds a breakpoint unless 128 are set. |
| Debugger.Debugger.AddLabelBreakpoint | debugger/debugger.c:17-21 | Adds a breakpoint at the address of the named label, if there is one and there is room. |
| Debugger.SessionFollowsRun | debugger/debugger.c:31-50 | For a run that ends: the states visited by any session of step and continue commands, with breakpoints changing in between, form a prefix of the run's states if and only if no command follows one that reported the end; the last command then reports the end exactly if the whole run has been visited. |
| Debugger.SessionPastEnd | debugger/debugger.c:31-37 | A session that goes on after the end and visits a state that the run does not. |
| Debugger.ContinueTerminates | debugger/debugger.c:39-50 | If the run ends, every continue command stops, no later than the run's end. |
| Debugger.CommandStaysInRun | debugger/debugger.c:31-50 | A command given before the run's end stays in the run, and reports the end exactly when it has reached it; otherwise the rest of the run starts where it stopped. |
| Debugger.ContinueToEnd | debugger/debugger.c:39-50 | Repeating continue is a session that visits exactly the run's states and reports the run's outcome last, whatever the breakpoints. |
| Preprocessor.Preprocess | parser/parser.c:137-244 | The loop with its array of 64 frames computes the specified result. |
| Preprocessor.ProcessIsTreeSemantics | parser/parser.c:137-244 | For any lines, the loop succeeds exactly if conditionals are balanced and nested at most 64 deep, and then the lines are the text of a tree whose meaning is the result: in each group exactly the first branch whose condition holds takes effect. |
| Preprocessor.IfRuns | parser/parser.c:191-196 | A group with one branch is processed as its body if its condition is true and as nothing otherwise: #ifdef, defined(n) and a bare name are true if some macro in the list has the name, a bare text also if it is a nonzero number, #ifndef if no macro has the name. |
| Preprocessor.FirstTrueRuns | parser/parser.c:191-196 | Of #if, #elif and #else branches the first whose condition is true is processed, and no other. |
| Preprocessor.LeavesTakeEffect | parser/parser.c:56-57 | #define puts a definition in front of those the name has, #undef takes the newest away, a line of text is emitted with the definitions in force. |
| Preprocessor.DefinedAfter | parser/parser.c:164-192 | A name is defined after its #define, and after its #undef if and only if it had two definitions. |
| Preprocessor.DefinedExactly | parser/parser.c:56 | The lookup finds a name exactly if a macro in the list has it, and finds the newest definition. |
| Preprocessor.ErrorsReported | parser/parser.c:191-196 | A #elif, #else or #endif where no group is open, a 65th open group and an open group at the end are reported as what they are. |
| Preprocessor.TextDeterminesResult | parser/parser.c:192-196 | The text of any tree within the depth limit is processed to its meaning. |
| Preprocessor.TextDeterminesTree | parser/parser.c:192-196 | Lines are the text of at most one tree. |
| Preprocessor.FoldForest | parser/parser.c:192-196 | In the middle of any nesting, a balanced stretch of lines keeps the frames and takes effect exactly in an active region. |
| Preprocessor.FoldAlts | parser/parser.c:195-196 | Later branches run exactly if the group is in an active region and no earlier branch was taken. |
| Preprocessor.FindMacro | parser/parser.c:56 | The newest definition of that name. |
| Lexer.LexUndoesPrint | lexer/lexer.c:32-150 | Printing the tokens of any successfully lexed line, separated by spaces, and lexing again gives the same kinds and texts, if and only if no string holds a NUL; a string that does is cut there. |
| Lexer.NulIsLost | lexer/lexer.c:65-74 | The line "\\0" in quotes lexes to a string that holds a NUL; printed and lexed again it is the empty string. |
| Lexer.ColumnsPoint | lexer/lexer.c:38 | Every token has a column, columns increase, and lexing from a token's column gives that token. |
| Lexer.LexedValid | lexer/lexer.c:32-150 | Every token of a line has one of the listed shapes. |
| Lexer.NextPrinted | lexer/lexer.c:38-145 | A token of such a shape, printed and followed by a space or the end, is lexed as itself and nothing more. |
| Lexer.ReadEscaped | lexer/lexer.c:51-86 | A stringized text of at most 4094 bytes is read back exactly, up to its closing quote. |
| Lexer.EscapeRead | lexer/lexer.c:54-79 | The escapes n, t, r, e, x with two hexadecimal digits, one to three octal digits, and any other character are read as the byte they spell, up to 4094 bytes. |
| Lexer.WordKinds | lexer/lexer.c:130-142 | Digits with at most one dot and 0x with hexadecimal digits are numbers; words that start with neither digit nor minus, hold an @ or hold any other character are identifiers. |
| Lexer.CommentEnds | lexer/lexer.c:36-37 | A semicolon or two slashes end a line; white space and commas separate tokens. |
| Lexer.LexLine | lexer/lexer.c:32-150 | The lexer's loop computes the specified tokens and columns or the specified error. |
| Lexer.Scan | lexer/lexer.c:36-147 | One turn of the loop takes the specified branch. |
| Lexer.ScanString | lexer/lexer.c:51-84 | The string loop fills its buffer with the specified bytes, and fails on a 4095th byte or a missing quote. |
| Lexer.ScanEscape | lexer/lexer.c:54-75 | One escape sequence, including hexadecimal and up to three octal digits. |
| Lexer.ScanSigned | lexer/lexer.c:102-113 | The extent of a signed number. |
| Lexer.Classify | lexer/lexer.c:130-142 | The scan over a word decides between number and identifier as specified. |
| Lexer.Stringize | parser/parser.c:63 | The loop quotes the text up to its first NUL, with quotes and backslashes escaped. |
| SplitArgs.SplitUndoesJoin | parser/parser.c:61 | Splitting a comma-joined list gives the list back if and only if every argument is nonempty, trimmed, without NUL or bare comma, and all but the last close their quotes and parentheses. |
| SplitArgs.SplitSeparable | parser/parser.c:61 | Whatever the text, the resulting arguments are of that form. |
| SplitArgs.ExtentExactly | parser/parser.c:61 | An argument ends at the first comma that has an even number of quotes before it and no stretch before it that opens more parentheses than it closes, or where the text ends. |
| SplitArgs.SeparableExactly | parser/parser.c:61 | The condition for joining and splitting, said of characters, quotes and parentheses. |
| SplitArgs.SplitTwice | parser/parser.c:61 | Joining and splitting again never changes arguments that came from a text. |
| SplitArgs.SplitArgs | parser/parser.c:61 | The pointer walk computes the specified arguments. |
| SplitArgs.ScanArgument | parser/parser.c:61 | The inner loop stops at the first comma outside quotes and parentheses. |
| SplitArgs.TrimEnd | parser/parser.c:16 | Trailing white space is dropped. |

## Left out

- Vm.Vm.Run: takes a bound on the number of steps, because runs need not end; it says what the loop has done when the bound is used up.
- Debugger.Debugger.Continue: takes the same bound; `Debugger.ContinueTerminates` says when none is needed.
- Preprocessor.Preprocess: lines are given by their kind; splitting text into lines, comments, `#include`, `#error`, `#line`, `#pragma once`, `macro` blocks and the expansion of an emitted line are not modelled, an emitted line carries the macros that apply to it instead.
- Vm.Vm.EvalOperand: operands are evaluated before the switch instead of inside its branches, which no opcode can tell apart.
- Vm.Vm.RenderDirty: an object's cells are a sequence; they are put into arrays for the renderer and taken back after it.
- Float arithmetic, float comparison, integer arithmetic whose exact result does not fit 32 bits (undefined in C), bitwise operators, shifts, `atoi`, `atof` and number formatting are functions of `Machine.Host`, about which nothing is assumed.
- A destination operand without a text makes the C code compare a null name with the names in the table. If the table is empty a variable with an empty name is created, as in the model; otherwise the comparison is undefined and the model reports NullName (`Correctness.NamesNeverMissing` says when it cannot occur).
- Native functions and host modules (CALL_NATIVE, named CALL, WAIT, FILE_READ, FILE_WRITE, INPUT, ENTITY_SPAWN) are an oracle indexed by the number of calls so far; they return a value or fail and do not call back into the VM.
- Memory allocation never fails, and nothing is freed; files open and write successfully.
- Console output is a list of events; console range errors share one message. Framebuffer bytes are taken to be printable.
- The parser behind the lexer (tokens to statements, assignments, name and number lookup in the opcode table), the macro expander and `replace_all`.
- The search for an opcode by name or number; which row of the opcode table it finds is left open.
- The host-side calls (set and get variables, register and unregister functions, dump state), the trace flag, and binding events from the host.
- Call stack, variable tables, value stack and event registry are sequences bounded by the C array sizes, not arrays.
- `compiler/scmr.c`, the runtime modules, graphics, editor and hot reload.
