# A model of the emulator's caches and protocols

The emulator keeps several fast mechanisms that have to agree with simple ones: a software TLB with a page walk, arithmetic
flags that are worked out on demand, a cache of decoded instructions, a block cache under a sector protocol. It also contains
small machines whose behaviour only shows over whole runs: two kinds of interrupt controller, a keyboard controller. This
project models them in Dafny and proves that the fast ones agree with the simple ones, and what the machines keep over every
run.

Each module holds a specification on values (functions, and lemmas about whole runs) and, where the source changes state in
place, a class with the source's fields and arrays whose methods are proved to follow the specification step by step.

- `Words`, `Paging`, `TlbTables`, `Coherence`, `Access`, `Mmu`: the page walk with the Accessed and Dirty bits that it writes
  into the memory it walks, the TLB with its list of live entries, all events that change either, and memory accesses through
  it. The specification of an access is the access without a TLB.
- `Eflags`, `LazyFlags`, `Rotate`: an eager flag register, and the machine that stores operands and results instead.
- `Apic`, `Pic`: interrupt controllers.
- `Drives`, `Ide`: the block drivers, which refine a flat sequence of bytes, and PIO transfers on top of them.
- `Trace`, `Decoder`: the cache of decoded runs, and instruction lengths.
- `State`, `Iret`, `Kbd`: the save-state format, a real-mode interrupt and its return, and the keyboard controller's output.

Where the code does not do what its design asks for, the model follows the code, a lemma gives the exact condition under
which it does, and another one an input that fails:

- an entry stays granted after EFER.NXE is turned off under its page: `Coherence.EferWriteFreshness`, `Coherence.StaleNoExecute`;
- the PF setter corrects a parity that is already corrected: `LazyFlags.Alu.SetPf`, `LazyFlags.Alu.LoadThenSetPf`;
- the APIC's line stays up when the task priority rises: `Apic.TaskPriorityRespected`, `Apic.MaskedDelivery`;
- the PIC leaves requests behind with its line down: `Pic.LeftBehindExactly`, `Pic.RequestLeftBehind`, `Pic.CommandsLeaveBehind`,
  and its slave may ask for less than its highest request: `Pic.SlaveLeftBehindExactly`, `Pic.SlaveCommandLeavesBehind`;
- a disk write cancelled between its passes is torn: `Drives.CancelledWrite`, `Drives.TornWrite`;
- the IDE address registers wrap at their limit: `Ide.RoundTrip`, `Ide.LimitWraps`;
- a PIO access that runs past its sector reads stale bytes, or stores bytes into the wrong sector, if the drive answers later:
  `Ide.StraddlingRead` and `Ide.StaleRead`, `Ide.StraddlingWrite` and `Ide.LateStraddle`;
- the first lookup of address 0 in state 0 aborts: `Trace.TraceCache.GetTrace`, `Trace.TraceCache.FirstLookup`;
- the decoder's length check does not see the first prefix: `Decoder.CheckAdmitsSixteen`, `Decoder.CheckMiscounts`;
- AUX tells of the queued byte, or of the enabled port, instead of the latched byte: `Kbd.RefillTruthful`, `Kbd.AddTruthful`,
  `Kbd.EnableTruthful`, `Kbd.WrongAux`;
- the 256th byte empties a keyboard queue: `Kbd.AdditionKeepsExactly`, `Kbd.QueueOverruns`.

## Model

| member | source | states |
|---|---|---|
| Paging.TwoLevelWalk | src/cpu/mmu.cpp:92-145 | Exactly when a walk of two-level tables succeeds, on the bits of the words at CR3 and behind: both entries present, both for users if the access is a user's, both writable for a write unless a supervisor writes with WP clear, and no permission at all for a 4 MB page; the frame, the global bit and the entries to mark, and the fault code's protection bit exactly if both entries are present |
| Paging.ThreeLevelWalk | src/cpu/mmu.cpp:148-232 | The same for PAE tables: the pointer entry and what Paging.DirectoryAnswers states of the words behind it, each entry tested on its own, reserved bits of the upper halves, 2 MB pages, the no-execute bit of the directory entry, and all bits of the fault code |
| Paging.NoPaging | src/cpu/mmu.cpp:83-85 | Without paging a walk maps every page to itself |
| Paging.ReservedBits | src/cpu/mmu.cpp:153-172 | The test of an upper half is that of its bits 4 to 31, less bit 31 with NX enabled |
| Paging.MarksExactly | src/cpu/mmu.cpp:102-137 | A walk sets the Accessed bits of its entries in RAM, the Dirty bit of the last one for a write, and nothing else |
| Words.EntryBits | src/cpu/mmu.cpp:95-137 | The bits of an entry by their places in its number |
| Words.BytesOfNumber | src/cpu/access.cpp:93-142 | The bytes of a word are those of its number, the lowest first |
| Paging.WalkDependsOnFootprint | src/cpu/mmu.cpp:80-232 | A walk depends only on the words that it reads, without the second-level word if the directory entry is not present or maps a large page, and not on their Accessed and Dirty bits |
| Paging.MarksChangeNoWalk | src/cpu/mmu.cpp:92-137 | The Accessed and Dirty bits that one translation writes change the walk of no page for no class, even where tables map or contain themselves |
| Paging.MarkedTwice | src/cpu/mmu.cpp:117-137 | Marking the same entries again writes nothing |
| Paging.WalkMonotone | src/cpu/mmu.cpp:80-232 | A walk that succeeds for a class succeeds with the same answer for every class below it in the (user, write) order, for data and code alike |
| TlbTables.FilledValid | src/cpu/mmu.cpp:36-65 | After a fill every live entry is among the first count slots of the list, and the count is at most 8192, duplicates included |
| TlbTables.FlushEmpties | src/cpu/mmu.cpp:8-20 | A full flush leaves no live entry, although it visits listed entries only |
| TlbTables.NonglobalFlushKeepsGlobals | src/cpu/mmu.cpp:21-35 | A non-global flush clears every local entry and leaves every global one as it was |
| TlbTables.InvalidatedValid | src/cpu/mmu.cpp:233-238 | Dropping one page keeps the list complete, tombstones included |
| TlbTables.GateBits | src/cpu/mmu.cpp:38-40 | The A20 gate takes bit 20 out of a physical address, and the megabyte below 4 GB is the first one |
| Coherence.StepCoherent | src/cpu/mmu.cpp:36-238 | Every event (translation, INVLPG, CR0, CR3, CR4, EFER and A20 writes, code marks, stores) keeps all entries coherent with the walks that filled them |
| Coherence.RunKeepsCoherence | src/cpu/prot.cpp:6-27 | Coherence is kept by every sequence of events |
| Coherence.EveryGrantIsAWalk | src/cpu/mmu.cpp:36-232 | Over every run from reset: an entry grants exactly the classes at or below its filling class, and for each a walk of the filling memory under the filling controls succeeds with the entry's physical page; CR0, CR4 and A20 are unchanged since, and CR3 is unless the entry is global |
| Coherence.GrantsAreFresh | src/cpu/mmu.cpp:36-232 | Over every run without stores and EFER writes: a granted class, of a global entry as long as CR3 is unchanged, walks successfully now, to the same page, and marks nothing |
| Coherence.FlushesAreComplete | src/cpu/mmu.cpp:8-35 | Over every run from reset: the list never overflows, a flush leaves nothing, a non-global flush leaves the global entries and nothing else |
| Coherence.TranslateTwice | src/cpu/mmu.cpp:80-232 | Repeating a translation gives the same answer, writes no memory and leaves the same entry |
| Coherence.TranslationDelivers | src/cpu/mmu.cpp:80-232 | A successful translation leaves an entry that grants the classes at or below its own (all without paging), leads to the walked frame and keeps writes to code slow; a page fault leaves its address in CR2 and nothing else |
| Coherence.PageEvents | src/cpu/mmu.cpp:233-238 | INVLPG leaves nothing granted on its page, new code leaves no fast write there; nothing else changes |
| Coherence.Cr0Numbers | src/cpu/prot.cpp:10-14 | PE, WP and PG by their places in CR0 |
| Coherence.Cr4Numbers | src/cpu/prot.cpp:22-24 | PSE, PAE, PGE, PCIDE and SMEP by their places in CR4 |
| Coherence.EferWriteFreshness | src/cpu/misc.cpp:209-211 | EFER writes do not flush: a granted class still walks to the entry's page exactly if NXE stays on or the entry's page carries no no-execute bit |
| Coherence.StaleNoExecute | src/cpu/misc.cpp:209-211 | A read of a no-execute page from reset and EFER.NXE turned off: the class is granted and a walk faults |
| Access.ReadInvisible | src/cpu/access.cpp:7-23 | On a coherent machine, if the byte's page is current (its entry's controls and the words that its walk reads are those of its fill, marks aside; data stores, into large pages too, leave it current), a byte read through the TLB is the byte read by walking, and marks the same memory |
| Access.WriteInvisible | src/cpu/access.cpp:74-92 | The same for a byte write: coherent machine, current page |
| Access.ReadBytesInvisible | src/cpu/access.cpp:24-35 | On a coherent machine on which the pages of the bytes themselves are current, reads of any size and alignment, across pages, whatever flushes their own translations cause, are the bytes that walking for each in turn gives; all bytes are translated, and the value is left out if one of them is a device's |
| Access.ReadWideInvisible | src/cpu/access.cpp:24-73 | 16- and 32-bit reads are the little-endian composition of walked byte reads, on a coherent machine on which the pages of their bytes are current |
| Access.WriteBytesInvisible | src/cpu/access.cpp:93-101 | On a coherent machine unaligned writes across pages leave the memory that walking for each byte leaves, if each byte's page is current when its turn comes |
| Access.WriteAlignedInvisible | src/cpu/access.cpp:93-142 | On a coherent machine with a current page, aligned writes store to the walked frame, or reach the device layer, or fault as the walk does |
| Access.AlignedWriteInvisible | src/cpu/access.cpp:93-142 | There they leave the memory that walking for each of their bytes leaves, unless the word written is one of the tables walked |
| Access.WriteWideInvisible | src/cpu/access.cpp:93-142 | 16- and 32-bit writes, aligned or not, across pages, leave the memory that walking for each byte in turn leaves, and fault where it does, if before them the machine is coherent, the pages of their bytes are current and no word to be written is one of their tables |
| Access.StoreWideIsBytes | src/cpu/access.cpp:112-142 | Storing two or four bytes at once is storing them one by one, lowest first |
| Access.LoadsItsAddress | src/cpu/access.cpp:7-23 | A byte load gives the byte of memory at its place in the frame |
| Access.StoresItsAddress | src/cpu/access.cpp:74-92 | A byte store changes that byte of memory and no other |
| Access.FrameIsRam | src/cpu/access.cpp:16-21 | The frames that accesses read from RAM are those whose words the walk reads from RAM |
| Access.FaultsReportAddress | src/cpu/mmu.cpp:138-146 | A byte access that faults leaves its address in CR2, if it is a page fault, and changes nothing else |
| Access.FastReadIsSlowRead | src/cpu/access.cpp:161-214 | With the slow bit of a class clear the direct load gives what the slow path gives, and changes nothing else: of a byte at any address, and of two or four aligned bytes |
| Access.FastWriteIsSlowWrite | src/cpu/access.cpp:74-142 | With the slow bit clear the direct store, of a byte at any address and of aligned bytes, leaves the memory that the slow path leaves |
| Mmu.Mmu.Flush | src/cpu/mmu.cpp:8-20 | The loop over the list clears what the specification clears |
| Mmu.Mmu.FlushNonglobal | src/cpu/mmu.cpp:21-35 | The loop clears the local entries and keeps their list slots as the source does |
| Mmu.Mmu.SetEntry | src/cpu/mmu.cpp:36-65 | A fill, with the flush of a full list, in place |
| Mmu.Mmu.Translate | src/cpu/mmu.cpp:80-232 | cpu_mmu_translate in place: entries read once, tested, marked and installed, equals the walk, its marks and the fill |
| Mmu.Mmu.Invalidate | src/cpu/mmu.cpp:233-238 | Drops exactly the page of an address |
| Mmu.Mmu.WriteCr0 | src/cpu/prot.cpp:10-14 | Flushes exactly if PG, PE or WP changes |
| Mmu.Mmu.WriteCr3 | src/cpu/prot.cpp:15-21 | Flushes all, or the local entries if CR4.PGE is set |
| Mmu.Mmu.WriteCr4 | src/cpu/prot.cpp:22-24 | Flushes exactly if one of the listed bits changes |
| Mmu.Mmu.WriteA20 | src/cpu/cpu.cpp:18-24 | Flushes exactly if the mask changes |
| Mmu.Mmu.AccessRead8 | src/cpu/access.cpp:7-23 | The slow byte read in place |
| Mmu.Mmu.AccessReadBytes | src/cpu/access.cpp:24-35 | The byte loop of unaligned reads in place |
| Mmu.Mmu.AccessRead | src/cpu/access.cpp:23-73 | The slow 16- and 32-bit reads in place, aligned or not |
| Mmu.Mmu.AccessWrite8 | src/cpu/access.cpp:74-92 | The slow byte write in place |
| Mmu.Mmu.AccessWriteBytes | src/cpu/access.cpp:93-101 | The byte loop of unaligned writes in place |
| Mmu.Mmu.AccessWriteAligned | src/cpu/access.cpp:102-142 | The slow aligned writes in place |
| Mmu.Mmu.AccessWrite | src/cpu/access.cpp:93-142 | The slow 16- and 32-bit writes in place, aligned or not |
| Mmu.Mmu.ReadByte | src/cpu/access.cpp:161-178 | A byte read by the fast or the slow path, at any address, does what the slow path does; if the page is current it returns the walked byte and leaves the walked memory |
| Mmu.Mmu.Read | src/cpu/access.cpp:179-214 | 16- and 32-bit reads by the fast or the slow path do what the slow path does; if the pages of their bytes are current they return the walked bytes and leave the walked memory |
| Mmu.Mmu.WriteByte | src/cpu/ctrlflow.cpp:153-160 | A byte write by the fast or the slow path, at any address, does what the slow path does, and what walking does if the page is current |
| Mmu.Mmu.Write | src/cpu/ctrlflow.cpp:164-174 | 16- and 32-bit writes by the fast or the slow path do what the slow path does; if the pages of their bytes are current and no word to be written is one of their tables they leave what walking for each byte leaves |
| Eflags.ConditionsAfterCompare | src/cpu/eflags.cpp:250-280 | After a SUB-class operation of any width the conditions mean overflow, unsigned less, equal, unsigned less or equal, sign, parity, signed less, signed less or equal |
| Eflags.OddConditionsNegate | src/cpu/eflags.cpp:250-280 | Odd condition numbers negate the even ones |
| Eflags.FlagsByCondition | src/cpu/eflags.cpp:111-238 | Setting a flag changes the condition that reads it and no other |
| Eflags.BitwiseBits | src/cpu/arith.cpp:6-131 | Each bit of OR, AND and XOR is the or, the and, the exclusive or of the operands' bits |
| Eflags.BitwiseSums | src/cpu/arith.cpp:6-131 | OR and AND add up to the operands, so do XOR and twice AND, and AND is at most either |
| Eflags.AdjustIntoBit4 | src/cpu/eflags.cpp:119-152 | AF is what bit 4 of a sum or difference has beside the bits of the operands |
| Eflags.LongAddition | src/cpu/arith.cpp:6-131 | ADD and ADC over two limbs give the sum, carry, sign and overflow of numbers twice as wide |
| Eflags.LongSubtraction | src/cpu/arith.cpp:6-131 | SUB and SBB over two limbs give the difference, and below and less of numbers twice as wide |
| Eflags.DecUndoesInc | src/cpu/arith.cpp:673-720 | DEC undoes INC, and neither changes CF |
| Eflags.NegUndoesNeg | src/cpu/arith.cpp:592-602 | NEG undoes NEG, and CF tells whether the operand was not 0 |
| Eflags.Exchanges | src/cpu/arith.cpp:763-816 | CMPXCHG stores its source exactly if it leaves ZF set, and else loads its destination; XADD exchanges and adds |
| LazyFlags.AddFormulas | src/cpu/eflags.cpp:38-46 | The formulas for OF, CF and AF after ADD, which recover the first operand, give the flags of the sum |
| LazyFlags.SubFormulas | src/cpu/eflags.cpp:47-55 | The same after SUB and CMP |
| LazyFlags.AdcFormulas | src/cpu/eflags.cpp:56-61 | The same after ADC, with either carry in |
| LazyFlags.SbbFormulas | src/cpu/eflags.cpp:62-67 | The same after SBB |
| LazyFlags.FoldedParity | src/cpu/eflags.cpp:14-20 | Folding a byte onto four bits and a look-up in 0x9669 gives its parity |
| LazyFlags.MulFormulas | src/cpu/arith.cpp:733-762 | Comparing the halves of a product tells whether it fits |
| LazyFlags.Alu.GetPf | src/cpu/eflags.cpp:14-20 | The parity flag, with its correction in bit 7 of m_laux |
| LazyFlags.Alu.Cond | src/cpu/eflags.cpp:250-280 | A condition tested on the lazy state is the condition of the visible flags |
| LazyFlags.Alu.AddTo | src/cpu/arith.cpp:6-131 | ADD leaves the eager result and flags visible |
| LazyFlags.Alu.AddWithCarry | src/cpu/arith.cpp:6-131 | ADC, reading the lazy carry first |
| LazyFlags.Alu.SubWithBorrow | src/cpu/arith.cpp:6-131 | SBB, reading the lazy carry first |
| LazyFlags.Alu.SubFrom | src/cpu/arith.cpp:6-131 | SUB and CMP |
| LazyFlags.Alu.Logic | src/cpu/arith.cpp:6-131 | OR, AND and XOR, bit by bit, clear CF, OF and AF |
| LazyFlags.Alu.Increment | src/cpu/arith.cpp:673-696 | INC keeps the carry that was visible before it |
| LazyFlags.Alu.Decrement | src/cpu/arith.cpp:697-720 | DEC keeps the carry that was visible before it |
| LazyFlags.Alu.MultiplyBy | src/cpu/arith.cpp:406-465 | Multiplications give both halves of the product, and set CF and OF exactly if it does not fit the lower one |
| LazyFlags.Alu.Materialize | src/cpu/eflags.cpp:25-30 | cpu_get_oac changes no visible flag |
| LazyFlags.Alu.Load | src/cpu/eflags.cpp:281-298 | cpu_get_eflags after cpu_set_eflags returns the writable bits written and the others as they were |
| LazyFlags.Alu.Set | src/cpu/eflags.cpp:10-238 | Each flag setter but that of PF changes its own flag and no other |
| LazyFlags.Alu.SetPf | src/cpu/eflags.cpp:21-24 | The PF setter works exactly if bit 7 of m_laux is clear before it, and changes no other flag |
| LazyFlags.Alu.LoadThenSetPf | src/cpu/eflags.cpp:281-298 | After a load of EFLAGS the PF setter works exactly if ZF and PF were loaded alike |
| LazyFlags.Alu.Run | src/cpu/arith.cpp:6-131 | Every program of arithmetic instructions, flag setters and EFLAGS loads shows the flags and writes the values of the eager machine |
| Rotate.CountsAreSteps | src/cpu/arith.cpp:162-185 | RCL and RCR by any count are that many single rotations of CF and the operand, at 8, 16 and 32 bits |
| Rotate.RcrUndoesRcl | src/cpu/arith.cpp:162-185 | RCR by a count undoes RCL by it, for the operand and CF |
| Rotate.RotateCarryLeft | src/cpu/arith.cpp:341-355 | RCL on the lazy machine: CF, OF and no other flag |
| Rotate.RotateCarryRight | src/cpu/arith.cpp:356-370 | RCR on the lazy machine |
| Apic.RunInvariant | src/apic.cpp:124-193 | Over every run from reset the open vectors are those in service, each delivered above all that were open |
| Apic.StepInvariant | src/apic.cpp:124-193 | Every event keeps requests noticed and services nested |
| Apic.DeliveriesNest | src/apic.cpp:146-159 | Over every run a delivered vector is above every vector in service |
| Apic.LastInFirstOut | src/apic.cpp:320-330 | Over every run EOI retires the vector delivered last, and nothing if none is open |
| Apic.NoLostRequest | src/apic.cpp:124-145 | Over every run the line is up whenever the highest request beats the highest service and the task priority class |
| Apic.MessageRequests | src/apic.cpp:164-193 | A message of any kind and trigger mode requests its vector, in every state, and no other, and touches no service; a vector not requested before takes the trigger mode; vectors below 16 and 255 are reported; and the line goes up exactly if the new request is due |
| Apic.RequestsAreMessages | src/apic.cpp:146-193 | Over every run the requests are the vectors sent and not delivered since |
| Apic.DeliveredWasSent | src/apic.cpp:146-159 | Over every run a delivered vector was sent, and not delivered since; only an acknowledgement delivers |
| Apic.ProcessorPriority | src/apic.cpp:305-319 | The processor priority is the task priority or the class of the highest service, whichever is higher, until the line is raised |
| Apic.TaskPriorityRespected | src/apic.cpp:305-319 | A task priority write keeps deliveries above the new priority exactly if the line is down or the priority stays below the highest request |
| Apic.MaskedDelivery | src/apic.cpp:305-319 | A request, and a task priority raised to its class or above: the vector is delivered all the same |
| Apic.LineRespectsTaskPriority | src/apic.cpp:124-145 | No other event puts the line up for a masked request |
| Apic.HighestSetBit | src/apic.cpp:105-116 | The loop over eight words finds the highest vector, or -1 |
| Apic.Chip.ReceiveBusMessage | src/apic.cpp:164-193 | Requests in place, invalid vectors reported and still accepted |
| Apic.Chip.GetInterrupt | src/apic.cpp:146-159 | Delivery in place |
| Apic.Chip.WriteTaskPriority | src/apic.cpp:305-319 | The task priority register in place |
| Apic.Chip.WriteEoi | src/apic.cpp:320-330 | EOI in place, and which vectors are told to the IOAPIC |
| Pic.RanksModuloEight | src/pic.cpp:105-148 | Places and inputs are each other's, modulo 8 from the base |
| Pic.RolOrders | src/pic.cpp:38-42 | Bit i of a rotated register is input (base + 1 + i) mod 8 |
| Pic.ChoiceIsHighest | src/pic.cpp:105-148 | The scan sends the highest unmasked request that no equal or higher service blocks, in both mask modes, and nothing exactly if there is none |
| Pic.StepReady | src/pic.cpp:105-201 | Every step of both chips with special mask mode off, and with priorities changed on an idle chip only, keeps what the line and the cascade stand for deliverable |
| Pic.ServicesNest | src/pic.cpp:149-166 | Over every run without special mask mode that changes priorities only on an idle chip, nothing enters service on either chip under an equal or higher service |
| Pic.LeftBehindExactly | src/pic.cpp:149-315 | The exact steps, in every mode, after which a due request waits, the line being down or up for a lower one, when none has waited before: among acknowledgements, commands that turn special mask mode on or set the priorities, and initializations of the slave |
| Pic.RequestLeftBehind | src/pic.cpp:149-174 | From power-on, with automatic ends of interrupt: inputs 0 and 1 raised, one acknowledgement, and input 1 waits with the line down |
| Pic.CommandsLeaveBehind | src/pic.cpp:255-293 | From power-on, input 1 in service and input 3 requested behind it: special mask mode turned on, or input 1 made the lowest, and input 3 waits with the line down |
| Pic.NoRequestWaits | src/pic.cpp:105-201 | Over every run without such steps, in every mode, the line is up whenever the master has something to send, for the highest input |
| Pic.VectorNamesInput | src/pic.cpp:149-174 | The vector is the offset plus the input whose request an acknowledgement takes, on the slave exactly if the master's input 2 is taken; where nothing is taken it is that of input 7 and nothing enters service |
| Pic.OneLeaves | src/pic.cpp:149-166 | The request taken leaves alone, and enters service unless its end is automatic; only then may the order rotate to it |
| Pic.HighestIsTaken | src/pic.cpp:105-174 | Over every run without steps that leave a request behind, the request taken of the master is the highest that can be sent |
| Pic.SlaveLeftBehindExactly | src/pic.cpp:105-315 | The exact steps, in every mode, after which the slave asks through input 2 for less than its highest: commands at it, without an end of interrupt, that turn special mask mode on or set the priorities |
| Pic.SlaveCommandLeavesBehind | src/pic.cpp:274-281 | From power-on, the slave's inputs 1 and 3 requested: input 1 made the lowest, and it is taken before input 3 |
| Pic.HighestOfSlaveIsTaken | src/pic.cpp:105-174 | Over every run without those steps the request taken of the slave is the highest that it can send |
| Pic.EdgesExactly | src/pic.cpp:175-201 | Only edges make requests, and a request is withdrawn with its input; no other request changes but the master's input 2 |
| Pic.CascadeFollows | src/pic.cpp:105-201 | Exactly when the slave raises and drops the master's input 2 |
| Pic.EndsRetire | src/pic.cpp:202-281 | An end of interrupt retires the highest service or the one named, and no other; a rotation makes the input named the lowest |
| Pic.OrdersSet | src/pic.cpp:274-281 | OCW2 without an end of interrupt sets the order, or the rotation on automatic ends, and nothing else |
| Pic.CommandFields | src/pic.cpp:221-281 | Commands name inputs by their low three bits, and offsets are multiples of 8 |
| Pic.InitializationLeaves | src/pic.cpp:221-254 | The two to four words of an initialization leave an idle, unmasked controller, input 0 the highest, with the offset and the mode of ends that they give |
| Pic.Pair.InternalUpdate | src/pic.cpp:105-148 | The scan in place; the recursion from slave to master ends |
| Pic.Pair.GetInterrupt | src/pic.cpp:149-174 | Acknowledgement in place, with the cascade and the spurious vector |
| Pic.Pair.RaiseIrq | src/pic.cpp:175-196 | Edges in place |
| Pic.Pair.LowerIrq | src/pic.cpp:184-201 | Lowered inputs in place, with the cascade |
| Pic.Pair.WriteByte | src/pic.cpp:221-315 | Initialization and operation command words in place |
| Drives.PiecesTile | src/drive.cpp:153-186 | The pieces of a request tile it, each inside one block, and are as many as the source counts |
| Drives.TwoPassWrite | src/drive.cpp:232-291 | A write in two passes, whatever the first applied, is one flat write with every touched block marked; the second pass finds every block |
| Drives.TwoPassRead | src/drive.cpp:153-211 | A read in two passes gives the bytes of the flat disk and changes nothing |
| Drives.ReadsBack | src/drive.cpp:153-291 | What was written in two passes is read back in two, and nothing else has changed |
| Drives.WritePassElsewhere | src/drive.cpp:232-266 | A write leaves blocks that it does not touch, and their marks, as they were |
| Drives.BlocksInOrder | src/drive.cpp:140-186 | The disk lists the blocks in order, as their files have them until they are loaded |
| Drives.CancelledWrite | src/drive.cpp:267-275 | A write cancelled between its passes has taken effect exactly where blocks were loaded |
| Drives.TornWrite | src/drive.cpp:267-275 | A cancelled write across two blocks, the first of which has been read, takes effect in the first only |
| Drives.Drive.ReadCheck | src/drive.cpp:153-186 | The read loop in place, with its end in 32 bits |
| Drives.Drive.WriteCheck | src/drive.cpp:232-266 | The write loop in place |
| Drives.Drive.Read | src/drive.cpp:196-211 | Synchronous exactly if all blocks are loaded, and then the bytes of the disk |
| Drives.Drive.Write | src/drive.cpp:276-291 | The same for writes |
| Drives.Drive.CheckComplete | src/drive.cpp:450-456 | Completion: the abort is not reached, and the disk or the buffer is that of the flat operation |
| Drives.Image.Write | src/drive.cpp:540-564 | A write to an image file, through the overlay or to the file, is one flat write |
| Drives.Image.Read | src/drive.cpp:565-584 | A read from an image file with an overlay is a flat read |
| Ide.RoundTrip | src/ide.cpp:271-335 | The address registers give back a sector modulo the limit of CHS or LBA28, the sector itself exactly if it is below |
| Ide.LimitWraps | src/ide.cpp:271-335 | After the last addressable sector the registers stand for sector 0, in both modes |
| Ide.ChsNumbersInOrder | src/ide.cpp:271-284 | Sector 1 of head 0 of cylinder 0 is sector 0, and each place is one more than the place before it, along the track, then by heads, then by cylinders |
| Ide.SetIsPlace | src/ide.cpp:301-317 | The registers are set to a place that exists: sectors from 1 on, heads below their number |
| Ide.LbaNumbersInOrder | src/ide.cpp:285-290 | LBA28 counts from 0 on, with carries from the sector number through both cylinder bytes into the head |
| Ide.ReadSectors | src/ide.cpp:982-1019 | READ SECTORS of n sectors from p, by any mix of 8-, 16- and 32-bit accesses and for any answers of the drive: nothing of bytes p * 512 to (p + n) * 512 is lost, repeated or reordered exactly if every access that runs past its sector finds another one that the drive has at once; then DRQ and BSY are clear exactly when all is read, and the current sector is p + n |
| Ide.ReadBytesStream | src/ide.cpp:982-1019 | An access of up to four bytes reads the next bytes of the transfer, and leaves the rest, exactly if it ends within its sector or the drive has the next one at once |
| Ide.StraddlingRead | src/ide.cpp:990-1019 | One that runs past its sector reads the next bytes exactly if the drive answers at once or the buffer happens to hold them, in which case they are handed out twice |
| Ide.StaleRead | src/ide.cpp:990-1019 | A word read whose high byte is stale |
| Ide.WriteSectors | src/ide.cpp:1020-1054 | WRITE SECTORS of n sectors at p, by any mix of 8-, 16- and 32-bit accesses and for any answers of the drive: every byte handed over is taken exactly if each access that runs past its sector finds the drive ready for the next; then the command ends as one flat write of the n * 512 bytes, with the current sector at p + n |
| Ide.WriteBytes | src/ide.cpp:1020-1054 | Byte writes have the effect of one access that stores them at once; those past the end of the sector go to the start of the buffer, after the callback |
| Ide.WriteBytesTarget | src/ide.cpp:1020-1054 | An access puts its bytes at their place on the disk exactly if it is in order; otherwise the controller loses some |
| Ide.StraddlingWrite | src/drive.cpp:267-275 | After an access past its sector and the drive's completion the sector is as handed over exactly if the drive answers at once or the bytes that follow are already at its start; if it answers later they are missing from the next sector |
| Ide.LateStraddle | src/ide.cpp:1040-1054 | 509 zero bytes and four more at once that the drive takes later: the last of them replaces the first byte of the sector |
| Ide.Controller.ReadSectors | src/ide.cpp:1126-1144 | A sector is fetched from the block driver, at once or later |
| Ide.Controller.PioReadB | src/ide.cpp:982-989 | A byte port read in place |
| Ide.Controller.PioReadWide | src/ide.cpp:990-1019 | Word and double word reads, aligned or not, are their byte reads |
| Ide.Controller.CompleteRead | src/ide.cpp:1113-1125 | Completion of a pending sector read |
| Ide.Controller.PioWriteB | src/ide.cpp:1020-1026 | A byte port write in place, whatever the phase, storing full sectors |
| Ide.Controller.PioWriteWide | src/ide.cpp:1027-1054 | Word and double word writes, aligned or not, past the end of their sector or not, are their byte writes |
| Ide.Controller.CompleteWrite | src/ide.cpp:1158-1173 | Completion of a pending sector write |
| State.Le32RoundTrip | src/state.cpp:50-55 | A 32-bit number is read back from its four bytes |
| State.Le32Digits | src/state.cpp:101-107 | The four bytes of a number, the lowest first |
| State.Layout | src/state.cpp:261-281 | What is at which place of a saved object: its type and count, and for each key the name, a NUL, the type, the length and the bytes, or the object |
| State.ParseWritten | src/state.cpp:261-301 | Parsing what was written gives the object without its free slots, for any nesting, and consumes exactly the bytes written, whatever follows |
| State.TrimmedFull | src/state.cpp:261-301 | An object without free slots is read back as it was |
| State.BuildShape | src/state.cpp:166-180 | Adding entries succeeds exactly if their keys differ and there is a slot for each |
| State.LoadRestoresSave | src/state.cpp:216-233 | Loading a saved machine restores each field of each device with the bytes that it was saved with |
| State.WStream.WriteMem | src/state.cpp:118-124 | Bytes that fit into twice the buffer are appended with at most one growth |
| State.WStream.Serialize | src/state.cpp:261-281 | The buffer is never overrun if each key and field fits into the buffer as it is, and ends with the bytes of the object |
| State.RStream.ParseObject | src/state.cpp:282-301 | The cursor ends behind the object |
| State.RStream.ReadSlots | src/state.cpp:282-301 | The loop over the keys reads the slots that the parser gives |
| Iret.FrameReadsBack | src/cpu/ctrlflow.cpp:1162-1211 | The three words of an interrupt frame can be read back for every stack pointer, odd and wrapping ones included |
| Iret.HandlerEntered | src/cpu/ctrlflow.cpp:1204-1208 | IP and CS come from words 4v and 4v + 2 of the vector table as it was before the interrupt, if the frame misses them; IF, TF and AC are clear and all other flags as they were |
| Iret.ImageNumber | src/cpu/eflags.cpp:239-249 | The flags by their places in the pushed word |
| Iret.LittleEndian | src/cpu/ctrlflow.cpp:1169-1203 | The lower byte of a pushed word is at the lower address |
| Iret.StackArithmetic | src/cpu/ctrlflow.cpp:1162-1204 | Stack offsets are counted modulo the width of the stack pointer, linear addresses modulo 4 GB, and the gate takes bit 20 out |
| Iret.HandlerReturns | src/cpu/ctrlflow.cpp:2510-2557 | After any handler that leaves its frame alone, IRET restores ESP with its upper bits, CS, the return address and the low half of EFLAGS |
| Iret.InterruptThenReturn | src/cpu/ctrlflow.cpp:1205-1211 | An interrupt and an immediate IRET restore everything but AC |
| Iret.Machine.RealInterrupt | src/cpu/ctrlflow.cpp:1162-1211 | The interrupt on the machine with lazy flags |
| Iret.Machine.Iret16 | src/cpu/ctrlflow.cpp:2463-2557 | The return on the machine with lazy flags |
| Trace.DecodeInto | src/cpu/decoder.cpp:2708-2785 | A run takes at most 32 slots, ends its trace, and leaves all other slots alone |
| Trace.RunHolds | src/cpu/decoder.cpp:2708-2785 | Which instruction each slot of a run holds, and where and why it ends: at the first that ends a trace, before the first that crosses its page, or after 31; and what a crossing first instruction leaves |
| Trace.DecodeKeepsSound | src/cpu/trace.cpp:48-60 | A decode keeps every run below the usage mark, and a run decoded across pages does not enter the table |
| Trace.TraceCache.Flush | src/cpu/trace.cpp:12-16 | A flush empties the table and the cache |
| Trace.TraceCache.Decode | src/cpu/decoder.cpp:2708-2785 | The decoding loop in place; it ends |
| Trace.TraceCache.GetTrace | src/cpu/trace.cpp:37-60 | Every call returns a run of at most 32 slots and keeps all runs; usage stays below the size of the cache; the lookup aborts exactly for address 0 in state 0 with an empty first entry |
| Trace.TraceCache.FirstLookup | src/cpu/trace.cpp:37-60 | The first lookup of address 0 in state 0 aborts |
| Trace.TraceCache.Invalidate | src/cpu/smc.cpp:48-60 | An invalidated address is not found any more |
| Decoder.FindInstructionLength | src/cpu/decoder.cpp:34-160 | The predictor answers with the length exactly if it is within the limit, and aborts exactly on a special opcode within it; its prefix loop ends |
| Decoder.InstructionParts | src/cpu/decoder.cpp:74-160 | The length is that of the prefixes, the opcode, the operand bytes or the address, and the immediates, with those of TEST in the groups F6 and F7 |
| Decoder.OperandBytes | src/cpu/decoder.cpp:96-140 | Which ModRM bytes have a SIB byte, and a displacement of how many bytes |
| Decoder.PrefixBytes | src/cpu/decoder.cpp:50-72 | The prefixes |
| Decoder.SizePrefixes | src/cpu/decoder.cpp:49-56 | A size prefix, however often repeated, turns its size over once |
| Decoder.ParserAgrees | src/cpu/decoder.cpp:161-323 | The parser takes the SIB and displacement bytes that the predictor counts, for every ModRM byte and both address sizes |
| Decoder.DecoderAgrees | src/cpu/decoder.cpp:362-446 | The decoder's prefix loop and ModRM parser end where the predictor has counted to |
| Decoder.CheckAdmitsSixteen | src/cpu/decoder.cpp:362-407 | The decoder's length check admits exactly the instructions of up to 16 bytes, counted in the mode that the prefixes after the first leave, which is the right one unless the first is a size prefix and not repeated |
| Decoder.CheckMiscounts | src/cpu/decoder.cpp:362-407 | Instructions of 16 and 18 bytes that pass, and one of 15 bytes that does not |
| Kbd.Queue.Add | src/kbd.cpp:79-83 | A byte is appended exactly if the ring holds fewer than 255; otherwise the ring comes out empty |
| Kbd.Queue.Get | src/kbd.cpp:88-93 | The oldest byte leaves the ring |
| Kbd.FirstInFirstOut | src/kbd.cpp:155-203 | Between resets, over every run whose additions find room: the program reads of each queue exactly the bytes added, in order; OFULL is set exactly while the latch is unread; a read latch means empty queues |
| Kbd.KeysComeFirst | src/kbd.cpp:155-203 | An unread latch stays; a read one takes the oldest key, or the oldest mouse byte only if no key is queued |
| Kbd.AdditionKeepsExactly | src/kbd.cpp:182-186 | An addition loses nothing exactly if its queue has room |
| Kbd.QueueOverruns | src/kbd.cpp:79-83 | With 256 keys unread one more loses all but the latched one |
| Kbd.RefillTruthful | src/kbd.cpp:155-166 | With an unread latch AUX is set for the next queued byte: it tells the source of the latched one exactly if the two agree |
| Kbd.AddTruthful | src/kbd.cpp:182-186 | AUX is right after an addition exactly if the latch is read, or holds a key where keys are queued then, or a mouse byte where mouse bytes alone are; a full queue that the addition empties counts as empty, and with both empty AUX stays as it was |
| Kbd.EnableTruthful | src/kbd.cpp:251-280 | Enabling a port leaves AUX right exactly if the latch is read or holds a byte of that port |
| Kbd.WrongAux | src/kbd.cpp:155-166 | A key and a mouse byte, or a mouse byte and the keyboard enabled: AUX is wrong |
| Kbd.ReadTruthful | src/kbd.cpp:187-203 | Reading the data port leaves AUX right |
| Kbd.Controller.RefillOutput | src/kbd.cpp:155-181 | The refill in place |
| Kbd.Controller.ReadData | src/kbd.cpp:187-203 | The data port in place |

## Left out

- Devices behind memory: what a device register answers is a function of its address; a read in which a device has a part is translated to its end and has no value.
- Paging: memory is a whole number of pages; the 4 MB branch follows the code, which tests no permission; page-fault delivery is an outcome with its error code and CR2.
- Self-modifying code: whether a page has code, and whether a write drops its entry, are parameters.
- Debug registers: writes of DR0 to DR3 and DR7 drop entries as INVLPG and a flush do, and are not events of their own.
- cpu_access_verify.
- Shifts SHL, SHR, SAR, SHLD, SHRD and the rotates ROL and ROR; divisions; BCD adjustments.
- LazyFlags.Alu.MultiplyBy: the 64-bit intermediate of 32-bit products is an unbounded product.
- APIC: IPIs, the timer, the LVT, delivery modes that abort, and direct guest writes of ISR, IRR and TMR.
- PIC: the IOAPIC's ExtINT path, the branch of pic_get_interrupt that asks the APIC, register read-back, ELCR; devices drive every input but IRQ 2.
- Drives: file names, decompression and the content of block files, which are given sequences of 256 KB; a last partial block; prefetching; saving. Masks and shifts by the block size are written as remainders and quotients.
- IDE: LBA48, multiple-sector blocks (the limit is one sector), bus-master DMA, ATAPI, IDENTIFY, and the interrupt line.
- Ide.ReadSectors: a transfer that goes on beyond the limit of its addressing mode, at sector 0, is not followed; the same holds for Ide.WriteSectors. Single steps are, in `Ide.Controller`. Under LBA28, and under CHS with the drivers' 16 heads of 63 sectors, no disk of up to 4 GB lets a transfer get there: `Ide.DiskWithinLimit`.
- State: the magic number and version, strings, and files beside the state file; the buffer size is unbounded.
- Iret: stack memory is RAM and not paged; the 32-bit IRET; protected mode. cpu_load_csip_real sets CS and EIP.
- Trace: translating the page of the instruction pointer, the code marks of set_smc, and what the opcode handlers decode are parameters; addresses are below 0xFFFFFFFF, the value that marks an invalidated entry.
- Decoder: the opcode tables are parameters; values of displacements and immediates.
- Keyboard: command decoding, mouse packets, interrupts to the PIC, and the translation of scan codes.
- Everything else of the emulator: display, VGA, PIT, ACPI, CMOS, network, floppy, PCI, FPU and SSE.
