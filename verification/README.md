# AISLAB virtual platform: verified models

Two models of the platform, with proofs. Every file is a Dafny 4.11 module; `dafny verify dfyconfig.toml`
checks them all.

**The co-simulation link.** Guest accesses to the MMIO window become 32-byte frames that a SystemC client
answers from a TLM memory. QEMU's vCPU threads, its tcp thread and the client share one mutex and one socket
with no sequence numbers. `Words`, `Vpipc`, `Memory`, `QemuCpu` give machine words, frames, the word array and
the request switch; the classes there work in place on byte arrays and on the reused response record, and are
tied to functions on values. `CosimLink` runs any number of vCPU threads, the tcp thread and the client as a
step machine (`CosimLink.Step`): the mutex, with the timed wait as release and reacquisition; one
first-in-first-out queue a direction; a poll that reports the socket only if a frame is queued. `CellModel`
is the sequential reference, one array of 32-bit cells. `LinkInvariant` is the inductive invariant; `LinkTheorems`
(safety, refinement, conservation, stale data), `LinkActors` (what each actor does on its own) and `LinkProgress`
(every transfer ends, how long a vCPU can wait) are what follows from it over every schedule. `ServerWait` and `ClientLoop` are the two ends' event loops, with
what the operating system returns as input.

**The aislab machine and its device tree.** `Board` and `AddressSpace` hold the memory map, the configuration and
every address window; `Imsic` the packed interrupt-file addresses; `PcieIrqMap` the compressed interrupt table.
`DeviceTree` gives the tree in closed form, each phandle by formula; `FdtBuilder` is the code's own builder, with
its counter, backward loops and arrays filled in place, proved to produce that tree; `TreeWalk` and
`TreeProperties` read the tree back. `MachineInit` builds the devices and their wiring, `MachineTheorems` says what
was built, `TreeMatchesMachine` compares the two, `BoardRun` runs both on one configuration, and `FailingCases`
gives accepted boards on which they differ.

Results that name the cases where the code does not meet the property:

- The windows are disjoint exactly when RAM fits (`AllApartIff`): for 64-bit harts its end, rounded up to 16 GiB,
  must stay within 64 bits (`FullRamWraps`, a case of the arithmetic that no host can back); for 32-bit harts it
  must not exceed 10 GiB, because the limit lowers the size on record but not the region that is mapped
  (`BigRam32Overlaps`). The regions the tree describes are disjoint exactly when the high PCIe window has not
  wrapped to 0 (`AllDescribedApartIff`).
- Nothing in the link bounds how long a vCPU waits for the mutex (`PassedOver`); first-come hand-over does
  (`FirstComeBound`).
- Under KVM's in-kernel AIA with several sockets the tree describes one APLIC and routes everything to it, while
  the machine code creates one per socket and wires virtio and PCIe to the later ones (`RealisedIsDescribedIff`,
  `SocketsAgreeIff`, `WireAgreesIff`, `PcieWireAgreesIff`, `TwoKvmSocketsDisagree`).
- Under KVM with an AIA, phandles are issued for machine-level nodes that are never added (`PhandlesExactIff`).
- The memory target divides the address by four, so it is byte-addressed memory only at aligned addresses
  (`WritesByteAddressedIffAligned`, `ReadsByteAddressedIffAligned`), and its debug transport is in range only up
  to one past the end (`DebugCopyInRangeIff`).
- The three-entry transfer buffers suffice exactly for up to three clients (`BufferSufficesIff`); the listening
  socket itself admits ten.

Where code and comments disagree the code is followed: `vp_wait` ignores its timeout and waits 1 ms, and the
connect loop's larger timeout has no effect.

Constants of QEMU's own headers (interrupt counts, ACLINT and IMSIC sizes, IMSIC shifts, RISC-V interrupt
numbers) are those of QEMU 9.0; the headers are not part of this model.

## Model

| member | source | states |
|---|---|---|
| MemoryModel.CheckPayload | VPsystemC/demo/test_mmio/target.h:59-70 | The checks in the target's order; whatever passes them lies inside the array |
| MemoryModel.PayloadAccepted | VPsystemC/demo/test_mmio/target.h:59-70 | Exactly which payloads are accepted, and that a refusal names the first check that fails |
| MemoryModel.Memory.BTransport | VPsystemC/demo/test_mmio/target.h:42-92 | A write replaces exactly the checked bytes of the word array, a read fills exactly the initiator's buffer, a refused payload changes nothing |
| MemoryModel.Memory.TransportDbg | VPsystemC/demo/test_mmio/target.h:128-144 | For any address the debug copy moves the clipped number of bytes, in the direction asked for, and nothing else; it would leave the array only past the end, and that is reported |
| MemoryModel.DebugCopyInRangeIff | VPsystemC/demo/test_mmio/target.h:136-141 | For every length the debug copy stays inside the array exactly when the word address is at most SIZE; past it the unsigned room wraps |
| MemoryModel.WritesByteAddressedIffAligned | VPsystemC/demo/test_mmio/target.h:45-76 | A write lands where byte-addressed memory would put it, for every content, exactly when the address is word aligned |
| MemoryModel.ReadsByteAddressedIffAligned | VPsystemC/demo/test_mmio/target.h:45-74 | A read fetches the bytes byte-addressed memory would, for every content, exactly when the address is word aligned |
| MemoryModel.PutThenGet | VPsystemC/demo/test_mmio/target.h:73-76 | Reading at most the n low bytes that were written returns what was written; the other bytes are kept |
| MemoryModel.ReadIsGetLow | VPsystemC/demo/test_mmio/target.h:73-74 | Copying n bytes out of a word is the cell modulo 256^n |
| MemoryModel.WriteIsPutLow | VPsystemC/demo/test_mmio/target.h:75-76 | Copying n bytes into a word changes that one cell, and only its low n bytes |
| QemuCpuModel.QemuCpu.TlmRead | VPsystemC/QEMU_CPU/QEMU_CPU.hpp:160-183 | The value is the zero-extended little-endian bytes of the addressed word; the memory is kept |
| QemuCpuModel.QemuCpu.TlmWrite | VPsystemC/QEMU_CPU/QEMU_CPU.hpp:185-207 | The low bytes of the truncated data reach the addressed word; a refused write changes nothing |
| QemuCpuModel.QemuCpu.Answer | VPsystemC/QEMU_CPU/QEMU_CPU.hpp:129-149 | The request switch in place on the reused record: new memory, new record, and the TLM error exit |
| QemuCpuModel.ForwardedInRange | Customized/QEMU/mmio_bus/mmio_bus.c:97-99 | Every access QEMU can forward passes all target checks |
| QemuCpuModel.HandleRefinesCells | VPsystemC/QEMU_CPU/QEMU_CPU.hpp:129-149 | Serving a forwarded request is one access to an array of 32-bit cells, and the answer has its type, VP_OK, its address and, for a read, the cell's low bytes |
| QemuCpuModel.HandleChecked | VPsystemC/QEMU_CPU/QEMU_CPU.hpp:129-143 | Any accepted request of any length is one access to one cell, and the whole record that answers it, old data included |
| QemuCpuModel.HandleRefused | VPsystemC/QEMU_CPU/QEMU_CPU.hpp:178-180 | A refused request changes no memory and is not answered |
| QemuCpuModel.HandleUnknown | VPsystemC/QEMU_CPU/QEMU_CPU.hpp:144-147 | A frame of another type changes no memory and is answered with an error and what the record held before |
| CellModel.HandleApplies | VPsystemC/QEMU_CPU/QEMU_CPU.hpp:129-149 | The same as one step of the sequential reference: the cells after the access, and the answer made on the cells before it |
| CellModel.AllAnsweredGrows | VPsystemC/QEMU_CPU/QEMU_CPU.hpp:121-150 | One more answer, made on the cells that the accesses before it leave, keeps the whole stream answered in order |
| LinkInvariant.StartedInv | Customized/QEMU/mmio_bus/mmio_bus.c:188-193 | The state after realize satisfies the invariant |
| LinkInvariant.LogGrows | Customized/QEMU/mmio_bus/mmio_bus.c:102-113 | Completing an access that returned what the sequential array returns keeps the log sequential |
| LinkInvariant.ReleaseKeepsInv | Customized/QEMU/mmio_bus/mmio_bus.c:106-113 | Unlocking and returning the response data to the guest keeps the invariant |
| LinkInvariant.ClientServeKeepsInv | VPsystemC/QEMU_CPU/QEMU_CPU.hpp:129-148 | The client serving a request keeps the invariant |
| LinkInvariant.StepKeepsInv | Customized/QEMU/mmio_bus/mmio_bus.c:33-141 | Every possible step of any vCPU thread, the tcp thread or the client keeps the invariant |
| LinkInvariant.RunKeepsInv | Customized/QEMU/mmio_bus/mmio_bus.c:33-141 | The invariant holds after every schedule of the three kinds of actor |
| LinkTheorems.OneFrameAtATime | Customized/QEMU/vpipc/vpipc.c:186-213 | In every reachable state at most one frame is in flight, none unless a vCPU holds the mutex; the tcp thread never finds a frame, so its recv never takes a response or blocks |
| LinkTheorems.TransfersExclusive | Customized/QEMU/mmio_bus/mmio_bus.c:103-106 | A vCPU is inside a transfer exactly when it holds the mutex |
| LinkTheorems.ResponseMatches | Customized/QEMU/mmio_bus/mmio_bus.c:108-113 | The frame vp_b_transfer returns has this request's response type, VP_OK and this request's address, so both mismatch branches are unreachable |
| LinkTheorems.Linearizable | Customized/QEMU/mmio_bus/mmio_bus.c:86-141 | Over every interleaving the completed accesses are, in lock order, a run of one array of 32-bit cells, and that array is the memory whenever no vCPU holds the mutex |
| LinkTheorems.ReadYourWrite | Customized/QEMU/mmio_bus/mmio_bus.c:86-141 | A read no wider than the last completed write to its cell returns the low bytes written |
| LinkTheorems.AccessesConserved | Customized/QEMU/mmio_bus/mmio_bus.c:86-141 | Each vCPU's completed accesses, with the one it waits for, are exactly what it issued, in order: none lost, repeated or reordered |
| LinkTheorems.NoStaleDataObserved | VPsystemC/QEMU_CPU/QEMU_CPU.hpp:23-23 | Two runs that differ only in the response record's first contents allow the same schedules and give the guest the same results and memory |
| LinkTheorems.ServeKeepsSame | VPsystemC/QEMU_CPU/QEMU_CPU.hpp:129-149 | The old record shows through only in the data of a write response |
| LinkTheorems.StepKeepsSame | Customized/QEMU/mmio_bus/mmio_bus.c:33-141 | A step is possible in both of two states that differ in stale data only, or in neither, and keeps them so |
| LinkActors.PollPerWait | Customized/QEMU/mmio_bus/mmio_bus.c:33-37 | Over every run each timed wait of the tcp thread is followed by exactly one poll |
| LinkActors.TcpWakes | Customized/QEMU/mmio_bus/mmio_bus.c:36-37 | From every reachable state with the mutex free, a thread in its timed wait can go on and then stands before the poll with the mutex |
| LinkActors.TcpStarts | Customized/QEMU/mmio_bus/mmio_bus.c:33-36 | The thread starts by taking the mutex, then waits or leaves |
| LinkActors.TcpServes | Customized/QEMU/mmio_bus/mmio_bus.c:37-79 | A frame that waited for the thread would be taken, the oldest first, and answered by one frame |
| LinkActors.FramesInOrder | Customized/QEMU/vpipc/vpipc.c:254-271 | Over every run, from any state, each direction delivers what was sent, in order, none lost, repeated or overtaken |
| LinkActors.ClientNeverStuck | VPsystemC/QEMU_CPU/QEMU_CPU.hpp:121-156 | In every reachable state the client has a step of its own, and with nothing to receive it polls without effect |
| LinkActors.TcpNeverStuck | Customized/QEMU/mmio_bus/mmio_bus.c:33-83 | In every reachable state the tcp thread has left its loop, has a step of its own, or waits for a mutex that is taken |
| LinkActors.VcpuNeverStuck | Customized/QEMU/mmio_bus/mmio_bus.c:86-141 | In every reachable state a vCPU has a step of its own exactly unless it waits for a mutex that is taken or a response not yet sent |
| LinkActors.OthersReported | Customized/QEMU/mmio_bus/mmio_bus.c:108-113 | Any answer but the right response with status 0 would be reported, and a read returns its data unchanged |
| LinkProgress.HolderCanMove | Customized/QEMU/vpipc/vpipc.c:261-271 | While the mutex is held some step that makes progress is possible, and the release is one to seven of them away |
| LinkProgress.StepsCountDown | Customized/QEMU/vpipc/vpipc.c:261-271 | Every step but a new request or an empty client poll brings the release exactly one closer; an empty poll is a stutter with an empty queue; the holder's access is logged exactly at the release |
| LinkProgress.TransferEnds | Customized/QEMU/mmio_bus/mmio_bus.c:102-106 | Every schedule with enough progress steps releases the mutex after exactly the measured number of them, with the holder's access completed and logged |
| LinkProgress.NeverStuck | Customized/QEMU/mmio_bus/mmio_bus.c:33-141 | In every reachable state with the mutex held some progress step is possible |
| LinkProgress.ReachedTransferEnds | Customized/QEMU/mmio_bus/mmio_bus.c:102-106 | From every reachable state with the mutex held, at most seven progress steps free it, whatever is interleaved |
| LinkProgress.Drain | Customized/QEMU/mmio_bus/mmio_bus.c:102-106 | The holder's own remaining steps free the mutex and leave a waiting vCPU waiting |
| LinkProgress.WaiterServed | Customized/QEMU/mmio_bus/mmio_bus.c:102-106 | A vCPU that waits while the mutex is free can take it and complete in eight steps |
| LinkProgress.WaiterCanComplete | Customized/QEMU/mmio_bus/mmio_bus.c:102-106 | From every reachable state a waiting vCPU can have its access completed within fifteen steps |
| LinkProgress.WorkBounded | Customized/QEMU/mmio_bus/mmio_bus.c:33-141 | Over every run, each turn with the mutex is worth at most eight progress steps |
| LinkProgress.FirstComeBound | Customized/QEMU/mmio_bus/mmio_bus.c:103-106 | While a vCPU waits and nobody is given the mutex twice, as under first-come hand-over, at most 7 + 8n progress steps pass, n being the number of vCPUs |
| LinkProgress.PassedOver | Customized/QEMU/mmio_bus/mmio_bus.c:103-106 | Without such a rule the wait has no bound: for any number there is a run in which that many accesses of another vCPU pass a waiting one |
| ServerWait.Server.Wait | Customized/QEMU/vpipc/vpipc.c:168-216 | The buffer holds exactly the collected transfers and is untouched beyond them; connection, closed descriptors and the error exit are as the events say |
| ServerWait.CollectedExactly | Customized/QEMU/vpipc/vpipc.c:195-212 | Each transfer is the frame and descriptor of the 32-byte client event at its position |
| ServerWait.PositionsExact | Customized/QEMU/vpipc/vpipc.c:195-212 | The positions are those of the client events whose recv returned the given number, all of them and no others |
| ServerWait.PositionsAscend | Customized/QEMU/vpipc/vpipc.c:186-213 | Transfers come in event order |
| ServerWait.HungUpExactly | Customized/QEMU/vpipc/vpipc.c:202-205 | The closed descriptors are those of exactly the zero-length client events, in event order |
| ServerWait.ConnectionIsLast | Customized/QEMU/vpipc/vpipc.c:187-192 | The connection is what accept returned for the last event on the listening descriptor |
| ServerWait.ConnectionKept | Customized/QEMU/vpipc/vpipc.c:187-192 | Without such an event the connection stays what it was |
| ServerWait.AtMostOnePerClient | Customized/QEMU/vpipc/vpipc.c:186-213 | Never more transfers than open clients, given distinct ready descriptors |
| ServerWait.BufferSufficesIff | Customized/QEMU/mmio_bus/mmio_bus.c:29-37 | Every batch fits the three-entry buffer exactly when at most three clients are open |
| ServerWait.Server.WaitForClient | Customized/QEMU/mmio_bus/mmio_bus.c:173-184 | The connect loop leaves at the first batch after which a client is connected, the process exits at the first batch with a failed recv or accept and at no other, and with neither every batch is used |
| ClientLoop.Client.CreateVpModule | VPsystemC/vpipc/vpipc.cpp:131-157 | Both descriptors are opened, recorded and registered |
| ClientLoop.Client.VpWait | VPsystemC/vpipc/vpipc.cpp:218-252 | Every poll result leads to its own outcome and its own uses and closes of descriptors, and no trace uses a closed one |
| ClientLoop.Client.CleanupVpModule | VPsystemC/vpipc/vpipc.cpp:159-164 | Whatever is still open is closed, and nothing else |
| ClientLoop.Client.Turn | VPsystemC/QEMU_CPU/QEMU_CPU.hpp:123-150 | One pass serves at most one frame; the process exits exactly at a fatal poll or a refused request, and the connection ends exactly at a disconnect |
| ClientLoop.Client.PollLoop | VPsystemC/QEMU_CPU/QEMU_CPU.hpp:121-156 | The loop leaves at the first disconnect, exits only at a first fatal poll or refused request, and else uses every poll; frames sent and memory are always those of the polls so far |
| ClientLoop.Client.ThreadProcess | VPsystemC/QEMU_CPU/QEMU_CPU.hpp:116-158 | The same for the whole thread; when the loop is left normally every descriptor opened has been closed exactly once, and none was ever used after closing |
| ClientLoop.ClosesMatchOpens | VPsystemC/vpipc/vpipc.cpp:159-164 | In a disciplined trace the closes are the opens less what is still open |
| ClientLoop.ClosedExactlyOnce | VPsystemC/vpipc/vpipc.cpp:159-164 | Once nothing is open, each descriptor was closed as often as opened |
| ClientLoop.ServeOneExact | VPsystemC/QEMU_CPU/QEMU_CPU.hpp:124-150 | An answered request adds its answer to what was sent, a refused one ends the service, any other poll changes nothing |
| ClientLoop.ForwardedAllAnswered | VPsystemC/QEMU_CPU/QEMU_CPU.hpp:121-150 | However many quiet polls come between, a stream of forwarded accesses is answered frame for frame, in order, as a sequential run on the 32-bit cells |
| Imsic.NumBits | Customized/QEMU/riscv/aislab.c:499-508 | The shift loop terminates within 32 rounds with the least sufficient width |
| Imsic.BitsSpec | Customized/QEMU/riscv/aislab.c:499-508 | The width suffices and no smaller one does |
| Imsic.BitsLeast | Customized/QEMU/riscv/aislab.c:499-508 | No width that suffices is smaller |
| Imsic.BitsMonotone | Customized/QEMU/riscv/aislab.c:499-508 | A larger count never needs fewer bits |
| Imsic.SlotSpan | Customized/QEMU/riscv/aislab.h:146-150 | A group of up to 512 harts with 8 pages each fits the group stride |
| Imsic.FieldsFit | Customized/QEMU/riscv/aislab.h:140-156 | Guest, hart and group fields stay within the limits the size guards assume |
| Imsic.RoundTrip | Customized/QEMU/riscv/aislab.c:558-570 | Every page of every interrupt file decodes, through the widths the node announces or leaves to their defaults, to its own socket, hart and guest |
| Imsic.MaxHartsAttained | Customized/QEMU/riscv/aislab.c:530-542 | The largest hart count is some socket's own |
| Imsic.IndexLeast | Customized/QEMU/riscv/aislab.c:558-570 | Index properties are emitted exactly where needed, and every width is the least that covers its sockets, harts or files |
| Imsic.DigitsOfAddress | Customized/QEMU/riscv/aislab.c:1223-1239 | The same for any sufficient widths |
| Board.SlicesTile | Customized/QEMU/riscv/aislab.c:726-746 | The sockets' slices of the global hart order are disjoint and cover it |
| AddressSpace.HighPcieAboveRam | Customized/QEMU/riscv/aislab.c:1554-1569 | The high window starts at or above the end of mapped RAM exactly when RAM fits; for 64-bit harts it is then 16 GiB aligned, starts less than 16 GiB above it and ends within 64 bits; the 10 GiB limit keeps the size on record below the fixed window of 32-bit harts |
| AddressSpace.RamSizeExact | Customized/QEMU/riscv/aislab.c:1554-1560 | The size on record is what was asked for unless RAM of 32-bit harts would pass the fixed window, and then RAM on record ends exactly there |
| AddressSpace.SpansApart | Customized/QEMU/riscv/aislab.c:70-103 | No two spans, as long as the tree gives them, overlap unless the high window has wrapped to 0 or RAM does not fit below it |
| AddressSpace.WindowsApart | Customized/QEMU/riscv/aislab.c:70-103 | No two devices of a configuration share an address if RAM, at the size it is mapped, fits |
| AddressSpace.AllApartIff | Customized/QEMU/riscv/aislab.c:1554-1575 | All windows are pairwise disjoint exactly when RAM fits: at most 10 GiB for 32-bit harts, an end that rounds up within 64 bits for 64-bit ones |
| AddressSpace.SlotFilledIff | Customized/QEMU/riscv/aislab.c:1234-1239 | A hart's pages fill its slot exactly for 0, 1, 3 or 7 guests |
| AddressSpace.FilePagesExact | Customized/QEMU/riscv/aislab.c:1222-1239 | A page of a hart's slot lies in the realised file exactly if there is a guest for it |
| AddressSpace.FlashesTile | Customized/QEMU/riscv/aislab.c:156-166 | The two flash devices are the two halves of the flash window |
| PcieIrqMap.CreatePcieIrqMap | Customized/QEMU/riscv/aislab.c:168-216 | No write leaves the array, every row has the first row's width, and the published prefix is the table of sixteen rows |
| PcieIrqMap.FillRow | Customized/QEMU/riscv/aislab.c:188-205 | One row, its width, and zeros beyond it |
| PcieIrqMap.FillPins | Customized/QEMU/riscv/aislab.c:185-212 | The four rows of one device number at the stride fixed by the first row |
| PcieIrqMap.TableRow | Customized/QEMU/riscv/aislab.c:185-212 | Each row of the flat table is the row of its device number and pin |
| PcieIrqMap.RowAddress | Customized/QEMU/riscv/aislab.c:192-194 | A row's address cells are the unit address of its device number |
| PcieIrqMap.LookupIsSwizzle | Customized/QEMU/riscv/aislab.c:177-219 | For every bus, slot, function and pin the masked lookup hits exactly one row, which gives the full swizzle's line |
| FdtBuilder.TwoCells | Customized/QEMU/riscv/aislab.c:363-370 | The in-place array lists the socket's controllers, each with the one line |
| FdtBuilder.FourCells | Customized/QEMU/riscv/aislab.c:326-331 | The same with two lines for each hart |
| FdtBuilder.Fdt.CreateCpu | Customized/QEMU/riscv/aislab.c:239-290 | One hart: two phandles from the counter, three nodes, one array entry |
| FdtBuilder.Fdt.CreateSocketCpus | Customized/QEMU/riscv/aislab.c:222-292 | The backward hart loop writes exactly the socket's slice with closed-form phandles |
| FdtBuilder.Fdt.CreateSocketClint | Customized/QEMU/riscv/aislab.c:311-344 | One CLINT node with base, span and both lines of every hart |
| FdtBuilder.Fdt.CreateMtimer | Customized/QEMU/riscv/aislab.c:389-410 | The timer node of either branch, with its two register regions |
| FdtBuilder.Fdt.CreateSocketAclint | Customized/QEMU/riscv/aislab.c:346-428 | The nodes of the branch taken, with their bases, spans and arrays |
| FdtBuilder.Fdt.CreateSocketPlic | Customized/QEMU/riscv/aislab.c:430-497 | One PLIC node and its phandle, recorded for its socket |
| FdtBuilder.Fdt.ImsicRegions | Customized/QEMU/riscv/aislab.c:530-542 | One region a socket, and the largest hart count |
| FdtBuilder.Fdt.ImsicIndex | Customized/QEMU/riscv/aislab.c:558-570 | Which index properties are emitted, and their values |
| FdtBuilder.Fdt.CreateOneImsic | Customized/QEMU/riscv/aislab.c:510-572 | One IMSIC node listing all harts |
| FdtBuilder.Fdt.CreateImsic | Customized/QEMU/riscv/aislab.c:574-592 | Two phandles always; the machine-level node only without KVM |
| FdtBuilder.Fdt.CreateOneAplic | Customized/QEMU/riscv/aislab.c:594-641 | One APLIC node: array or msi-parent, and delegation if there is a child |
| FdtBuilder.Fdt.CreateSocketAplic | Customized/QEMU/riscv/aislab.c:643-688 | Two phandles always; nodes, delegation and the recorded phandle |
| FdtBuilder.Fdt.CreateSocketNodes | Customized/QEMU/riscv/aislab.c:724-746 | The first backward loop: its nodes, the counter, and the whole phandle array, whatever the split |
| FdtBuilder.Fdt.CreateXplics | Customized/QEMU/riscv/aislab.c:761-776 | The second backward loop: its nodes, the counter, and every entry that is read later |
| FdtBuilder.Fdt.RouteParents | Customized/QEMU/riscv/aislab.c:779-798 | Parents belong to sockets 0, min(1,n-1), min(2,n-1), or 0 under KVM's AIA, read from written entries |
| FdtBuilder.Fdt.CreateSockets | Customized/QEMU/riscv/aislab.c:701-801 | All of it together, with the parents it hands on |
| FdtBuilder.Fdt.CreateVirtio | Customized/QEMU/riscv/aislab.c:803-828 | Eight nodes with windows, parent and lines |
| FdtBuilder.Fdt.CreatePcie | Customized/QEMU/riscv/aislab.c:830-867 | The PCIe node with its windows, msi-parent and interrupt map |
| FdtBuilder.Fdt.CreateReset | Customized/QEMU/riscv/aislab.c:869-908 | The test node takes the last phandle and both syscon nodes refer to it |
| FdtBuilder.Fdt.Finalize | Customized/QEMU/riscv/aislab.c:1033-1053 | The threaded counter ends one past the closed-form last phandle and the nodes are those of the closed-form tree |
| TreeProperties.PhandlesAscend | Customized/QEMU/riscv/aislab.c:1033-1053 | In creation order phandles strictly ascend from 1 to the last one, so none repeats; the missing ones are counted |
| TreeProperties.PhandlesExactIff | Customized/QEMU/riscv/aislab.c:1033-1053 | They are exactly 1..K, each once, unless KVM hides machine-level AIA nodes, and K is the closed formula |
| TreeProperties.ResolvesTo | Customized/QEMU/riscv/aislab.c:1033-1053 | Any node of the tree with a phandle is what that phandle refers to |
| TreeProperties.PartitionIndependent | Customized/QEMU/riscv/aislab.c:232-291 | Global hart g has cpu phandle 2(C-g)-1 and controller phandle 2(C-g) whatever the split, and both lead to its own nodes |
| TreeProperties.CoresResolve | Customized/QEMU/riscv/aislab.c:288-290 | A core refers to its own cpu node |
| TreeProperties.AplicChildResolves | Customized/QEMU/riscv/aislab.c:631-637 | A machine-level APLIC delegates to the supervisor-level one of its socket |
| TreeProperties.AplicParentResolves | Customized/QEMU/riscv/aislab.c:619-624 | In message mode an APLIC's parent is the IMSIC of its own level |
| TreeProperties.PcieResolves | Customized/QEMU/riscv/aislab.c:851-853 | PCIe messages go to the supervisor-level IMSIC |
| TreeProperties.ResetResolves | Customized/QEMU/riscv/aislab.c:876-906 | Reboot and poweroff refer to the test device |
| TreeProperties.InterruptArraysComplete | Customized/QEMU/riscv/aislab.c:726-777 | For each kind of controller the arrays of all sockets join to the array one socket holding all harts would have |
| TreeProperties.CausesOf | Customized/QEMU/riscv/aislab.c:326-331 | Each kind of controller lists the causes it raises, at its own privilege level |
| TreeProperties.EveryHartNamed | Customized/QEMU/riscv/aislab.c:726-777 | Read through the tree, each entry names the controller of the hart at that global position, once for each line |
| MachineInit.Machine.CreateTimers | Customized/QEMU/riscv/aislab.c:1482-1515 | The timers of the branch taken, at their windows, for the socket's harts |
| MachineInit.Machine.CreateImsics | Customized/QEMU/riscv/aislab.c:1222-1231 | One interrupt file a hart, from the socket's base upwards |
| MachineInit.Machine.CreateFiles | Customized/QEMU/riscv/aislab.c:1220-1241 | Machine-level files only without KVM; supervisor-level files with their guest pages |
| MachineInit.Machine.CreateAplics | Customized/QEMU/riscv/aislab.c:1243-1263 | The APLICs, their parent link, and which of them is returned |
| MachineInit.Machine.CreateController | Customized/QEMU/riscv/aislab.c:1517-1526 | PLIC or AIA, and the controller the socket records |
| MachineTheorems.RefusalDetermined | Customized/QEMU/riscv/aislab.c:1455-1470 | At most one socket is the first refused, for the first reason that applies, and none is exactly when every socket's hart ids are contiguous with a known base and count |
| MachineInit.Machine.CreateSockets | Customized/QEMU/riscv/aislab.c:1452-1543 | The socket loop's devices and the three controllers that interrupts are wired to, or the first socket whose hart ids are refused, with the sockets before it built |
| MachineInit.Machine.PlaceHighPcie | Customized/QEMU/riscv/aislab.c:1554-1569 | The RAM limit and the high window |
| MachineInit.Machine.CreateVirtio | Customized/QEMU/riscv/aislab.c:1593-1597 | Eight devices and their wires |
| MachineInit.Machine.CreatePcie | Customized/QEMU/riscv/aislab.c:1097-1150 | The PCIe windows and the four wires of the host |
| MachineInit.Machine.CreatePlatformBus | Customized/QEMU/riscv/aislab.c:1267-1290 | The platform bus and its thirty-two wires |
| MachineInit.Machine.Init | Customized/QEMU/riscv/aislab.c:1427-1619 | Refused exactly for more than four sockets or an ACLINT under KVM, with nothing built, or at the first socket whose hart ids are refused; else the devices, wires and recorded RAM size of the closed forms |
| MachineTheorems.PartsExact | Customized/QEMU/riscv/aislab.c:1452-1615 | The realised devices are exactly those the configuration calls for |
| MachineTheorems.PartsDistinct | Customized/QEMU/riscv/aislab.c:1452-1615 | Each is realised once |
| MachineTheorems.RealisedApart | Customized/QEMU/riscv/aislab.c:1452-1615 | No two realised windows overlap if RAM fits |
| MachineTheorems.LinesDistinct | Customized/QEMU/riscv/aislab.h:91-104 | No two outputs share an interrupt line, and every line is a source the controllers have |
| MachineTheorems.WiresReachChips | Customized/QEMU/riscv/aislab.c:1531-1543 | Every wire joins a device and a controller that the machine has |
| MachineTheorems.WiresExact | Customized/QEMU/riscv/aislab.c:1531-1613 | Exactly which wires there are: every output, its line, and its socket's controller |
| MachineTheorems.WiresEnterAtTop | Customized/QEMU/riscv/aislab.c:1243-1263 | No wire ends at a controller that is another one's child |
| TreeMatchesMachine.DescribedIsRealised | Customized/QEMU/riscv/aislab.c:333-340 | Whatever a register region of the tree describes is realised at exactly the described base, inside the described span |
| TreeMatchesMachine.DescribedExactly | Customized/QEMU/riscv/aislab.c:333-340 | Apart from timers and guest files the described region is the realised window |
| TreeMatchesMachine.AllDescribedApartIff | Customized/QEMU/riscv/aislab.c:389-406 | The described regions, which may be longer than the realised ones, are pairwise disjoint exactly when the high PCIe window has not wrapped to address 0 |
| TreeMatchesMachine.DescribedOnce | Customized/QEMU/riscv/aislab.c:333-340 | At most one node describes a device |
| TreeMatchesMachine.RealisedIsDescribedIff | Customized/QEMU/riscv/aislab.c:754-777 | Every realised device is described, exactly except the APLICs of sockets above 0 under KVM's in-kernel AIA |
| TreeMatchesMachine.MtimerRegisters | Customized/QEMU/riscv/aislab.c:402-406 | The timer's two registers are described where the realised timer has them |
| TreeMatchesMachine.ImsicTiled | Customized/QEMU/riscv/aislab.c:1222-1239 | Every address of a described IMSIC region lies in the slot of exactly one hart, where that hart's file is realised |
| TreeMatchesMachine.ListLength | Customized/QEMU/riscv/aislab.c:1452-1529 | A node lists as many harts as its device was created for |
| TreeMatchesMachine.HartsMatch | Customized/QEMU/riscv/aislab.c:1452-1529 | The i-th hart a node lists is the i-th hart id its device was created for, and no other socket's |
| TreeMatchesMachine.ImsicHartMatches | Customized/QEMU/riscv/aislab.c:1222-1239 | The IMSIC node lists, at the global position of hart i of socket k, the hart id that this hart's interrupt file was created for |
| TreeMatchesMachine.LinesAreCauses | Customized/QEMU/riscv/aislab.c:326-331 | The lines listed for a device's harts are the causes that device raises |
| TreeMatchesMachine.DomainsAgree | Customized/QEMU/riscv/aislab.c:1253-1262 | The tree hands a supervisor-level APLIC's interrupts on from the node of exactly that device which is its parent in the machine |
| TreeMatchesMachine.SocketsListed | Customized/QEMU/riscv/aislab.c:731-737 | The tree has a cluster and a memory node for each socket and for no other number |
| TreeMatchesMachine.FeedsIff | Customized/QEMU/riscv/aislab.c:643-688 | The controller the tree names stands for the wired device, directly or by delegation, exactly when the sockets agree |
| TreeMatchesMachine.SocketsAgreeIff | Customized/QEMU/riscv/aislab.c:779-798 | Named and wired sockets agree exactly unless KVM's in-kernel AIA meets several sockets |
| TreeMatchesMachine.WireAgreesIff | Customized/QEMU/riscv/aislab.c:1593-1613 | For every wired device with a node: the line described is the line wired, and the parent is the wired controller exactly outside that case |
| TreeMatchesMachine.PcieWireAgreesIff | Customized/QEMU/riscv/aislab.c:1097-1150 | Any swizzled PCIe pin arrives on the line and at the controller that the tree's interrupt map gives, exactly outside that case |
| FailingCases.TwoKvmSocketsDisagree | Customized/QEMU/riscv/aislab.c:754-777 | An accepted board with KVM's in-kernel AIA and two sockets: an APLIC without a node, a virtio interrupt routed to another controller than it is wired to, and missing phandles |
| FailingCases.FullRamWraps | Customized/QEMU/riscv/aislab.c:1566-1568 | A RAM size at which the rounding wraps, so that the high PCIe window starts at 0 and covers the boot ROM and the test device; a property of the arithmetic |
| FailingCases.BigRam32Overlaps | Customized/QEMU/riscv/aislab.c:1554-1575 | An accepted 32-bit board with 12 GiB: the size on record is cut, the region mapped is not, and runs into the high PCIe window |
| BoardRun.BuildAndDescribe | Customized/QEMU/riscv/aislab.c:1344-1354 | Init and Finalize on one configuration: whatever the finished tree describes is a device of the built machine there, every listed device is described with the one exception, and no two devices overlap if RAM fits |
| BoardRun.GuestAddressForwarded | Customized/QEMU/mmio_bus/mmio_bus.c:97-99 | The window the board maps for the MMIO bus is the one the link forwards, address for address |

## Left out

- LinkTheorems.Linearizable: assumes whole-frame delivery by the socket, because the code does not reassemble partial reads; and one connected client from the start, because the server never resets its descriptor when the client goes.
- LinkTheorems.ReadYourWrite: covers a read no wider than the write it follows; what a wider read returns depends on earlier writes too, and is given by Linearizable.
- LinkProgress.TransferEnds: counts steps; that each actor is scheduled again, and in which order waiters get the mutex, is the operating system's part (FirstComeBound and PassedOver say what the order decides).
- MemoryModel.Memory.TransportDbg: stops before a copy that would leave the array, because what such a copy does is undefined.
- TreeMatchesMachine.DescribedIsRealised: bases are equal, and a described span may be longer than the realised one, because the ACLINT timer and CLINT nodes describe more than is realised.
- MachineInit.Machine.Init: takes what QEMU's NUMA code answers about each socket's hart ids as input.
- The DMA build, in which both ends start transfers; there `vp_b_transfer` takes the next frame whatever its kind.
- What the tcp thread does to guest RAM or the interrupt line for a request: the step machine lets it send any answer; without DMA no such request exists.
- Further connections accepted while the link runs, and the client check at the start of the MMIO handlers.
- Accesses wider than four bytes, which QEMU splits before they reach the handlers, and big-endian hosts.
- Socket creation, printing, simulated time, DMI hints, random initial memory.
- The allocation of the RAM region, which happens before this code runs; the model maps it at the size asked for. A 64-bit host is assumed. A host could not back the region of `FULL_RAM`, which only shows the arithmetic.
- PcieIrqMap.LookupIsSwizzle: reads a row as phandle and interrupt specifier, which assumes that the controller has no unit-address cells; the PLIC node says so and the APLIC node is silent.
- Sizes of device regions that QEMU chooses itself (UART, RTC, virtio, test) are taken from the memory map.
- KVM's in-kernel AIA device itself; the model records the devices that the machine code asks for.
- Memory-node addresses, the root, /soc, /chosen, flash, fw-cfg and PMU nodes, string properties, the byte order of cells, and the platform-bus and IOMMU nodes, which calls into QEMU add or which use another phandle allocator.
- A device tree supplied by the user, firmware and kernel loading, ACPI, SMBIOS, hotplug, property getters and setters.
- The adder device, the older copy of the client, scripts, guest demos and build configuration: nothing in them adds to the properties here.
