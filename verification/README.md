# Trigger test bench firmware: a verified model

The repository is Nios II firmware for a trigger test bench: an application that fills
memories from the network and streams them out by DMA, a memory tester, and the hardware
abstraction layer and drivers both run on. This project models its stateful core in Dafny
and proves what the code keeps, over every input, every interleaving and every run.

The modules, and what each is about:

- `Ring`, `JtagUart`: the interrupt-driven JTAG UART driver. Thread code (`Write`, `Read`,
  `Close`) and interrupt code (`Irq`, `Timeout`) share two rings of 2048 bytes, an enable
  word and an activity counter without locks. `Preempt()` stands between any two steps of
  thread code, inside the byte copies too, and runs any number of interrupts; `Host()`
  stands between any two steps of the interrupt routine. So each contract covers every
  interleaving. No byte is lost, duplicated or reordered, a copy sized from a stale index
  never touches a live byte, no wakeup is lost, and the interrupt routine serves what each of
  its control reads reports, and ends. A call gives up waiting only having found the host gone.
- `AlarmTime`, `AlarmList`, `AlarmRun`: the alarms. A 32-bit tick counter, a deadline word and a
  rollover flag per alarm refine a timer that counts without bound; the list through the
  alarms themselves is walked and edited in place, and refines the same timer over whole
  runs.
- `MemTest`, `FlashCheck`: the memory tester, against any memory: an arbitrary map from
  addresses to cells, with any bits stuck. Each test is shown to pass exactly the memories
  it should, and where it does not, exactly the ones it does.
- `BurstRefill`: the burst loop and its interrupt routine, which share a flag word that the
  loop clears by a read and a write, and the loop that fills the memory.
- `FdPool`, `FdTable`: the file descriptor table, with exclusive locking. `FdPool` states
  each call as a function on the table's contents; `FdTable` scans and updates the table in
  place and is proved to do the same.
- `Numerals`, `NumberPrinters`, `Printf`, `PrintfText`: the two print routines. Every number
  reads back from its text, the format loops meet a description of what a directive means, and
  the two routines agree where their formats overlap. `PrintfText` says of the printed text
  alone what each letter prints, and that no other text would do.
- `CacheFlush`: the cache flush loops, on a write-back data cache and a direct-mapped instruction
  cache.
- `WallClock`: setting and reading the time of day.
- `IrqDispatch`: the interrupt table and the dispatcher.
- `Machine`: words, bytes and the division facts several modules share.

How to read it: an object whose code updates it is a class with the same fields, and its
methods are the source's functions, cut at the points where an interrupt matters. Words are
numbers below 2^32 with every wrap written out; flag words that are tested bit by bit are bit
vectors, and the words of interrupt lines are sets. The statements a method is proved
against are functions or predicates of the state, and the main results are lemmas about
those. Input from outside (the host, the devices, a driver's answers, the clock) is either an
arbitrary choice made inside the model or a parameter. A loop that polls for something only
an interrupt can bring is watched for `patience` rounds, for any number; a call that is still
waiting then says so in its result.

What is assumed of the hardware: the UART raises an interrupt only while it is enabled, the
receive one only with data and the transmit one only with space, and a data read that finds
no byte reports none remaining; an edge stays captured until it is acknowledged; a read of a
memory word returns the cell its address reaches, through its stuck bits.

Where the code and its comments disagree, or the code is not exact, the model follows the
code and says exactly when:

- `alt_alarm_start` with the longest interval, 2^32-1 ticks, fires at the very next tick
  unless the counter stands at its last value (`AlarmTime.FirstFiringExact`).
- `MemTestDevice` returns the failing address as its error code, so from base address 0 a bad
  first word can be reported as success. It is exact for all memories away from address 0;
  from there, a memory that passes wrongly has a stuck or shared first word, and for every
  size there is one (`MemTest.TestDevice`, `MemTest.ZeroFirstCellPasses`).
- The address `MemTestDevice` returns can be that of a word without fault: its third pass runs
  after a failed second one, and can overwrite the address found by that of the word after it
  (`MemTest.TestDevice`, `MemTest.FaultlessNamed`).
- `alt_fd_lock` says that it grants a lock if no other open descriptor refers to the device,
  but it does not look at the slot at the highwater mark (`FdPool.GrantExclusive`,
  `FdPool.GrantNotExclusive`).
- The interrupt routine of the burst assigns the flag word, so an edge it has read can be lost
  (`BurstRefill.EdgeLost`): exactly if the routine runs again while its flag is still to be
  acted upon, or if the loop's clearing of another flag writes the word as it was before
  (`BurstRefill.Refill.Isr`, `BurstRefill.Refill.WriteBack`, `BurstRefill.RunBurst`).
- The burst loop ignores a refused transfer (`BurstRefill.GaplessIffRefusedLast`), where the
  fill loop tries it again.
- `alt_iic_isr_register` tests the number of a line as a signed one, so it accepts all from
  2^31 up, writes outside the table for most of them and enables a line that may have no
  handler (`IrqDispatch.Controller.Register`, `IrqDispatch.LargestNumberStrays`).
- A cache flush or discard from an unaligned start can reach the line right after the region:
  exactly if the places of its first and last byte in their lines add up to less than a line
  (`CacheFlush.RunReaches`). A discard loses what was written there
  (`CacheFlush.DataCache.Discard`).
- `settimeofday` multiplies in 32 bits and `gettimeofday` in 64, so an immediate get does not
  always return the time set, as the comment promises (`WallClock.GetIsSet`).
- The erased-block check answers no for any block that is not a multiple of 64 bytes
  (`FlashCheck.BlockIsErased`).
- A write or a read of no bytes reports an I/O error unless the descriptor is non-blocking
  (`JtagUart.Uart.Write`, `JtagUart.Uart.Read`).

## Model

| member | source | states |
|---|---|---|
| Ring.Conservation | software/TestBench_FW/drivers/inc/altera_avalon_jtag_uart.h:109-114 | what was put into a ring is what was taken out followed by what lies between the indices, in order; equal indices mean empty, and one slot stays unused |
| Ring.FreeRun | software/TestBench_FW/drivers/src/altera_avalon_jtag_uart_write.c:109-114 | the run a writer may fill stays inside the buffer and leaves the unused slot, is the largest that does, and is empty exactly if the ring is full |
| Ring.DataRun | software/TestBench_FW/drivers/src/altera_avalon_jtag_uart_read.c:125-128 | the run a reader may take stays inside the buffer and the data, is the largest that does, and is empty exactly if the ring is |
| Ring.FillKeepsLive | software/TestBench_FW/drivers/src/altera_avalon_jtag_uart_write.c:106-122 | writing into the run granted by an out index that is stale by any amount changes no live byte |
| Ring.Publish | software/TestBench_FW/drivers/src/altera_avalon_jtag_uart_write.c:122-126 | publishing a run sized from a stale out index appends exactly its bytes and never makes the ring look empty |
| Ring.TakeRun | software/TestBench_FW/drivers/src/altera_avalon_jtag_uart_read.c:122-140 | the run granted by an in index that is stale by any amount holds the oldest bytes in order, and taking some leaves the rest |
| Ring.Push | software/TestBench_FW/drivers/src/altera_avalon_jtag_uart_init.c:137-150 | storing one byte at the in index of a ring that is not full appends it |
| Ring.Pop | software/TestBench_FW/drivers/src/altera_avalon_jtag_uart_init.c:174-178 | the byte at the out index of a ring that is not empty is the oldest, and stepping over it removes it |
| JtagUart.Uart.constructor | software/TestBench_FW/drivers/src/altera_avalon_jtag_uart_init.c:66-97 | start-up: receive interrupts on, transmit interrupts off, and no host timeout if the alarm cannot be set |
| JtagUart.Uart.Irq | software/TestBench_FW/drivers/src/altera_avalon_jtag_uart_init.c:106-197 | the interrupt routine ends whatever finite input the host sends meanwhile, keeps both conservation laws and the wakeup rule, and turns no interrupt on; what each of its control reads reports is served before the next one (a byte is sent if there is one, a byte is taken if there is room), and it returns when one reports nothing |
| JtagUart.Uart.Pass | software/TestBench_FW/drivers/src/altera_avalon_jtag_uart_init.c:122-195 | a pass serves both interrupts its control read reported |
| JtagUart.Uart.ReceiveOne | software/TestBench_FW/drivers/src/altera_avalon_jtag_uart_init.c:132-154 | a round stores the byte it pops, and pops none only with the ring full or the device empty |
| JtagUart.Uart.DrainReceiver | software/TestBench_FW/drivers/src/altera_avalon_jtag_uart_init.c:125-167 | a receive interrupt takes a byte if there is room, makes progress, and turns receive interrupts off only with the ring full |
| JtagUart.Uart.SendOne | software/TestBench_FW/drivers/src/altera_avalon_jtag_uart_init.c:176-178 | the oldest byte of the ring goes to the device, in order |
| JtagUart.Uart.FillTransmitter | software/TestBench_FW/drivers/src/altera_avalon_jtag_uart_init.c:169-195 | the device is given as many bytes as it has space for, or the ring is emptied, and transmit interrupts go off only then |
| JtagUart.Uart.Timeout | software/TestBench_FW/drivers/src/altera_avalon_jtag_uart_init.c:203-225 | the host activity check keeps both enable bits, and the count never passes its limit |
| JtagUart.Uart.Preempt | software/TestBench_FW/drivers/src/altera_avalon_jtag_uart_init.c:106-225 | any number of interrupts between two steps of thread code keep the state valid and take nothing back |
| JtagUart.Uart.FillRun | software/TestBench_FW/drivers/src/altera_avalon_jtag_uart_write.c:105-126 | under any interrupts, one round of the copy loop accepts a prefix of the data, and nothing only if the ring was full when it began, and full again with what has been accepted since |
| JtagUart.Uart.PublishRun | software/TestBench_FW/drivers/src/altera_avalon_jtag_uart_write.c:122-126 | advancing the in index over a copied run accepts exactly that run |
| JtagUart.Uart.EnableTransmit | software/TestBench_FW/drivers/src/altera_avalon_jtag_uart_write.c:136-139 | after a write has set the enable bit, bytes in the ring keep transmit interrupts on |
| JtagUart.Uart.AwaitRoom | software/TestBench_FW/drivers/src/altera_avalon_jtag_uart_write.c:183-188 | under any interrupts, a writer stops waiting only when there is room, or when it has read that the host is gone; one still waiting has bytes in the ring, transmit interrupts on and the host alive |
| JtagUart.Uart.Write | software/TestBench_FW/drivers/src/altera_avalon_jtag_uart_write.c:84-215 | under any interrupts, exactly the bytes counted in the result are accepted, in order, and at least as many as the ring had room for at the start; a blocking write accepts fewer than asked only without a host, and only with room in the ring or having found the host gone; a waiting writer has its wakeup enabled; a write of no bytes is an error at once |
| JtagUart.Uart.TakeRunOut | software/TestBench_FW/drivers/src/altera_avalon_jtag_uart_read.c:120-140 | under any interrupts, one round of the copy loop delivers the oldest bytes, and nothing only if the ring was empty |
| JtagUart.Uart.CopyOut | software/TestBench_FW/drivers/src/altera_avalon_jtag_uart_read.c:136 | interrupts during the copy do not change the bytes copied |
| JtagUart.Uart.AwaitData | software/TestBench_FW/drivers/src/altera_avalon_jtag_uart_read.c:173-178 | under any interrupts, a reader stops waiting only when there is data, or when it has read that the host is gone; one still waiting has an empty ring, receive interrupts on and the host alive |
| JtagUart.Uart.Read | software/TestBench_FW/drivers/src/altera_avalon_jtag_uart_read.c:101-203 | under any interrupts, a positive result is exactly the number of bytes delivered, in order and across the wrap, and at least as many as the ring held at the start; an error means that the ring was empty and, if blocking, that the host has been found gone; a waiting reader has its wakeup enabled; a read of no bytes is an error at once |
| JtagUart.Uart.Close | software/TestBench_FW/drivers/src/altera_avalon_jtag_uart_init.c:241-254 | a close succeeds only with every accepted byte on the wire, or with the host timed out |
| JtagUart.Uart.EndToEnd | software/TestBench_FW/drivers/inc/altera_avalon_jtag_uart.h:105-114 | at every step, accepted bytes are on the wire or in the ring, and bytes the host sent are delivered, in the ring, in the device or still to come; no wakeup is lost |
| JtagUart.Session | software/TestBench_FW/drivers/src/altera_avalon_jtag_uart_init.c:106-254 | over a whole run of any write, read and close calls, with interrupts in them and between them: what reached the wire is a prefix of what write calls reported, short by less than a ring, and all of it after a last close without a host timeout; what read calls returned is a prefix of what the host sent, of the length they reported |
| AlarmTime.ArmRepresents | software/TestBench_FW/HAL/src/alt_alarm_start.c:80-96 | a newly armed timer stands for the deadline, whichever epoch of the counter that lies in |
| AlarmTime.TickExact | software/TestBench_FW/HAL/src/alt_tick.c:96-115 | at every tick a timer expires if and only if its unbounded deadline is now, and otherwise still stands for it |
| AlarmTime.RearmRepresents | software/TestBench_FW/HAL/src/alt_tick.c:127-137 | a periodic alarm stands for a deadline one interval after the one just met |
| AlarmTime.FirstFiringExact | software/TestBench_FW/HAL/src/alt_alarm_start.c:82-96 | over any number of rollovers an alarm first fires nticks + 1 ticks after its start, if and only if the interval is not the longest or the counter is at its last value |
| AlarmTime.TickAllExact | software/TestBench_FW/HAL/src/alt_tick.c:96-141 | one tick over any list calls back the alarms whose unbounded deadline is now, in order, and leaves the list the ideal timer has |
| AlarmTime.EveryRunExact | software/TestBench_FW/HAL/src/alt_tick.c:66-141 | in every run of starts, stops and ticks from reset, the 32-bit alarms are called back in the same ticks as those of a timer that never wraps |
| AlarmList.RemoveLink | software/TestBench_FW/HAL/inc/sys/alt_llist.h:105-117 | removal takes one link out of the chain and nothing else, and is harmless on a link already removed |
| AlarmList.Clock.Insert | software/TestBench_FW/HAL/inc/sys/alt_llist.h:90-98 | insertion puts a link first and keeps the chain and the other alarms |
| AlarmList.Clock.Start | software/TestBench_FW/HAL/src/alt_alarm_start.c:64-111 | starting puts an alarm, armed from the current tick, first in the list; without a clock or an alarm it fails and changes nothing |
| AlarmList.Clock.Stop | software/TestBench_FW/HAL/src/alt_tick.c:66-73 | stopping unlinks exactly that alarm, so that its number leaves the list of entries; stopping one already stopped changes nothing |
| AlarmList.Clock.Service | software/TestBench_FW/HAL/src/alt_tick.c:109-139 | one alarm is called back if and only if it has expired, and stays exactly if it asks for another interval |
| AlarmList.Clock.Tick | software/TestBench_FW/HAL/src/alt_tick.c:87-141 | one tick visits every registered alarm once, in order, calls back exactly those due, unlinks exactly those that answer zero, and keeps the rest in order; those unlinked may be stopped again |
| AlarmRun.Drive | software/TestBench_FW/HAL/src/alt_tick.c:66-141 | the linked list itself, driven from reset with the clock running through any starts, stops and ticks its calls permit, calls back in every tick the alarms that a timer that never wraps calls back, if each interval is one the timer honours |
| MemTest.BothShown | software/memtest/memtest.c:484-508 | bits through which a value and its complement have been read are not stuck |
| MemTest.FillPass | software/memtest/memtest.c:476-480 | after the first pass, a memory without faults holds every word its own number, and the first cell holds the number of the last word that reaches it |
| MemTest.InvertPass | software/memtest/memtest.c:484-494 | the second pass finds no bad word in a good memory; the word it finds does not read as its number and has a fault, and the faultless words before it, and only those, have been complemented; it finds the first word bad exactly if that does not read as its number |
| MemTest.FreshSoundWord | software/memtest/memtest.c:498-508 | a word that shows its complement after all earlier words have been zeroed shares no cell with them and has no stuck bit |
| MemTest.ZeroPass | software/memtest/memtest.c:498-509 | after the third pass no bad word is known exactly if the memory is good, even where the second pass had failed; the word named is one that it failed to read, or else the one the second pass found; that word or, if the second pass stopped before it, the word before it has a fault |
| MemTest.TestDevice | software/memtest/memtest.c:469-510 | away from base address 0, the test of a device passes exactly the memories in which no two tested words share a cell and no bit reached is stuck, leaving every word zero; the address it returns otherwise is the one the third pass failed to read, or else the second, and that word, or the one before it if the second pass stopped earlier, has a fault; from base address 0 a memory that is not good passes only if its first word is stuck or shared, and does pass if it is shared and no bit is stuck, or if it is stuck, not shared, and does not always read as the complement of its number, or if it never shows its number or the complement |
| MemTest.FaultlessNamed | software/memtest/memtest.c:484-509 | the address returned can be that of a word without fault: of two words, the first stuck so that it always reads as the complement of its number, the second is named |
| MemTest.ZeroFirstCellPasses | software/memtest/memtest.c:484-509 | from base address 0, for every size tested there is a memory that is not good and passes, so that a base above 0 is needed |
| MemTest.TestZeroFirstCell | software/memtest/memtest.c:484-509 | from base address 0 any memory whose first cell always reads zero passes |
| MemTest.OneWordAtZeroPasses | software/memtest/memtest.c:484-509 | a memory of one word at address 0 passes whatever its faults |
| MemTest.WalkingOnes | software/memtest/memtest.c:303-312 | bits through which all walking ones read back are not stuck |
| MemTest.TestDataBus | software/memtest/memtest.c:296-316 | the data bus test passes exactly the cells without a stuck bit, and otherwise returns the first walking one that does not read back |
| MemTest.FillLines | software/memtest/memtest.c:337-340 | every offset the test drives gets the pattern |
| MemTest.ScanLines | software/memtest/memtest.c:345-352 | a scan finds the first driven offset, other than the one to skip, that does not read as the pattern, if there is one |
| MemTest.TestOffsetZero | software/memtest/memtest.c:343-355 | offset zero is told apart from all driven offsets, or the first one that reaches its cell is reported |
| MemTest.TestLine | software/memtest/memtest.c:360-369 | a driven offset passes if and only if no other driven offset reaches its cell |
| MemTest.TestAddressBus | software/memtest/memtest.c:325-374 | of a memory without stuck bits, the address test passes exactly if offset zero and all driven offsets reach different cells; otherwise it returns the address of the first driven offset that reaches the cell of offset zero or, if none does, of the first that reaches the cell of another |
| MemTest.AllLinesOfRange | software/memtest/memtest.c:337 | in a range of a power of two bytes, the offsets driven are all the powers of two from 4 up to half the range |
| MemTest.FaultyLineReported | software/memtest/memtest.c:342-371 | a bus with a stuck-low, stuck-high or shorted tested line does not bring all driven offsets to different cells, whatever sits behind it |
| MemTest.TestFaultyBus | software/memtest/memtest.c:325-374 | so the address test of a memory without stuck bits behind such a bus does not return zero |
| FlashCheck.BlockIsErased | software/memtest/memtest.c:717-755 | the answer is yes exactly if every byte of the block is erased and the block is a whole number of buffers |
| BurstRefill.Refill.constructor | software/TestBench_FW/hello_world.c:500-525 | at the start every port has submitted its first chunk |
| BurstRefill.Refill.Isr | software/TestBench_FW/hello_world.c:88-93 | the routine assigns the edges it has read to the flag word, and counts each of them once; an edge read earlier is overwritten exactly if its flag is still set and not acted upon |
| BurstRefill.Refill.Prepare | software/TestBench_FW/hello_world.c:559-565 | a descriptor is prepared for the chunk right after the last one submitted |
| BurstRefill.Refill.SubmitPrepared | software/TestBench_FW/hello_world.c:578-579 | a port submits the chunk that comes next, and no other port is touched |
| BurstRefill.Refill.ClearFlag | software/TestBench_FW/hello_world.c:580 | under any interrupts between the read and the write, the non-atomic clearing of one flag brings no other flag back without an edge to back it; without any, it loses nothing |
| BurstRefill.Refill.WriteBack | software/TestBench_FW/hello_world.c:580 | the write of the held word erases exactly the edges assigned since the read, and not acted upon, whose bit it clears, and revives exactly those overwritten since whose bit it sets |
| BurstRefill.Refill.Serve | software/TestBench_FW/hello_world.c:577-593 | a port submits its prepared chunk exactly if its flag was set when the loop looked, under any interrupts |
| BurstRefill.Refill.Turn | software/TestBench_FW/hello_world.c:557-593 | a turn looks at each port once, in order, and refills it exactly if its flag is set then; if the interrupt routine does not run meanwhile, exactly the ports flagged at the start are refilled, their flags cleared, and no edge is lost |
| BurstRefill.Refill.Burst | software/TestBench_FW/hello_world.c:545-662 | the burst takes turns until the wrapped clock difference passes its length, so never ends before that much time; every flag it finds set becomes a refill; if the routine does not run, exactly the ports flagged at the start are refilled once and their flags cleared |
| BurstRefill.RunBurst | software/TestBench_FW/hello_world.c:515-662 | over a whole burst, under any interrupts: the k-th transfer of a port moves its k-th chunk, from the addresses of the memory map on; the ports are looked at in turn until the burst ends, and a port has as many refills as its flag was found set; refills never outnumber the edges read, and the counter counts chunks submitted and prepared; every edge read has led to a refill or is still flagged if and only if, net of those revived, none was overwritten or erased |
| BurstRefill.PortBits | software/TestBench_FW/hello_world.c:577-593 | the flags of ports 1, 2 and 3 are the bits of value 2, 4 and 8 |
| BurstRefill.SingleEdge | software/TestBench_FW/hello_world.c:557-593 | after start-up and edges read by the routine, a turn it does not interrupt submits the second chunk of exactly the ports 1, 2 and 3 whose bits, 2, 4 and 8, are set, and clears them; chunks are 32768 bytes from 0x80, 0x11800080, 0x23000080, 0x80 and 0x11800080 on |
| BurstRefill.EdgeLost | software/TestBench_FW/hello_world.c:92 | a run in which an edge that was read is overwritten and goes without a refill |
| BurstRefill.InRegion | software/TestBench_FW/hello_world.c:32-51 | a chunk lies in its own port's region exactly while fewer than 8960 refills have been made |
| BurstRefill.ChunksDisjoint | software/TestBench_FW/hello_world.c:32-51 | while fewer than 8960 refills have been made, different chunks in one memory do not overlap |
| BurstRefill.RegionOverrun | software/TestBench_FW/hello_world.c:46-48 | the bound is exact: the 8960th refill of port 1 moves the first chunk of port 2 |
| BurstRefill.GaplessIffRefusedLast | software/TestBench_FW/hello_world.c:577-593 | as the loop ignores refusals, what an engine transfers is gapless if and only if it accepts nothing after a refusal |
| BurstRefill.FillDetector | software/TestBench_FW/hello_world.c:264-275 | the fill loop retries a refused block at the same address, and makes the attempts of its turns up to the first valid one after which the input shows another detector |
| BurstRefill.TurnsExact | software/TestBench_FW/hello_world.c:264-275 | the turns go on while every one with a valid descriptor still shows the detector, and stop at the first that shows another |
| BurstRefill.KeysExact | software/TestBench_FW/hello_world.c:258-371 | the keys 0 to 4 stand for detectors 0 to 4 and only they make attempts; n ends the dialogue, as does a detector's key without the device; any other key is asked again |
| BurstRefill.RetriedTiles | software/TestBench_FW/hello_world.c:266-269 | with refused blocks retried at the same address, the blocks accepted are gapless whatever was refused |
| BurstRefill.SetDetectors | software/TestBench_FW/hello_world.c:248-371 | over any dialogue, every attempt is made, and everything accepted lies gapless, in blocks of 256 bytes, from address 0x80 of the first memory on |
| FdPool.LockTestExact | software/TestBench_FW/HAL/src/alt_open.c:79-87 | the lock test, which stops at the highwater mark, sees exactly whether any descriptor holds the device locked |
| FdPool.OpenSucceeds | software/TestBench_FW/HAL/src/alt_open.c:105-171 | an open succeeds if and only if it finds a device or filesystem, a slot is free, a device is not locked, and the driver agrees |
| FdPool.OpenBinds | software/TestBench_FW/HAL/src/alt_get_fd.c:77-89 | a successful open binds the lowest free slot, above the standard three, and changes no other |
| FdPool.OpenFails | software/TestBench_FW/HAL/src/alt_open.c:161-166 | a failed open leaves the same descriptors allocated, with the same contents |
| FdPool.OpenRefused | software/TestBench_FW/HAL/src/alt_open.c:127-170 | an open of an unknown name, or with no free slot, reports which and changes nothing |
| FdPool.OpenExact | software/TestBench_FW/HAL/src/alt_open.c:127-166 | any other open tries the lowest free slot; a locked device refuses it first and the driver next, and the slot is left free and clear; else it holds the device, the flags asked for without the lock mark, and for a device the device mark |
| FdPool.CloseFrees | software/TestBench_FW/HAL/src/alt_close.c:75-100 | closing a descriptor above 2 leaves its slot free and clear, whatever the driver answers, and all others as they were; closing 0 to 2 changes nothing |
| FdPool.LockExact | software/TestBench_FW/HAL/src/alt_fd_lock.c:61-74 | a lock request on a device is granted exactly if no other slot below the highwater mark holds that device, and sets the mark of its holder only |
| FdPool.UnlockExact | software/TestBench_FW/HAL/src/alt_fd_unlock.c:52-56 | an unlock clears the mark of its descriptor only |
| FdPool.IoctlPassedOn | software/TestBench_FW/HAL/src/alt_ioctl.c:127-168 | any other request, and every request on a filesystem, returns the driver's status or that there is no such call, and changes nothing |
| FdPool.SetThenGet | software/TestBench_FW/HAL/src/alt_fcntl.c:84-92 | after F_SETFL, the append and the non-blocking flag are those asked for and all else is as before, and F_GETFL returns just that without the two marks |
| FdPool.GetFlShows | software/TestBench_FW/HAL/src/alt_fcntl.c:84-85 | F_GETFL shows all flags but the two marks |
| FdPool.FcntlElse | software/TestBench_FW/HAL/src/alt_fcntl.c:93-95 | a command that is neither is refused and changes nothing |
| FdPool.StepInv | software/TestBench_FW/HAL/src/alt_release_fd.c:44-51 | every call keeps: the standard descriptors allocated, every other open one at or below the highwater mark, and lock marks on devices only |
| FdPool.RunInv | software/TestBench_FW/HAL/src/alt_get_fd.c:77-89 | over every run of calls from a good table: the standard descriptors stay allocated and every other open one is at or below the highwater mark |
| FdPool.RunHeld | software/TestBench_FW/HAL/src/alt_release_fd.c:44-51 | over every run of calls, exactly those descriptors are allocated that the replies say are open: returned by an open and not closed since, or standard |
| FdPool.BadIndex | software/TestBench_FW/HAL/src/alt_close.c:75-100 | a negative descriptor, as a failed open returns, is refused by every call and changes nothing |
| FdPool.SetFlKeepsMarks | software/TestBench_FW/HAL/src/alt_fcntl.c:89-90 | fcntl can neither take nor drop a lock |
| FdPool.OpenIntoKeeps | software/TestBench_FW/HAL/src/alt_io_redirect.c:58-72 | redirecting a standard descriptor gives the slot it used back, and changes the target only if the open succeeded |
| FdPool.RedirectFromBoot | software/TestBench_FW/HAL/src/alt_io_redirect.c:85-94 | start-up ends with exactly the three standard descriptors allocated, whatever the drivers answer |
| FdPool.RedirectTargets | software/TestBench_FW/HAL/src/alt_io_redirect.c:58-94 | start-up leaves standard output and error open for writing on their devices and standard input for reading on its own, each on the null device if its open failed |
| FdPool.GrantExclusive | software/TestBench_FW/HAL/src/alt_fd_lock.c:61-69 | a granted lock is exclusive if and only if the slot at the highwater mark is the holder or refers to another device |
| FdPool.GrantNotExclusive | software/TestBench_FW/HAL/src/alt_fd_lock.c:61-69 | from boot, opening a device twice and locking the first descriptor succeeds with the second still open |
| FdPool.StepExclusive | software/TestBench_FW/HAL/src/alt_open.c:72-91 | while an exclusive lock is held no call opens its device again, and only its holder's unlock or close ends it |
| FdPool.LockSafe | software/TestBench_FW/HAL/src/alt_ioctl.c:127-139 | over every further run until then the holder stays the only descriptor of its device |
| FdPool.GrantedThenSafe | software/TestBench_FW/HAL/src/alt_ioctl.c:127-139 | from boot, through any run before a grant that meets that condition and any run after it, the holder stays the only descriptor of its device |
| FdTable.Files.constructor | software/TestBench_FW/HAL/src/alt_dev.c:118-149 | the table as it is linked |
| FdTable.Files.GetFd | software/TestBench_FW/HAL/src/alt_get_fd.c:54-101 | the scan finds the lowest free slot and raises the highwater mark |
| FdTable.Files.FileLocked | software/TestBench_FW/HAL/src/alt_open.c:64-92 | the descriptor is marked as a device's, and the scan finds a lock exactly if there is one up to the highwater mark |
| FdTable.Files.ReleaseFd | software/TestBench_FW/HAL/src/alt_release_fd.c:44-51 | a slot is freed unless it is one of the standard three |
| FdTable.Files.DoOpen | software/TestBench_FW/HAL/src/alt_open.c:105-171 | the table and the reply are those of the specified open, on every path |
| FdTable.Files.DoClose | software/TestBench_FW/HAL/src/alt_close.c:64-101 | the table and the reply are those of the specified close: the slot is freed even if the driver fails (`FdPool.CloseFrees`) |
| FdTable.Files.FdLock | software/TestBench_FW/HAL/src/alt_fd_lock.c:54-75 | the scan grants the lock exactly if no slot below the highwater mark shares the device, and marks only the holder |
| FdTable.Files.FdUnlock | software/TestBench_FW/HAL/src/alt_fd_unlock.c:52-56 | the unlock clears the mark of that descriptor and changes nothing else |
| FdTable.Files.DoIoctl | software/TestBench_FW/HAL/src/alt_ioctl.c:106-168 | the table and the reply are those of the specified ioctl: lock requests are handled here for devices only, all others go to the driver |
| FdTable.Files.DoFcntl | software/TestBench_FW/HAL/src/alt_fcntl.c:66-101 | the table and the reply are those of the specified fcntl |
| FdTable.Files.IoRedirect | software/TestBench_FW/HAL/src/alt_io_redirect.c:85-94 | the table is the one the specified redirection of output, input and error, in that order, leaves |
| FdTable.Serve | software/TestBench_FW/HAL/src/alt_open.c:105-171 | the table driven from boot through redirection and any legal calls has the contents the specification gives, and keeps the invariant |
| Numerals.DigitsReadBack | software/TestBench_FW/HAL/src/alt_log_printf.c:281-296 | a numeral reads back as its number in every base, and has no leading zero but for zero |
| Numerals.FixedFromTop | software/TestBench_FW/HAL/src/alt_log_printf.c:282-296 | working down from the largest power gives the digits of the numeral |
| Numerals.IntReadsBack | software/TestBench_FW/HAL/src/alt_log_printf.c:238-296 | every integer conversion, with its sign and padding, reads back as the value, the most negative one included |
| Numerals.IntLength | software/TestBench_FW/HAL/src/alt_log_printf.c:257-279 | its text is as long as the width asks, or as the number needs |
| NumberPrinters.Console.RepChar | software/TestBench_FW/HAL/src/alt_log_printf.c:106-110 | a character is repeated that often, or not at all |
| NumberPrinters.Console.CountDigits | software/TestBench_FW/HAL/src/alt_log_printf.c:247-255 | the loop finds the number of digits and the largest place value, without overflow |
| NumberPrinters.Console.PutDigits | software/TestBench_FW/HAL/src/alt_log_printf.c:281-296 | the division loop prints the digits of the value |
| NumberPrinters.Console.PutLead | software/TestBench_FW/HAL/src/alt_log_printf.c:257-279 | padding stands before the sign if it is blank, and after it if it is zeros |
| NumberPrinters.Console.PutInteger | software/TestBench_FW/HAL/src/alt_log_printf.c:206-297 | an integer conversion prints the specified text |
| NumberPrinters.Console.PutHex | software/TestBench_FW/HAL/src/alt_printf.c:84-113 | the nibble loop prints the numeral the division loop prints |
| Printf.WidthMore | software/TestBench_FW/HAL/src/alt_log_printf.c:172-195 | the width variable is the number the digits before a point make |
| Printf.PutConversion | software/TestBench_FW/HAL/src/alt_log_printf.c:200-336 | each letter prints what its directive means; an unknown one prints nothing and takes no argument |
| Printf.LogPrintf | software/TestBench_FW/HAL/src/alt_log_printf.c:114-341 | for any format and arguments, the character by character state machine prints what the format means |
| PrintfText.IntegerLetters | software/TestBench_FW/HAL/src/alt_log_printf.c:200-316 | at any place in any format, "d" and "i" print the two's complement value of their word in base 10, "u" the word in base 10, "o" in base 8, "x" and "X" in base 16: a minus sign if negative, a numeral of the base's digits, capitals for "X" only, filled to the width by zeros after the sign with the zero flag and by blanks before it without |
| PrintfText.TextLetters | software/TestBench_FW/HAL/src/alt_log_printf.c:319-333 | "c" prints the low byte of its word and "s" the string it points to, after blanks up to the width |
| PrintfText.OtherLetters | software/TestBench_FW/HAL/src/alt_log_printf.c:200-336 | any other letter prints nothing and takes no argument |
| PrintfText.OtherText | software/TestBench_FW/HAL/src/alt_log_printf.c:131-165 | a doubled percent sign prints one, and what is not a directive is printed as it is |
| PrintfText.NoLetterNothing | software/TestBench_FW/HAL/src/alt_log_printf.c:167-198 | a directive that never comes to its letter prints nothing |
| PrintfText.NumeralUnique | software/TestBench_FW/HAL/src/alt_log_printf.c:281-296 | a number has one numeral in each base |
| PrintfText.FieldUnique | software/TestBench_FW/HAL/src/alt_log_printf.c:257-296 | so one text only meets the description of a printed number |
| PrintfText.DigitTable | software/TestBench_FW/HAL/src/alt_log_printf.c:287-291 | the digits are the characters 0 to 9 and a to f, or A to F, in order |
| PrintfText.MinusOne | software/TestBench_FW/HAL/src/alt_log_printf.c:238-243 | "%d" prints the word of all ones as -1 |
| Printf.SmallPrintf | software/TestBench_FW/HAL/src/alt_printf.c:51-132 | for any format and arguments, the small print loop prints what its format means |
| PrintfText.SmallLetters | software/TestBench_FW/HAL/src/alt_printf.c:72-125 | of the small printer's letters, "x" prints a numeral in base 16, "c" a character and "s" a string; any other prints nothing |
| Printf.PlainAgrees | software/TestBench_FW/HAL/src/alt_printf.c:33-40 | on every format with only the small printer's directives, the two print the same |
| Printf.PrintBoth | software/TestBench_FW/HAL/src/alt_printf.c:51-132 | each loop prints what its format means, and on plain formats the two loops print the same |
| CacheFlush.RunReaches | software/TestBench_FW/HAL/src/alt_dcache_flush.c:53-67 | the lines reached are those that hold an address of the region and, for an unaligned start, the line right after it if the places of the first and the last byte in their lines add up to less than a line (the line of the start if the region is empty) |
| CacheFlush.DataCache.Flush | software/TestBench_FW/HAL/src/alt_dcache_flush.c:46-70 | after a flush no line of the region is cached, memory there is what the processor last wrote, and nothing has changed in any other line, but for the one more that an unaligned start can reach |
| CacheFlush.DataCache.FlushUnseen | software/TestBench_FW/HAL/src/alt_dcache_flush.c:39-44 | if clean lines are as in memory, a flush changes nothing the processor sees |
| CacheFlush.DataCache.Discard | software/TestBench_FW/HAL/src/alt_dcache_flush_no_writeback.c:49-69 | after a discard no line of the region is cached and memory has not changed; lines without an address of the region are cached as before and the processor sees the same there, but for the one more line that an unaligned start can reach |
| CacheFlush.ClampLosesNothing | software/TestBench_FW/HAL/src/alt_icache_flush.c:49-56 | a cache's worth of consecutive lines hits the index of every line of a longer region |
| CacheFlush.InstructionCache.Flush | software/TestBench_FW/HAL/src/alt_icache_flush.c:42-74 | after a flush nothing in the region is cached, whatever its length; exactly the slots of the lines reached are emptied, all of them from the size of the cache on |
| WallClock.TickTime | software/TestBench_FW/HAL/src/alt_gettod.c:91-93 | if the tick rate divides a million, the seconds and microseconds added are exactly the time of the ticks |
| WallClock.Clock.Normalise | software/TestBench_FW/HAL/src/alt_gettod.c:95-112 | the two loops give the time in normal form, and zero if it would be negative |
| WallClock.Clock.SetTimeOfDay | software/TestBench_FW/HAL/src/alt_settod.c:72-96 | setting stores the offset and the zone, or without a clock changes nothing |
| WallClock.Clock.GetTimeOfDay | software/TestBench_FW/HAL/src/alt_gettod.c:71-124 | getting adds the ticks to the offset, or without a clock fails |
| WallClock.WrapShows | software/TestBench_FW/HAL/src/alt_settod.c:83-84 | the 32-bit product leaves the same microseconds as the exact one if and only if it wraps a multiple of 15625 times |
| WallClock.GetAfterSet | software/TestBench_FW/HAL/src/alt_gettod.c:89-112 | after an exact set, every later get is the time set plus the time of the ticks since, in normal form |
| WallClock.GetMonotone | software/TestBench_FW/HAL/src/alt_gettod.c:89-112 | after an exact set, a later get never returns an earlier time |
| WallClock.GetIsSet | software/TestBench_FW/HAL/src/alt_settod.c:56-63 | an immediate get returns the time set if and only if the set was exact, or the time was zero and the error downwards |
| IrqDispatch.Lowest | software/TestBench_FW/HAL/src/alt_irq_handler.c:132-155 | the bit test loop stops at the first active line |
| IrqDispatch.Controller.Register | software/TestBench_FW/HAL/src/alt_iic_isr_register.c:75-101 | a number below 32 sets its handler and enables its line, or disables it with a null handler; one from 32 up to 2^31 is refused and changes nothing; one from 2^31 up is accepted, as the test is signed, writes the entry its wrapped address falls on and switches the line of its lowest five bits; every enabled line keeps a handler if and only if no line without one is enabled with the entry written elsewhere |
| IrqDispatch.RunRegistrations | software/TestBench_FW/HAL/src/alt_iic_isr_register.c:82-98 | in every run of registrations from reset, a line is enabled exactly if the last accepted number for it came with a handler, and an entry holds what was last written there; as long as no number writes outside the table, exactly the lines with a handler are enabled |
| IrqDispatch.LargestNumberStrays | software/TestBench_FW/HAL/src/alt_iic_isr_register.c:79-95 | registering the largest number reports success and enables line 31 with no handler in the table |
| IrqDispatch.EntryOnLine | software/TestBench_FW/HAL/inc/priv/alt_legacy_irq.h:86-99 | an entry that lies in the table is the one of the line switched, and its byte address is eight times the number, wrapped |
| IrqDispatch.Controller.Dispatcher | software/TestBench_FW/HAL/src/alt_irq_handler.c:128-159 | the dispatcher calls the registered handler of the lowest pending line each time, ends, and leaves nothing pending |
| IrqDispatch.QuietServes | software/TestBench_FW/HAL/src/alt_irq_handler.c:128-159 | with nothing coming in, exactly the pending lines are served |
| IrqDispatch.QuietAscends | software/TestBench_FW/HAL/src/alt_irq_handler.c:128-159 | with nothing coming in, the lines are served once each, in increasing order |
| IrqDispatch.LowestServed | software/TestBench_FW/HAL/src/alt_irq_handler.c:115-159 | whatever comes in meanwhile, the line served is each time the lowest one pending then, and at the end none is |
| IrqDispatch.EveryLineServed | software/TestBench_FW/HAL/src/alt_irq_handler.c:115-126 | whatever comes in meanwhile, a pending line is served, and no line more often than it came up |

## Left out

- JtagUart.Uart.Read: a loop that polls for the host or an interrupt is watched for `patience` rounds; that it ends is not claimed, as nothing makes the host act.
- JtagUart.Uart.Write: as `Read`; the same bound stands in `Close` and in `BurstRefill.Refill.Burst`.
- JtagUart.Uart.Irq: the device may raise an enabled interrupt or not, so that one call empties a ring is not claimed; that it serves every interrupt its control reads report is.
- MemTest.TestAddressBus: the exact statement is for memories without stuck bits, which the data bus and device tests are for; shorts between data lines are not modelled.
- MemTest.TestDevice: the tested range must not run past the end of the address space, nor be all of it, where the source's word offsets wrap and the loop does not end. From base address 0, which memories pass is not stated where the first word is both shared and stuck, or always reads as the complement of its number.
- BurstRefill.RunBurst: descriptor construction in the burst loop is taken to succeed; edges that come between the routine's read and its acknowledgement are lost to the hardware and only bounded.
- AlarmRun.Drive: an alarm is not started again while registered, nor stopped before its first start, and callbacks do not edit the list but by their answer; with no clock running nothing can be started (`AlarmList.Clock.Start`).
- IrqDispatch.Controller.Register: what memory lies at an entry written outside the table; the shift is taken to use the lowest five bits of the number, as the processor's does.
- FdPool.Permitted: close and ioctl on a slot that is free, and indices past the table, call through a null or foreign pointer in the source and are outside the model.
- FdPool.Open: name lookup, the `priv` field and whatever a driver's callbacks do beyond returning a status are parameters or absent.
- CacheFlush.DataCache.Flush: the region must end a line short of the end of the address space, where the source's pointer would wrap.
- WallClock.GetAfterSet: the tick counter does not wrap between the set and the get, the seconds stay below 2^31, and the rate divides a million.
- IrqDispatch.Controller.Dispatcher: handlers do not register or disable others; it is entered with a line pending, as the exception entry makes sure.
- Numerals.IntReadsBack: field widths are unbounded; the source's signed width could overflow in a format string of ten digits.
- The small UART driver, the microC/OS branches and the vectored dispatch are not built here; semaphores and event flags are no-ops without an operating system.
- The scatter-gather DMA driver's own code; its two calls are modelled as recording a transfer and returning a status.
- The 8 and 16 bit access test, the DMA test and the flash write tests of the memory tester, and all menus and prompts.
- `alt_busy_sleep`, `alt_sbrk`, profiling, the stub system calls, exit and start-up code.
- The copies of the abstraction layer under `software/testbench_ls_bsp`, which are the same code.
