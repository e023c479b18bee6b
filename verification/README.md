# Kernel module examples, modelled and proved

This Dafny project models the parts of the kernel module examples that hold a real protocol,
allocator, decoder or piece of buffer arithmetic, and proves what they keep over every run.
`dafny verify dfyconfig.toml` checks all of it.

| file | models |
|---|---|
| Rcu.dfy, RcuMemory.dfy | example_rcu.c: publish, wait for a grace period, free |
| Sleep.dfy | sleep.c: exclusive open with a wait queue |
| Dht11.dfy | dht11.c: the sensor decoder and the retries of open |
| Vnetloop.dfy | vnetloop.c: a sequence-counter writer and a retrying reader |
| SyscallSteal.dfy | syscall-steal.c: stacked hooks on one table entry |
| Vinput.dfy, VinputDriver.dfy, KernelList.dfy | vinput.c: id bitmap, device list, export and unexport |
| Blkram.dfy | blkram.c: the scatter/gather transfer of the RAM disk |
| Chardev.dfy, Chardev2.dfy, MessageRead.dfy | chardev.c, chardev2.c and the client other/userspace_ioctl.c |
| Vkbd.dfy, KernelStrtol.dfy, Decimal.dfy | vkbd.c: signed decimals printed and parsed |
| Unwind.dfy | the goto ladders of blkram.c, dht11.c and bottomhalf.c |
| CString.dfy, Common.dfy | zero-terminated buffers; shared small definitions |

## How the sources are modelled

**Protocols.** Code whose point is interleaving (example_rcu.c, sleep.c, vnetloop.c, and the
openers of chardev.c and the ioctls of chardev2.c) is a step system: a state, one action for each
access to shared memory, and `Execute`, which runs any schedule of actions of any number of
processes. Actions that are not enabled leave the state alone, so every schedule is a run. The
theorems are about `Execute(Init(n), schedule)` for all n and all schedules.

**Sequential code.** Functions that work step by step on module state are methods of a class that
holds that state (`RcuMemory.Data`, `Vnetloop.Priv`, `Dht11.Driver`, `Blkram.Disk`, `Chardev2.Device`, `SyscallSteal.System`,
`VinputDriver.Driver`, ...), with the loops and branches of the source, each proved equal to a
specification function; the properties are lemmas about that function. `VinputDriver` works on the
bitmap as an array and on the links of the kernel's list, and refines the sequences of `Vinput`.
The init functions of `Unwind` are written with their gotos, as breaks out of nested blocks.

**Kernel primitives** are steps or small specified operations: compare-and-swap, spinlock, wait
queue (enqueue, check, sleep, dequeue as separate steps), `synchronize_rcu` (records the readers that
are inside when it is called and ends when each has left that section), the sequence counter of
`u64_stats_sync` on a 32-bit multiprocessor, `kstrtol`, `snprintf`, list and bitmap operations. What
an allocator or a registration answers is a parameter. Time in `Dht11` is whole microseconds and the
pin is a function of time.

## Where the code departs from its intent

The model does what the code does; these are stated as theorems.

- vinput.c:209 unlinks a device whose input allocation failed and never clears its bit. The id is
  lost for good (`Vinput.LostForGood`), bitmap and list agree exactly in the runs without that failure
  (`Vinput.BitsAreDevicesAndLosses`), and exports fail for want of ids exactly when devices and losses
  make 32 (`Vinput.OutOfIds`).
- bottomhalf.c:189, in the build with `gpio_request_array`, jumps to fail2: the first IRQ is not freed
  (`Unwind.LegacyKeepsTheFirstIrq`).
- example_rcu.c:71 returns with the first cell published when the thread cannot start
  (`Rcu.ModuleLeaves`).
- chardev2.c:143: setting the empty message is a no-op, and the length counted is one more than that of
  the string, up to 80 (`Chardev2.SetThenGet`, `Chardev2.Device.Scan`).
- dht11.c:111 is reached only on success, so the pin stays an input between failed attempts and only
  the first attempt of an open sends the start signal with the pin an output. Every attempt has sent
  one if and only if the first reading succeeds (`Dht11.Driver.DeviceOpen`); on a line stuck high four
  of five have not (`Dht11.StuckHigh`). The pin is an output at every return of open.
- chardev2.c:168 does not check its index: the call stays inside the buffer if and only if it is not
  for a byte past 80 (`Chardev2.Device.Ioctl`, and concurrently `Chardev2.IoctlsAreSerialised`). The
  read of chardev.c:129 and chardev2.c:68 does not check its offset either (`MessageRead.DeviceRead`).
- blkram.c:62 adds in an unsigned long: the check is passed by a segment outside the disk exactly when
  its end wraps to one inside (`Blkram.StaysInside`), which no request within capacity can do
  (`Blkram.WithinCapacity`).
- vnetloop.c:84 compares a 32-bit counter: exactly when 2^31 transmissions or more may cross one read
  can a mix of two states be returned (`Vnetloop.AtomicIffBelowWrapAround`).
- vkbd.c:65-68: negating the least long gives no positive code (`Vkbd.ReportIsSignAndMagnitude`).
- lkmpg.tex:2060-2071 explains when stacked hooks break; `SyscallSteal.SafeIffRemovalsOnChain` is the
  exact condition. Last-in-first-out histories meet it (`SyscallSteal.LifoIsSafe`), and so do others
  (`SyscallSteal.SafeWithoutLifo`).

## Model

| member | source | states |
|---|---|---|
| Rcu.SharedUpdater | examples/example_rcu.c:45-59 | any updater step keeps the published cell initialised, owned by the publication, and equal to the last entry of the publication log |
| Rcu.OwnUpdater | examples/example_rcu.c:45-59 | an updater's own step keeps what holds of it: it is between lock and unlock exactly when it holds the lock, its new cell is private to it and its old cell held by it |
| Rcu.OtherUpdater | examples/example_rcu.c:50-55 | and it disturbs no other updater: what the other fetched under the lock is still what is shared |
| Rcu.CellUpdater | examples/example_rcu.c:45-59 | it keeps every cell in the one role named for it, and a freed cell in no other |
| Rcu.HolderUpdater | examples/example_rcu.c:52-59 | whatever an updater does, a cell a reader holds stays initialised and its free stays behind a grace period that waits for that reader |
| Rcu.FaultUpdater | examples/example_rcu.c:59 | no updater step frees a cell twice |
| Rcu.StepOfReader | examples/example_rcu.c:23-29 | a reader step dereferences only an initialised, unfreed cell and disturbs no other reader |
| Rcu.Invariant | examples/example_rcu.c:16-62 | in every interleaving of any number of readers and updaters there is an assignment of one role to each cell under which all of the above holds |
| Rcu.ReadersAreSafe | examples/example_rcu.c:23-29 | no use after free, no use before initialisation, no double free, ever; a cell a reader holds is allocated, initialised and not about to be freed |
| Rcu.ReadersSeeAPublication | examples/example_rcu.c:24-28 | what a pass of the reader reports, NULL included, is an entry of the log of publications: the one whose number the pass carries |
| Rcu.ReadersSeeTheLatest | examples/example_rcu.c:24-28 | there is a step of the run at which that pass ran rcu_dereference, and the value reported is the last one published at that step |
| Rcu.ReadersSeeGivenValues | examples/example_rcu.c:24-53 | a value that a reader holds was the argument of an update_data whose kmalloc worked |
| Rcu.OwnershipIsExact | examples/example_rcu.c:45-60 | every allocated cell is in exactly one of: private to one updater, published, held for freeing by one updater, freed; an unallocated one in none |
| Rcu.FreedCell | examples/example_rcu.c:59 | a step frees the cell of an updater past its grace period and no other cell, and never unfrees one |
| Rcu.FreesAreCounted | examples/example_rcu.c:59 | the calls of kfree number exactly the freed cells |
| Rcu.AllocationsBalance | examples/example_rcu.c:45-59 | at every moment allocations equal frees plus live cells |
| Rcu.NothingElseIsLive | examples/example_rcu.c:45-60 | when no update is under way, exactly the published cell is live, if there is one |
| Rcu.RetiredForGood | examples/example_rcu.c:52-59 | a cell that has been unpublished is never published again in any continuation, so readers entering later cannot fetch it |
| Rcu.ReadersNeverWait | examples/example_rcu.c:23-29 | in every interleaving every fourth own step of a reader ends a section: four times its sections, less what is left of the present one, is the number of its steps |
| Rcu.UpdaterWaitsExactly | examples/example_rcu.c:45-60 | in every reachable state an updater waits exactly while another is between lock and unlock, or while a reader is still in the section it was in when the grace period began; otherwise its step brings it nearer to its end; so there is no deadlock |
| Rcu.ModuleIsARun | examples/example_rcu.c:64-98 | every run of the module's init, reader thread and exit is a run of the general system with one reader and one updater |
| Rcu.ModuleLeaves | examples/example_rcu.c:64-98 | init followed by exit leaves nothing live and frees each cell once, whichever kmalloc failed; an init whose thread failed to start leaves its cell live and published if and only if the first kmalloc worked |
| Rcu.ModulePublishes | examples/example_rcu.c:68-91 | once init has returned 0 exactly 42 and then 100 have been published, each if its kmalloc worked; once the module is unloaded NULL after them, in any interleaving |
| Rcu.ModuleCanEnd | examples/example_rcu.c:64-98 | every run can be continued until the module is unloaded, unless its thread fails to start |
| Rcu.SpawnCanLeak | examples/example_rcu.c:68-72 | a run in which the thread fails to start and one cell stays live |
| RcuMemory.Data.UpdateData | examples/example_rcu.c:41-62 | alone, on memory in place: one new cell, initialised with the argument, is published; the old one, and no other, is freed; without memory nothing changes |
| RcuMemory.Data.Exit | examples/example_rcu.c:89-97 | alone, on memory in place: NULL is published and the old cell, and no other, freed |
| RcuMemory.UpdateIsUpdateData | examples/example_rcu.c:41-62 | with no reader inside and no other updater at work, an update of the step system has exactly the effect of the method, whether kmalloc works or not |
| RcuMemory.ExitIsExit | examples/example_rcu.c:89-97 | and so has an exit |
| Sleep.ExclusiveRunStep | examples/sleep.c:96-149 | each step keeps the flag 1 exactly when one process is between its successful compare-and-swap and the clear in close |
| Sleep.WakeupRunStep | examples/sleep.c:118-149 | each step keeps: a process asleep is on the queue, and one about to sleep or asleep implies that the file is held or a close has yet to wake the queue |
| Sleep.CloseStaysInFlight | examples/sleep.c:144-149 | a close between clearing the flag and waking stays there until it wakes |
| Sleep.Safety | examples/sleep.c:93-152 | in every interleaving of blocking, non-blocking and signalled opens and closes both hold: mutual exclusion, with a log in which acquisitions and releases alternate and no refused process owns the file, and no lost wake-up |
| Sleep.AtMostOneOwner | examples/sleep.c:96-144 | two owners are the same process, and then the flag is 1 |
| Sleep.CloserByOne | examples/sleep.c:108-131 | while the file is free each own step of a process inside open brings it nearer to returning |
| Sleep.WaitersProgress | examples/sleep.c:105-149 | in every reachable state with nobody holding the file and no close in flight, each process inside open is runnable and returns within six own steps, with the file unless it saw a signal or a non-blocking open had found the file held |
| Sleep.NonBlockingNeverWaits | examples/sleep.c:105-118 | in every interleaving a process whose last open was with O_NONBLOCK is nowhere in the wait loop, not asleep and not on the queue |
| Sleep.NonBlockingReturns | examples/sleep.c:96-106 | however others are interleaved, a non-blocking open has the file after its first own step if the flag is 0 at its compare-and-swap; otherwise its second own step returns -EAGAIN |
| Sleep.RefusalsAreRight | examples/sleep.c:105-130 | in every interleaving a refusal is a step of the refused process, with -EAGAIN exactly for a non-blocking open and otherwise with -EINTR, and -EINTR only while a visible signal is pending to it |
| Sleep.SeenWasSent | examples/sleep.c:124-125 | such a signal has been sent to it |
| Sleep.SignalledIsAwake | examples/sleep.c:118 | in every interleaving no process to which a signal is pending is asleep |
| Sleep.InterruptedReturns | examples/sleep.c:118-130 | however others are interleaved and whatever the flag does, an opening process with a visible signal pending returns from open within eight own steps |
| Sleep.HeldFilePutsToSleep | examples/sleep.c:108-118 | while the file is held and no signal is pending, a blocking open is asleep after at most seven own steps: it does not spin |
| Sleep.CloseReturns | examples/sleep.c:137-152 | however others are interleaved, the first own step of a close frees the file and the second returns with nobody queued and nobody asleep |
| Dht11.WaitFailsIffStuck | examples/dht11.c:61-66 | a wait gives -1 exactly when the line was stuck for all 301 samples, and otherwise ends at the first sample of the other level |
| Dht11.AttemptTime | examples/dht11.c:54-109 | on any behaviour of the line one attempt requests at most 46,932 us of delay |
| Dht11.ReadData | examples/dht11.c:61-115 | the attempt returns 0, -ETIMEDOUT or -EIO, and 0 only with five bytes |
| Dht11.AcceptedIsRight | examples/dht11.c:107-109 | on any behaviour of the line five bytes are accepted only if the last is the sum of the others modulo 256 |
| Dht11.OneByteIsCaught | examples/dht11.c:107-109 | two readings that differ in exactly one byte are never both accepted |
| Dht11.NextBit | examples/dht11.c:85-102 | from 50 us after one rise the decoder reads the next in-tolerance pulse as its bit and stands 50 us after its rise |
| Dht11.ReadsPulses | examples/dht11.c:82-105 | any number of in-tolerance pulses is read as exactly their bits |
| Dht11.BytesOfFrame | examples/dht11.c:83-104 | assembling the bits of bytes sent most significant first gives the bytes back |
| Dht11.ResponseWaited | examples/dht11.c:61-80 | a proper response of high, low and high phases is waited out to its end |
| Dht11.DecodesWaveform | examples/dht11.c:61-109 | for every in-tolerance waveform of 40 pulses after a proper response, the attempt returns exactly the bytes they stand for, with 0 if the last is the sum of the others modulo 256 and -5 otherwise |
| Dht11.FrameRoundTrip | examples/dht11.c:61-115 | every 5-byte frame with a right checksum, sent with any in-tolerance timing, is returned exactly |
| Dht11.SignalCarries | examples/dht11.c:61-105 | a line built from pulses does carry them: the waveforms assumed above exist for all pulse lengths |
| Dht11.SensorRoundTrip | examples/dht11.c:61-115 | the decoder inverts the encoder of nominal timing on every frame |
| Dht11.OpenStopsAt | examples/dht11.c:122-130 | open stops at the first successful attempt, or after the fifth, which is how many it makes, and requests at most 284,660 us of delay |
| Dht11.StuckHigh | examples/dht11.c:122-130 | on a line stuck high every attempt returns -110 and open makes all five, which take exactly 5 times 30,332 us |
| Decimal.DigitAt | examples/dht11.c:112-113 | what %d prints, position by position: k places from the right stands the digit n / 10^k modulo 10 |
| Decimal.FirstDigit | examples/dht11.c:112-113 | and it has no leading zero |
| Dht11.MessageShows | examples/dht11.c:112-113 | the digits between "Humidity: " and "%" read back as byte 0 and those between "Temperature: " and " deg C" as byte 2, without leading zeros |
| Dht11.OpenShowsFrame | examples/dht11.c:54-125 | open on a sensor that sends a right frame, with any in-tolerance timing, succeeds at once, and its message has the humidity of byte 0 and the temperature of byte 2 in their places |
| Dht11.Driver.StartSignal | examples/dht11.c:54-59 | the pin falls at once, rises after 20,000 us and is an input from then on; the first sample is 20,032 us after the fall |
| Dht11.Driver.WaitWhile | examples/dht11.c:61-63 | the polling loop is the specified wait |
| Dht11.Driver.ReadOneBit | examples/dht11.c:85-102 | one pass of the inner loop reads one more bit and shifts it into the byte |
| Dht11.Driver.ReadByte | examples/dht11.c:83-103 | the inner loop reads eight more bits and returns the byte they make |
| Dht11.Driver.ReadFrame | examples/dht11.c:82-105 | the outer loop fills the array with the five bytes of the 40 bits, or stops where they time out |
| Dht11.Driver.WaitForResponse | examples/dht11.c:61-80 | the three waits before the data |
| Dht11.Driver.Receive | examples/dht11.c:61-109 | everything after the start signal is the specified attempt |
| Dht11.Driver.ReadSensor | examples/dht11.c:48-116 | one attempt: on success the message is the reading and the pin an output again, on failure the message is unchanged and the pin left an input |
| Dht11.Driver.DeviceOpen | examples/dht11.c:118-131 | open is the retry loop above; the pin is an output at every return; exactly one start signal is sent on an output pin, so that every attempt has sent one if and only if the first reading succeeds |
| Vnetloop.TransmitAdds | examples/vnetloop.c:36-41 | a transmission takes the totals over the packets before it, modulo 2^64, to those with it |
| Vnetloop.SixtyFourBits | examples/vnetloop.c:16-19 | a counter is exact below 2^64 and only there, and wraps to the same value after 2^64 |
| Vnetloop.Priv.Xmit | examples/vnetloop.c:23-54 | on the counters in place: without a copy only the tx counters move, and the counters stay the totals of all packets sent |
| Vnetloop.StoresTransmit | examples/vnetloop.c:36-48 | the word stores between begin and end perform exactly one transmission |
| Vnetloop.WriterStep | examples/vnetloop.c:36-48 | every step keeps: memory is the totals of the finished transmissions, or the pending stores complete the current one; the counter is odd exactly then |
| Vnetloop.ReaderStep | examples/vnetloop.c:78-84 | every step keeps: words loaded while the counter has not moved are words of one state |
| Vnetloop.Invariant | examples/vnetloop.c:23-85 | both hold in every interleaving of word accesses |
| Vnetloop.SnapshotIsAtomic | examples/vnetloop.c:78-84 | a snapshot that fewer than 2^31 transmissions crossed equals all four counters after a whole number of transmissions, reached between begin and check |
| Vnetloop.SendThenRead | examples/vnetloop.c:23-85 | from every reachable moment at which nothing is under way, sending a packet and then reading can run to their end and return the totals with that packet |
| Vnetloop.WrapAroundMixes | examples/vnetloop.c:78-84 | a run in which 2^31 transmissions cross a read that returns counters of no moment at all |
| Vnetloop.AtomicIffBelowWrapAround | examples/vnetloop.c:78-84 | a bound on crossing increments makes every snapshot in every run atomic if and only if it is below 2^32 |
| SyscallSteal.InsertKeeps | examples/syscall-steal.c:259-263 | inserting a module keeps the entry resolving through loaded modules only |
| SyscallSteal.RemoveKeeps | examples/syscall-steal.c:280-289 | so does removing a module that calls pass through |
| SyscallSteal.RemoveBreaks | examples/syscall-steal.c:280-289 | removing a loaded module that calls do not pass through leaves the entry resolving through an unloaded one |
| SyscallSteal.SafeIffRemovalsOnChain | examples/syscall-steal.c:241-294 | over any history of any number of modules every openat in between is served by loaded code if and only if each removal is of a module that calls still pass through |
| SyscallSteal.LastInFirstOut | lkmpg.tex:2060-2066 | in every history in which each removed module is the last inserted of the loaded ones, calls pass through exactly the loaded modules and end at the kernel's handler, and the entry is the initial one exactly when all are removed |
| SyscallSteal.LifoIffNeverWarned | examples/syscall-steal.c:280-286 | exactly the last-in-first-out histories never print the warning |
| SyscallSteal.LifoIsSafe | lkmpg.tex:2060-2066 | every openat of a last-in-first-out history is served by loaded code |
| SyscallSteal.SafeWithoutLifo | examples/syscall-steal.c:280-289 | a history that is not last-in-first-out and in which every openat is |
| SyscallSteal.RemovedFromUnder | lkmpg.tex:2067-2069 | removing a module from under another cuts out all above it, and removing the one directly on it leaves the entry at an unloaded handler |
| SyscallSteal.FinalEntry | lkmpg.tex:2060-2069 | removing a whole stack in any order restores the initial entry if and only if the first inserted goes last; otherwise the entry is left at a removed handler |
| SyscallSteal.System.Start | examples/syscall-steal.c:259-263 | saves the entry and overwrites it, in place |
| SyscallSteal.System.End | examples/syscall-steal.c:280-290 | warns exactly when the entry is not the module's own, and writes back what it saved either way |
| SyscallSteal.System.ReadName | examples/syscall-steal.c:142-150 | the do/while loop reports the name with its terminator |
| SyscallSteal.System.Openat | examples/syscall-steal.c:128-162 | a call is served exactly when the chain is loaded; then a module reports the name if and only if it is on the chain and spies on the caller, and reports come from the last inserted to the first |
| Vinput.FirstClear | examples/vinput.c:184 | find_first_zero_bit gives the least clear bit, or the size |
| Vinput.FindTypeIs | examples/vinput.c:39-50 | the type found is the first in the list, last registered first, whose name is character by character a prefix of the text; none is found exactly if there is no such type |
| Vinput.LastRegisteredWins | examples/vinput.c:347-356 | a type just registered is found by every text that begins with its name |
| Vinput.OrderIsKept | examples/vinput.c:369-375 | unlinking entries keeps the others in their order |
| Vinput.DestroyOk | examples/vinput.c:150-159 | destroying a device keeps the registry invariant |
| Vinput.UnregisterOk | examples/vinput.c:359-375 | so does unregistering a type with all its devices: no device keeps a type that is gone |
| Vinput.DestroyUndoes | examples/vinput.c:278-285 | destroying the device just allocated restores bitmap and list exactly |
| Vinput.Invariant | examples/vinput.c:150-378 | over all runs listed ids are distinct, below 32 and have their bit set, type keys are distinct and every listed device has a registered type |
| Vinput.ExportOutcome | examples/vinput.c:254-287 | export succeeds exactly when some type is a prefix of the text and memory, id, input device, registration and init all work; then the new device comes first with the least clear bit and the first such type; each way to fail has its error code; a failed export changes nothing if and only if it is not the failed input allocation, which leaves the bit set |
| Vinput.UnexportOutcome | examples/vinput.c:300-322 | unexport succeeds exactly when the text parses as the id of a listed device; then that device and its bit are gone and all others stay; otherwise -EINVAL or -ENODEV, and nothing changes |
| Vinput.ExportUnexport | examples/vinput.c:254-320 | exporting and then writing the id to unexport, with or without a newline, restores the registry |
| Vinput.UnregisterLeavesTheOthers | examples/vinput.c:359-375 | unregistering leaves exactly the devices of other types, as a map by id and in order, and clears exactly the bits of the others |
| Vinput.UnregisterDropsTheType | examples/vinput.c:364-366 | and exactly the type itself is gone from the list of types, the others in their order |
| Vinput.MapIs | examples/vinput.c:56-72 | a device is listed exactly when the finite map by id has it |
| Vinput.LostStep | examples/vinput.c:194-216 | an operation loses a bit exactly when its input allocation fails: the one it had just taken, which was not lost before |
| Vinput.LossesAreCounted | examples/vinput.c:209-216 | over every run the set bits without a device number exactly the failed input allocations |
| Vinput.BitsAreDevicesAndLosses | examples/vinput.c:150-216 | over every run set bits number devices plus failed input allocations, and bitmap and list agree if and only if there was none |
| Vinput.OutOfIds | examples/vinput.c:184-188 | no id is left exactly when devices and losses make 32 |
| Vinput.LostForGood | examples/vinput.c:209-216 | in every continuation a lost bit stays set and no device has its id |
| KernelList.AddLinks | examples/vinput.c:190 | the four link updates of list_add put the entry right after the head of the ring |
| KernelList.DelLinks | examples/vinput.c:154 | the two link updates of list_del take an entry out of the ring and keep it a ring |
| KernelList.List.Add | examples/vinput.c:190 | list_add on the links, in place |
| KernelList.List.Del | examples/vinput.c:154 | list_del on the links, in place; the entry is not linked any more |
| VinputDriver.Driver.GetDeviceByType | examples/vinput.c:32-51 | the walk over the types finds the first whose name is character by character a prefix of the text, and none exactly if there is no such type |
| VinputDriver.Driver.GetVdeviceById | examples/vinput.c:56-72 | the walk along the links finds the device with the id if and only if one is listed, also when it falls off the end |
| VinputDriver.Driver.FindFirstZeroBit | examples/vinput.c:184 | the least clear bit of the array |
| VinputDriver.Driver.DestroyVdevice | examples/vinput.c:150-159 | unlinks, clears the bit and frees: the specified destroy |
| VinputDriver.Driver.AllocVdevice | examples/vinput.c:171-217 | for each way to fail, the state it leaves: unchanged, except that a failed input allocation leaves the bit set |
| VinputDriver.Driver.ExportStore | examples/vinput.c:254-287 | the specified export, with nothing allocated that is not listed |
| VinputDriver.Driver.Admit | examples/vinput.c:267-287 | a failing registration or init destroys the device just once |
| VinputDriver.Driver.UnexportStore | examples/vinput.c:300-322 | the specified unexport |
| VinputDriver.Driver.Register | examples/vinput.c:347-356 | the type becomes the first of the list |
| VinputDriver.SafeNext | examples/vinput.c:369 | the successor saved by list_for_each_safe is still linked, and still the next to visit, after the visited entry has been unlinked or kept |
| VinputDriver.Driver.Sweep | examples/vinput.c:369-375 | the loop, although it unlinks entries while it walks, visits every device once and destroys those of the type |
| VinputDriver.Driver.Unregister | examples/vinput.c:359-378 | the specified unregister |
| Blkram.FittingIs | examples/blkram.c:57-64 | a segment is served exactly when it, and so all before it, end within the disk |
| Blkram.SucceedsIffFits | examples/blkram.c:54-85 | a request succeeds if and only if its last byte is on the disk |
| Blkram.HoldsLastWritten | examples/blkram.c:54-85 | after any history of requests, overruns and passthroughs included, every byte is the one last written there, or 0 |
| Blkram.ReadsLastWritten | examples/blkram.c:57-83 | a READ after any history returns the bytes last written in every segment before the first overrun, and leaves the segments from it on alone |
| Blkram.SplitDoesNotMatter | examples/blkram.c:57-83 | within the disk it does not matter how the bytes of a WRITE are split into segments |
| Blkram.ReadsTheStretch | examples/blkram.c:57-83 | within the disk the segments of a READ, put together, are the stretch asked for, however it is split |
| Blkram.ConcatIsFlat | examples/blkram.c:57-83 | the bytes of the first segments are those segments strung together |
| Blkram.WriteChangesItsSectors | examples/blkram.c:54-83 | a WRITE of n sectors at sector s within the disk changes byte x exactly if s <= x / 512 < s + n, into byte (x / 512 - s) * 512 + x % 512 of its segments strung together |
| Blkram.LastWrittenInSector | examples/blkram.c:54-83 | what was last written at byte x is what was last written at place x % 512 of sector x / 512 |
| Blkram.ReadsTheSector | examples/blkram.c:54-83 | after any history a READ of sector s succeeds and gives, at every place, what was last written at that place of that sector |
| Blkram.StaysInside | examples/blkram.c:55-64 | a request leaves the buffer if and only if the end of its first segment that does not fit wraps, in an unsigned long, to one on the disk; never while its end is below 2^64 |
| Blkram.SectorOffset | examples/blkram.c:54-55 | the byte offset of a sector is right exactly below sector 2^55, and beyond it is that of another sector |
| Blkram.SectorsFollow | examples/blkram.c:54-55 | sector 0 begins at byte 0, and every sector 512 bytes after the one before |
| Blkram.CapacityIsExact | examples/blkram.c:130-131 | capacity times 512 equals the buffer size, even when the multiplication wraps, and below 2^44 MiB that is 1,048,576 bytes for each |
| Blkram.WithinCapacity | examples/blkram.c:54-85 | a request within the announced capacity never fails, and nothing in it wraps |
| Blkram.Create | examples/blkram.c:130-137 | there is no disk if and only if memory is lacking or the size wraps to 0; otherwise the buffer has the computed size and is all zero |
| Blkram.Disk.CopySegment | examples/blkram.c:67-80 | one memcpy in either direction changes exactly the bytes of one segment |
| Blkram.Disk.CopySegments | examples/blkram.c:57-83 | the segment loop copies exactly the segments before the first that does not fit, and then succeeds, fails or is about to leave the buffer, as specified |
| Blkram.Disk.Transfer | examples/blkram.c:50-86 | the transfer is the specified one from the offset an unsigned long has, and below sector 2^55 from the true offset |
| Blkram.Disk.QueueRq | examples/blkram.c:88-105 | passthrough requests fail and change nothing, others are transferred; a request is started and ended exactly once |
| MessageRead.DeviceRead | examples/chardev.c:120-152 | the copy loop returns the next bytes up to the length asked or the terminator, and the offset returns to 0 at the end; it looks outside the buffer exactly when the offset given lies there |
| MessageRead.NextPage | examples/chardev.c:129-151 | a read returns as many bytes as asked or as are left, whichever is less; it is empty exactly at the end of the message, and otherwise extends what was read by the next page |
| MessageRead.PagesMakeTheMessage | examples/chardev2.c:56-95 | for every sequence of positive lengths the results up to the first empty one make exactly the message, the offset is then 0 again, and that takes at most one read a byte |
| Chardev.GreetingFits | examples/chardev.c:103 | the greeting fits the buffer with its terminator, for every value of the counter, wrapped ones included |
| Chardev.GreetingTells | examples/chardev.c:103 | between the words of the greeting stands, read back and without leading zeros, the number of earlier opens as an int of 32 bits: exactly, below 2^31 |
| Chardev.Device.Sprintf | examples/chardev.c:103 | the text is stored with its terminator |
| Chardev.Device.Open | examples/chardev.c:96-106 | open succeeds exactly when the device is free, and then the buffer holds the greeting with the number of earlier successful opens; otherwise nothing changes |
| Chardev.Device.Release | examples/chardev.c:109-115 | the device is free again |
| Chardev.Invariant | examples/chardev.c:96-115 | in every interleaving at most one process is inside, and the buffer holds as much of its greeting as it has stored |
| Chardev.HolderReadsItsGreeting | examples/chardev.c:100-105 | a holder is alone and reads the greeting that counts the successful opens before its own |
| Chardev.TextIsStable | examples/chardev.c:100-112 | until the holder closes, the text does not change whatever others do |
| Chardev.OpenTakesTheFreeDevice | examples/chardev.c:100-103 | in every reachable state an open gets the device exactly when nobody has it or is getting it |
| Chardev.OpenReturns | examples/chardev.c:103-105 | such an open returns after storing its text, one character a step, whatever the others do in between |
| Chardev.CloseFrees | examples/chardev.c:109-115 | the holder's close leaves nobody inside |
| Chardev2.SetThenGet | examples/chardev2.c:134-163 | after setting any string, terminated or not, get returns its first 80 bytes and a terminator; setting the empty string changes nothing |
| Chardev2.WriteLeavesTheTail | examples/chardev2.c:98-110 | after a plain write of any bytes the text ends at the first zero among the first 80; without one it goes on with the text that stood behind them |
| Chardev2.After | examples/chardev2.c:105-109 | under every history of writes and sets byte 80 of the buffer is zero |
| Chardev2.GetFits | examples/other/userspace_ioctl.c:36-45 | get never fills more than 81 bytes of the client's 100 |
| Chardev2.Device.WriteBytes | examples/chardev2.c:98-110 | the copy loop stores at most 80 bytes and returns how many |
| Chardev2.Device.Scan | examples/chardev2.c:143-145 | the scan that fetches the first byte twice counts one more than the string's length, at most 80, and 0 for the empty string |
| Chardev2.Device.Ioctl | examples/chardev2.c:121-176 | a caller that finds the device busy is refused without effect; otherwise the specified effect and answer; the byte asked for is answered as the signed number of eight bits congruent to it; the call stays inside the buffer if and only if it is not a GET_NTH_BYTE past byte 80 |
| Chardev2.SignedCharIs | examples/chardev2.c:168 | a byte as a char is the number from -128 to 127 that is congruent to it modulo 256 |
| Chardev2.Device.GetByteByByte | examples/other/userspace_ioctl.c:55-74 | what the client prints, made of the replies alone, is exactly the message and its terminator in length plus one calls, at most 81, if the message is ASCII; otherwise it stops at the first byte that is not |
| Chardev2.IoctlsAreSerialised | examples/chardev2.c:128-173 | in every interleaving of their bytes every completed ioctl has answered as in the serial order of completion, a GET_NTH_BYTE with the signed number congruent to the byte that order leaves; it looked outside the buffer exactly for a byte past 80; with nobody inside the buffer is what that order leaves; and at most one caller is inside |
| Chardev2.GetReturnsLastSet | examples/chardev2.c:128-173 | every completed get returned the message of the last non-empty set completed before it |
| Chardev2.TakenWhileInside | examples/chardev2.c:128-173 | the device is taken exactly while a caller is inside |
| Chardev2.IoctlReturns | examples/chardev2.c:128-176 | a call that finds nobody inside is let in and is the next to complete, after at most 82 own steps, whatever others try in between |
| KernelStrtol.ParseDigits | examples/vkbd.c:55-58 | some digits, with or without a newline, parse as the number they print |
| KernelStrtol.KstrtolIs | examples/vkbd.c:55-58 | a text parses as v if and only if v fits a long and the text is a sign or none, digits for the magnitude of v, and a newline or none |
| Vkbd.ReportIsSignAndMagnitude | examples/vkbd.c:65-74 | press or release is the sign; the key is the magnitude for every entry but the least long; the code is congruent to it modulo 2^32 and equal to it for exactly the entries of that size |
| Vkbd.PrintedReads | examples/vkbd.c:40 | an entry is printed as plus or minus, digits without leading zeros that read back as its magnitude, and a newline |
| Vkbd.ReadSendRoundTrip | examples/vkbd.c:37-63 | sending back what read printed into n bytes stores the same entry if and only if n has room for all but the terminator, or the entry is 0 |
| Vkbd.RoomForAnyLong | examples/vkbd.c:40 | 21 bytes are enough for every long |
| Vkbd.Keyboard.constructor | examples/vkbd.c:18-35 | both loops: exactly the codes below KEY_MAX are declared |
| Vkbd.Keyboard.Read | examples/vkbd.c:37-44 | the entry as a signed decimal, cut to the buffer with its terminator, or nothing for length 0; the length returned is that of the whole text |
| Vkbd.Keyboard.Send | examples/vkbd.c:46-79 | the entry parsed, 0 on error, is stored and reported |
| Unwind.UnwindIsExact | examples/blkram.c:115-239 | in a well-labelled ladder of any length, whichever step fails first, exactly what was acquired is released, once each, in reverse order, and its error is returned |
| Unwind.ExactIffWellLabelled | examples/dht11.c:236-249 | of the ladders of any length whose labels exist, exactly the well-labelled ones unwind every run exactly |
| Unwind.BlkramInit | examples/blkram.c:115-240 | blkram_init with its gotos is the ladder BLKRAM |
| Unwind.Dht11Init | examples/dht11.c:165-252 | dht11_init with its gotos is the ladder DHT11 |
| Unwind.BottomhalfInit | examples/bottomhalf.c:77-237 | bottomhalf_init without gpio_request_array is the ladder BOTTOMHALF |
| Unwind.LegacyInit | examples/bottomhalf.c:77-237 | bottomhalf_init with gpio_request_array is the ladder LEGACY |
| Unwind.BlkramReturns | examples/blkram.c:115-240 | what blkram_init returns, from the results of its calls: the first failure by each call's own test, -12 for the allocations, or 0 |
| Unwind.Dht11Returns | examples/dht11.c:165-252 | the same for dht11_init |
| Unwind.BottomhalfReturns | examples/bottomhalf.c:84-224 | the same for bottomhalf_init without gpio_request_array |
| Unwind.LegacyReturns | examples/bottomhalf.c:84-237 | the same for bottomhalf_init with gpio_request_array |
| Unwind.BlkramIsWellLabelled | examples/blkram.c:231-238 | every label of blkram_init fits |
| Unwind.Dht11IsWellLabelled | examples/dht11.c:236-249 | every label of dht11_init fits |
| Unwind.BottomhalfIsWellLabelled | examples/bottomhalf.c:214-224 | every label of bottomhalf_init fits, without gpio_request_array |
| Unwind.FailedInitLeavesNothing | examples/bottomhalf.c:84-224 | in these three builds a failed init releases exactly what it acquired, in reverse order |
| Unwind.LegacyKeepsTheFirstIrq | examples/bottomhalf.c:181-191 | the remaining build does so if and only if the second gpio_to_irq is not what failed; then the first IRQ stays |
| Unwind.BlkramExitReleasesAll | examples/blkram.c:242-253 | exit releases everything a successful init holds, once |
| Unwind.Dht11ExitReleasesAll | examples/dht11.c:254-263 | exit releases everything a successful init holds, once |
| Unwind.BottomhalfExitReleasesAll | examples/bottomhalf.c:239-260 | exit releases everything a successful init holds, once, though not in reverse order |
| Unwind.LegacyExitReleasesAll | examples/bottomhalf.c:239-263 | exit of the build with gpio_request_array releases everything once |
| Unwind.BlkramExitReverses | examples/blkram.c:244-252 | in reverse order of acquisition; so the data of the disk before the device that points to it |
| Unwind.Dht11ExitReverses | examples/dht11.c:254-263 | in reverse order of acquisition |
| Unwind.IrqsBeforePins | examples/bottomhalf.c:243-263 | in both builds both IRQs are freed before any pin |

## Left out

- The interleaved parts (example_rcu.c, sleep.c, vnetloop.c, openers of chardev.c, concurrent ioctls of
  chardev2.c) are step systems on values; code that updates memory in place stands beside them only
  where a function makes sense alone, which `module_open` of sleep.c and the retrying reader of
  vnetloop.c do not. Steps are sequentially consistent, so weak memory ordering is not modelled.
- Rcu: a cell is named by its allocation, so reuse of an address after kfree is not modelled; the
  messages printed by reader and updater and the sleeps between calls are left out.
- Sleep: the /proc read and write functions and their message buffer are left out, as are the signal
  words; whether a signal interrupts the sleep and whether the scan finds it are two sets that change
  at any moment.
- Dht11: `device_read`, the electrical behaviour of the pin, and delays that last longer than requested;
  `AttemptTime` counts requested delays.
- Vnetloop: only the 32-bit multiprocessor variant of `u64_stats_sync`, with one transmission at a
  time; the network stack and `netif_rx` are not part of this model.
- SyscallSteal: symbol lookup, the cr0 writes, kprobes and the memory of unloaded code; only the table
  entry and the saved pointers are modelled.
- Vinput: `vinput_read` and `vinput_write` length handling, the input subsystem, and concurrent calls;
  the list of types is a sequence, the list of devices is linked. A device is released at
  `device_unregister`, so files that keep it open are not modelled.
- VinputDriver.Driver.Register: requires that the type is not registered already, which list_add
  demands of its caller; Unregister requires the opposite.
- Blkram.HoldsLastWritten: offsets are true numbers, as the driver has them below sector 2^55; a request
  that `Blkram.StaysInside` shows to leave the buffer is outside what it and the other laws promise.
- Blkram.Disk.CopySegments: stops before a memcpy that would leave the buffer and reports it; what such
  a copy would do to memory is not modelled. The segments of a READ are values, so two segments that
  share a page are not modelled.
- Chardev2.Device.Ioctl: what a byte outside the buffer holds is not modelled; and the user's buffer
  must be readable for 80 bytes or up to a terminator, user-pointer faults being left out.
- Chardev2.IoctlsAreSerialised: plain device_write does not take the guard, so it is not part of the
  concurrent system; `Chardev2.After` covers it sequentially.
- User-pointer faults, logging, version guards other than the chosen branches, and the real GPIO, IRQ,
  block and character-device subsystems.
- The examples that only register something or repeat these patterns in a simpler form: hello, kbleds,
  dma, kmem_cache, tasklets, locks, completions, intrpt, bh_threaded, led, static_key, procfs, sysfs,
  debugfs and ioctl examples.
