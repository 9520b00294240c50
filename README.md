# OpenCores I2C transfer engine, FPGA I2C mux and APPL_DB BGP handlers

This project models three pieces of the Pensando Taormina platform support
of SONiC and proves properties of them.

- **The polling-mode transfer engine of `fpga_i2c_ocores.c`.** It drives an
  OpenCores I2C controller through a window of eight 32-bit registers.
  - The register window is a `Bus` object: a log of every 32-bit write, and
    the sequence of values successive 32-bit reads return. An exhausted
    sequence reads as a failed PCIe read (all ones).
  - The controller record (`state`, `cur_msg`, `cur_byte`, `cur_slave`,
    `errno`, the message chain and the adapter mutex) is a `Controller`
    object. Every state handler, `oci2c_process`, the polling branch of
    `oci2c_wait` and `oci2c_xfer` are methods that update it in place.
  - Every handler is proved to do exactly what a pure function of module
    `OcoresFsm` describes: one function per handler, `Step` for the switch,
    `RunSteps` for the loop of `oci2c_process`, and `Process`.
  - The properties are proved about those functions in `OcoresProps`:
    - what each handler sends and in which order;
    - how the chain moves between messages;
    - that special operations end the chain;
    - that the loop makes progress whatever the hardware reports;
    - the complete register traces of a single write and of a single read
      transaction on an idle bus.
  - The polling back-off is the pure function `OcoresPoll.BackoffFor`.
  - Address frames follow section 3.1.10 of the I2C-bus specification
    UM10204. The slave-reset special operation is the bus clear of its
    section 3.1.16. Special operations go to the reserved CBUS address of its
    section 3.1.12.
- **The channel cache of `fpga_i2c_mux.c`.** The cache is one select
  register and `last_chan`. Select writes the register only on a change of
  channel, deselect always writes it, and a sysfs attribute reads the
  register back and stores into it directly. The model is the pure
  `MuxState` functions, plus the class `Mux` whose methods are proved equal
  to them.
- **The BGP_GLOBAL and BGP_NEIGHBOR handlers of `managers_appl_bgp.py`.**
  Each turns one table update into the list of FRR commands it pushes. The
  handlers keep `bgp_enabled` and `local_asn`.
  - A table row is a sequence of (field, value) pairs in row order.
  - The pushed list is the handler's result, `None` when nothing is pushed.
  - The lookup of `local_asn` in the BGP_GLOBAL slot of the directory is an
    optional input.

Files:

- `ocores_regs.dfy` holds registers, bits, composite commands, errno values
  and register accesses.
- `ocores_fsm.dfy` holds the state machine as functions.
- `ocores_poll.dfy` holds the back-off.
- `ocores_driver.dfy` holds the imperative driver and the rounds of its
  transfer loop.
- `seq_lemmas.dfy` holds three facts about sequence prefixes and
  concatenation.
- `ocores_props.dfy` holds the properties.
- `i2c_mux.dfy` holds the mux.
- `app_bgp.dfy` holds the BGP handlers.

## Model

| member | source | states |
|---|---|---|
| OcoresRegs.LowByte | platform/broadcom/sonic-platform-modules-pensando/taormina/modules/fpga_i2c_ocores.c:323-326 | getreg keeps only the low byte of the 32-bit read |
| OcoresRegs.FailedReadLooksBusy | platform/broadcom/sonic-platform-modules-pensando/taormina/modules/fpga_i2c_ocores.c:145-150 | a failed read (0xFF after truncation) reads as busy, arbitration lost, no-ack and transfer in progress |
| OcoresFsm.AddrFrame | platform/broadcom/sonic-platform-modules-pensando/taormina/modules/fpga_i2c_ocores.c:531 | the START data byte fits a u8, carries R/W in bit 0, and for a 7-bit address carries the address in bits 7..1 |
| OcoresFsm.SpecialOp | platform/broadcom/sonic-platform-modules-pensando/taormina/modules/fpga_i2c_ocores.c:431-473 | fails exactly for an opcode other than MUX_SET, RST_CONTLR and RST_SLAVE, writing nothing then; writes only composite commands |
| OcoresFsm.StoreByte | platform/broadcom/sonic-platform-modules-pensando/taormina/modules/fpga_i2c_ocores.c:596-601 | the received byte lands at the cursor of the current message and every other byte and message is unchanged |
| OcoresFsm.Step | platform/broadcom/sonic-platform-modules-pensando/taormina/modules/fpga_i2c_ocores.c:664-688 | every handler keeps the cursor invariant, keeps the shape of the chain, touches only the buffer of the current read message, and writes only composite commands |
| OcoresFsm.PreStartKeeps | platform/broadcom/sonic-platform-modules-pensando/taormina/modules/fpga_i2c_ocores.c:478-498 | PRE_START keeps the cursor invariant and the chain |
| OcoresFsm.StartKeeps | platform/broadcom/sonic-platform-modules-pensando/taormina/modules/fpga_i2c_ocores.c:501-540 | START keeps the cursor invariant and the chain, and writes only composite commands |
| OcoresFsm.DataKeeps | platform/broadcom/sonic-platform-modules-pensando/taormina/modules/fpga_i2c_ocores.c:543-590 | DATA keeps the cursor invariant: READ or WRITE only with a byte left |
| OcoresFsm.ReadKeeps | platform/broadcom/sonic-platform-modules-pensando/taormina/modules/fpga_i2c_ocores.c:593-602 | READ changes only the buffer of the current read message |
| OcoresFsm.WriteKeeps | platform/broadcom/sonic-platform-modules-pensando/taormina/modules/fpga_i2c_ocores.c:605-620 | WRITE keeps the cursor invariant |
| OcoresFsm.StopKeeps | platform/broadcom/sonic-platform-modules-pensando/taormina/modules/fpga_i2c_ocores.c:623-634 | STOP keeps the cursor invariant and writes only composite commands |
| OcoresFsm.RunSteps | platform/broadcom/sonic-platform-modules-pensando/taormina/modules/fpga_i2c_ocores.c:659-691 | the loop consumes at least one read, and returns 0 only in DONE or EXIT |
| OcoresFsm.Process | platform/broadcom/sonic-platform-modules-pensando/taormina/modules/fpga_i2c_ocores.c:646-692 | a pending ETIMEDOUT or EPROTO forces STOP then IACK, ends in DONE and returns 0; otherwise the loop runs |
| OcoresFsm.RunStepsPreserves | platform/broadcom/sonic-platform-modules-pensando/taormina/modules/fpga_i2c_ocores.c:659-689 | for any hardware replies the loop keeps the invariant and the chain's shape, leaves write buffers intact and writes only composite commands |
| OcoresFsm.ProcessPreserves | platform/broadcom/sonic-platform-modules-pensando/taormina/modules/fpga_i2c_ocores.c:646-692 | the same for a whole call of oci2c_process, forced ending included |
| OcoresPoll.BackoffFor | platform/broadcom/sonic-platform-modules-pensando/taormina/modules/fpga_i2c_ocores.c:761-777 | times out exactly at 2000us elapsed; otherwise sleeps at least 10us and never schedules past the timeout by more than 200us |
| OcoresPoll.SleepSpendsBudget | platform/broadcom/sonic-platform-modules-pensando/taormina/modules/fpga_i2c_ocores.c:749-777 | every sleep uses up part of a finite budget, so one wait reads STATUS at most 23 times |
| Ocores.EnableSequence | platform/broadcom/sonic-platform-modules-pensando/taormina/modules/fpga_i2c_ocores.c:359-382 | the enable sequence disables first, programs prescale 124 (low byte, then high byte), clears the interrupt, and enables last, keeping the other control bits and never setting IEN |
| Ocores.EnableCheck | platform/broadcom/sonic-platform-modules-pensando/taormina/modules/fpga_i2c_ocores.c:818-835 | an enabled controller is not rewritten; a disabled one gets the enable sequence; the transfer proceeds only when CONTROL then reads enabled |
| Ocores.Func | platform/broadcom/sonic-platform-modules-pensando/taormina/modules/fpga_i2c_ocores.c:891-894 | plain I2C, NOSTART and the whole SMBus emulation set; no 10-bit addressing and no protocol mangling |
| Ocores.RanPreserves | platform/broadcom/sonic-platform-modules-pensando/taormina/modules/fpga_i2c_ocores.c:646-692 | one call of process keeps the cursor invariant, the shape of the chain and the buffers of write messages |
| Ocores.RoundsPreserve | platform/broadcom/sonic-platform-modules-pensando/taormina/modules/fpga_i2c_ocores.c:846-865 | however many rounds of process and wait the loop makes, the last one leaves the cursor invariant kept, the chain with the shape it started with and its write buffers untouched |
| Ocores.ChainEnd | platform/broadcom/sonic-platform-modules-pensando/taormina/modules/fpga_i2c_ocores.c:846-865 | a finished chain ends in DONE or EXIT and, without an error, past the last message or at a CBUS message |
| Ocores.TimeoutEndsChain | platform/broadcom/sonic-platform-modules-pensando/taormina/modules/fpga_i2c_ocores.c:847-849 | a wait that times out makes the next call of process the last one: it writes exactly STOP then IACK and ends in DONE with ETIMEDOUT |
| Ocores.IdleRound | platform/broadcom/sonic-platform-modules-pensando/taormina/modules/fpga_i2c_ocores.c:847-849 | a STATUS read with TIP at the head of the loop of process, then one without TIP at the first poll of the wait, make a round that writes nothing and leaves the record as it was, so the replies alone bound the number of rounds |
| Ocores.Controller.SetReg | platform/broadcom/sonic-platform-modules-pensando/taormina/modules/fpga_i2c_ocores.c:317-320 | one 32-bit write of the zero-extended byte at reg*4 |
| Ocores.Controller.GetReg | platform/broadcom/sonic-platform-modules-pensando/taormina/modules/fpga_i2c_ocores.c:323-326 | one 32-bit read, truncated to its low byte |
| Ocores.Controller.IsBusBusy | platform/broadcom/sonic-platform-modules-pensando/taormina/modules/fpga_i2c_ocores.c:329-340 | the BUSY bit of one status read; a failed read counts as busy |
| Ocores.Controller.IsEnabled | platform/broadcom/sonic-platform-modules-pensando/taormina/modules/fpga_i2c_ocores.c:343-347 | the EN bit of one CONTROL read |
| Ocores.Controller.Disable | platform/broadcom/sonic-platform-modules-pensando/taormina/modules/fpga_i2c_ocores.c:350-356 | CONTROL rewritten with EN and IEN cleared and every other bit kept |
| Ocores.Controller.Enable | platform/broadcom/sonic-platform-modules-pensando/taormina/modules/fpga_i2c_ocores.c:359-382 | one CONTROL read, the five writes of the enable sequence, at least 1000us of sleep, and a return of 0 |
| Ocores.Controller.SendCmd | platform/broadcom/sonic-platform-modules-pensando/taormina/modules/fpga_i2c_ocores.c:385-394 | the data byte, then the command |
| Ocores.Controller.NextMsg | platform/broadcom/sonic-platform-modules-pensando/taormina/modules/fpga_i2c_ocores.c:397-418 | the record becomes exactly OcoresFsm.NextMsg of the old record |
| Ocores.Controller.SpecialOp | platform/broadcom/sonic-platform-modules-pensando/taormina/modules/fpga_i2c_ocores.c:424-474 | the writes are those of OcoresFsm.SpecialOp of the first two buffer bytes; an unknown opcode sets EBADMSG |
| Ocores.Controller.HandlePreStart | platform/broadcom/sonic-platform-modules-pensando/taormina/modules/fpga_i2c_ocores.c:478-498 | record, chain and writes are exactly PreStartStep's; no register is read |
| Ocores.Controller.HandleStart | platform/broadcom/sonic-platform-modules-pensando/taormina/modules/fpga_i2c_ocores.c:501-540 | exactly StartStep's, with STATUS read only on the first message |
| Ocores.Controller.HandleData | platform/broadcom/sonic-platform-modules-pensando/taormina/modules/fpga_i2c_ocores.c:543-590 | exactly DataStep's on the status read |
| Ocores.Controller.HandleRead | platform/broadcom/sonic-platform-modules-pensando/taormina/modules/fpga_i2c_ocores.c:593-602 | exactly ReadStep's on the DATA register read |
| Ocores.Controller.HandleWrite | platform/broadcom/sonic-platform-modules-pensando/taormina/modules/fpga_i2c_ocores.c:605-620 | exactly WriteStep's on the status read |
| Ocores.Controller.HandleStop | platform/broadcom/sonic-platform-modules-pensando/taormina/modules/fpga_i2c_ocores.c:623-634 | exactly StopStep's |
| Ocores.Controller.HandleDone | platform/broadcom/sonic-platform-modules-pensando/taormina/modules/fpga_i2c_ocores.c:637-642 | exactly DoneStep's |
| Ocores.Controller.Dispatch | platform/broadcom/sonic-platform-modules-pensando/taormina/modules/fpga_i2c_ocores.c:664-688 | the switch does exactly Step, reading a register exactly when StepReads says so, and keeps the invariant |
| Ocores.Controller.Turn | platform/broadcom/sonic-platform-modules-pensando/taormina/modules/fpga_i2c_ocores.c:659-689 | one loop turn emits the Step writes and leaves RunSteps of the rest to account for the remainder |
| Ocores.Controller.Process | platform/broadcom/sonic-platform-modules-pensando/taormina/modules/fpga_i2c_ocores.c:646-692 | record, chain, writes, remaining reads and return value are exactly OcoresFsm.Process's |
| Ocores.Controller.RunLoop | platform/broadcom/sonic-platform-modules-pensando/taormina/modules/fpga_i2c_ocores.c:659-691 | with no error forcing the end, the loop of oci2c_process and its exit do exactly OcoresFsm.RunSteps: record, chain, writes, remaining reads and return value |
| Ocores.Controller.LoopEnd | platform/broadcom/sonic-platform-modules-pensando/taormina/modules/fpga_i2c_ocores.c:683-691 | once the loop stops, a status with TIP returns 1 and writes nothing, DONE sends IACK and returns 0, EXIT returns 0 silently, exactly as RunSteps ends |
| Ocores.Controller.Wait | platform/broadcom/sonic-platform-modules-pensando/taormina/modules/fpga_i2c_ocores.c:730-797 | returns 0 after a status without TIP, or sets and returns ETIMEDOUT after at least 2000us; every earlier status showed TIP; at most 23 reads |
| Ocores.Controller.EnsureEnabled | platform/broadcom/sonic-platform-modules-pensando/taormina/modules/fpga_i2c_ocores.c:818-835 | reads, writes and verdict are exactly EnableCheck's |
| Ocores.Controller.Advance | platform/broadcom/sonic-platform-modules-pensando/taormina/modules/fpga_i2c_ocores.c:646-692 | one call of oci2c_process: record, chain, writes, remaining reads and return value are exactly OcoresFsm.Process's; it keeps the invariant and the chain's shape, consumes a read unless an error is pending, and returns 0 only in DONE or EXIT |
| Ocores.Controller.WaitAndPad | platform/broadcom/sonic-platform-modules-pensando/taormina/modules/fpga_i2c_ocores.c:847-864 | the wait and the pad after process returned 1: the next round starts on the same chain and record, with ETIMEDOUT set exactly when the wait saw no status without TIP; no write, and a read consumed |
| Ocores.Controller.Resume | platform/broadcom/sonic-platform-modules-pensando/taormina/modules/fpga_i2c_ocores.c:846-864 | a turn of the loop after process returned 1: wait, pad, and process again; the round it makes follows the previous one and its writes are appended to the log |
| Ocores.Controller.NextRound | platform/broadcom/sonic-platform-modules-pensando/taormina/modules/fpga_i2c_ocores.c:846-864 | one more turn of the loop extends the chain of rounds by the round it makes, and appends exactly that round's writes |
| Ocores.Controller.Reset | platform/broadcom/sonic-platform-modules-pensando/taormina/modules/fpga_i2c_ocores.c:836-843 | the controller holds the chain, in PRE_START at message 0, byte 0, slave 0 with errno 0, and the cursor invariant holds |
| Ocores.Controller.Begin | platform/broadcom/sonic-platform-modules-pensando/taormina/modules/fpga_i2c_ocores.c:836-846 | the chain starts in PRE_START at message 0, byte 0, slave 0 with no error, and the first call of process is its first round |
| Ocores.Controller.RunChain | platform/broadcom/sonic-platform-modules-pensando/taormina/modules/fpga_i2c_ocores.c:836-865 | resets the state machine to PRE_START on the chain, then runs it; the writes are those of the rounds in order, each round follows the one before, the last returned 0; DONE or EXIT, shape and write buffers intact, and without an error DONE after the last message or EXIT at a CBUS message |
| Ocores.Controller.Conclude | platform/broadcom/sonic-platform-modules-pensando/taormina/modules/fpga_i2c_ocores.c:868-888 | one more CONTROL read: -EACCES exactly when EN is clear, otherwise minus the errno, or the number of messages when errno is 0 |
| Ocores.Controller.Transact | platform/broadcom/sonic-platform-modules-pensando/taormina/modules/fpga_i2c_ocores.c:815-888 | -EACCES when the controller cannot be enabled, writing only the enable sequence; otherwise the log is the enable check's writes then the rounds', one more CONTROL read follows the last round, and the result is -EACCES exactly when that read shows EN clear, else minus the errno, else the number of messages |
| Ocores.Controller.Xfer | platform/broadcom/sonic-platform-modules-pensando/taormina/modules/fpga_i2c_ocores.c:800-889 | a held mutex gives -EACCES and changes nothing; otherwise the mutex is released on every path and the result, log and remaining reads are exactly as Transact's |
| OcoresProps.SpecialOpTraffic | platform/broadcom/sonic-platform-modules-pensando/taormina/modules/fpga_i2c_ocores.c:431-473 | the exact offsets and values each special operation writes, and that an unknown opcode writes nothing and fails |
| OcoresProps.SpecialOpExits | platform/broadcom/sonic-platform-modules-pensando/taormina/modules/fpga_i2c_ocores.c:482-488 | a CBUS message ends the call with 0 in EXIT, sends no IACK, leaves the cursor on it, and writes only the operation's writes |
| OcoresProps.ExitIsInert | platform/broadcom/sonic-platform-modules-pensando/taormina/modules/fpga_i2c_ocores.c:686-687 | in EXIT, oci2c_process writes and changes nothing |
| OcoresProps.NextMsgSpec | platform/broadcom/sonic-platform-modules-pensando/taormina/modules/fpga_i2c_ocores.c:397-418 | the byte cursor restarts and the message cursor advances; the next state is PRE_START, STOP or DONE, each if and only if its condition holds |
| OcoresProps.NoStartSameSlave | platform/broadcom/sonic-platform-modules-pensando/taormina/modules/fpga_i2c_ocores.c:493-534 | a NOSTART message to the same slave goes through PRE_START and START to DATA sending nothing |
| OcoresProps.NewSlaveStopsFirst | platform/broadcom/sonic-platform-modules-pensando/taormina/modules/fpga_i2c_ocores.c:493-539 | a message to another slave sends STOP, then a repeated START with the new address frame, with no bus-busy read |
| OcoresProps.StartSendsStart | platform/broadcom/sonic-platform-modules-pensando/taormina/modules/fpga_i2c_ocores.c:501-540 | START records the slave and sends one START if and only if a start is needed and the bus is not busy; busy means EBUSY and DONE; a failed read is busy |
| OcoresProps.DataPriority | platform/broadcom/sonic-platform-modules-pensando/taormina/modules/fpga_i2c_ocores.c:543-590 | ARBLOST before address NOACK before end of buffer before READ, READ_LAST on the final byte, or WRITE of the current byte |
| OcoresProps.ReadStoresOneByte | platform/broadcom/sonic-platform-modules-pensando/taormina/modules/fpga_i2c_ocores.c:593-602 | READ stores the byte at the cursor and nowhere else, then returns to DATA |
| OcoresProps.WriteAndStop | platform/broadcom/sonic-platform-modules-pensando/taormina/modules/fpga_i2c_ocores.c:605-634 | WRITE: NACK means ECOMM and STOP, ACK advances; STOP always sends STOP and goes to START if and only if there is no error and messages remain |
| OcoresProps.StepProgress | platform/broadcom/sonic-platform-modules-pensando/taormina/modules/fpga_i2c_ocores.c:659-689 | every handler strictly lowers (no error, messages left, bytes left, state rank), so the loop ends even when TIP never shows |
| OcoresProps.FirstTurns | platform/broadcom/sonic-platform-modules-pensando/taormina/modules/fpga_i2c_ocores.c:478-539 | on an idle bus PRE_START and START of a first message send only START with its address frame |
| OcoresProps.WriteTurn | platform/broadcom/sonic-platform-modules-pensando/taormina/modules/fpga_i2c_ocores.c:585-620 | on an idle bus DATA and WRITE send one WRITE of the current byte and advance the cursor |
| OcoresProps.ReadTurn | platform/broadcom/sonic-platform-modules-pensando/taormina/modules/fpga_i2c_ocores.c:579-602 | on an idle bus DATA and READ send READ (READ_LAST for the final byte) and store the byte the DATA register returns |
| OcoresProps.LastTurns | platform/broadcom/sonic-platform-modules-pensando/taormina/modules/fpga_i2c_ocores.c:570-642 | past the last byte of the last message the chain sends STOP then IACK and ends in DONE |
| OcoresProps.WriteBytes | platform/broadcom/sonic-platform-modules-pensando/taormina/modules/fpga_i2c_ocores.c:543-642 | from byte k of a write message on an idle bus: one WRITE per remaining byte in order, then STOP and IACK |
| OcoresProps.WriteTransaction | platform/broadcom/sonic-platform-modules-pensando/taormina/modules/fpga_i2c_ocores.c:646-692 | a single write on an idle bus is exactly START with the write frame, one WRITE per byte in order, STOP, IACK, ending in DONE with the buffer untouched |
| OcoresProps.WriteScenario | platform/broadcom/sonic-platform-modules-pensando/taormina/modules/fpga_i2c_ocores.c:646-692 | the twelve register writes of writing 0x10 0x20 0x30 to slave 0x50 |
| OcoresProps.ReadBytes | platform/broadcom/sonic-platform-modules-pensando/taormina/modules/fpga_i2c_ocores.c:543-642 | from byte k of a read message on an idle slave returning b: READ per byte (READ_LAST last), STOP and IACK, and the buffer holds b |
| OcoresProps.ReadTransaction | platform/broadcom/sonic-platform-modules-pensando/taormina/modules/fpga_i2c_ocores.c:646-692 | a single read on an idle bus is exactly START with the read frame, the READ commands, STOP and IACK, and the buffer ends holding the bytes the slave returned |
| FpgaI2cMux.SelectChan | platform/broadcom/sonic-platform-modules-pensando/taormina/modules/fpga_i2c_mux.c:33-44 | the cache names the channel afterwards; the register is written, once, exactly when the channel changed |
| FpgaI2cMux.Deselect | platform/broadcom/sonic-platform-modules-pensando/taormina/modules/fpga_i2c_mux.c:22-31 | always one write, and the cache and the register agree on the channel |
| FpgaI2cMux.StoreSelect | platform/broadcom/sonic-platform-modules-pensando/taormina/modules/fpga_i2c_mux.c:56-75 | a parse error is returned unchanged; a value above 3 gives -EINVAL with no write; 0..3 is written, the cache is left alone, and len is returned |
| FpgaI2cMux.ShowSelect | platform/broadcom/sonic-platform-modules-pensando/taormina/modules/fpga_i2c_mux.c:47-54 | three characters, two hexadecimal digits of the register's low three bits and a newline |
| FpgaI2cMux.SelectTwiceWritesOnce | platform/broadcom/sonic-platform-modules-pensando/taormina/modules/fpga_i2c_mux.c:39-42 | selecting a channel twice is the same as selecting it once, with at most one write |
| FpgaI2cMux.SelectCoherent | platform/broadcom/sonic-platform-modules-pensando/taormina/modules/fpga_i2c_mux.c:33-44 | while the cache matches the register, select leaves the register on the channel asked for |
| FpgaI2cMux.StoreLeavesCacheStale | platform/broadcom/sonic-platform-modules-pensando/taormina/modules/fpga_i2c_mux.c:69-70 | after a store of another channel, selecting the cached channel writes nothing and leaves the register on the stored channel |
| FpgaI2cMux.ShowAfterStore | platform/broadcom/sonic-platform-modules-pensando/taormina/modules/fpga_i2c_mux.c:47-75 | reading back after storing channel c shows "0c" and a newline |
| FpgaI2cMux.Mux.Select | platform/broadcom/sonic-platform-modules-pensando/taormina/modules/fpga_i2c_mux.c:33-44 | returns 0 and the new state is exactly SelectChan's |
| FpgaI2cMux.Mux.DeselectChan | platform/broadcom/sonic-platform-modules-pensando/taormina/modules/fpga_i2c_mux.c:22-31 | returns 0 and the new state is exactly Deselect's |
| FpgaI2cMux.Mux.Store | platform/broadcom/sonic-platform-modules-pensando/taormina/modules/fpga_i2c_mux.c:56-75 | the new state and return value are exactly StoreSelect's |
| FpgaI2cMux.Mux.Show | platform/broadcom/sonic-platform-modules-pensando/taormina/modules/fpga_i2c_mux.c:47-54 | the text is ShowSelect of the register and the return value is its length, 3 |
| AppBgp.ScanField | src/sonic-bgpcfgd/bgpcfgd/managers_appl_bgp.py:37-50 | only a local_asn field before enabling changes the AS number; once enabled, BGP stays enabled; a field rejects exactly when enabled and local_asn differs |
| AppBgp.ScanRow | src/sonic-bgpcfgd/bgpcfgd/managers_appl_bgp.py:37-50 | once rejected, no later field has any effect |
| AppBgp.EnabledKeepsAsn | src/sonic-bgpcfgd/bgpcfgd/managers_appl_bgp.py:40-44 | once enabled, no row disables BGP or changes the AS number |
| AppBgp.EnabledSameAsn | src/sonic-bgpcfgd/bgpcfgd/managers_appl_bgp.py:38-50 | once enabled, a row repeating the AS number emits exactly its "router bgp" and "bgp router-id" lines in field order |
| AppBgp.AsnChangeRejected | src/sonic-bgpcfgd/bgpcfgd/managers_appl_bgp.py:40-44 | once enabled, any local_asn field with another number rejects the row |
| AppBgp.MissingAsnStaysDisabled | src/sonic-bgpcfgd/bgpcfgd/managers_appl_bgp.py:52-54 | a row without local_asn leaves a disabled handler disabled, so set_handler fails |
| AppBgp.DisabledPrefix | src/sonic-bgpcfgd/bgpcfgd/managers_appl_bgp.py:49-50 | before enabling, fields other than local_asn only add their router-id lines |
| AppBgp.FirstAsnEnables | src/sonic-bgpcfgd/bgpcfgd/managers_appl_bgp.py:38-48 | the first local_asn emits "router bgp" followed by "no bgp default ipv4-unicast", and records the number |
| AppBgp.AppBgpGlobal.constructor | src/sonic-bgpcfgd/bgpcfgd/managers_appl_bgp.py:25-26 | BGP starts disabled, with local AS 0 |
| AppBgp.AppBgpGlobal.SetHandler | src/sonic-bgpcfgd/bgpcfgd/managers_appl_bgp.py:28-58 | a non-default VRF fails and changes nothing; otherwise the fields follow ScanRow, and the list is pushed exactly when the row was not rejected and BGP ends enabled |
| AppBgp.AppBgpGlobal.DelHandler | src/sonic-bgpcfgd/bgpcfgd/managers_appl_bgp.py:60-76 | pushes exactly "no router bgp" with the AS number if and only if the VRF is default and BGP is enabled; changes nothing |
| AppBgp.SplitKey | src/sonic-bgpcfgd/bgpcfgd/managers_appl_bgp.py:149-159 | no ':' means the default VRF and the whole key; otherwise the parts rejoin with ':' to the key and the first part has no ':' |
| AppBgp.SplitKeyJoin | src/sonic-bgpcfgd/bgpcfgd/managers_appl_bgp.py:156-159 | a colon-free VRF joined to any neighbor by ':' splits back into both |
| AppBgp.SplitIpv6Neighbor | src/sonic-bgpcfgd/bgpcfgd/managers_appl_bgp.py:156-159 | "default:fc00::1" splits into "default" and "fc00::1" |
| AppBgp.RemoteAsCount | src/sonic-bgpcfgd/bgpcfgd/managers_appl_bgp.py:122-124 | one remote-as command per asn field and none for any other field |
| AppBgp.AppBgpNeighbor.constructor | src/sonic-bgpcfgd/bgpcfgd/managers_appl_bgp.py:98-99 | BGP starts disabled, with local AS 0 |
| AppBgp.AppBgpNeighbor.SetHandler | src/sonic-bgpcfgd/bgpcfgd/managers_appl_bgp.py:101-128 | a non-default VRF, or a disabled handler with no global AS, fails and changes nothing; otherwise the AS is fetched only if not yet enabled, and "router bgp" followed by the remote-as lines is pushed |
| AppBgp.AppBgpNeighbor.DelHandler | src/sonic-bgpcfgd/bgpcfgd/managers_appl_bgp.py:130-147 | pushes exactly "router bgp" and "no neighbor" if and only if the VRF is default and BGP is enabled; changes nothing |

## Left out

- Interrupt mode is not modelled. This covers `oci2c_isr`, the `wait_event_timeout` branch of `oci2c_wait`, and the rest of the concurrency. The driver runs in polling mode.
- Probe, remove, the PCI error handlers, the adapter tables and module init and exit are left out. They are kernel wiring.
- Debug tracing (`PR_DEBUG` and the trace and name helpers) is left out. It has no effect when debugging is off. That includes the status read inside the debug print at the end of `oci2c_wait`, which consumes a read only when enabled.
- Time is `Bus.now`, in microseconds. Each `usleep_range` advances it by its lower bound plus an overrun taken from `Bus.jitter`. `ktime_get` returns it, and nothing else moves it.
- The adapter mutex is a boolean with trylock semantics. No other thread is modelled.
- `pad_time` is a `nat`. A negative module parameter is not modelled.
- Ocores.Controller.HandleRead: the message buffers are held by the controller as a sequence of values that a READ replaces, so aliasing between caller buffers and in-place update of the caller's memory are not captured.
- Ocores.Controller.Xfer: requires at least one message, and a CBUS message of at least two bytes. The source reads the first message, and the two bytes of a CBUS message, without checking.
- Ocores.Controller.Xfer: the message count is `|ds|` and addresses are below 0x10000 (`u16 addr` of the Linux I2C message).
- Ocores.Controller.EnsureEnabled: ignores the return code of `oci2c_enable`. In polling mode that code is always 0 (proved by Ocores.Controller.Enable), so its error branch cannot be taken.
- Ocores.Controller.RunChain: termination is proved only for a finite sequence of register replies. The source bounds neither the number of rounds nor their time; Ocores.IdleRound shows a round that makes no progress.
- Ocores.Controller.Wait: the exact sleep tiers are stated on OcoresPoll.BackoffFor, not on the method. The method states the timeout, the trace of status reads and the read bound.
- `fpga_i2c_ocores.h` is not part of this model. Only the register stride of 4 is taken from it.
- FpgaI2cMux.Mux.Show: the select register is modelled as memory that reads back the last value written. Its value at reset is a constructor argument.
- FpgaI2cMux.StoreSelect: `kstrtoul` is not modelled. Its outcome (the value, or a negative errno) is an input.
- The probe and remove of `fpga_i2c_mux.c` are left out. They only register adapters.
- AppBgp.AppBgpGlobal.SetHandler: a table row is a sequence of (field, value) pairs, so a row may repeat a field, which a Python dict cannot. Every property holds for the more general input. A row with two `local_asn` fields, which only this form allows, can see its first value enable BGP and its second rejected; the changes of the first stay.
- AppBgp.AppBgpGlobal.SetHandler: logging is left out.
- AppBgp.AppBgpGlobal.SetHandler: `cfg_mgr.push_list` is the returned list.
- AppBgp.AppBgpGlobal.constructor: the initial `local_asn` is the integer 0 in the source and the string "0" here. It is only ever read after BGP has been enabled, when it holds a string.
- AppBgp.AppBgpNeighbor.SetHandler: `directory.get_slot` is the optional `globalAsn` input. `None` stands for the KeyError path.
- `AppBgpNeighbor.generate_command` is left out. It depends on the Manager base class and address objects, which are not part of this model.
- The global handler behaves in a way worth noting, though the model keeps it as written. Once enabled, a row without `local_asn` but with `router_id` pushes "bgp router-id ..." without a preceding "router bgp" line.
