/** The register window of one OpenCores I2C controller as the driver sees it:
    register indices, control/command/status bits, the composite commands the
    driver issues, the errno values it reports, and the shape of one register
    access. Every access is a 32-bit memory-mapped I/O operation at
    base + reg * REG_IO_WIDTH; the driver writes u8 values (zero-extended) and
    truncates every 32-bit read to its low byte. */
module OcoresRegs {

  // Registers of the OpenCores core
  const REG_PRELOW: nat := 0
  const REG_PREHIGH: nat := 1
  const REG_CONTROL: nat := 2
  const REG_DATA: nat := 3
  const REG_CMD: nat := 4      // write only, same offset as REG_STATUS
  const REG_STATUS: nat := 4   // read only, same offset as REG_CMD
  // Vendor extension registers
  const REG_MUX_SELECT: nat := 5
  const REG_RESET: nat := 6    // write 0xD to hold the controller in reset
  const REG_SEMAPHORE: nat := 7
  const REG_CNT: nat := 8
  const REG_IO_WIDTH: nat := 4  // registers are 4-byte aligned

  // Control register bits
  const CTRL_EN: bv8 := 0x80
  const CTRL_IEN: bv8 := 0x40

  // Command register bits
  const CMD_START_BIT: bv8 := 0x80
  const CMD_STOP_BIT: bv8 := 0x40
  const CMD_READ_BIT: bv8 := 0x20
  const CMD_WRITE_BIT: bv8 := 0x10
  const CMD_NOACK_BIT: bv8 := 0x08
  const CMD_IACK_BIT: bv8 := 0x01

  // Status register bits
  const STAT_NOACK: bv8 := 0x80
  const STAT_BUSY: bv8 := 0x40
  const STAT_ARBLOST: bv8 := 0x20
  const STAT_TIP: bv8 := 0x02
  const STAT_INT: bv8 := 0x01
  const STAT_ERR: bv8 := 0xFF   // what a failed PCIe read looks like after truncation

  /** What a 32-bit read returns when the bus fabric fails: all ones. */
  const IO_ERR: bv32 := 0xFFFF_FFFF

  // The composite commands, the only values ever written to REG_CMD
  const CMD_START: bv8 := CMD_START_BIT | CMD_WRITE_BIT | CMD_IACK_BIT
  const CMD_STOP: bv8 := CMD_STOP_BIT | CMD_IACK_BIT
  const CMD_READ: bv8 := CMD_READ_BIT | CMD_IACK_BIT
  const CMD_READ_LAST: bv8 := CMD_READ_BIT | CMD_NOACK_BIT | CMD_IACK_BIT
  const CMD_WRITE: bv8 := CMD_WRITE_BIT | CMD_IACK_BIT
  const CMD_IACK: bv8 := CMD_IACK_BIT

  /** The reserved 7-bit address (the CBUS address of the I2C-bus
      specification) that carries the vendor special operations. */
  const CBUS_ADDR: int := 0x01

  // Special operation codes, the first byte of a CBUS message
  const I2C_NORMAL: bv8 := 0
  const I2C_MUX_SET: bv8 := 1
  const I2C_RST_CONTLR: bv8 := 2
  const I2C_RST_SLAVE: bv8 := 3

  /** Clock prescale programmed by the enable sequence (100 kHz bus). */
  const PRESCALE: bv16 := 124

  // Linux errno values the core reports
  const EACCES: int := 13
  const EBUSY: int := 16
  const EINVAL: int := 22
  const ECOMM: int := 70
  const EPROTO: int := 71
  const EBADMSG: int := 74
  const ETIMEDOUT: int := 110

  /** One memory-mapped write, at a byte offset from the controller base. */
  datatype Access = IoWrite(offset: nat, value: bv32)

  /** setreg: write the u8 `v`, zero-extended, to register `reg`. */
  function W(reg: nat, v: bv8): Access
  {
    IoWrite(reg * REG_IO_WIDTH, v as bv32)
  }

  /** The two writes of one command: the data byte first, then the command. */
  function Cmd(cmd: bv8, data: bv8): seq<Access>
  {
    [W(REG_DATA, data), W(REG_CMD, cmd)]
  }

  /** getreg's truncation of a 32-bit read to u8. */
  function LowByte(v: bv32): (b: bv8)
    ensures b as bv32 == v & 0xFF
  {
    (v & 0xFF) as bv8
  }

  /** The byte the next getreg returns when the remaining reads of the
      hardware are `feed`; an exhausted feed stands for a failed read. */
  function PeekReg(feed: seq<bv32>): bv8
  {
    if feed == [] then LowByte(IO_ERR) else LowByte(feed[0])
  }

  /** The reads left after one getreg. */
  function DropReg(feed: seq<bv32>): (rest: seq<bv32>)
    ensures feed != [] ==> |rest| == |feed| - 1
    ensures feed == [] ==> rest == []
  {
    if feed == [] then [] else feed[1..]
  }

  predicate Tip(stat: bv8) { (stat & STAT_TIP) != 0 }
  predicate Busy(stat: bv8) { (stat & STAT_BUSY) != 0 }
  predicate ArbLost(stat: bv8) { (stat & STAT_ARBLOST) != 0 }
  predicate NoAck(stat: bv8) { (stat & STAT_NOACK) != 0 }
  predicate Enabled(ctrl: bv8) { (ctrl & CTRL_EN) != 0 }

  /** The values the driver writes to REG_CMD, zero-extended. */
  const COMPOSITE: set<bv32> :=
    {CMD_START as bv32, CMD_STOP as bv32, CMD_READ as bv32, CMD_READ_LAST as bv32,
     CMD_WRITE as bv32, CMD_IACK as bv32}

  /** Every write of `ws` to the command register carries a composite command. */
  predicate CommandsComposite(ws: seq<Access>)
  {
    forall i :: 0 <= i < |ws| && ws[i].offset == REG_CMD * REG_IO_WIDTH ==>
      ws[i].value in COMPOSITE
  }

  /** A failed read is indistinguishable from a status with every bit set:
      it reads as busy, as arbitration lost, as no-ack and as a transfer in
      progress, so no polling loop can mistake it for completion. */
  lemma FailedReadLooksBusy()
    ensures PeekReg([]) == STAT_ERR
    ensures Busy(STAT_ERR) && ArbLost(STAT_ERR) && NoAck(STAT_ERR) && Tip(STAT_ERR)
  {
  }
}
