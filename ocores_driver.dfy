/** The polling-mode driver of fpga_i2c_ocores.c as imperative code: the
    hardware and kernel services it touches (`Bus`), and the controller record
    whose handlers update it in place (`Controller`). Every handler is proved
    to do exactly what the matching function of OcoresFsm describes, so the
    properties proved there carry over to the driver. The message chain is
    held by the controller as a sequence of values; a READ replaces the
    received byte in it. */
module Ocores {
  import opened OcoresRegs
  import opened SeqLemmas
  import opened OcoresFsm
  import opened OcoresPoll

  /** The controller's register window, the clock and the sleeps the driver
      uses. `log` records every 32-bit write; `feed` is what successive 32-bit
      reads return (an exhausted feed reads as a failed PCIe read, all ones);
      `now` is ktime in microseconds and `jitter` how far each successive
      usleep_range overruns its lower bound. */
  class Bus {
    var log: seq<Access>
    var feed: seq<bv32>
    var now: int
    var jitter: seq<nat>

    constructor (feed: seq<bv32>, jitter: seq<nat>, now: int)
      ensures this.log == [] && this.feed == feed
      ensures this.jitter == jitter && this.now == now
    {
      this.log := [];
      this.feed := feed;
      this.jitter := jitter;
      this.now := now;
    }

    /** iowrite32 */
    method IoWrite32(offset: nat, value: bv32)
      modifies this`log
      ensures log == old(log) + [IoWrite(offset, value)]
    {
      log := log + [IoWrite(offset, value)];
    }

    /** ioread32: the next value of the feed, or all ones once it is exhausted. */
    method IoRead32(offset: nat) returns (v: bv32)
      modifies this`feed
      ensures v == (if old(feed) == [] then IO_ERR else old(feed)[0])
      ensures feed == DropReg(old(feed))
    {
      if feed == [] {
        v := IO_ERR;
      } else {
        v := feed[0];
        feed := feed[1..];
      }
    }

    /** usleep_range: sleeps at least `lo` microseconds, plus the overrun. */
    method UsleepRange(lo: nat, hi: nat)
      modifies this`now, this`jitter
      ensures now == old(now) + lo + (if old(jitter) == [] then 0 else old(jitter)[0])
      ensures jitter == (if old(jitter) == [] then [] else old(jitter)[1..])
    {
      if jitter == [] {
        now := now + lo;
      } else {
        now := now + lo + jitter[0];
        jitter := jitter[1..];
      }
    }
  }

  /** The writes of oci2c_enable when CONTROL read `ctrl`. */
  function EnableWrites(ctrl: bv8): seq<Access>
  {
    [W(REG_CONTROL, ctrl & !(CTRL_EN | CTRL_IEN)),
     W(REG_PRELOW, (PRESCALE & 0xFF) as bv8),
     W(REG_PREHIGH, ((PRESCALE >> 8) & 0xFF) as bv8),
     W(REG_CMD, CMD_IACK),
     W(REG_CONTROL, ctrl | CTRL_EN)]
  }

  /** The enable sequence programs the prescaler (124, for a 100 kHz bus)
      and clears the interrupt flag while the controller is disabled: it
      writes CONTROL only first, with EN and IEN cleared, and last, with EN
      set; both keep every other control bit, and in polling mode IEN is
      never added. */
  lemma EnableSequence(ctrl: bv8)
    ensures var ws := EnableWrites(ctrl);
      && |ws| == 5
      && (forall i :: 0 <= i < 5 && ws[i].offset == REG_CONTROL * REG_IO_WIDTH ==> i == 0 || i == 4)
      && ws[1] == W(REG_PRELOW, 124) && ws[2] == W(REG_PREHIGH, 0) && ws[3] == W(REG_CMD, CMD_IACK)
      && ws[0] == W(REG_CONTROL, ctrl & !(CTRL_EN | CTRL_IEN))
      && ws[4] == W(REG_CONTROL, ctrl | CTRL_EN)
    ensures var off := ctrl & !(CTRL_EN | CTRL_IEN);
      && !Enabled(off) && off & CTRL_IEN == 0 && off | CTRL_EN | CTRL_IEN == ctrl | CTRL_EN | CTRL_IEN
    ensures Enabled(ctrl | CTRL_EN) && (ctrl | CTRL_EN) & !CTRL_EN == ctrl & !CTRL_EN
    ensures (ctrl | CTRL_EN) & CTRL_IEN == ctrl & CTRL_IEN
  {
  }

  /** How oci2c_xfer's enable check goes for the reads `feed`. */
  datatype Prologue = Prologue(ok: bool, writes: seq<Access>, feed: seq<bv32>)

  /** The start of oci2c_xfer: read CONTROL; if the controller is disabled,
      enable it (one more read, five writes); then read CONTROL again and
      proceed only if it now reports enabled. */
  function EnableCheck(feed: seq<bv32>): (p: Prologue)
    ensures |p.feed| <= |feed| && p.feed == feed[|feed| - |p.feed|..]
    ensures p.ok ==> Enabled(PeekReg(if Enabled(PeekReg(feed)) then DropReg(feed)
                                     else DropReg(DropReg(feed))))
    ensures Enabled(PeekReg(feed)) ==> p.writes == []
    ensures !Enabled(PeekReg(feed)) ==> p.writes == EnableWrites(PeekReg(DropReg(feed)))
  {
    var c0 := PeekReg(feed);
    var f1 := DropReg(feed);
    var ws := if Enabled(c0) then [] else EnableWrites(PeekReg(f1));
    var f2 := if Enabled(c0) then f1 else DropReg(f1);
    Prologue(Enabled(PeekReg(f2)), ws, DropReg(f2))
  }

  // Functionality bits of the Linux I2C core
  const I2C_FUNC_I2C: bv32 := 0x0000_0001
  const I2C_FUNC_10BIT_ADDR: bv32 := 0x0000_0002
  const I2C_FUNC_PROTOCOL_MANGLING: bv32 := 0x0000_0004
  const I2C_FUNC_NOSTART: bv32 := 0x0000_0010
  const I2C_FUNC_SMBUS_EMUL: bv32 := 0x0EFF_0008

  /** oci2c_func: plain I2C, repeated messages without START, and everything
      the SMBus emulation layer can build from them; no 10-bit addresses and
      no protocol mangling. */
  function Func(): (f: bv32)
    ensures f & I2C_FUNC_I2C != 0 && f & I2C_FUNC_NOSTART != 0
    ensures f & I2C_FUNC_SMBUS_EMUL == I2C_FUNC_SMBUS_EMUL
    ensures f & I2C_FUNC_10BIT_ADDR == 0 && f & I2C_FUNC_PROTOCOL_MANGLING == 0
  {
    I2C_FUNC_I2C | I2C_FUNC_NOSTART | I2C_FUNC_SMBUS_EMUL
  }

  /** What one wait read: every status before the last showed a transfer
      in progress; the last showed none if the wait succeeded; and it read at
      most MAX_POLLS times. `rest` is what was left of `feed` afterwards. */
  ghost predicate PollTrace(feed: seq<bv32>, rest: seq<bv32>, ok: bool)
    requires |rest| <= |feed|
  {
    var k := |feed| - |rest|;
    && (ok ==> k > 0 && !Tip(LowByte(feed[k - 1])))
    && (forall j :: 0 <= j < k - (if ok then 1 else 0) ==> Tip(LowByte(feed[j])))
    && k <= MAX_POLLS
  }

  /** One call of oci2c_process in the loop of oci2c_xfer: the controller
      record, the chain and the replies left when it starts, and `run`, what
      the call did. `polled` says whether the wait before it saw the command
      complete (it is true of the first call, which no wait precedes). */
  datatype Round = Round(m: Machine, msgs: seq<Msg>, feed: seq<bv32>, polled: bool, run: Run)

  /** `run` is what oci2c_process does from the round's start. */
  ghost predicate Ran(rd: Round)
  {
    Inv(rd.m, rd.msgs) && rd.run == OcoresFsm.Process(rd.m, rd.msgs, rd.feed)
  }

  /** Round `b` follows round `a`: process returned 1 in `a`, then the wait
      read STATUS as PollTrace says and either saw the command complete or
      recorded ETIMEDOUT; `b` starts from what was left. */
  ghost predicate Follows(a: Round, b: Round)
  {
    Continues(a.run, b.m, b.msgs, b.feed, b.polled)
  }

  /** After the call of process that did `p`, the wait left the record
      `m`, the chain `ms` and the replies `feed`; `polled` as in Round. */
  ghost predicate Continues(p: Run, m: Machine, ms: seq<Msg>, feed: seq<bv32>, polled: bool)
  {
    && p.more && ms == p.msgs
    && m == (if polled then p.m else p.m.(errno := ETIMEDOUT))
    && |feed| <= |p.feed| && feed == p.feed[|p.feed| - |feed|..]
    && PollTrace(p.feed, feed, polled)
  }

  /** `rs` are the successive calls of oci2c_process of one run of the loop
      of oci2c_xfer, each following the one before. */
  ghost predicate Rounds(rs: seq<Round>)
    decreases |rs|
  {
    && |rs| > 0
    && Ran(rs[|rs| - 1])
    && (|rs| > 1 ==> Rounds(rs[..|rs| - 1]) && Follows(rs[|rs| - 2], rs[|rs| - 1]))
  }

  /** ... and the loop ended: the last call returned 0. */
  ghost predicate Chain(rs: seq<Round>)
  {
    Rounds(rs) && !rs[|rs| - 1].run.more
  }

  /** The register writes of the rounds `rs`, in order. */
  ghost function RoundsWrites(rs: seq<Round>): seq<Access>
    requires |rs| > 0
    decreases |rs|
  {
    if |rs| == 1 then rs[0].run.writes
    else RoundsWrites(rs[..|rs| - 1]) + rs[|rs| - 1].run.writes
  }

  lemma RoundsGrow(rs: seq<Round>, rd: Round)
    requires Rounds(rs) && Ran(rd) && Follows(rs[|rs| - 1], rd)
    ensures Rounds(rs + [rd]) && (rs + [rd])[0] == rs[0]
  {
    var ext := rs + [rd];
    assert ext[..|ext| - 1] == rs;
    assert ext[|ext| - 1] == rd && ext[|ext| - 2] == rs[|rs| - 1];
  }

  /** A round on its own is a run of the loop. */
  lemma FirstRound(rd: Round)
    requires Ran(rd)
    ensures Rounds([rd]) && RoundsWrites([rd]) == rd.run.writes
  {
  }

  lemma RoundsWritesGrow(rs: seq<Round>, rd: Round)
    requires |rs| > 0
    ensures RoundsWrites(rs + [rd]) == RoundsWrites(rs) + rd.run.writes
  {
    assert (rs + [rd])[..|rs|] == rs;
  }

  /** Every round ran process and follows the one before it. */
  lemma {:induction false} RoundsFollow(rs: seq<Round>, i: nat)
    requires Rounds(rs) && i + 1 < |rs|
    ensures Ran(rs[i]) && Ran(rs[i + 1]) && Follows(rs[i], rs[i + 1])
    decreases |rs|
  {
    if i + 2 < |rs| {
      var pre := rs[..|rs| - 1];
      assert pre[i] == rs[i] && pre[i + 1] == rs[i + 1];
      RoundsFollow(pre, i);
    }
  }

  /** One round keeps the cursor invariant, the shape of the chain and the
      buffers of write messages. */
  lemma RanPreserves(rd: Round)
    requires Ran(rd)
    ensures Inv(rd.run.m, rd.run.msgs)
    ensures SameShape(rd.msgs, rd.run.msgs) && WritesIntact(rd.msgs, rd.run.msgs)
  {
    ProcessPreserves(rd.m, rd.msgs, rd.feed);
  }

  /** However the hardware replies and however the waits end, the loop of
      oci2c_xfer keeps the cursor invariant, the shape of the chain and the
      buffers of write messages. */
  lemma {:induction false} RoundsPreserve(rs: seq<Round>)
    requires Rounds(rs)
    ensures var r := rs[|rs| - 1].run;
      && Inv(r.m, r.msgs)
      && SameShape(rs[0].msgs, r.msgs) && WritesIntact(rs[0].msgs, r.msgs)
    decreases |rs|
  {
    var last := rs[|rs| - 1];
    RanPreserves(last);
    if |rs| > 1 {
      var pre := rs[..|rs| - 1];
      assert pre[0] == rs[0] && pre[|pre| - 1] == rs[|rs| - 2];
      RoundsPreserve(pre);
      assert last.msgs == pre[|pre| - 1].run.msgs by {
        assert Follows(rs[|rs| - 2], last);
      }
      ComposeShape(rs[0].msgs, last.msgs, last.run.msgs);
    }
  }

  lemma ProcessEnds(rd: Round)
    requires Ran(rd) && !rd.run.more
    ensures rd.run.m.state in {Done, Exit}
  {
  }

  /** Where a finished chain `rs` of the messages `ds` leaves the record:
      in DONE or EXIT with the invariant kept and only read buffers filled,
      and, without an error, past the last message or stopped at a CBUS
      message. */
  lemma ChainEnd(rs: seq<Round>, ds: seq<Msg>)
    requires Chain(rs) && rs[0].msgs == ds
    ensures var r := rs[|rs| - 1].run;
      && Inv(r.m, r.msgs) && SameShape(ds, r.msgs) && WritesIntact(ds, r.msgs)
      && r.m.state in {Done, Exit}
      && (r.m.errno == 0 ==>
            (r.m.state == Done && r.m.curMsg == |ds|) ||
            (r.m.state == Exit && ds[r.m.curMsg].addr == CBUS_ADDR))
  {
    RoundsPreserve(rs);
    ProcessEnds(rs[|rs| - 1]);
  }

  /** A wait that times out ends the transfer: the round after it is the
      last, and it sends only STOP and then IACK and ends in DONE. */
  lemma TimeoutEndsChain(rs: seq<Round>, i: nat)
    requires Chain(rs) && 0 < i < |rs| && !rs[i].polled
    ensures i == |rs| - 1
    ensures rs[i].run.writes == Cmd(CMD_STOP, 0) + Cmd(CMD_IACK, 0)
    ensures rs[i].run.m.state == Done && rs[i].run.m.errno == ETIMEDOUT
  {
    RoundsFollow(rs, i - 1);
    if i + 1 < |rs| {
      RoundsFollow(rs, i);
    }
  }

  /** Nothing bounds the number of rounds but the replies themselves: a
      STATUS read showing TIP at the head of process's loop, then one showing
      it clear at the wait's first poll, make a round that runs no handler,
      writes nothing and leaves the record as it was, two replies later. */
  lemma IdleRound(m: Machine, ms: seq<Msg>, t: bv32, c: bv32, f: seq<bv32>)
    requires Inv(m, ms) && !Forced(m.errno)
    requires Tip(LowByte(t)) && !Tip(LowByte(c))
    ensures OcoresFsm.Process(m, ms, [t, c] + f) == Run(m, ms, [], [c] + f, true)
    ensures PollTrace([c] + f, f, true)
  {
    assert DropReg([t, c] + f) == [c] + f;
    assert DropReg([c] + f) == f;
  }

  /** The transfer of `ds` after the enable check `p` passed: the calls of
      process `rs` ran the chain to its end from the first message, the log
      grew by the enable writes and then by the rounds' writes, CONTROL was
      read once more, and the result is -EACCES if it showed the controller
      disabled, otherwise -errno if an error was recorded, otherwise the
      number of messages. */
  ghost predicate Transferred(ds: seq<Msg>, p: Prologue, rs: seq<Round>, r: int,
                              log0: seq<Access>, log: seq<Access>, feed: seq<bv32>, errno: nat)
  {
    && Chain(rs)
    && rs[0].m == Machine(PreStart, 0, 0, 0, 0) && rs[0].msgs == ds && rs[0].feed == p.feed
    && log == log0 + p.writes + RoundsWrites(rs)
    && var e := rs[|rs| - 1].run;
    && errno == e.m.errno
    && feed == DropReg(e.feed)
    && r == (if !Enabled(PeekReg(e.feed)) then -EACCES
             else if errno != 0 then -(errno as int) else |ds|)
  }

  /** One OpenCores controller: its bus, the pad_time module parameter, the
      adapter mutex, and the transfer state the handlers advance. */
  class Controller {
    const bus: Bus
    const padTime: nat
    var locked: bool
    var msgs: seq<Msg>
    var curMsg: nat
    var curSlave: int
    var curByte: nat
    var errno: nat
    var state: State

    constructor (bus: Bus, padTime: nat)
      ensures this.bus == bus && this.padTime == padTime
      ensures !locked && msgs == [] && curMsg == 0 && curSlave == 0
      ensures curByte == 0 && errno == 0 && state == PreStart
    {
      this.bus := bus;
      this.padTime := padTime;
      locked := false;
      msgs := [];
      curMsg := 0;
      curSlave := 0;
      curByte := 0;
      errno := 0;
      state := PreStart;
    }

    /** The transfer fields as a value. */
    ghost function Mach(): Machine
      reads this
    {
      Machine(state, curMsg, curByte, curSlave, errno)
    }

    /** The cursor invariant of the state machine. */
    ghost predicate Valid()
      reads this
    {
      Inv(Mach(), msgs)
    }

    /** The handler left the controller and the register window as outcome
        `o` describes; `consumed` says whether it read a register. */
    twostate predicate Did(o: Outcome, consumed: bool)
      reads this, bus
    {
      && Mach() == o.m
      && msgs == o.msgs
      && bus.log == old(bus.log) + o.writes
      && bus.feed == (if consumed then DropReg(old(bus.feed)) else old(bus.feed))
    }

    /** oci2c_setreg */
    method SetReg(reg: nat, value: bv8)
      modifies bus`log
      ensures bus.log == old(bus.log) + [W(reg, value)]
    {
      bus.IoWrite32(reg * REG_IO_WIDTH, value as bv32);
    }

    /** oci2c_getreg: the low byte of the next 32-bit read. */
    method GetReg(reg: nat) returns (v: bv8)
      modifies bus`feed
      ensures v == PeekReg(old(bus.feed)) && bus.feed == DropReg(old(bus.feed))
    {
      var w := bus.IoRead32(reg * REG_IO_WIDTH);
      v := LowByte(w);
    }

    /** oci2c_is_bus_busy; a failed read reports busy. */
    method IsBusBusy() returns (busy: bool)
      modifies bus`feed
      ensures busy == Busy(PeekReg(old(bus.feed))) && bus.feed == DropReg(old(bus.feed))
      ensures old(bus.feed) == [] ==> busy
    {
      var stat := GetReg(REG_STATUS);
      busy := Busy(stat);
    }

    /** oci2c_is_enabled */
    method IsEnabled() returns (en: bool)
      modifies bus`feed
      ensures en == Enabled(PeekReg(old(bus.feed))) && bus.feed == DropReg(old(bus.feed))
    {
      var ctrl := GetReg(REG_CONTROL);
      en := Enabled(ctrl);
    }

    /** oci2c_disable: clear EN and IEN, keep every other control bit. */
    method Disable()
      modifies bus`feed, bus`log
      ensures bus.feed == DropReg(old(bus.feed))
      ensures bus.log == old(bus.log) + [W(REG_CONTROL, PeekReg(old(bus.feed)) & !(CTRL_EN | CTRL_IEN))]
    {
      var ctrl := GetReg(REG_CONTROL);
      SetReg(REG_CONTROL, ctrl & !(CTRL_EN | CTRL_IEN));
    }

    /** oci2c_enable (polling mode); it cannot fail. */
    method Enable() returns (rc: int)
      modifies bus`feed, bus`log, bus`now, bus`jitter
      ensures rc == 0
      ensures bus.feed == DropReg(old(bus.feed))
      ensures bus.log == old(bus.log) + EnableWrites(PeekReg(old(bus.feed)))
      ensures bus.now >= old(bus.now) + 1000
    {
      var ctrl := GetReg(REG_CONTROL);
      ghost var ws, log0 := EnableWrites(ctrl), bus.log;
      SetReg(REG_CONTROL, ctrl & !(CTRL_EN | CTRL_IEN));
      SetReg(REG_PRELOW, (PRESCALE & 0xFF) as bv8);
      assert bus.log == log0 + ws[..2];
      SetReg(REG_PREHIGH, ((PRESCALE >> 8) & 0xFF) as bv8);
      assert bus.log == log0 + ws[..3];
      SetReg(REG_CMD, CMD_IACK);
      assert bus.log == log0 + ws[..4];
      SetReg(REG_CONTROL, ctrl | CTRL_EN);
      assert bus.log == log0 + ws;
      bus.UsleepRange(1000, 1500);
      rc := 0;
    }

    /** oci2c_cmd: the data byte, then the command. */
    method SendCmd(cmd: bv8, data: bv8)
      modifies bus`log
      ensures bus.log == old(bus.log) + Cmd(cmd, data)
    {
      SetReg(REG_DATA, data);
      SetReg(REG_CMD, cmd);
    }

    /** oci2c_next_msg */
    method NextMsg()
      modifies this`curByte, this`curMsg, this`state
      ensures Mach() == OcoresFsm.NextMsg(old(Mach()), |msgs|)
    {
      curByte := 0;
      curMsg := curMsg + 1;
      if curMsg < |msgs| {
        state := PreStart;
      } else if curSlave != 0 {
        state := Stop;
      } else {
        state := Done;
      }
    }

    /** oci2c_special_op: the opcode and parameter are the first two bytes
        of the current message. */
    method SpecialOp()
      requires AtMsg(Mach(), msgs) && msgs[curMsg].addr == CBUS_ADDR
      modifies this`errno, bus`log, bus`now, bus`jitter
      ensures var msg := msgs[curMsg];
              var r := OcoresFsm.SpecialOp(msg.data[0], msg.data[1]);
              bus.log == old(bus.log) + r.writes &&
              errno == (if r.ok then old(errno) else EBADMSG)
    {
      var msg := msgs[curMsg];
      var op := msg.data[0];
      var data := msg.data[1];
      if op == I2C_MUX_SET {
        SetReg(REG_MUX_SELECT, data);
      } else if op == I2C_RST_CONTLR {
        SetReg(REG_RESET, 0xD);
        bus.UsleepRange(500, 750);
        SetReg(REG_RESET, 0x0);
      } else if op == I2C_RST_SLAVE {
        SendCmd(CMD_START, data << 1);
        SendCmd(CMD_WRITE, 0xFF);
        SendCmd(CMD_STOP, 0);
      } else {
        errno := EBADMSG;
      }
    }

    /** oci2c_pre_start */
    method HandlePreStart()
      requires AtMsg(Mach(), msgs)
      modifies this`errno, this`state, bus`log, bus`now, bus`jitter
      ensures Did(PreStartStep(old(Mach()), msgs), false)
    {
      var msg := msgs[curMsg];
      if msg.addr == CBUS_ADDR {
        SpecialOp();
        state := Exit;
      } else if curSlave != 0 && curSlave != msg.addr {
        state := Stop;
      } else {
        state := Start;
      }
    }

    /** oci2c_start: the bus-busy check reads STATUS only on the first
        message. */
    method HandleStart()
      requires AtMsg(Mach(), msgs)
      modifies this`curSlave, this`errno, this`state, bus`log, bus`feed
      ensures Did(StartStep(old(Mach()), msgs, PeekReg(old(bus.feed))), old(curMsg) == 0)
    {
      ghost var o := StartStep(Mach(), msgs, PeekReg(bus.feed));
      var msg := msgs[curMsg];
      var oldAddr := curSlave;
      curSlave := msg.addr;
      if curMsg == 0 || msg.addr != oldAddr || !msg.nostart {
        var busy := false;
        if curMsg == 0 {
          busy := IsBusBusy();
        }
        if busy {
          errno := EBUSY;
          state := Done;
          assert o.writes == [];
        } else {
          var data := AddrFrame(msg.addr, msg.rd) as bv8;
          SendCmd(CMD_START, data);
          assert o.writes == Cmd(CMD_START, data);
        }
      } else {
        assert o.writes == [];
      }
      if errno == 0 {
        state := Data;
      }
    }

    /** oci2c_data */
    method HandleData()
      requires curMsg < |msgs|
      modifies this`curByte, this`curMsg, this`errno, this`state, bus`log, bus`feed
      ensures Did(DataStep(old(Mach()), msgs, PeekReg(old(bus.feed))), true)
    {
      var msg := msgs[curMsg];
      var stat := GetReg(REG_STATUS);
      if ArbLost(stat) {
        errno := EPROTO;
        state := Stop;
      } else if curByte == 0 && NoAck(stat) {
        errno := ECOMM;
        state := Stop;
      } else if curByte >= |msg.data| {
        NextMsg();
      } else if msg.rd {
        var cmd := if curByte < |msg.data| - 1 then CMD_READ else CMD_READ_LAST;
        SendCmd(cmd, 0);
        state := Read;
      } else {
        SendCmd(CMD_WRITE, msg.data[curByte]);
        state := Write;
      }
    }

    /** oci2c_read: store the received byte in the message buffer. */
    method HandleRead()
      requires curMsg < |msgs| && curByte < |msgs[curMsg].data|
      modifies this`msgs, this`curByte, this`state, bus`feed
      ensures Did(ReadStep(old(Mach()), old(msgs), PeekReg(old(bus.feed))), true)
    {
      var data := GetReg(REG_DATA);
      msgs := StoreByte(msgs, curMsg, curByte, data);
      curByte := curByte + 1;
      state := Data;
    }

    /** oci2c_write */
    method HandleWrite()
      modifies this`curByte, this`errno, this`state, bus`feed
      ensures Did(WriteStep(old(Mach()), msgs, PeekReg(old(bus.feed))), true)
    {
      var stat := GetReg(REG_STATUS);
      if NoAck(stat) {
        errno := ECOMM;
        state := Stop;
      } else {
        curByte := curByte + 1;
        state := Data;
      }
    }

    /** oci2c_stop */
    method HandleStop()
      modifies this`state, bus`log
      ensures Did(StopStep(old(Mach()), msgs), false)
    {
      SendCmd(CMD_STOP, 0);
      if errno == 0 && curMsg < |msgs| {
        state := Start;
      } else {
        state := Done;
      }
    }

    /** oci2c_done */
    method HandleDone()
      modifies this`state, bus`log
      ensures Did(DoneStep(old(Mach()), msgs), false)
    {
      SendCmd(CMD_IACK, 0);
      state := Done;
    }

    /** The switch of oci2c_process for a state that is neither DONE nor
        EXIT: run that state's handler. */
    method Dispatch()
      requires Valid() && state !in {Done, Exit}
      modifies this`msgs, this`curByte, this`curMsg, this`curSlave, this`errno, this`state
      modifies bus`log, bus`feed, bus`now, bus`jitter
      ensures Valid()
      ensures Did(Step(old(Mach()), old(msgs), PeekReg(old(bus.feed))), StepReads(old(Mach())))
    {
      ghost var o := Step(Mach(), msgs, PeekReg(bus.feed));
      match state {
        case PreStart => HandlePreStart();
        case Start => HandleStart();
        case Data => HandleData();
        case Read => HandleRead();
        case Write => HandleWrite();
        case Stop => HandleStop();
      }
      assert Mach() == o.m && msgs == o.msgs;
    }

    /** One turn of the loop of oci2c_process: run the handler of the
        current state, then read STATUS again. `fr` is what the hardware had
        left to return before the previous read, `next` the same for the
        read made here. */
    method Turn(ghost fr: seq<bv32>) returns (stat: bv8, ghost next: seq<bv32>)
      requires Valid() && state !in {Done, Exit}
      requires !Tip(PeekReg(fr)) && bus.feed == DropReg(fr)
      modifies this`msgs, this`curByte, this`curMsg, this`curSlave, this`errno, this`state
      modifies bus`log, bus`feed, bus`now, bus`jitter
      ensures Valid()
      ensures stat == PeekReg(next) && bus.feed == DropReg(next) && |next| < |fr|
      ensures var o := Step(old(Mach()), old(msgs), PeekReg(old(bus.feed)));
              bus.log == old(bus.log) + o.writes &&
              RunSteps(old(Mach()), old(msgs), fr) == After(o.writes, RunSteps(Mach(), msgs, next))
    {
      RunStepsUnfold(Mach(), msgs, fr);
      Dispatch();
      next := bus.feed;
      stat := GetReg(REG_STATUS);
    }

    /** oci2c_process: returns whether a command is still in progress. */
    method Process() returns (more: bool)
      requires Valid()
      modifies this`msgs, this`curByte, this`curMsg, this`curSlave, this`errno, this`state
      modifies bus`log, bus`feed, bus`now, bus`jitter
      ensures Valid()
      ensures var r := OcoresFsm.Process(old(Mach()), old(msgs), old(bus.feed));
              Mach() == r.m && msgs == r.msgs && more == r.more &&
              bus.log == old(bus.log) + r.writes && bus.feed == r.feed
    {
      if errno == ETIMEDOUT || errno == EPROTO {
        state := Stop;
        HandleStop();
        HandleDone();
        return false;
      }
      more := RunLoop();
    }

    /** The loop of oci2c_process and what follows it, once no error forces
        the end: run handlers while no transfer is in progress and the
        state machine has not reached DONE or EXIT. */
    method RunLoop() returns (more: bool)
      requires Valid() && !Forced(errno)
      modifies this`msgs, this`curByte, this`curMsg, this`curSlave, this`errno, this`state
      modifies bus`log, bus`feed, bus`now, bus`jitter
      ensures Valid()
      ensures var r := RunSteps(old(Mach()), old(msgs), old(bus.feed));
              Mach() == r.m && msgs == r.msgs && more == r.more &&
              bus.log == old(bus.log) + r.writes && bus.feed == r.feed
    {
      ghost var total := RunSteps(Mach(), msgs, bus.feed);
      ghost var log0 := bus.log;
      ghost var emitted: seq<Access> := [];
      ghost var fr := bus.feed;
      var stat := GetReg(REG_STATUS);
      while !Tip(stat) && state != Done && state != Exit
        invariant Valid()
        invariant bus.log == log0 + emitted
        invariant stat == PeekReg(fr) && bus.feed == DropReg(fr)
        invariant total == After(emitted, RunSteps(Mach(), msgs, fr))
        decreases |fr|
      {
        ghost var o := Step(Mach(), msgs, PeekReg(bus.feed));
        stat, fr := Turn(fr);
        AfterAfter(emitted, o.writes, RunSteps(Mach(), msgs, fr));
        AppendAssoc(log0, emitted, o.writes);
        emitted := emitted + o.writes;
      }
      ghost var rest := RunSteps(Mach(), msgs, fr);
      more := LoopEnd(stat, fr);
      AppendAssoc(log0, emitted, rest.writes);
    }

    /** The end of oci2c_process once its loop stops on the status `stat`:
        report a transfer still in progress, or acknowledge in DONE, or end
        silently in EXIT. */
    method LoopEnd(stat: bv8, ghost fr: seq<bv32>) returns (more: bool)
      requires Valid() && stat == PeekReg(fr) && bus.feed == DropReg(fr)
      requires Tip(stat) || state == Done || state == Exit
      modifies this`state, bus`log
      ensures Valid()
      ensures var r := RunSteps(old(Mach()), old(msgs), fr);
              Mach() == r.m && msgs == r.msgs && more == r.more &&
              bus.log == old(bus.log) + r.writes && bus.feed == r.feed
    {
      if Tip(stat) {
        return true;
      }
      if state == Done {
        HandleDone();
      }
      return false;
    }

    /** oci2c_wait in polling mode: poll STATUS until no transfer is in
        progress, sleeping per the back-off between polls; give up with
        ETIMEDOUT once 2000us have elapsed. Returns ETIMEDOUT or 0. */
    method Wait() returns (rc: nat)
      modifies this`errno, bus`feed, bus`now, bus`jitter
      ensures rc == 0 || rc == ETIMEDOUT
      ensures errno == (if rc == 0 then old(errno) else ETIMEDOUT)
      ensures |bus.feed| <= |old(bus.feed)| && bus.feed == old(bus.feed)[|old(bus.feed)| - |bus.feed|..]
      ensures old(bus.feed) != [] ==> |bus.feed| < |old(bus.feed)|
      ensures old(bus.feed) == [] ==> rc == ETIMEDOUT
      ensures PollTrace(old(bus.feed), bus.feed, rc == 0)
      ensures rc == ETIMEDOUT ==> bus.now - old(bus.now) >= TIMEOUT_US
    {
      var start := bus.now;
      var curr := start;
      ghost var f0 := bus.feed;
      while true
        invariant curr == bus.now && curr >= start && start == old(bus.now)
        invariant errno == old(errno)
        invariant |bus.feed| <= |f0| && bus.feed == f0[|f0| - |bus.feed|..]
        invariant forall j :: 0 <= j < |f0| - |bus.feed| ==> Tip(LowByte(f0[j]))
        invariant |f0| - |bus.feed| + ReadBudget(curr - start) + 1 <= MAX_POLLS
        invariant f0 == [] || |bus.feed| < |f0| || curr == start
        decreases if curr - start < TIMEOUT_US then TIMEOUT_US - (curr - start) else 0
      {
        ghost var before := bus.feed;
        var stat := GetReg(REG_STATUS);
        if !Tip(stat) {
          return 0;
        }
        var b := BackoffFor(curr - start);
        if b.TimedOut? {
          errno := ETIMEDOUT;
          return ETIMEDOUT;
        }
        bus.UsleepRange(b.lo, b.hi);
        SleepSpendsBudget(curr - start, bus.now - start);
        curr := bus.now;
      }
    }

    /** The enable check at the start of oci2c_xfer: enable a disabled
        controller, then report whether CONTROL now shows it enabled. */
    method EnsureEnabled() returns (ok: bool)
      modifies bus`feed, bus`log, bus`now, bus`jitter
      ensures var p := EnableCheck(old(bus.feed));
              ok == p.ok && bus.log == old(bus.log) + p.writes && bus.feed == p.feed
    {
      var en := IsEnabled();
      if !en {
        var rc := Enable();
      }
      ok := IsEnabled();
    }

    /** oci2c_process, as the transfer loop relies on it: the invariant is
        kept, only read buffers change, the log only grows, and a call that
        returns false leaves the machine in DONE or EXIT. */
    method Advance() returns (more: bool)
      requires Valid()
      modifies this`msgs, this`curByte, this`curMsg, this`curSlave, this`errno, this`state
      modifies bus`log, bus`feed, bus`now, bus`jitter
      ensures var r := OcoresFsm.Process(old(Mach()), old(msgs), old(bus.feed));
              Mach() == r.m && msgs == r.msgs && more == r.more &&
              bus.log == old(bus.log) + r.writes && bus.feed == r.feed
      ensures Valid() && (!more ==> state in {Done, Exit})
      ensures SameShape(old(msgs), msgs) && WritesIntact(old(msgs), msgs)
      ensures |bus.feed| <= |old(bus.feed)|
      ensures !Forced(old(errno)) && old(bus.feed) != [] ==> |bus.feed| < |old(bus.feed)|
      ensures Forced(old(errno)) ==> !more
    {
      ProcessPreserves(Mach(), msgs, bus.feed);
      more := Process();
    }

    /** The controller and the register window are where round `rd` left
        them, and `more` is what its call of process returned. */
    ghost predicate LeftBy(rd: Round, more: bool)
      reads this, bus
    {
      var r := rd.run;
      Mach() == r.m && msgs == r.msgs && more == r.more && bus.feed == r.feed
    }

    /** The wait and the pad at the head of a turn of the loop of
        oci2c_xfer, after the call of process of round `prev` returned 1;
        `polled` says whether the wait saw the command complete. */
    method WaitAndPad(ghost prev: Round) returns (polled: bool)
      requires Valid() && LeftBy(prev, true)
      modifies this`errno, bus`feed, bus`now, bus`jitter
      ensures Valid() && bus.log == old(bus.log)
      ensures Continues(prev.run, Mach(), msgs, bus.feed, polled)
      ensures old(bus.feed) != [] ==> |bus.feed| < |old(bus.feed)|
      ensures old(bus.feed) == [] ==> !polled
    {
      var rc := Wait();
      if padTime > 0 {
        bus.UsleepRange(padTime, padTime + 10);
      }
      polled := rc == 0;
    }

    /** One more turn of the loop of oci2c_xfer after the call of process of
        round `prev` returned 1: wait for the command, pad, and process
        again. `rd` is the round that call of process makes. */
    method Resume(ghost prev: Round) returns (more: bool, ghost rd: Round)
      requires Valid() && LeftBy(prev, true)
      modifies this`msgs, this`curByte, this`curMsg, this`curSlave, this`errno, this`state
      modifies bus`log, bus`feed, bus`now, bus`jitter
      ensures Ran(rd) && Follows(prev, rd)
      ensures LeftBy(rd, more) && bus.log == old(bus.log) + rd.run.writes
      ensures |bus.feed| < |old(bus.feed)| || (bus.feed == old(bus.feed) == [] && !more)
    {
      var polled := WaitAndPad(prev);
      rd := Round(Mach(), msgs, bus.feed, polled, OcoresFsm.Process(Mach(), msgs, bus.feed));
      more := Advance();
    }

    /** Resume as one more round of the chain `rs`. */
    method NextRound(ghost rs: seq<Round>) returns (more: bool, ghost next: seq<Round>)
      requires Rounds(rs) && LeftBy(rs[|rs| - 1], true)
      modifies this`msgs, this`curByte, this`curMsg, this`curSlave, this`errno, this`state
      modifies bus`log, bus`feed, bus`now, bus`jitter
      ensures Rounds(next) && next[0] == rs[0] && LeftBy(next[|next| - 1], more)
      ensures bus.log == old(bus.log) + next[|next| - 1].run.writes
      ensures RoundsWrites(next) == RoundsWrites(rs) + next[|next| - 1].run.writes
      ensures |bus.feed| < |old(bus.feed)| || (bus.feed == old(bus.feed) == [] && !more)
    {
      RoundsPreserve(rs);
      ghost var rd;
      more, rd := Resume(rs[|rs| - 1]);
      RoundsGrow(rs, rd);
      RoundsWritesGrow(rs, rd);
      next := rs + [rd];
    }

    /** The initialisation of the state machine in oci2c_xfer: the chain
        `ds`, PRESTART at the first byte of the first message, no slave
        addressed yet and no error. */
    method Reset(ds: seq<Msg>)
      requires |ds| > 0 && WellFormed(ds)
      modifies this`msgs, this`curByte, this`curMsg, this`curSlave, this`errno, this`state
      ensures Valid() && Mach() == Machine(PreStart, 0, 0, 0, 0) && msgs == ds
    {
      msgs := ds;
      curMsg := 0;
      curSlave := 0;
      curByte := 0;
      errno := 0;
      state := PreStart;
    }

    /** The head of the message chain of oci2c_xfer: the state machine
        starts in PRESTART at the first byte of the first message of `ds`
        with no error, and process runs once; `rs` is that first round. */
    method Begin(ds: seq<Msg>) returns (more: bool, ghost rs: seq<Round>)
      requires |ds| > 0 && WellFormed(ds)
      modifies this`msgs, this`curByte, this`curMsg, this`curSlave, this`errno, this`state
      modifies bus`log, bus`feed, bus`now, bus`jitter
      ensures Rounds(rs) && |rs| == 1 && LeftBy(rs[0], more)
      ensures rs[0].m == Machine(PreStart, 0, 0, 0, 0) && rs[0].msgs == ds && rs[0].feed == old(bus.feed)
      ensures bus.log == old(bus.log) + RoundsWrites(rs)
    {
      Reset(ds);
      ghost var rd := Round(Mach(), msgs, bus.feed, true, OcoresFsm.Process(Mach(), msgs, bus.feed));
      more := Advance();
      FirstRound(rd);
      rs := [rd];
    }

    /** The message chain of oci2c_xfer: reset the state machine to
        PRESTART on `ds`, then process, and while a command is in progress
        wait for it and pad, until the state machine reaches DONE or EXIT.
        `rs` are the calls of process it made; the writes are theirs, in
        order. */
    method RunChain(ds: seq<Msg>) returns (ghost rs: seq<Round>)
      requires |ds| > 0 && WellFormed(ds)
      modifies this`msgs, this`curByte, this`curMsg, this`curSlave, this`errno, this`state
      modifies bus`log, bus`feed, bus`now, bus`jitter
      ensures Chain(rs) && rs[0].m == Machine(PreStart, 0, 0, 0, 0) && rs[0].msgs == ds
      ensures rs[0].feed == old(bus.feed) && LeftBy(rs[|rs| - 1], false)
      ensures bus.log == old(bus.log) + RoundsWrites(rs)
      ensures Valid() && state in {Done, Exit}
      ensures SameShape(ds, msgs) && WritesIntact(ds, msgs)
      ensures errno == 0 ==> (state == Done && curMsg == |ds|) || (state == Exit && ds[curMsg].addr == CBUS_ADDR)
    {
      ghost var log0 := bus.log;
      var more;
      more, rs := Begin(ds);
      ghost var first := rs[0];
      while more
        invariant Rounds(rs) && rs[0] == first
        invariant LeftBy(rs[|rs| - 1], more)
        invariant bus.log == log0 + RoundsWrites(rs)
        decreases |bus.feed|, if more then 1 else 0
      {
        ghost var rs1 := rs;
        more, rs := NextRound(rs);
        AppendAssoc(log0, RoundsWrites(rs1), rs[|rs| - 1].run.writes);
      }
      ChainEnd(rs, ds);
    }

    /** The end of oci2c_xfer after the message chain: read CONTROL again,
        fail with EACCES if the controller has been disabled meanwhile,
        otherwise pad and return `n` (the number of messages) or the
        negative errno. */
    method Conclude(n: nat) returns (r: int)
      modifies bus`feed, bus`now, bus`jitter
      ensures bus.feed == DropReg(old(bus.feed))
      ensures r == (if !Enabled(PeekReg(old(bus.feed))) then -EACCES
                    else if errno != 0 then -(errno as int) else n)
    {
      var en := IsEnabled();
      if !en {
        return -EACCES;
      }
      bus.UsleepRange(padTime + 50, padTime + 60);
      r := if errno != 0 then -(errno as int) else n;
    }

    /** oci2c_xfer once the adapter mutex is held: make sure the
        controller is enabled, run the message chain to its end, check the
        controller is still enabled, and pad. Returns the number of messages
        or a negative errno; the bytes received are in `msgs` afterwards.
        `rs` are the calls of process the transfer made (none when the
        controller could not be enabled). */
    method Transact(ds: seq<Msg>) returns (r: int, ghost rs: seq<Round>)
      requires |ds| > 0 && WellFormed(ds)
      modifies this`msgs, this`curByte, this`curMsg, this`curSlave, this`errno, this`state
      modifies bus`log, bus`feed, bus`now, bus`jitter
      ensures var p := EnableCheck(old(bus.feed));
        && (!p.ok ==> r == -EACCES && rs == [] && bus.log == old(bus.log) + p.writes && bus.feed == p.feed)
        && (p.ok ==> Transferred(ds, p, rs, r, old(bus.log), bus.log, bus.feed, errno))
      ensures r >= 0 ==> r == |ds| && errno == 0 && Valid()
      ensures r >= 0 ==> SameShape(ds, msgs) && WritesIntact(ds, msgs)
      ensures r >= 0 ==> (state == Done && curMsg == |ds|) || (state == Exit && ds[curMsg].addr == CBUS_ADDR)
      ensures r < 0 ==> r == -EACCES || (r == -(errno as int) && errno != 0)
    {
      rs := [];
      var ok := EnsureEnabled();
      if !ok {
        return -EACCES, rs;
      }
      rs := RunChain(ds);
      r := Conclude(|ds|);
    }

    /** oci2c_xfer in polling mode: take the adapter mutex without waiting
        (a held mutex fails with EACCES and touches nothing), run the
        transfer, and release the mutex. */
    method Xfer(ds: seq<Msg>) returns (r: int, ghost rs: seq<Round>)
      requires |ds| > 0 && WellFormed(ds)
      modifies this, bus
      ensures old(locked) ==> r == -EACCES && locked && unchanged(this, bus)
      ensures !old(locked) ==> !locked
      ensures !old(locked) ==> var p := EnableCheck(old(bus.feed));
        && (!p.ok ==> r == -EACCES && rs == [] && bus.log == old(bus.log) + p.writes && bus.feed == p.feed)
        && (p.ok ==> Transferred(ds, p, rs, r, old(bus.log), bus.log, bus.feed, errno))
      ensures r >= 0 ==> r == |ds| && errno == 0 && Valid()
      ensures r >= 0 ==> SameShape(ds, msgs) && WritesIntact(ds, msgs)
      ensures r >= 0 ==> (state == Done && curMsg == |ds|) || (state == Exit && ds[curMsg].addr == CBUS_ADDR)
      ensures r < 0 ==> r == -EACCES || (r == -(errno as int) && errno != 0)
    {
      rs := [];
      if locked {
        return -EACCES, rs;
      }
      locked := true;
      r, rs := Transact(ds);
      locked := false;
    }
  }
}
