/** Properties of the transaction state machine of fpga_i2c_ocores.c: what
    each handler promises about the commands it sends, how a chain advances
    from message to message, that the loop of oci2c_process makes progress
    whatever the hardware reports, and complete register traces of a write
    and of a read transaction on an idle bus. */
module OcoresProps {
  import opened OcoresRegs
  import opened SeqLemmas
  import opened OcoresFsm

  // ---------------------------------------------------------------------
  // Special operations
  // ---------------------------------------------------------------------

  /** The register traffic of each special operation, in raw offsets and
      command values: MUX_SET writes the parameter to the mux-select
      register (offset 0x14); RST_CONTLR writes 0xD then 0 to the reset
      register (offset 0x18); RST_SLAVE sends START with the parameter
      shifted left, a WRITE of 0xFF (nine clocks with SDA high, the bus clear
      of section 3.1.16 of the I2C-bus specification UM10204), then STOP;
      any other opcode writes nothing and fails. */
  lemma SpecialOpTraffic(op: bv8, param: bv8)
    ensures var r := SpecialOp(op, param);
      && (op == 1 ==> r.ok && r.writes == [IoWrite(0x14, param as bv32)])
      && (op == 2 ==> r.ok && r.writes == [IoWrite(0x18, 0xD), IoWrite(0x18, 0)])
      && (op == 3 ==> (r.ok && r.writes ==
            [IoWrite(0x0C, (param << 1) as bv32), IoWrite(0x10, 0x91),
             IoWrite(0x0C, 0xFF), IoWrite(0x10, 0x11),
             IoWrite(0x0C, 0), IoWrite(0x10, 0x41)]))
      && (op !in {1, 2, 3} ==> !r.ok && r.writes == [])
  {
  }

  /** A message to the CBUS address ends the chain: once a special
      operation has run (two status reads without a transfer in progress),
      oci2c_process returns 0 with no IACK, leaving the cursor on that
      message, so no later message is touched; the only writes are the
      operation's own, and an unknown opcode is reported as EBADMSG. */
  lemma SpecialOpExits(m: Machine, ms: seq<Msg>, feed: seq<bv32>)
    requires Inv(m, ms) && m.state == PreStart && !Forced(m.errno)
    requires ms[m.curMsg].addr == CBUS_ADDR
    requires !Tip(PeekReg(feed)) && !Tip(PeekReg(DropReg(feed)))
    ensures var msg := ms[m.curMsg];
            var op := SpecialOp(msg.data[0], msg.data[1]);
            var r := Process(m, ms, feed);
            && !r.more && r.msgs == ms && r.writes == op.writes
            && r.m == m.(state := Exit, errno := if op.ok then m.errno else EBADMSG)
            && r.feed == DropReg(DropReg(feed))
  {
    RunStepsUnfold(m, ms, feed);
  }

  /** EXIT is inert: oci2c_process in EXIT writes nothing and changes
      nothing; it reports work pending only while a transfer shows in
      progress. */
  lemma ExitIsInert(m: Machine, ms: seq<Msg>, feed: seq<bv32>)
    requires Inv(m, ms) && m.state == Exit && !Forced(m.errno)
    ensures Process(m, ms, feed) == Run(m, ms, [], DropReg(feed), Tip(PeekReg(feed)))
  {
  }

  // ---------------------------------------------------------------------
  // Moving between messages
  // ---------------------------------------------------------------------

  /** oci2c_next_msg: the byte cursor restarts, the message cursor advances,
      and the chain goes on with the next message, or ends with STOP when a
      slave was addressed, or ends at once otherwise. */
  lemma NextMsgSpec(m: Machine, n: nat)
    ensures var k := NextMsg(m, n);
      && k.curByte == 0 && k.curMsg == m.curMsg + 1
      && k.curSlave == m.curSlave && k.errno == m.errno
      && (k.state == PreStart <==> m.curMsg + 1 < n)
      && (k.state == Stop <==> m.curMsg + 1 >= n && m.curSlave != 0)
      && (k.state == Done <==> m.curMsg + 1 >= n && m.curSlave == 0)
  {
  }

  /** A further message with NOSTART to the slave already addressed
      continues the transfer: PRE_START and START send nothing, and the
      chain goes straight to DATA. */
  lemma NoStartSameSlave(m: Machine, ms: seq<Msg>, s1: bv8, s2: bv8)
    requires Inv(m, ms) && m.state == PreStart && m.errno == 0 && m.curMsg > 0
    requires ms[m.curMsg].addr != CBUS_ADDR && ms[m.curMsg].addr == m.curSlave
    requires ms[m.curMsg].nostart
    ensures var o1 := Step(m, ms, s1);
            var o2 := Step(o1.m, o1.msgs, s2);
            && o1.writes == [] && o1.m == m.(state := Start)
            && o2.writes == [] && o2.m == m.(state := Data)
  {
  }

  /** A message to a different slave first ends the previous transfer:
      PRE_START goes to STOP, which sends STOP, and START then sends a
      repeated START with the new address frame; no status is read for it
      since this is not the first message. */
  lemma NewSlaveStopsFirst(m: Machine, ms: seq<Msg>, s1: bv8, s2: bv8, s3: bv8)
    requires Inv(m, ms) && m.state == PreStart && m.errno == 0 && m.curMsg > 0
    requires ms[m.curMsg].addr != CBUS_ADDR
    requires m.curSlave != 0 && m.curSlave != ms[m.curMsg].addr
    ensures var msg := ms[m.curMsg];
            var o1 := Step(m, ms, s1);
            var o2 := Step(o1.m, o1.msgs, s2);
            var o3 := Step(o2.m, o2.msgs, s3);
            && o1.writes == [] && o1.m.state == Stop
            && o2.writes == Cmd(CMD_STOP, 0) && o2.m.state == Start
            && o3.writes == Cmd(CMD_START, AddrFrame(msg.addr, msg.rd) as bv8)
            && o3.m == m.(state := Data, curSlave := msg.addr)
            && !StepReads(o2.m)
  {
  }

  // ---------------------------------------------------------------------
  // The handlers
  // ---------------------------------------------------------------------

  /** START always records the message's slave. It sends exactly one START
      command, with the address frame of section 3.1.10 of UM10204, when a
      START is needed and the bus is not busy; it sends nothing otherwise.
      The bus counts as busy only on the first message, and then also when
      the status read fails. */
  lemma StartSendsStart(m: Machine, ms: seq<Msg>, stat: bv8)
    requires AtMsg(m, ms) && m.errno == 0
    ensures var msg := ms[m.curMsg];
            var busy := m.curMsg == 0 && Busy(stat);
            var o := StartStep(m, ms, stat);
            && o.m.curSlave == msg.addr
            && (o.writes != [] <==> NeedStart(m, ms) && !busy)
            && (o.writes != [] ==> o.writes == Cmd(CMD_START, AddrFrame(msg.addr, msg.rd) as bv8))
            && (busy ==> o.writes == [] && o.m.errno == EBUSY && o.m.state == Done)
            && (!busy ==> o.m.errno == 0 && o.m.state == Data)
    ensures m.curMsg == 0 ==> StartStep(m, ms, PeekReg([])).m.errno == EBUSY
  {
  }

  /** DATA checks in priority order: lost arbitration stops with EPROTO
      whatever else the status says; a missing acknowledgement of the
      address stops with ECOMM; a finished buffer moves to the next message;
      otherwise one READ (READ_LAST, which answers NACK, for the final byte)
      or one WRITE of the current byte is sent. Only the last two send
      anything. */
  lemma DataPriority(m: Machine, ms: seq<Msg>, stat: bv8)
    requires m.curMsg < |ms|
    ensures var msg := ms[m.curMsg];
            var o := DataStep(m, ms, stat);
            && (ArbLost(stat) ==> o.m == m.(errno := EPROTO, state := Stop) && o.writes == [])
            && (!ArbLost(stat) && m.curByte == 0 && NoAck(stat) ==>
                  o.m == m.(errno := ECOMM, state := Stop) && o.writes == [])
            && (o.writes != [] <==>
                  !ArbLost(stat) && !(m.curByte == 0 && NoAck(stat)) && m.curByte < |msg.data|)
            && (o.writes != [] && msg.rd ==>
                  o.m.state == Read &&
                  o.writes == Cmd(if m.curByte + 1 == |msg.data| then CMD_READ_LAST else CMD_READ, 0))
            && (o.writes != [] && !msg.rd ==>
                  o.m.state == Write && o.writes == Cmd(CMD_WRITE, msg.data[m.curByte]))
            && o.msgs == ms
  {
  }

  /** READ stores the received byte at the cursor and nowhere else, then
      returns to DATA for the next byte. */
  lemma ReadStoresOneByte(m: Machine, ms: seq<Msg>, b: bv8)
    requires m.curMsg < |ms| && m.curByte < |ms[m.curMsg].data|
    ensures var o := ReadStep(m, ms, b);
            && o.writes == [] && o.m == m.(curByte := m.curByte + 1, state := Data)
            && |o.msgs| == |ms| && o.msgs[m.curMsg].data[m.curByte] == b
            && (forall i :: 0 <= i < |ms| && i != m.curMsg ==> o.msgs[i] == ms[i])
            && (forall j :: 0 <= j < |ms[m.curMsg].data| && j != m.curByte ==>
                  o.msgs[m.curMsg].data[j] == ms[m.curMsg].data[j])
  {
  }

  /** WRITE: a NACK of the byte stops with ECOMM; an acknowledged byte moves
      the cursor on. STOP always sends STOP, and restarts only when there is
      no error and messages remain. */
  lemma WriteAndStop(m: Machine, ms: seq<Msg>, stat: bv8)
    ensures var o := WriteStep(m, ms, stat);
            && o.writes == []
            && (NoAck(stat) ==> o.m == m.(errno := ECOMM, state := Stop))
            && (!NoAck(stat) ==> o.m == m.(curByte := m.curByte + 1, state := Data))
    ensures var o := StopStep(m, ms);
            && o.writes == Cmd(CMD_STOP, 0)
            && (o.m.state == Start <==> m.errno == 0 && m.curMsg < |ms|)
            && (o.m.state != Start ==> o.m.state == Done)
  {
  }

  // ---------------------------------------------------------------------
  // Progress of the loop of oci2c_process
  // ---------------------------------------------------------------------

  /** The position of a state in the order the handlers follow one another
      for a single byte. */
  function Rank(s: State): nat
  {
    match s
    case PreStart => 5
    case Stop => 4
    case Start => 3
    case Data => 2
    case Read => 1
    case Write => 1
    case Done => 0
    case Exit => 0
  }

  /** Bytes still to transfer in the current message. */
  function BytesLeft(m: Machine, ms: seq<Msg>): nat
  {
    if m.curMsg < |ms| && m.curByte <= |ms[m.curMsg].data| then |ms[m.curMsg].data| - m.curByte else 0
  }

  /** The lexicographic measure (no error yet, messages left, bytes left,
      rank of the state). */
  predicate Below(a: Machine, as_: seq<Msg>, b: Machine, bs: seq<Msg>)
    requires a.curMsg <= |as_| && b.curMsg <= |bs|
  {
    var ea, eb := if a.errno == 0 then 1 else 0, if b.errno == 0 then 1 else 0;
    ea < eb || (ea == eb &&
      (|as_| - a.curMsg < |bs| - b.curMsg || (|as_| - a.curMsg == |bs| - b.curMsg &&
        (BytesLeft(a, as_) < BytesLeft(b, bs) || (BytesLeft(a, as_) == BytesLeft(b, bs) &&
          Rank(a.state) < Rank(b.state))))))
  }

  /** Every handler moves the machine strictly down the measure, whatever
      the status it reads; so even with a status that never shows a transfer
      in progress, the loop of oci2c_process reaches DONE or EXIT. An error
      other than the ones that force a stop can only be pending in STOP. */
  lemma StepProgress(m: Machine, ms: seq<Msg>, input: bv8)
    requires Inv(m, ms) && m.state !in {Done, Exit}
    requires m.errno == 0 || m.state == Stop
    ensures var o := Step(m, ms, input);
            Below(o.m, o.msgs, m, ms) && (o.m.errno == 0 || o.m.state in {Stop, Done, Exit})
  {
  }

  // ---------------------------------------------------------------------
  // Whole transactions on an idle bus
  // ---------------------------------------------------------------------

  /** Every read returns 0: no transfer in progress, no error, bus idle. */
  predicate Quiet(feed: seq<bv32>)
  {
    forall i :: 0 <= i < |feed| ==> LowByte(feed[i]) == 0
  }

  lemma QuietSuffix(feed: seq<bv32>, j: nat)
    requires Quiet(feed) && j <= |feed|
    ensures Quiet(feed[j..])
  {
    forall i | 0 <= i < |feed| - j
      ensures LowByte(feed[j..][i]) == 0
    {
      assert feed[j..][i] == feed[i + j];
    }
  }

  /** One turn of the loop of oci2c_process through a handler that reads a
      register: the status check, then the handler's read. */
  lemma ReadingTurn(m: Machine, ms: seq<Msg>, feed: seq<bv32>, o: Outcome)
    requires Inv(m, ms) && m.state !in {Done, Exit} && StepReads(m)
    requires |feed| >= 2 && !Tip(LowByte(feed[0])) && Step(m, ms, LowByte(feed[1])) == o
    ensures Inv(o.m, o.msgs)
    ensures RunSteps(m, ms, feed) == After(o.writes, RunSteps(o.m, o.msgs, feed[2..]))
  {
    assert DropReg(DropReg(feed)) == feed[2..];
    RunStepsUnfold(m, ms, feed);
  }

  /** One turn of the loop of oci2c_process through a handler that reads
      nothing: only the status check. */
  lemma PlainTurn(m: Machine, ms: seq<Msg>, feed: seq<bv32>, o: Outcome)
    requires Inv(m, ms) && m.state !in {Done, Exit} && !StepReads(m)
    requires |feed| >= 1 && !Tip(LowByte(feed[0])) && Step(m, ms, PeekReg(feed[1..])) == o
    ensures Inv(o.m, o.msgs)
    ensures RunSteps(m, ms, feed) == After(o.writes, RunSteps(o.m, o.msgs, feed[1..]))
  {
    RunStepsUnfold(m, ms, feed);
  }

  /** The last turn: DONE acknowledges the interrupt and ends the chain. */
  lemma DoneTurn(m: Machine, ms: seq<Msg>, feed: seq<bv32>)
    requires Inv(m, ms) && m.state == Done
    requires |feed| >= 1 && !Tip(LowByte(feed[0]))
    ensures RunSteps(m, ms, feed) == Run(m, ms, Cmd(CMD_IACK, 0), feed[1..], false)
  {
  }

  /** A turn that writes nothing leaves the rest of the chain as it is. */
  lemma AfterNil(r: Run)
    ensures After([], r) == r
  {
    assert [] + r.writes == r.writes;
  }

  /** The WRITE commands for the bytes `d`, in order. */
  function WriteFrames(d: seq<bv8>): (ws: seq<Access>)
    ensures |ws| == 2 * |d|
  {
    if d == [] then [] else Cmd(CMD_WRITE, d[0]) + WriteFrames(d[1..])
  }

  /** Each byte is sent by its own data-register write followed by the
      WRITE command. */
  lemma {:induction false} WriteFramesAt(d: seq<bv8>, i: nat)
    requires i < |d|
    ensures WriteFrames(d)[2 * i] == W(REG_DATA, d[i])
    ensures WriteFrames(d)[2 * i + 1] == W(REG_CMD, CMD_WRITE)
    decreases i
  {
    if i > 0 {
      WriteFramesAt(d[1..], i - 1);
      assert WriteFrames(d)[2 * i] == WriteFrames(d[1..])[2 * (i - 1)];
      assert WriteFrames(d)[2 * i + 1] == WriteFrames(d[1..])[2 * (i - 1) + 1];
    }
  }

  lemma WriteFramesCons(d: seq<bv8>, k: nat)
    requires k < |d|
    ensures WriteFrames(d[k..]) == Cmd(CMD_WRITE, d[k]) + WriteFrames(d[k + 1..])
  {
    assert d[k..][1..] == d[k + 1..];
  }

  /** The READ commands for `n` bytes: READ for each but the last,
      READ_LAST for the last. */
  function ReadFrames(n: nat): (ws: seq<Access>)
    ensures |ws| == 2 * n
  {
    if n == 0 then []
    else if n == 1 then Cmd(CMD_READ_LAST, 0)
    else Cmd(CMD_READ, 0) + ReadFrames(n - 1)
  }

  /** Every request is a data-register write of 0 followed by READ, except
      the last, which is READ_LAST. */
  lemma {:induction false} ReadFramesAt(n: nat, i: nat)
    requires i < n
    ensures ReadFrames(n)[2 * i] == W(REG_DATA, 0)
    ensures ReadFrames(n)[2 * i + 1] == W(REG_CMD, if i == n - 1 then CMD_READ_LAST else CMD_READ)
    decreases i
  {
    if i > 0 {
      ReadFramesAt(n - 1, i - 1);
      assert ReadFrames(n)[2 * i] == ReadFrames(n - 1)[2 * (i - 1)];
      assert ReadFrames(n)[2 * i + 1] == ReadFrames(n - 1)[2 * (i - 1) + 1];
    }
  }

  lemma ReadFramesCons(n: nat, k: nat)
    requires k < n
    ensures ReadFrames(n - k) == Cmd(if k + 1 == n then CMD_READ_LAST else CMD_READ, 0) + ReadFrames(n - (k + 1))
  {
  }

  /** The single message of the transaction lemmas. */
  function OneMsg(addr: int, rd: bool, d: seq<bv8>): seq<Msg>
  {
    [Msg(addr, rd, false, d)]
  }

  /** A plain 7-bit slave address, not the reserved CBUS address. */
  predicate Slave(addr: int)
  {
    0 < addr < 0x80 && addr != CBUS_ADDR
  }

  // The handler outcomes the transaction lemmas go through, each on its own.

  lemma PreStartIdle(addr: int, rd: bool, d: seq<bv8>, input: bv8)
    requires Slave(addr)
    ensures Inv(Machine(PreStart, 0, 0, 0, 0), OneMsg(addr, rd, d))
    ensures !StepReads(Machine(PreStart, 0, 0, 0, 0))
    ensures Step(Machine(PreStart, 0, 0, 0, 0), OneMsg(addr, rd, d), input) ==
            Outcome(Machine(Start, 0, 0, 0, 0), OneMsg(addr, rd, d), [])
  {
  }

  lemma StartIdle(addr: int, rd: bool, d: seq<bv8>)
    requires Slave(addr)
    ensures Inv(Machine(Start, 0, 0, 0, 0), OneMsg(addr, rd, d))
    ensures StepReads(Machine(Start, 0, 0, 0, 0))
    ensures Step(Machine(Start, 0, 0, 0, 0), OneMsg(addr, rd, d), 0) ==
            Outcome(Machine(Data, 0, 0, addr, 0), OneMsg(addr, rd, d),
                    Cmd(CMD_START, AddrFrame(addr, rd) as bv8))
  {
  }

  lemma DataWritesByte(addr: int, d: seq<bv8>, k: nat)
    requires Slave(addr) && k < |d|
    ensures Inv(Machine(Data, 0, k, addr, 0), OneMsg(addr, false, d))
    ensures Step(Machine(Data, 0, k, addr, 0), OneMsg(addr, false, d), 0) ==
            Outcome(Machine(Write, 0, k, addr, 0), OneMsg(addr, false, d), Cmd(CMD_WRITE, d[k]))
  {
  }

  lemma WriteAcked(addr: int, d: seq<bv8>, k: nat)
    requires Slave(addr) && k < |d|
    ensures Inv(Machine(Write, 0, k, addr, 0), OneMsg(addr, false, d))
    ensures Step(Machine(Write, 0, k, addr, 0), OneMsg(addr, false, d), 0) ==
            Outcome(Machine(Data, 0, k + 1, addr, 0), OneMsg(addr, false, d), [])
  {
  }

  lemma DataRequestsByte(addr: int, buf: seq<bv8>, k: nat)
    requires Slave(addr) && k < |buf|
    ensures Inv(Machine(Data, 0, k, addr, 0), OneMsg(addr, true, buf))
    ensures Step(Machine(Data, 0, k, addr, 0), OneMsg(addr, true, buf), 0) ==
            Outcome(Machine(Read, 0, k, addr, 0), OneMsg(addr, true, buf),
                    Cmd(if k + 1 == |buf| then CMD_READ_LAST else CMD_READ, 0))
  {
  }

  lemma ReadReturns(addr: int, buf: seq<bv8>, k: nat, x: bv8)
    requires Slave(addr) && k < |buf|
    ensures Inv(Machine(Read, 0, k, addr, 0), OneMsg(addr, true, buf))
    ensures Step(Machine(Read, 0, k, addr, 0), OneMsg(addr, true, buf), x) ==
            Outcome(Machine(Data, 0, k + 1, addr, 0), OneMsg(addr, true, buf[k := x]), [])
  {
  }

  lemma DataPastEnd(addr: int, rd: bool, d: seq<bv8>)
    requires Slave(addr)
    ensures Inv(Machine(Data, 0, |d|, addr, 0), OneMsg(addr, rd, d))
    ensures Step(Machine(Data, 0, |d|, addr, 0), OneMsg(addr, rd, d), 0) ==
            Outcome(Machine(Stop, 1, 0, addr, 0), OneMsg(addr, rd, d), [])
  {
  }

  lemma StopLast(addr: int, rd: bool, d: seq<bv8>, input: bv8)
    requires Slave(addr)
    ensures Inv(Machine(Stop, 1, 0, addr, 0), OneMsg(addr, rd, d))
    ensures !StepReads(Machine(Stop, 1, 0, addr, 0))
    ensures Step(Machine(Stop, 1, 0, addr, 0), OneMsg(addr, rd, d), input) ==
            Outcome(Machine(Done, 1, 0, addr, 0), OneMsg(addr, rd, d), Cmd(CMD_STOP, 0))
  {
  }

  /** PRE_START of a single message: one status read, nothing written. */
  lemma PreStartTurn(addr: int, rd: bool, d: seq<bv8>, feed: seq<bv32>)
    requires Slave(addr) && |feed| >= 1 && LowByte(feed[0]) == 0
    ensures Inv(Machine(Start, 0, 0, 0, 0), OneMsg(addr, rd, d))
    ensures RunSteps(Machine(PreStart, 0, 0, 0, 0), OneMsg(addr, rd, d), feed) ==
            RunSteps(Machine(Start, 0, 0, 0, 0), OneMsg(addr, rd, d), feed[1..])
  {
    var ms := OneMsg(addr, rd, d);
    PreStartIdle(addr, rd, d, PeekReg(feed[1..]));
    PlainTurn(Machine(PreStart, 0, 0, 0, 0), ms, feed, Outcome(Machine(Start, 0, 0, 0, 0), ms, []));
    AfterNil(RunSteps(Machine(Start, 0, 0, 0, 0), ms, feed[1..]));
  }

  /** START on an idle bus: START with the address frame. */
  lemma StartTurn(addr: int, rd: bool, d: seq<bv8>, feed: seq<bv32>)
    requires Slave(addr) && |feed| >= 2 && LowByte(feed[0]) == 0 && LowByte(feed[1]) == 0
    ensures RunSteps(Machine(Start, 0, 0, 0, 0), OneMsg(addr, rd, d), feed) ==
            After(Cmd(CMD_START, AddrFrame(addr, rd) as bv8),
                  RunSteps(Machine(Data, 0, 0, addr, 0), OneMsg(addr, rd, d), feed[2..]))
  {
    var ms := OneMsg(addr, rd, d);
    StartIdle(addr, rd, d);
    ReadingTurn(Machine(Start, 0, 0, 0, 0), ms, feed,
                Outcome(Machine(Data, 0, 0, addr, 0), ms, Cmd(CMD_START, AddrFrame(addr, rd) as bv8)));
  }

  /** PRE_START and START of a single message on an idle bus: START with
      the address frame, one status read for the bus-busy check. */
  lemma FirstTurns(addr: int, rd: bool, d: seq<bv8>, feed: seq<bv32>)
    requires Slave(addr) && |feed| >= 3
    requires LowByte(feed[0]) == 0 && LowByte(feed[1]) == 0 && LowByte(feed[2]) == 0
    ensures RunSteps(Machine(PreStart, 0, 0, 0, 0), OneMsg(addr, rd, d), feed) ==
            After(Cmd(CMD_START, AddrFrame(addr, rd) as bv8),
                  RunSteps(Machine(Data, 0, 0, addr, 0), OneMsg(addr, rd, d), feed[3..]))
  {
    PreStartTurn(addr, rd, d, feed);
    var f1 := feed[1..];
    assert f1[0] == feed[1] && f1[1] == feed[2] && f1[2..] == feed[3..];
    StartTurn(addr, rd, d, f1);
  }

  /** STOP after the last message, then DONE, on an idle bus. */
  lemma StopTurns(addr: int, rd: bool, d: seq<bv8>, feed: seq<bv32>)
    requires Slave(addr) && |feed| >= 2 && LowByte(feed[0]) == 0 && LowByte(feed[1]) == 0
    ensures Inv(Machine(Stop, 1, 0, addr, 0), OneMsg(addr, rd, d))
    ensures RunSteps(Machine(Stop, 1, 0, addr, 0), OneMsg(addr, rd, d), feed) ==
            Run(Machine(Done, 1, 0, addr, 0), OneMsg(addr, rd, d), Cmd(CMD_STOP, 0) + Cmd(CMD_IACK, 0), feed[2..], false)
  {
    var ms := OneMsg(addr, rd, d);
    var m1, m2 := Machine(Stop, 1, 0, addr, 0), Machine(Done, 1, 0, addr, 0);
    StopLast(addr, rd, d, PeekReg(feed[1..]));
    PlainTurn(m1, ms, feed, Outcome(m2, ms, Cmd(CMD_STOP, 0)));
    assert feed[1..][0] == feed[1] && feed[1..][1..] == feed[2..];
    DoneTurn(m2, ms, feed[1..]);
  }

  /** DATA past the last byte, STOP and DONE of a single message on an idle
      bus: STOP, then IACK, and the chain ends. */
  lemma LastTurns(addr: int, rd: bool, d: seq<bv8>, feed: seq<bv32>)
    requires Slave(addr) && Quiet(feed) && |feed| >= 4
    ensures RunSteps(Machine(Data, 0, |d|, addr, 0), OneMsg(addr, rd, d), feed) ==
            Run(Machine(Done, 1, 0, addr, 0), OneMsg(addr, rd, d), Cmd(CMD_STOP, 0) + Cmd(CMD_IACK, 0), feed[4..], false)
  {
    var ms := OneMsg(addr, rd, d);
    var m0, m1 := Machine(Data, 0, |d|, addr, 0), Machine(Stop, 1, 0, addr, 0);
    var f2 := feed[2..];
    assert LowByte(feed[0]) == 0 && LowByte(feed[1]) == 0;
    assert f2[0] == feed[2] && f2[1] == feed[3] && f2[2..] == feed[4..];
    assert LowByte(feed[2]) == 0 && LowByte(feed[3]) == 0;
    DataPastEnd(addr, rd, d);
    ReadingTurn(m0, ms, feed, Outcome(m1, ms, []));
    StopTurns(addr, rd, d, f2);
  }

  /** DATA sends byte `k` of a write message on an idle bus. */
  lemma WriteRequest(addr: int, d: seq<bv8>, k: nat, feed: seq<bv32>)
    requires Slave(addr) && k < |d| && |feed| >= 2 && LowByte(feed[0]) == 0 && LowByte(feed[1]) == 0
    ensures Inv(Machine(Data, 0, k, addr, 0), OneMsg(addr, false, d))
    ensures Inv(Machine(Write, 0, k, addr, 0), OneMsg(addr, false, d))
    ensures RunSteps(Machine(Data, 0, k, addr, 0), OneMsg(addr, false, d), feed) ==
            After(Cmd(CMD_WRITE, d[k]), RunSteps(Machine(Write, 0, k, addr, 0), OneMsg(addr, false, d), feed[2..]))
  {
    DataWritesByte(addr, d, k);
    ReadingTurn(Machine(Data, 0, k, addr, 0), OneMsg(addr, false, d), feed,
                Outcome(Machine(Write, 0, k, addr, 0), OneMsg(addr, false, d), Cmd(CMD_WRITE, d[k])));
  }

  /** WRITE finds the byte acknowledged and moves the cursor on. */
  lemma WriteAck(addr: int, d: seq<bv8>, k: nat, feed: seq<bv32>)
    requires Slave(addr) && k < |d| && |feed| >= 2 && LowByte(feed[0]) == 0 && LowByte(feed[1]) == 0
    ensures Inv(Machine(Data, 0, k + 1, addr, 0), OneMsg(addr, false, d))
    ensures RunSteps(Machine(Write, 0, k, addr, 0), OneMsg(addr, false, d), feed) ==
            RunSteps(Machine(Data, 0, k + 1, addr, 0), OneMsg(addr, false, d), feed[2..])
  {
    WriteAcked(addr, d, k);
    ReadingTurn(Machine(Write, 0, k, addr, 0), OneMsg(addr, false, d), feed,
                Outcome(Machine(Data, 0, k + 1, addr, 0), OneMsg(addr, false, d), []));
    AfterNil(RunSteps(Machine(Data, 0, k + 1, addr, 0), OneMsg(addr, false, d), feed[2..]));
  }

  /** DATA then WRITE for byte `k` of a write message on an idle bus. */
  lemma WriteTurn(addr: int, d: seq<bv8>, k: nat, feed: seq<bv32>)
    requires Slave(addr) && k < |d| && Quiet(feed) && |feed| >= 4
    ensures RunSteps(Machine(Data, 0, k, addr, 0), OneMsg(addr, false, d), feed) ==
            After(Cmd(CMD_WRITE, d[k]), RunSteps(Machine(Data, 0, k + 1, addr, 0), OneMsg(addr, false, d), feed[4..]))
  {
    var ms := OneMsg(addr, false, d);
    var w := Cmd(CMD_WRITE, d[k]);
    var f2 := feed[2..];
    assert LowByte(feed[0]) == 0 && LowByte(feed[1]) == 0;
    assert f2[0] == feed[2] && f2[1] == feed[3] && f2[2..] == feed[4..];
    assert LowByte(feed[2]) == 0 && LowByte(feed[3]) == 0;
    WriteRequest(addr, d, k, feed);
    WriteAck(addr, d, k, f2);
  }

  /** From DATA at byte `k` of a single write message on an idle bus: the
      remaining bytes are written, then STOP and IACK end the chain. */
  lemma {:induction false} WriteBytes(addr: int, d: seq<bv8>, k: nat, feed: seq<bv32>)
    requires Slave(addr) && k <= |d| && Quiet(feed) && |feed| >= 4 * (|d| - k) + 4
    ensures var r := RunSteps(Machine(Data, 0, k, addr, 0), OneMsg(addr, false, d), feed);
            && r.writes == WriteFrames(d[k..]) + (Cmd(CMD_STOP, 0) + Cmd(CMD_IACK, 0))
            && !r.more && r.m == Machine(Done, 1, 0, addr, 0) && r.msgs == OneMsg(addr, false, d)
    decreases |d| - k
  {
    if k == |d| {
      LastTurns(addr, false, d, feed);
      assert d[k..] == [];
    } else {
      WriteTurn(addr, d, k, feed);
      QuietSuffix(feed, 4);
      WriteBytes(addr, d, k + 1, feed[4..]);
      WriteFramesCons(d, k);
      AppendAssoc(Cmd(CMD_WRITE, d[k]), WriteFrames(d[k + 1..]), Cmd(CMD_STOP, 0) + Cmd(CMD_IACK, 0));
    }
  }

  /** A single write of the bytes `d` to the 7-bit slave `addr` on an idle
      bus: oci2c_process sends START with the write address frame, one
      WRITE per byte in order, STOP, then IACK, and finishes the chain with
      no error. */
  lemma WriteTransaction(addr: int, d: seq<bv8>, feed: seq<bv32>)
    requires Slave(addr) && Quiet(feed) && |feed| >= 4 * |d| + 7
    ensures var r := Process(Machine(PreStart, 0, 0, 0, 0), OneMsg(addr, false, d), feed);
            && r.writes == Cmd(CMD_START, AddrFrame(addr, false) as bv8) + (WriteFrames(d) + (Cmd(CMD_STOP, 0) + Cmd(CMD_IACK, 0)))
            && !r.more && r.m == Machine(Done, 1, 0, addr, 0) && r.msgs == OneMsg(addr, false, d)
  {
    assert LowByte(feed[0]) == 0 && LowByte(feed[1]) == 0 && LowByte(feed[2]) == 0;
    FirstTurns(addr, false, d, feed);
    QuietSuffix(feed, 3);
    WriteBytes(addr, d, 0, feed[3..]);
    assert d[0..] == d;
  }

  /** The writes of a three-byte write of 0x10 0x20 0x30 to slave 0x50 on an
      idle bus, as offsets and values in the register window. */
  lemma WriteScenario()
    ensures var r := Process(Machine(PreStart, 0, 0, 0, 0), OneMsg(0x50, false, [0x10, 0x20, 0x30]), seq(19, _ => 0));
            && !r.more
            && r.writes ==
              [IoWrite(0x0C, 0xA0), IoWrite(0x10, 0x91),
               IoWrite(0x0C, 0x10), IoWrite(0x10, 0x11),
               IoWrite(0x0C, 0x20), IoWrite(0x10, 0x11),
               IoWrite(0x0C, 0x30), IoWrite(0x10, 0x11),
               IoWrite(0x0C, 0x00), IoWrite(0x10, 0x41),
               IoWrite(0x0C, 0x00), IoWrite(0x10, 0x01)]
  {
    var feed: seq<bv32> := seq(19, _ => 0);
    assert Quiet(feed);
    WriteTransaction(0x50, [0x10, 0x20, 0x30], feed);
    ScenarioFrames();
  }

  /** The frames of the scenario above, spelled out. */
  lemma ScenarioFrames()
    ensures Cmd(CMD_START, AddrFrame(0x50, false) as bv8) +
            (WriteFrames([0x10, 0x20, 0x30]) + (Cmd(CMD_STOP, 0) + Cmd(CMD_IACK, 0))) ==
              [IoWrite(0x0C, 0xA0), IoWrite(0x10, 0x91),
               IoWrite(0x0C, 0x10), IoWrite(0x10, 0x11),
               IoWrite(0x0C, 0x20), IoWrite(0x10, 0x11),
               IoWrite(0x0C, 0x30), IoWrite(0x10, 0x11),
               IoWrite(0x0C, 0x00), IoWrite(0x10, 0x41),
               IoWrite(0x0C, 0x00), IoWrite(0x10, 0x01)]
  {
    var d: seq<bv8> := [0x10, 0x20, 0x30];
    assert AddrFrame(0x50, false) == 0xA0;
    assert WriteFrames(d[2..]) == Cmd(CMD_WRITE, 0x30) by {
      assert d[2..][1..] == [];
    }
    assert WriteFrames(d[1..]) == Cmd(CMD_WRITE, 0x20) + Cmd(CMD_WRITE, 0x30) by {
      assert d[1..][1..] == d[2..];
    }
    assert WriteFrames(d) == Cmd(CMD_WRITE, 0x10) + Cmd(CMD_WRITE, 0x20) + Cmd(CMD_WRITE, 0x30);
  }

  /** What an idle slave returning the bytes `b` looks like to the driver,
      one byte at a time: status before DATA, status in DATA, status before
      READ, then the DATA register. */
  function ReadFeed(b: seq<bv8>): (f: seq<bv32>)
    ensures |f| == 4 * |b|
  {
    if b == [] then [] else [0, 0, 0, b[0] as bv32] + ReadFeed(b[1..])
  }

  lemma ReadFeedCons(b: seq<bv8>, k: nat)
    requires k < |b|
    ensures ReadFeed(b[k..]) == [0, 0, 0, b[k] as bv32] + ReadFeed(b[k + 1..])
  {
    assert b[k..][1..] == b[k + 1..];
  }

  /** `b` after the prefix `a` is dropped. */
  lemma DropPrefix<T>(a: seq<T>, b: seq<T>)
    ensures (a + b)[|a|..] == b
  {
  }

  /** A byte zero-extended and truncated again is itself. */
  lemma LowByteOf(x: bv8)
    ensures LowByte(x as bv32) == x
  {
  }

  /** DATA requests byte `k` of a read message on an idle bus. */
  lemma ReadRequest(addr: int, buf: seq<bv8>, k: nat, feed: seq<bv32>)
    requires Slave(addr) && k < |buf| && |feed| >= 2
    requires LowByte(feed[0]) == 0 && LowByte(feed[1]) == 0
    ensures Inv(Machine(Data, 0, k, addr, 0), OneMsg(addr, true, buf))
    ensures Inv(Machine(Read, 0, k, addr, 0), OneMsg(addr, true, buf))
    ensures RunSteps(Machine(Data, 0, k, addr, 0), OneMsg(addr, true, buf), feed) ==
            After(Cmd(if k + 1 == |buf| then CMD_READ_LAST else CMD_READ, 0),
                  RunSteps(Machine(Read, 0, k, addr, 0), OneMsg(addr, true, buf), feed[2..]))
  {
    DataRequestsByte(addr, buf, k);
    ReadingTurn(Machine(Data, 0, k, addr, 0), OneMsg(addr, true, buf), feed,
                Outcome(Machine(Read, 0, k, addr, 0), OneMsg(addr, true, buf),
                        Cmd(if k + 1 == |buf| then CMD_READ_LAST else CMD_READ, 0)));
  }

  /** READ stores the byte the DATA register returns at the cursor. */
  lemma ReadArrival(addr: int, buf: seq<bv8>, k: nat, feed: seq<bv32>)
    requires Slave(addr) && k < |buf| && |feed| >= 2 && LowByte(feed[0]) == 0
    ensures Inv(Machine(Data, 0, k + 1, addr, 0), OneMsg(addr, true, buf[k := LowByte(feed[1])]))
    ensures RunSteps(Machine(Read, 0, k, addr, 0), OneMsg(addr, true, buf), feed) ==
            RunSteps(Machine(Data, 0, k + 1, addr, 0), OneMsg(addr, true, buf[k := LowByte(feed[1])]), feed[2..])
  {
    ReadReturns(addr, buf, k, LowByte(feed[1]));
    ReadingTurn(Machine(Read, 0, k, addr, 0), OneMsg(addr, true, buf), feed,
                Outcome(Machine(Data, 0, k + 1, addr, 0), OneMsg(addr, true, buf[k := LowByte(feed[1])]), []));
    AfterNil(RunSteps(Machine(Data, 0, k + 1, addr, 0), OneMsg(addr, true, buf[k := LowByte(feed[1])]), feed[2..]));
  }

  /** DATA then READ for byte `k` of a read message on an idle bus: the
      byte the DATA register returns lands at the cursor. */
  lemma ReadTurn(addr: int, buf: seq<bv8>, k: nat, feed: seq<bv32>)
    requires Slave(addr) && k < |buf| && |feed| >= 4
    requires LowByte(feed[0]) == 0 && LowByte(feed[1]) == 0 && LowByte(feed[2]) == 0
    ensures RunSteps(Machine(Data, 0, k, addr, 0), OneMsg(addr, true, buf), feed) ==
            After(Cmd(if k + 1 == |buf| then CMD_READ_LAST else CMD_READ, 0),
                  RunSteps(Machine(Data, 0, k + 1, addr, 0), OneMsg(addr, true, buf[k := LowByte(feed[3])]), feed[4..]))
  {
    var w := Cmd(if k + 1 == |buf| then CMD_READ_LAST else CMD_READ, 0);
    var f2 := feed[2..];
    assert f2[0] == feed[2] && f2[1] == feed[3] && f2[2..] == feed[4..];
    ReadRequest(addr, buf, k, feed);
    ReadArrival(addr, buf, k, f2);
  }

  /** The reads for byte `k` onwards, split after byte `k`. */
  lemma ReadFeedNext(b: seq<bv8>, k: nat, tail: seq<bv32>) returns (f: seq<bv32>)
    requires k < |b|
    ensures f == ReadFeed(b[k..]) + tail && |f| >= 4
    ensures f[4..] == ReadFeed(b[k + 1..]) + tail
    ensures LowByte(f[0]) == 0 && LowByte(f[1]) == 0 && LowByte(f[2]) == 0 && LowByte(f[3]) == b[k]
  {
    var head: seq<bv32> := [0, 0, 0, b[k] as bv32];
    var rest := ReadFeed(b[k + 1..]) + tail;
    f := head + rest;
    ReadFeedCons(b, k);
    AppendAssoc(head, ReadFeed(b[k + 1..]), tail);
    DropPrefix(head, rest);
    LowByteOf(b[k]);
  }

  /** Storing byte `k` of `b` extends the agreement of `buf` and `b` by one. */
  lemma PrefixGrows(buf: seq<bv8>, b: seq<bv8>, k: nat)
    requires |buf| == |b| && k < |b| && buf[..k] == b[..k]
    ensures buf[k := b[k]][..k + 1] == b[..k + 1]
  {
    assert buf[k := b[k]][..k + 1] == buf[..k] + [b[k]];
    assert b[..k + 1] == b[..k] + [b[k]];
  }

  /** From DATA at byte `k` of a single read message whose first `k` bytes
      already hold `b`: the rest of `b` arrives in order, each byte
      requested with READ and the last with READ_LAST, then STOP and IACK. */
  lemma {:induction false} ReadBytes(addr: int, buf: seq<bv8>, b: seq<bv8>, k: nat, tail: seq<bv32>)
    requires Slave(addr) && |buf| == |b| && k <= |b| && buf[..k] == b[..k]
    requires Quiet(tail) && |tail| >= 4
    ensures var r := RunSteps(Machine(Data, 0, k, addr, 0), OneMsg(addr, true, buf), ReadFeed(b[k..]) + tail);
            && r.writes == ReadFrames(|b| - k) + (Cmd(CMD_STOP, 0) + Cmd(CMD_IACK, 0))
            && !r.more && r.m == Machine(Done, 1, 0, addr, 0)
            && r.msgs == OneMsg(addr, true, b)
    decreases |b| - k
  {
    if k == |b| {
      assert buf == b by { assert buf == buf[..k] && b == b[..k]; }
      assert ReadFeed(b[k..]) + tail == tail by { assert b[k..] == []; }
      LastTurns(addr, true, buf, tail);
    } else {
      var buf1 := buf[k := b[k]];
      var rest := ReadFeed(b[k + 1..]) + tail;
      var f := ReadFeedNext(b, k, tail);
      ReadTurn(addr, buf, k, f);
      PrefixGrows(buf, b, k);
      ReadBytes(addr, buf1, b, k + 1, tail);
      ReadFramesCons(|b|, k);
      AppendAssoc(Cmd(if k + 1 == |b| then CMD_READ_LAST else CMD_READ, 0),
                  ReadFrames(|b| - (k + 1)), Cmd(CMD_STOP, 0) + Cmd(CMD_IACK, 0));
    }
  }

  /** A single read of `|b|` bytes from the 7-bit slave `addr` on an idle bus
      that returns the bytes `b`: oci2c_process sends START with the read
      address frame, READ for each byte but the last and READ_LAST for the
      last, STOP, then IACK; and the message's buffer then holds exactly
      `b`, whatever it held before. */
  lemma ReadTransaction(addr: int, buf: seq<bv8>, b: seq<bv8>, feed: seq<bv32>, tail: seq<bv32>)
    requires Slave(addr) && |buf| == |b| && Quiet(tail) && |tail| >= 4
    requires |feed| >= 3 && LowByte(feed[0]) == 0 && LowByte(feed[1]) == 0 && LowByte(feed[2]) == 0
    requires feed[3..] == ReadFeed(b) + tail
    ensures var r := Process(Machine(PreStart, 0, 0, 0, 0), OneMsg(addr, true, buf), feed);
            && r.writes == Cmd(CMD_START, AddrFrame(addr, true) as bv8) + (ReadFrames(|b|) + (Cmd(CMD_STOP, 0) + Cmd(CMD_IACK, 0)))
            && !r.more && r.m == Machine(Done, 1, 0, addr, 0)
            && r.msgs == OneMsg(addr, true, b)
  {
    FirstTurns(addr, true, buf, feed);
    assert b[0..] == b;
    ReadBytes(addr, buf, b, 0, tail);
  }

}
