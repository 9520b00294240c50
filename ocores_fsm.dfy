/** The transaction state machine of fpga_i2c_ocores.c as pure functions over a
    snapshot of the controller record: one function per state handler, `Step`
    (the switch in oci2c_process), `RunSteps` (its "run while no transfer is in
    progress" loop) and `Process`. The imperative driver in module Ocores is
    proved to compute exactly these. Register reads are drawn from `feed`, the
    values the hardware returns to successive 32-bit reads. */
module OcoresFsm {
  import opened OcoresRegs
  import opened SeqLemmas

  datatype State = PreStart | Start | Data | Read | Write | Stop | Done | Exit

  /** A message of the chain, with the current contents of its buffer
      (len is |data|). */
  datatype Msg = Msg(addr: int, rd: bool, nostart: bool, data: seq<bv8>)

  /** The mutable part of the controller record. */
  datatype Machine = Machine(state: State, curMsg: nat, curByte: nat, curSlave: int, errno: nat)

  /** What one handler does: the new record, the messages (a READ stores one
      byte), and the register writes it emits, in order. */
  datatype Outcome = Outcome(m: Machine, msgs: seq<Msg>, writes: seq<Access>)

  /** What one call of oci2c_process does; `more` is its return value. */
  datatype Run = Run(m: Machine, msgs: seq<Msg>, writes: seq<Access>, feed: seq<bv32>, more: bool)

  /** Messages the driver can be handed: 16-bit addresses, and a CBUS message
      carries at least the opcode and its parameter (both are read
      unconditionally). */
  predicate WellFormed(ms: seq<Msg>)
  {
    forall i :: 0 <= i < |ms| ==>
      0 <= ms[i].addr < 0x1_0000 && (ms[i].addr == CBUS_ADDR ==> |ms[i].data| >= 2)
  }

  /** The cursor invariant that keeps every buffer access in bounds. */
  predicate Inv(m: Machine, ms: seq<Msg>)
  {
    && WellFormed(ms)
    && m.curMsg <= |ms|
    && (m.curMsg < |ms| ==> m.curByte <= |ms[m.curMsg].data|)
    && (m.state in {PreStart, Start, Data, Read, Write} ==> m.curMsg < |ms|)
    && (m.state in {Read, Write} ==> m.curMsg < |ms| && m.curByte < |ms[m.curMsg].data|)
    && (m.state == Read ==> m.curMsg < |ms| && ms[m.curMsg].rd)
    && (m.state == Done && m.errno == 0 ==> m.curMsg == |ms|)
    && (m.state == Exit ==> m.curMsg < |ms| && ms[m.curMsg].addr == CBUS_ADDR)
  }

  /** `after` is `before` with only the contents of buffers changed. */
  predicate SameShape(before: seq<Msg>, after: seq<Msg>)
  {
    |before| == |after| &&
    forall i :: 0 <= i < |before| ==>
      after[i].addr == before[i].addr && after[i].rd == before[i].rd &&
      after[i].nostart == before[i].nostart && |after[i].data| == |before[i].data|
  }

  /** Only buffers of read messages changed. */
  predicate WritesIntact(before: seq<Msg>, after: seq<Msg>)
    requires SameShape(before, after)
  {
    forall i :: 0 <= i < |before| && !before[i].rd ==> after[i].data == before[i].data
  }

  /** The address frame sent with START: the 7-bit address shifted left with
      the R/W bit in bit 0, truncated to u8 as the driver's `u8 data` does. */
  function AddrFrame(addr: int, rd: bool): (n: nat)
    requires 0 <= addr < 0x1_0000
    ensures n < 256
    ensures n % 2 == (if rd then 1 else 0)
    ensures addr < 0x80 ==> n / 2 == addr
  {
    (2 * addr + (if rd then 1 else 0)) % 256
  }

  /** What a special operation does to the register window. `ok` is false
      for an unknown opcode, which is reported as EBADMSG. */
  datatype SpecialResult = SpecialResult(writes: seq<Access>, ok: bool)

  function SpecialOp(op: bv8, param: bv8): (r: SpecialResult)
    ensures !r.ok <==> op !in {I2C_MUX_SET, I2C_RST_CONTLR, I2C_RST_SLAVE}
    ensures !r.ok ==> r.writes == []
    ensures CommandsComposite(r.writes)
  {
    if op == I2C_MUX_SET then
      SpecialResult([W(REG_MUX_SELECT, param)], true)
    else if op == I2C_RST_CONTLR then
      SpecialResult([W(REG_RESET, 0xD), W(REG_RESET, 0x0)], true)
    else if op == I2C_RST_SLAVE then
      SpecialResult(Cmd(CMD_START, param << 1) + Cmd(CMD_WRITE, 0xFF) + Cmd(CMD_STOP, 0), true)
    else
      SpecialResult([], false)
  }

  /** oci2c_next_msg */
  function NextMsg(m: Machine, n: nat): Machine
  {
    var k := m.curMsg + 1;
    m.(curByte := 0, curMsg := k,
       state := if k < n then PreStart else if m.curSlave != 0 then Stop else Done)
  }

  /** The cursor is at a message the driver can handle: a 16-bit address,
      and a CBUS message carries its opcode and parameter. */
  predicate AtMsg(m: Machine, ms: seq<Msg>)
  {
    m.curMsg < |ms| && 0 <= ms[m.curMsg].addr < 0x1_0000 &&
    (ms[m.curMsg].addr == CBUS_ADDR ==> |ms[m.curMsg].data| >= 2)
  }

  /** oci2c_pre_start */
  function PreStartStep(m: Machine, ms: seq<Msg>): Outcome
    requires AtMsg(m, ms)
  {
    var msg := ms[m.curMsg];
    if msg.addr == CBUS_ADDR then
      var op := SpecialOp(msg.data[0], msg.data[1]);
      Outcome(m.(errno := if op.ok then m.errno else EBADMSG, state := Exit), ms, op.writes)
    else
      Outcome(m.(state := if m.curSlave != 0 && m.curSlave != msg.addr then Stop else Start), ms, [])
  }

  /** Whether START sends a START command for the current message: on the
      first message, on an address change, or without NOSTART. */
  predicate NeedStart(m: Machine, ms: seq<Msg>)
    requires m.curMsg < |ms|
  {
    m.curMsg == 0 || ms[m.curMsg].addr != m.curSlave || !ms[m.curMsg].nostart
  }

  /** oci2c_start; `stat` is the status byte, read only on the first message. */
  function StartStep(m: Machine, ms: seq<Msg>, stat: bv8): Outcome
    requires AtMsg(m, ms)
  {
    var msg := ms[m.curMsg];
    var busy := NeedStart(m, ms) && m.curMsg == 0 && Busy(stat);
    var m1 := if busy then m.(curSlave := msg.addr, errno := EBUSY, state := Done)
              else m.(curSlave := msg.addr);
    var w := if NeedStart(m, ms) && !busy then Cmd(CMD_START, AddrFrame(msg.addr, msg.rd) as bv8) else [];
    Outcome(if m1.errno == 0 then m1.(state := Data) else m1, ms, w)
  }

  /** oci2c_data; `stat` is the status byte. */
  function DataStep(m: Machine, ms: seq<Msg>, stat: bv8): Outcome
    requires m.curMsg < |ms|
  {
    var msg := ms[m.curMsg];
    if ArbLost(stat) then
      Outcome(m.(errno := EPROTO, state := Stop), ms, [])
    else if m.curByte == 0 && NoAck(stat) then
      Outcome(m.(errno := ECOMM, state := Stop), ms, [])
    else if m.curByte >= |msg.data| then
      Outcome(NextMsg(m, |ms|), ms, [])
    else if msg.rd then
      var cmd := if m.curByte < |msg.data| - 1 then CMD_READ else CMD_READ_LAST;
      Outcome(m.(state := Read), ms, Cmd(cmd, 0))
    else
      Outcome(m.(state := Write), ms, Cmd(CMD_WRITE, msg.data[m.curByte]))
  }

  /** `ms` with byte `j` of message `i` replaced by `b`. */
  function StoreByte(ms: seq<Msg>, i: nat, j: nat, b: bv8): (r: seq<Msg>)
    requires i < |ms| && j < |ms[i].data|
    ensures SameShape(ms, r)
    ensures r[i].data[j] == b
    ensures forall k :: 0 <= k < |ms| && k != i ==> r[k] == ms[k]
    ensures forall k :: 0 <= k < |ms[i].data| && k != j ==> r[i].data[k] == ms[i].data[k]
  {
    ms[i := ms[i].(data := ms[i].data[j := b])]
  }

  /** oci2c_read; `b` is the byte read from the DATA register. */
  function ReadStep(m: Machine, ms: seq<Msg>, b: bv8): Outcome
    requires m.curMsg < |ms| && m.curByte < |ms[m.curMsg].data|
  {
    Outcome(m.(curByte := m.curByte + 1, state := Data), StoreByte(ms, m.curMsg, m.curByte, b), [])
  }

  /** oci2c_write; `stat` is the status byte. */
  function WriteStep(m: Machine, ms: seq<Msg>, stat: bv8): Outcome
  {
    if NoAck(stat) then Outcome(m.(errno := ECOMM, state := Stop), ms, [])
    else Outcome(m.(curByte := m.curByte + 1, state := Data), ms, [])
  }

  /** oci2c_stop */
  function StopStep(m: Machine, ms: seq<Msg>): Outcome
  {
    Outcome(m.(state := if m.errno == 0 && m.curMsg < |ms| then Start else Done), ms, Cmd(CMD_STOP, 0))
  }

  /** oci2c_done */
  function DoneStep(m: Machine, ms: seq<Msg>): Outcome
  {
    Outcome(m.(state := Done), ms, Cmd(CMD_IACK, 0))
  }

  /** Whether the handler of the current state reads a register. */
  predicate StepReads(m: Machine)
  {
    match m.state
    case Start => m.curMsg == 0
    case Data => true
    case Read => true
    case Write => true
    case _ => false
  }

  /** One pass through the switch of oci2c_process for a non-terminal state;
      `input` is what the handler's register read returns. */
  function Step(m: Machine, ms: seq<Msg>, input: bv8): (o: Outcome)
    requires Inv(m, ms) && m.state !in {Done, Exit}
    ensures Inv(o.m, o.msgs)
    ensures SameShape(ms, o.msgs) && WritesIntact(ms, o.msgs)
    ensures m.state != Read ==> o.msgs == ms
    ensures CommandsComposite(o.writes)
  {
    match m.state
    case PreStart => PreStartKeeps(m, ms); PreStartStep(m, ms)
    case Start => StartKeeps(m, ms, input); StartStep(m, ms, input)
    case Data => DataKeeps(m, ms, input); DataStep(m, ms, input)
    case Read => ReadKeeps(m, ms, input); ReadStep(m, ms, input)
    case Write => WriteKeeps(m, ms, input); WriteStep(m, ms, input)
    case Stop => StopKeeps(m, ms); StopStep(m, ms)
  }

  /** Outcome `o` of a handler run on `m` and `ms` keeps the cursor
      invariant, changes at most the buffer of the current read message, and
      writes only composite commands. */
  predicate Keeps(m: Machine, ms: seq<Msg>, o: Outcome)
  {
    && Inv(o.m, o.msgs)
    && SameShape(ms, o.msgs) && WritesIntact(ms, o.msgs)
    && (m.state != Read ==> o.msgs == ms)
    && CommandsComposite(o.writes)
  }

  lemma PreStartKeeps(m: Machine, ms: seq<Msg>)
    requires Inv(m, ms) && m.state == PreStart
    ensures Keeps(m, ms, PreStartStep(m, ms))
  {
  }

  lemma StartKeeps(m: Machine, ms: seq<Msg>, stat: bv8)
    requires Inv(m, ms) && m.state == Start
    ensures Keeps(m, ms, StartStep(m, ms, stat))
  {
  }

  lemma DataKeeps(m: Machine, ms: seq<Msg>, stat: bv8)
    requires Inv(m, ms) && m.state == Data
    ensures Keeps(m, ms, DataStep(m, ms, stat))
  {
  }

  lemma ReadKeeps(m: Machine, ms: seq<Msg>, b: bv8)
    requires Inv(m, ms) && m.state == Read
    ensures Keeps(m, ms, ReadStep(m, ms, b))
  {
  }

  lemma WriteKeeps(m: Machine, ms: seq<Msg>, stat: bv8)
    requires Inv(m, ms) && m.state == Write
    ensures Keeps(m, ms, WriteStep(m, ms, stat))
  {
  }

  lemma StopKeeps(m: Machine, ms: seq<Msg>)
    requires Inv(m, ms) && m.state == Stop
    ensures Keeps(m, ms, StopStep(m, ms))
  {
  }

  /** The loop of oci2c_process: read STATUS; while no transfer is in progress
      run the handler of the current state; DONE acknowledges and ends, EXIT
      ends silently. */
  function RunSteps(m: Machine, ms: seq<Msg>, feed: seq<bv32>): (r: Run)
    requires Inv(m, ms)
    ensures |r.feed| <= |feed| && r.feed == feed[|feed| - |r.feed|..]
    ensures feed != [] ==> |r.feed| < |feed|
    ensures !r.more ==> r.m.state in {Done, Exit}
    decreases |feed|
  {
    var stat := PeekReg(feed);
    var f1 := DropReg(feed);
    if Tip(stat) then
      Run(m, ms, [], f1, true)
    else if m.state == Done then
      var o := DoneStep(m, ms);
      Run(o.m, o.msgs, o.writes, f1, false)
    else if m.state == Exit then
      Run(m, ms, [], f1, false)
    else
      var o := Step(m, ms, PeekReg(f1));
      var f2 := if StepReads(m) then DropReg(f1) else f1;
      var rest := RunSteps(o.m, o.msgs, f2);
      Run(rest.m, rest.msgs, o.writes + rest.writes, rest.feed, rest.more)
  }

  /** `r` preceded by the writes `w`. */
  function After(w: seq<Access>, r: Run): Run
  {
    r.(writes := w + r.writes)
  }

  lemma AfterAfter(a: seq<Access>, b: seq<Access>, r: Run)
    ensures After(a, After(b, r)) == After(a + b, r)
  {
    AppendAssoc(a, b, r.writes);
  }

  /** One turn of the loop of RunSteps for a state with a handler. */
  lemma RunStepsUnfold(m: Machine, ms: seq<Msg>, feed: seq<bv32>)
    requires Inv(m, ms) && !Tip(PeekReg(feed)) && m.state !in {Done, Exit}
    ensures var f1 := DropReg(feed);
            var o := Step(m, ms, PeekReg(f1));
            var rest := RunSteps(o.m, o.msgs, if StepReads(m) then DropReg(f1) else f1);
            RunSteps(m, ms, feed) == After(o.writes, rest)
  {
  }

  /** The errors that make oci2c_process abandon the chain. */
  predicate Forced(errno: nat) { errno == ETIMEDOUT || errno == EPROTO }

  /** oci2c_process: a pending timeout or protocol error forces STOP then
      IACK and ends the chain; otherwise the state machine runs. */
  function Process(m: Machine, ms: seq<Msg>, feed: seq<bv32>): (r: Run)
    requires Inv(m, ms)
    ensures r.more ==> !Forced(m.errno)
    ensures Forced(m.errno) ==>
      r == Run(m.(state := Done), ms, Cmd(CMD_STOP, 0) + Cmd(CMD_IACK, 0), feed, false)
    ensures |r.feed| <= |feed| && r.feed == feed[|feed| - |r.feed|..]
    ensures !Forced(m.errno) && feed != [] ==> |r.feed| < |feed|
    ensures !r.more ==> r.m.state in {Done, Exit}
  {
    if Forced(m.errno) then
      var s := StopStep(m.(state := Stop), ms);
      var d := DoneStep(s.m, ms);
      Run(d.m, ms, s.writes + d.writes, feed, false)
    else
      RunSteps(m, ms, feed)
  }

  /** Whatever the hardware reports, running the state machine keeps the
      cursor invariant, never changes the shape of the chain or the buffers
      of write messages, and writes only composite commands. */
  lemma {:induction false} RunStepsPreserves(m: Machine, ms: seq<Msg>, feed: seq<bv32>)
    requires Inv(m, ms)
    ensures var r := RunSteps(m, ms, feed);
      && Inv(r.m, r.msgs)
      && SameShape(ms, r.msgs) && WritesIntact(ms, r.msgs)
      && CommandsComposite(r.writes)
    decreases |feed|
  {
    var stat := PeekReg(feed);
    var f1 := DropReg(feed);
    if !Tip(stat) && m.state !in {Done, Exit} {
      var o := Step(m, ms, PeekReg(f1));
      var f2 := if StepReads(m) then DropReg(f1) else f1;
      RunStepsPreserves(o.m, o.msgs, f2);
      var rest := RunSteps(o.m, o.msgs, f2);
      ComposeShape(ms, o.msgs, rest.msgs);
      ComposeComposite(o.writes, rest.writes);
    }
  }

  lemma ComposeShape(a: seq<Msg>, b: seq<Msg>, c: seq<Msg>)
    requires SameShape(a, b) && WritesIntact(a, b)
    requires SameShape(b, c) && WritesIntact(b, c)
    ensures SameShape(a, c) && WritesIntact(a, c)
  {
  }

  lemma ComposeComposite(a: seq<Access>, b: seq<Access>)
    requires CommandsComposite(a) && CommandsComposite(b)
    ensures CommandsComposite(a + b)
  {
    forall i | 0 <= i < |a + b| && (a + b)[i].offset == REG_CMD * REG_IO_WIDTH
      ensures (a + b)[i].value in COMPOSITE
    {
      if i >= |a| {
        assert (a + b)[i] == b[i - |a|];
      }
    }
  }

  /** The same for one call of oci2c_process, forced ending included. */
  lemma ProcessPreserves(m: Machine, ms: seq<Msg>, feed: seq<bv32>)
    requires Inv(m, ms)
    ensures var r := Process(m, ms, feed);
      && Inv(r.m, r.msgs)
      && SameShape(ms, r.msgs) && WritesIntact(ms, r.msgs)
      && CommandsComposite(r.writes)
  {
    if Forced(m.errno) {
      ComposeComposite(Cmd(CMD_STOP, 0), Cmd(CMD_IACK, 0));
    } else {
      RunStepsPreserves(m, ms, feed);
    }
  }
}
