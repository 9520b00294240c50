/** The channel cache of the FPGA I2C mux: one 32-bit select register, a
    cached copy of the last channel selected through the mux core, and a
    sysfs attribute that reads the register back and writes it directly. */
module FpgaI2cMux {
  import OcoresRegs

  /** Channels behind one mux. */
  const NUM_I2C_MUX_CHANS: nat := 4

  /** What the mux looks like from the driver: the cached channel, the
      select register, and every value written to the register, in order. */
  datatype MuxState = MuxState(lastChan: bv32, reg: bv32, writes: seq<bv32>)

  /** The register holds the channel the cache names. */
  predicate Coherent(s: MuxState)
  {
    s.reg == s.lastChan
  }

  /** fpga_i2c_mux_select_chan: write the register only when the channel
      differs from the cached one, and remember it. */
  function SelectChan(s: MuxState, chan: bv32): (t: MuxState)
    ensures t.lastChan == chan
    ensures s.lastChan == chan ==> t == s
    ensures s.lastChan != chan ==> t.reg == chan && t.writes == s.writes + [chan]
  {
    if s.lastChan != chan then MuxState(chan, chan, s.writes + [chan]) else s
  }

  /** fpga_i2c_mux_deselect: always write, and remember the channel. */
  function Deselect(s: MuxState, chan: bv32): (t: MuxState)
    ensures Coherent(t) && t.lastChan == chan
    ensures t.writes == s.writes + [chan]
  {
    MuxState(chan, chan, s.writes + [chan])
  }

  /** The outcome of kstrtoul on the text written to the attribute: the
      unsigned value it denotes, or the negative errno it reports. */
  datatype Parse = Parsed(value: nat) | ParseError(err: int)

  /** store_i2c_mux_select: the new state and the value returned to sysfs. */
  datatype Stored = Stored(s: MuxState, ret: int)

  function StoreSelect(s: MuxState, p: Parse, len: nat): (r: Stored)
    ensures p.ParseError? ==> r == Stored(s, p.err)
    ensures p.Parsed? && p.value >= NUM_I2C_MUX_CHANS ==> r == Stored(s, -OcoresRegs.EINVAL)
    ensures p.Parsed? && p.value < NUM_I2C_MUX_CHANS ==>
              r.ret == len && r.s.lastChan == s.lastChan &&
              r.s.reg as int == p.value && r.s.writes == s.writes + [r.s.reg]
  {
    match p
    case ParseError(e) => Stored(s, e)
    case Parsed(chan) =>
      if chan <= 3 then Stored(s.(reg := chan as bv32, writes := s.writes + [chan as bv32]), len)
      else Stored(s, -OcoresRegs.EINVAL)
  }

  /** The upper-case hexadecimal digit for `n`. */
  function HexDigit(n: nat): (c: char)
    requires n < 16
  {
    if n < 10 then '0' + n as char else 'A' + (n - 10) as char
  }

  /** The value of an upper-case hexadecimal digit, or -1 for any other character. */
  function HexValue(c: char): (n: int)
    ensures -1 <= n < 16
  {
    if '0' <= c <= '9' then (c - '0') as int
    else if 'A' <= c <= 'F' then (c - 'A') as int + 10
    else -1
  }

  lemma HexRoundTrip(n: nat)
    requires n < 16
    ensures HexValue(HexDigit(n)) == n
  {
  }

  /** show_i2c_mux_select: the register masked to its low three bits,
      printed as two upper-case hexadecimal digits and a newline. */
  function ShowSelect(reg: bv32): (text: string)
    ensures |text| == 3 && text[0] == '0' && text[2] == '\n'
    ensures 16 * HexValue(text[0]) + HexValue(text[1]) == (reg & 7) as int
  {
    var v := (reg & 7) as int;
    HexRoundTrip(v / 16);
    HexRoundTrip(v % 16);
    [HexDigit(v / 16), HexDigit(v % 16), '\n']
  }

  /** Selecting a channel twice in a row writes the register once. */
  lemma SelectTwiceWritesOnce(s: MuxState, chan: bv32)
    ensures SelectChan(SelectChan(s, chan), chan) == SelectChan(s, chan)
    ensures |SelectChan(s, chan).writes| <= |s.writes| + 1
  {
  }

  /** While the cache is coherent, a select leaves the register on the
      channel asked for, and keeps the cache coherent. */
  lemma SelectCoherent(s: MuxState, chan: bv32)
    requires Coherent(s)
    ensures Coherent(SelectChan(s, chan)) && SelectChan(s, chan).reg == chan
  {
  }

  /** A store through sysfs moves the register but not the cache: a later
      select of the cached channel writes nothing, and the register stays on
      the stored channel. */
  lemma StoreLeavesCacheStale(s: MuxState, stored: nat, len: nat)
    requires Coherent(s) && stored < NUM_I2C_MUX_CHANS && stored as bv32 != s.lastChan
    ensures var t := StoreSelect(s, Parsed(stored), len).s;
            && !Coherent(t)
            && SelectChan(t, s.lastChan) == t
            && SelectChan(t, s.lastChan).reg != s.lastChan
  {
  }

  /** Reading the attribute back after a store of channel `c` reports `c`. */
  lemma ShowAfterStore(s: MuxState, c: nat, len: nat)
    requires c < NUM_I2C_MUX_CHANS
    ensures ShowSelect(StoreSelect(s, Parsed(c), len).s.reg) == ['0', '0' + c as char, '\n']
  {
    var r := (c as bv32) & 7;
    assert r == c as bv32;
  }

  /** The mux driver's private data and its register. */
  class Mux {
    var lastChan: bv32
    var reg: bv32
    var writes: seq<bv32>

    function State(): MuxState
      reads this
    {
      MuxState(lastChan, reg, writes)
    }

    /** The private data is zero-filled when the mux core allocates it; the
        register holds whatever the FPGA reset it to. */
    constructor(resetValue: bv32)
      ensures State() == MuxState(0, resetValue, [])
    {
      lastChan := 0;
      reg := resetValue;
      writes := [];
    }

    /** iowrite32 to the select register. */
    method IoWrite(v: bv32)
      modifies this
      ensures reg == v && writes == old(writes) + [v] && lastChan == old(lastChan)
    {
      reg := v;
      writes := writes + [v];
    }

    method Select(chan: bv32) returns (r: int)
      modifies this
      ensures r == 0 && State() == SelectChan(old(State()), chan)
    {
      if lastChan != chan {
        IoWrite(chan);
        lastChan := chan;
      }
      r := 0;
    }

    method DeselectChan(chan: bv32) returns (r: int)
      modifies this
      ensures r == 0 && State() == Deselect(old(State()), chan)
    {
      lastChan := chan;
      IoWrite(chan);
      r := 0;
    }

    method Store(p: Parse, len: nat) returns (r: int)
      modifies this
      ensures Stored(State(), r) == StoreSelect(old(State()), p, len)
    {
      if p.ParseError? {
        return p.err;
      }
      var chan := p.value;
      if chan <= 3 {
        IoWrite(chan as bv32);
      } else {
        return -OcoresRegs.EINVAL;
      }
      r := len;
    }

    /** The text handed to sysfs and its length, the value sprintf returns. */
    method Show() returns (text: string, r: int)
      ensures text == ShowSelect(reg) && r == 3
    {
      text := ShowSelect(reg);
      r := |text|;
    }
  }
}
