/** The register map: every write path goes through it, so that registers and
    the side effects they stand for stay together. */
module RegMap {
  import opened Bits
  import opened Bytes

  const HOLDING_NUM: nat := 18
  const INPUT_NUM: nat := 6
  const DO_NUM: nat := 8
  const DI_NUM: nat := 16

  const DO_IDX: nat := 0x00
  const HISTORY_ENABLE_IDX: nat := 0x05
  const TIMESTAMP_HI_IDX: nat := 0x0E
  const TIMESTAMP_LO_IDX: nat := 0x0F
  const CONFIG_SAVE_IDX: nat := 0x10
  const REBOOT_IDX: nat := 0x11
  const DI_IDX: nat := 5

  /** The hooks a write may call, as a log. */
  datatype Hook = SetDo(v: Byte) | HistoryEnable(en: bool) | SetTimestamp(ts: U32)
                | HoldingSave | HistorySync | RebootCold

  /** Holding and input registers, and the hooks called so far. */
  datatype Regs = Regs(holding: seq<U16>, input: seq<U16>, log: seq<Hook>)

  predicate Shape(r: Regs) {
    |r.holding| == HOLDING_NUM && |r.input| == INPUT_NUM
  }

  /* ---- bits ---- */

  function SetBit(v: nat, bit: nat, on: bool): nat
    decreases bit
  {
    if bit == 0 then v - v % 2 + (if on then 1 else 0) else 2 * SetBit(v / 2, bit - 1, on) + v % 2
  }

  /** Setting a bit sets that bit and no other. */
  lemma {:induction false} SetBitAt(v: nat, bit: nat, on: bool, c: nat)
    ensures BitAt(SetBit(v, bit, on), c) == if c == bit then on else BitAt(v, c)
    decreases bit
  {
    if bit > 0 {
      var w := SetBit(v / 2, bit - 1, on);
      assert SetBit(v, bit, on) / 2 == w && SetBit(v, bit, on) % 2 == v % 2;
      if c > 0 {
        SetBitAt(v / 2, bit - 1, on, c - 1);
      }
    } else if c > 0 {
      assert SetBit(v, 0, on) / 2 == v / 2;
    }
  }

  lemma {:induction false} SetBitBound(v: nat, bit: nat, on: bool, k: nat)
    requires v < Pow2(k) && bit < k
    ensures SetBit(v, bit, on) < Pow2(k)
    decreases k
  {
    if bit > 0 {
      SetBitBound(v / 2, bit - 1, on, k - 1);
    } else {
      assert Pow2(k) == 2 * Pow2(k - 1);
    }
  }

  /** The DO register after one bit write, before it is cut to a byte. */
  function WithBit(v: U16, bit: nat, on: bool): U16
    requires bit < DO_NUM
  {
    Pow2Sixteen();
    SetBitBound(v, bit, on, 16);
    SetBit(v, bit, on)
  }

  /** The lowest k bits, one by one. */
  function Low(v: nat, k: nat): nat
    decreases k
  {
    if k == 0 then 0 else 2 * Low(v / 2, k - 1) + v % 2
  }

  lemma {:induction false} LowBits(v: nat, k: nat, bit: nat)
    requires bit < k
    ensures BitAt(Low(v, k), bit) == BitAt(v, bit)
    decreases k
  {
    assert Low(v, k) / 2 == Low(v / 2, k - 1) && Low(v, k) % 2 == v % 2;
    if bit > 0 {
      LowBits(v / 2, k - 1, bit - 1);
    }
  }

  lemma LowTwo(v: nat, n: nat)
    ensures Low(v, n + 2) == 4 * Low(v / 4, n) + v % 4
  {
    var a := v / 2;
    assert a / 2 == v / 4 && v % 4 == 2 * (a % 2) + v % 2;
    assert Low(a, n + 1) == 2 * Low(a / 2, n) + a % 2;
    assert Low(v, n + 2) == 2 * Low(a, n + 1) + v % 2;
  }

  lemma LowFour(v: nat, n: nat)
    ensures Low(v, n + 4) == 16 * Low(v / 16, n) + v % 16
  {
    LowTwo(v, n + 2);
    LowTwo(v / 4, n);
    assert v / 4 / 4 == v / 16 && v % 16 == 4 * (v / 4 % 4) + v % 4;
  }

  lemma LowEight(v: nat, n: nat)
    ensures Low(v, n + 8) == 256 * Low(v / 256, n) + v % 256
  {
    LowFour(v, n + 4);
    LowFour(v / 16, n);
    assert v / 16 / 16 == v / 256 && v % 256 == 16 * (v / 16 % 16) + v % 16;
  }

  lemma LowByte(v: nat, n: nat)
    requires n == 0
    ensures Low(v, n + 8) == v % 256
  {
    LowEight(v, n);
  }

  /* ---- reads and writes ---- */

  function ReadHolding(r: Regs, addr: U16, now: U32): U16 {
    if addr == TIMESTAMP_HI_IDX then now / 0x1_0000
    else if addr == TIMESTAMP_LO_IDX then now % 0x1_0000
    else if addr < |r.holding| then r.holding[addr] else 0
  }

  /** A write to an existing register that changes it, with its side effects. */
  function Changed(r: Regs, addr: nat, reg: U16): Regs
    requires Shape(r) && addr < HOLDING_NUM
  {
    var h := r.holding[addr := reg];
    if addr == DO_IDX then Regs(h, r.input, r.log + [SetDo(reg % 256)])
    else if addr == HISTORY_ENABLE_IDX then Regs(h, r.input, r.log + [HistoryEnable(reg != 0)])
    else if addr == TIMESTAMP_LO_IDX then
      Regs(h, r.input, r.log + [SetTimestamp(h[TIMESTAMP_HI_IDX] * 0x1_0000 + reg)])
    else if addr == CONFIG_SAVE_IDX then Regs(r.holding[addr := 0], r.input, r.log + [HoldingSave])
    else if addr == REBOOT_IDX then
      Regs(r.holding[addr := 0], r.input, if reg != 0 then r.log + [HistorySync, RebootCold] else r.log)
    else Regs(h, r.input, r.log)
  }

  /** `io_write_holding`: a write of the same value has no effect at all. */
  function WriteHolding(r: Regs, addr: U16, reg: U16): (Regs, bool)
    requires Shape(r)
  {
    if addr >= HOLDING_NUM then (r, false)
    else if r.holding[addr] == reg then (r, true)
    else (Changed(r, addr, reg), true)
  }

  /** `io_write_do_bit`. */
  function WriteDoBit(r: Regs, bit: U16, on: bool): (Regs, bool)
    requires Shape(r)
  {
    if bit >= DO_NUM then (r, false)
    else
      var v := WithBit(r.holding[DO_IDX], bit, on) % 256;
      (Regs(r.holding[DO_IDX := v], r.input, r.log + [SetDo(v)]), true)
  }

  /* ---- what every write keeps ---- */

  /** The DO byte driven last; the outputs start at zero. */
  function LastDo(log: seq<Hook>): Byte {
    if log == [] then 0
    else if log[|log| - 1].SetDo? then log[|log| - 1].v
    else LastDo(log[..|log| - 1])
  }

  /** Outputs as in the register, triggers at rest. */
  predicate Inv(r: Regs) {
    && Shape(r)
    && LastDo(r.log) == r.holding[DO_IDX] % 256
    && r.holding[CONFIG_SAVE_IDX] == 0 && r.holding[REBOOT_IDX] == 0
  }

  lemma LastDoSnoc(log: seq<Hook>, h: Hook)
    ensures LastDo(log + [h]) == if h.SetDo? then h.v else LastDo(log)
  {
    assert (log + [h])[..|log|] == log;
  }

  lemma ChangedDo(r: Regs, addr: nat, reg: U16)
    requires Shape(r) && addr < HOLDING_NUM
    ensures LastDo(Changed(r, addr, reg).log) == if addr == DO_IDX then reg % 256 else LastDo(r.log)
  {
    if addr == DO_IDX {
      LastDoSnoc(r.log, SetDo(reg % 256));
    } else if addr == HISTORY_ENABLE_IDX {
      LastDoSnoc(r.log, HistoryEnable(reg != 0));
    } else if addr == TIMESTAMP_LO_IDX {
      LastDoSnoc(r.log, SetTimestamp(r.holding[TIMESTAMP_HI_IDX] * 0x1_0000 + reg));
    } else if addr == CONFIG_SAVE_IDX {
      LastDoSnoc(r.log, HoldingSave);
    } else if addr == REBOOT_IDX {
      LastDoSnoc(r.log, HistorySync);
      LastDoSnoc(r.log + [HistorySync], RebootCold);
      assert r.log + [HistorySync] + [RebootCold] == r.log + [HistorySync, RebootCold];
    }
  }

  lemma ChangedRegs(r: Regs, addr: nat, reg: U16)
    requires Shape(r) && addr < HOLDING_NUM
    ensures var h := Changed(r, addr, reg).holding;
            h == r.holding[addr := if addr == CONFIG_SAVE_IDX || addr == REBOOT_IDX then 0 else reg]
    ensures Changed(r, addr, reg).input == r.input
  {
  }

  lemma WriteHoldingInv(r: Regs, addr: U16, reg: U16)
    requires Inv(r)
    ensures Inv(WriteHolding(r, addr, reg).0)
  {
    if addr < HOLDING_NUM && r.holding[addr] != reg {
      ChangedDo(r, addr, reg);
      ChangedRegs(r, addr, reg);
    }
  }

  lemma WriteDoBitInv(r: Regs, bit: U16, on: bool)
    requires Inv(r)
    ensures Inv(WriteDoBit(r, bit, on).0)
  {
    if bit < DO_NUM {
      var v := WithBit(r.holding[DO_IDX], bit, on) % 256;
      LastDoSnoc(r.log, SetDo(v));
    }
  }

  /** A coil reads back as last written, and the other coils keep their state. */
  lemma CoilReadsBack(r: Regs, bit: U16, on: bool, c: nat)
    requires Shape(r) && bit < DO_NUM && c < DO_NUM
    ensures BitAt(WriteDoBit(r, bit, on).0.holding[DO_IDX], c) ==
            if c == bit then on else BitAt(r.holding[DO_IDX], c)
  {
    var v := r.holding[DO_IDX];
    LowByte(SetBit(v, bit, on), 0);
    LowBits(SetBit(v, bit, on), 8, c);
    SetBitAt(v, bit, on, c);
  }

  /** How often a hook was called. */
  function Calls(log: seq<Hook>, h: Hook): nat {
    if log == [] then 0 else Calls(log[..|log| - 1], h) + (if log[|log| - 1] == h then 1 else 0)
  }

  lemma CallsSnoc(log: seq<Hook>, x: Hook, h: Hook)
    ensures Calls(log + [x], h) == Calls(log, h) + (if x == h then 1 else 0)
  {
    assert (log + [x])[..|log|] == log;
  }

  /** With the triggers at rest, a write fires the save (the reboot) once if it
      writes a nonzero value to its trigger register, and otherwise not at all. */
  lemma TriggersFireOnce(r: Regs, addr: U16, reg: U16)
    requires Inv(r)
    ensures var log := WriteHolding(r, addr, reg).0.log;
            && Calls(log, HoldingSave) ==
               Calls(r.log, HoldingSave) + (if addr == CONFIG_SAVE_IDX && reg != 0 then 1 else 0)
            && Calls(log, RebootCold) == Calls(r.log, RebootCold) + (if addr == REBOOT_IDX && reg != 0 then 1 else 0)
  {
    if addr < HOLDING_NUM && r.holding[addr] != reg {
      var log := WriteHolding(r, addr, reg).0.log;
      if addr == REBOOT_IDX {
        CallsSnoc(r.log, HistorySync, HoldingSave);
        CallsSnoc(r.log, HistorySync, RebootCold);
        CallsSnoc(r.log + [HistorySync], RebootCold, HoldingSave);
        CallsSnoc(r.log + [HistorySync], RebootCold, RebootCold);
        assert r.log + [HistorySync] + [RebootCold] == r.log + [HistorySync, RebootCold];
      } else if |log| > |r.log| {
        CallsSnoc(r.log, log[|r.log|], HoldingSave);
        CallsSnoc(r.log, log[|r.log|], RebootCold);
      }
    }
  }
}
