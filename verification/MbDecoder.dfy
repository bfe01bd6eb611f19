/** The decoder and the register file as they run: counters, registers and
    hooks updated in place, requests worked off in loops. */
module MbDecoder {
  import opened Bits
  import opened Bytes
  import opened RegMap
  import opened MbServer

  class RegFile {
    var holding: seq<U16>
    var input: seq<U16>
    var log: seq<Hook>

    ghost function State(): Regs
      reads this
    {
      Regs(holding, input, log)
    }

    /** Factory values; the version register is the caller's. */
    constructor (version: U16)
      ensures RegMap.Inv(State())
    {
      holding := [0, 0xFFFF, 0x000F, 200, 200, 0, 0x0111, 250, 9600, 1, 192, 168, 12, 101, 0, 0, 0, 0];
      input := [version, 0, 0, 0, 0, 0];
      log := [];
    }

    method IoWriteHolding(addr: U16, reg: U16) returns (ok: bool)
      requires Shape(State())
      modifies this
      ensures Shape(State()) && (State(), ok) == WriteHolding(old(State()), addr, reg)
    {
      if addr >= HOLDING_NUM {
        return false;
      }
      ok := true;
      if holding[addr] == reg {
        return;
      }
      holding := holding[addr := reg];
      if addr == DO_IDX {
        log := log + [SetDo(reg % 256)];
      } else if addr == HISTORY_ENABLE_IDX {
        log := log + [HistoryEnable(reg != 0)];
      } else if addr == TIMESTAMP_LO_IDX {
        log := log + [SetTimestamp(holding[TIMESTAMP_HI_IDX] * 0x1_0000 + reg)];
      } else if addr == CONFIG_SAVE_IDX {
        holding := holding[addr := 0];
        log := log + [HoldingSave];
      } else if addr == REBOOT_IDX {
        holding := holding[addr := 0];
        if reg != 0 {
          log := log + [HistorySync];
          log := log + [RebootCold];
          assert log == old(log) + [HistorySync, RebootCold];
        }
      }
      assert addr == CONFIG_SAVE_IDX || addr == REBOOT_IDX ==> holding == old(holding)[addr := 0];
    }

    method IoWriteDoBit(bit: U16, on: bool) returns (ok: bool)
      requires Shape(State())
      modifies this
      ensures Shape(State()) && (State(), ok) == WriteDoBit(old(State()), bit, on)
    {
      if bit >= DO_NUM {
        return false;
      }
      var val := WithBit(holding[DO_IDX], bit, on);
      log := log + [SetDo(val % 256)];
      holding := holding[DO_IDX := val % 256];
      ok := true;
    }
  }

  lemma OtherBytes(v: nat, a: nat, i: nat, n: nat, j: nat)
    requires i < 8 * n && j < n && j != i / 8
    ensures BitBytes(v, a, i + 1, n)[j] == BitBytes(v, a, i, n)[j]
  {
    if j < i / 8 {
      assert i - 8 * j >= 8;
    } else {
      assert i + 1 <= 8 * j;
    }
  }

  lemma ByteInMaking(v: nat, a: nat, i: nat, n: nat, k: nat)
    requires i < 8 * n && k == i / 8
    ensures var x, y := BitBytes(v, a, i, n)[k], BitBytes(v, a, i + 1, n)[k];
            && SetBit(x, i % 8, true) < 256
            && y == if BitAt(v, a + i) then SetBit(x, i % 8, true) else x
  {
    var m := i % 8;
    assert i == 8 * k + m && a + 8 * k + (m + 1) - 1 == a + i;
    var x := BitByte(v, a + 8 * k, m);
    assert BitBytes(v, a, i, n)[k] == x && BitBytes(v, a, i + 1, n)[k] == BitByte(v, a + 8 * k, m + 1);
    Pow2Sixteen();
    SetBitBound(x, m, true, 8);
  }

  // One more bit changes one byte only.
  lemma PartialStep(v: nat, a: nat, i: nat, n: nat)
    requires i < 8 * n
    ensures var p := BitBytes(v, a, i, n);
            && SetBit(p[i / 8], i % 8, true) < 256
            && BitBytes(v, a, i + 1, n) == if BitAt(v, a + i) then p[i / 8 := SetBit(p[i / 8], i % 8, true)] else p
  {
    ByteInMaking(v, a, i, n, i / 8);
    forall j | 0 <= j < n && j != i / 8 ensures BitBytes(v, a, i + 1, n)[j] == BitBytes(v, a, i, n)[j] {
      OtherBytes(v, a, i, n, j);
    }
  }

  // Below the last bit the address has not wrapped.
  lemma NotWrapped(addr: U16, i: nat, num: nat)
    requires num <= 16 && (i == 0 || addr + i <= num)
    ensures (addr + i) % 0x1_0000 < num <==> addr + i < num
    ensures addr + i < num ==> (addr + i) % 0x1_0000 == addr + i
  {
  }

  method StoreBit(data: seq<Byte>, ghost v: nat, ghost a: nat, i: nat, n: nat, on: bool) returns (r: seq<Byte>)
    requires i < 8 * n && data == BitBytes(v, a, i, n) && on == BitAt(v, a + i)
    ensures r == BitBytes(v, a, i + 1, n)
  {
    PartialStep(v, a, i, n);
    r := if on then data[i / 8 := SetBit(data[i / 8], i % 8, true)] else data;
  }

  /** The loops of FC01 and FC02: the address wraps, and the first missing bit
      ends the request. */
  method GatherBits(addr: U16, qty: nat, num: nat, v: U16) returns (ok: bool, data: seq<Byte>)
    requires num <= 16 && 0 < qty <= 2000
    ensures ok <==> addr + qty <= num
    ensures ok ==> data == BitBytes(v, addr, qty, (qty - 1) / 8 + 1)
  {
    var n := (qty - 1) / 8 + 1;
    data := seq(n, k => 0);
    var at := addr;
    assert data == BitBytes(v, addr, 0, n);
    for i := 0 to qty
      invariant i == 0 || addr + i <= num
      invariant at == (addr + i) % 0x1_0000
      invariant |data| == n && data == BitBytes(v, addr, i, n)
    {
      NotWrapped(addr, i, num);
      if at >= num {
        return false, data;
      }
      data := StoreBit(data, v, addr, i, n, BitAt(v, at));
      at := (at + 1) % 0x1_0000;
    }
    ok := true;
  }

  class Decoder {
    var diag: Diag
    const regs: RegFile

    ghost function State(): Server
      reads this, regs
    {
      Server(diag, regs.State())
    }

    ghost predicate Valid()
      reads this, regs
    {
      Shape(regs.State())
    }

    constructor (r: RegFile)
      ensures regs == r && diag == Diag(0, 0, 0, 0, 0)
    {
      regs, diag := r, Diag(0, 0, 0, 0, 0);
    }

    method ExcRsp(fc: Byte, code: Byte) returns (out: seq<Byte>)
      modifies this
      ensures (State(), out) == Exception(old(State()), fc, code)
    {
      diag := diag.(exc := Sat(diag.exc));
      out := [if fc >= 128 then fc else fc + 128, code];
    }

    method ReadBitsNow(fc: Byte, d: seq<Byte>, num: nat, v: U16) returns (out: seq<Byte>)
      requires num <= 16
      modifies this
      ensures (State(), out) == ReadBits(old(State()), fc, d, num, v)
    {
      if |d| != 4 {
        return [];
      }
      var addr, qty := GetBe16(d, 0), GetBe16(d, 2);
      if qty == 0 || qty > 2000 {
        out := ExcRsp(fc, 3);
        return;
      }
      var ok, data := GatherBits(addr, qty, num, v);
      if ok {
        out := [fc, (qty - 1) / 8 + 1] + data;
      } else {
        out := ExcRsp(fc, 2);
      }
    }

    method Fc03Now(d: seq<Byte>, now: U32) returns (out: seq<Byte>)
      modifies this
      ensures (State(), out) == Fc03(old(State()), d, now)
    {
      if |d| != 4 {
        return [];
      }
      var addr, qty := GetBe16(d, 0), GetBe16(d, 2);
      if qty == 0 || qty > 125 {
        out := ExcRsp(3, 3);
        return;
      }
      if addr >= 5000 {
        out := ExcRsp(3, 1);
        return;
      }
      var data: seq<Byte> := [];
      for i := 0 to qty
        invariant unchanged(this) && (i == 0 || addr + i <= HOLDING_NUM)
        invariant addr + i <= HOLDING_NUM ==> data == HoldingBytes(regs.State(), now, addr, i)
      {
        if addr + i >= HOLDING_NUM {
          out := ExcRsp(3, 2);
          return;
        }
        data := data + Be16(ReadHolding(Regs(regs.holding, regs.input, []), addr + i, now));
      }
      out := [3, 2 * qty] + data;
    }

    method Fc04Now(d: seq<Byte>) returns (out: seq<Byte>)
      requires Valid()
      modifies this
      ensures (State(), out) == Fc04(old(State()), d)
    {
      if |d| != 4 {
        return [];
      }
      var addr, qty := GetBe16(d, 0), GetBe16(d, 2);
      if qty == 0 || qty > 125 {
        out := ExcRsp(4, 3);
        return;
      }
      if addr >= 5000 {
        out := ExcRsp(4, 1);
        return;
      }
      var data: seq<Byte> := [];
      for i := 0 to qty
        invariant unchanged(this) && (i == 0 || addr + i <= INPUT_NUM)
        invariant addr + i <= INPUT_NUM ==> data == InputBytes(regs.State(), addr, i)
      {
        if addr + i >= INPUT_NUM {
          out := ExcRsp(4, 2);
          return;
        }
        data := data + Be16(regs.input[addr + i]);
      }
      out := [4, 2 * qty] + data;
    }

    method Fc05Now(d: seq<Byte>) returns (out: seq<Byte>)
      requires Valid()
      modifies this, regs
      ensures Valid() && (State(), out) == Fc05(old(State()), d)
    {
      if |d| != 4 {
        return [];
      }
      var ok := regs.IoWriteDoBit(GetBe16(d, 0), GetBe16(d, 2) != 0);
      if ok {
        out := [5] + d;
      } else {
        out := ExcRsp(5, 2);
      }
    }

    method Fc06Now(d: seq<Byte>) returns (out: seq<Byte>)
      requires Valid()
      modifies this, regs
      ensures Valid() && (State(), out) == Fc06(old(State()), d)
    {
      if |d| != 4 {
        return [];
      }
      var ok := regs.IoWriteHolding(GetBe16(d, 0), GetBe16(d, 2));
      if ok {
        out := [6] + d;
      } else {
        out := ExcRsp(6, 2);
      }
    }

    method Fc08Now(d: seq<Byte>) returns (out: seq<Byte>)
      modifies this
      ensures (State(), out) == Fc08(old(State()), d)
    {
      if |d| != 4 {
        return [];
      }
      var sub, data := GetBe16(d, 0), d[2..4];
      if sub == 0x0A {
        diag := Diag(0, 0, 0, 0, 0);
      } else if sub == 0x0B {
        data := Be16(diag.busMsg);
      } else if sub == 0x0C {
        data := Be16(diag.crcErr);
      } else if sub == 0x0D {
        data := Be16(diag.exc);
      } else if sub == 0x0E {
        data := Be16(diag.srvMsg);
      } else if sub == 0x0F {
        data := Be16(diag.noResp);
      } else if sub != 0 {
        out := ExcRsp(8, 1);
        return;
      }
      out := [8] + d[..2] + data;
      assert [8] + d[..2] + d[2..4] == [8] + d;
    }

    /** The coil loop: the data byte is shifted down bit by bit. */
    method WriteCoilsNow(addr: U16, data: seq<Byte>, qty: nat) returns (ok: bool)
      requires Valid() && 0 < qty && qty <= 8 * |data|
      modifies regs
      ensures Valid() && (regs.State(), ok) == WriteCoils(old(regs.State()), addr, data, 0, qty)
    {
      var temp: nat := 0;
      for i := 0 to qty
        invariant Valid()
        invariant WriteCoils(regs.State(), addr, data, i, qty) == WriteCoils(old(regs.State()), addr, data, 0, qty)
        invariant i % 8 != 0 ==> temp == Halved(data[i / 8], i % 8)
      {
        if i % 8 == 0 {
          temp := data[i / 8];
        }
        HalvedBit(data[i / 8], i % 8);
        var done := regs.IoWriteDoBit(CoilAddr(addr, i), temp % 2 == 1);
        if !done {
          return false;
        }
        temp := temp / 2;
        HalvedNext(data[i / 8], i % 8);
        assert (i + 1) % 8 != 0 ==> (i + 1) / 8 == i / 8 && (i + 1) % 8 == i % 8 + 1;
      }
      ok := true;
    }

    method Fc15Now(d: seq<Byte>) returns (out: seq<Byte>)
      requires Valid()
      modifies this, regs
      ensures Valid() && (State(), out) == Fc15(old(State()), d)
    {
      if |d| < 6 {
        return [];
      }
      var addr, qty, n := GetBe16(d, 0), GetBe16(d, 2), d[4];
      if qty == 0 || qty > 2000 {
        out := ExcRsp(15, 3);
        return;
      }
      if (qty - 1) / 8 + 1 != n || |d| != n + 5 {
        out := ExcRsp(15, 3);
        return;
      }
      var ok := WriteCoilsNow(addr, d[5..], qty);
      if ok {
        out := [15] + d[..4];
      } else {
        out := ExcRsp(15, 2);
      }
    }

    method WriteRegsNow(addr: nat, data: seq<Byte>, qty: nat) returns (ok: bool)
      requires Valid() && 2 * qty <= |data| && addr + qty < 0x1_0000
      modifies regs
      ensures Valid() && (regs.State(), ok) == WriteRegs(old(regs.State()), addr, data, 0, qty)
    {
      for i := 0 to qty
        invariant Valid()
        invariant WriteRegs(regs.State(), addr, data, i, qty) == WriteRegs(old(regs.State()), addr, data, 0, qty)
      {
        var done := regs.IoWriteHolding(addr + i, GetBe16(data, 2 * i));
        if !done {
          return false;
        }
      }
      ok := true;
    }

    method Fc16Now(d: seq<Byte>) returns (out: seq<Byte>)
      requires Valid()
      modifies this, regs
      ensures Valid() && (State(), out) == Fc16(old(State()), d)
    {
      if |d| < 6 {
        return [];
      }
      var addr, qty, n := GetBe16(d, 0), GetBe16(d, 2), d[4];
      if qty == 0 || qty > 125 {
        out := ExcRsp(16, 3);
        return;
      }
      if addr >= 5000 {
        out := ExcRsp(16, 1);
        return;
      }
      if |d| - 5 != n || n / qty != 2 {
        out := ExcRsp(16, 3);
        return;
      }
      QuotientTwo(n, qty);
      var ok := WriteRegsNow(addr, d[5..], qty);
      if ok {
        out := [16] + d[..4];
      } else {
        out := ExcRsp(16, 2);
      }
    }

    /** `MbServer::process`. */
    method ProcessNow(pdu: seq<Byte>, now: U32) returns (out: seq<Byte>)
      requires Valid()
      modifies this, regs
      ensures Valid() && (State(), out) == Process(old(State()), pdu, now)
    {
      if pdu == [] {
        return [];
      }
      var fc, d := pdu[0], pdu[1..];
      diag := diag.(busMsg := Sat(diag.busMsg), srvMsg := Sat(diag.srvMsg));
      if fc == 1 {
        out := ReadBitsNow(1, d, DO_NUM, regs.holding[DO_IDX]);
      } else if fc == 2 {
        out := ReadBitsNow(2, d, DI_NUM, regs.input[DI_IDX]);
      } else if fc == 3 {
        out := Fc03Now(d, now);
      } else if fc == 4 {
        out := Fc04Now(d);
      } else if fc == 5 {
        out := Fc05Now(d);
      } else if fc == 6 {
        out := Fc06Now(d);
      } else if fc == 8 {
        out := Fc08Now(d);
      } else if fc == 15 {
        out := Fc15Now(d);
      } else if fc == 16 {
        out := Fc16Now(d);
      } else {
        out := ExcRsp(fc, 1);
      }
    }
  }

  /** A byte shifted down k places. */
  function Halved(b: nat, k: nat): nat
    decreases k
  {
    if k == 0 then b else Halved(b, k - 1) / 2
  }

  lemma {:induction false} HalvedHead(b: nat, k: nat)
    requires k > 0
    ensures Halved(b, k) == Halved(b / 2, k - 1)
    decreases k
  {
    if k > 1 { HalvedHead(b, k - 1); }
  }

  lemma {:induction false} HalvedBit(b: nat, k: nat)
    ensures Halved(b, k) % 2 == 1 <==> BitAt(b, k)
    decreases k
  {
    if k > 0 {
      HalvedHead(b, k);
      HalvedBit(b / 2, k - 1);
    }
  }

  lemma HalvedNext(b: nat, k: nat)
    ensures Halved(b, k + 1) == Halved(b, k) / 2
  {
  }
}
