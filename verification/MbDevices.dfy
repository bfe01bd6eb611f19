/** The RTU frame buffer and the two request handlers as they run. */
module MbDevices {
  import opened Bytes
  import opened RegMap
  import opened MbServer
  import opened MbDecoder
  import opened MbTransport
  import Crc
  import Words

  class RtuFrame {
    const rxBuf: array<Byte>
    var rxLen: nat
    var rxOverflow: bool
    var srvUnit: Byte

    ghost predicate Valid()
      reads this, rxBuf
    {
      rxBuf.Length == FRAME_MAX && rxLen <= FRAME_MAX
    }

    ghost function State(): Rtu
      requires Valid()
      reads this, rxBuf
    {
      Rtu(rxBuf[..rxLen], rxOverflow)
    }

    constructor ()
      ensures Valid() && fresh(rxBuf) && State() == Received([]) && srvUnit == 1
    {
      rxBuf := new Byte[FRAME_MAX](i => 0);
      rxLen, rxOverflow, srvUnit := 0, false, 1;
    }

    method Reset()
      requires Valid()
      modifies this
      ensures Valid() && State() == Received([]) && srvUnit == old(srvUnit)
    {
      rxLen, rxOverflow := 0, false;
    }

    method Feed(bytes: seq<Byte>)
      requires Valid()
      modifies this, rxBuf
      ensures Valid() && State() == RxFeed(old(State()), bytes) && srvUnit == old(srvUnit)
    {
      if bytes == [] || rxOverflow {
        return;
      }
      var space := FRAME_MAX - rxLen;
      var take := Min(|bytes|, space);
      forall k | 0 <= k < take { rxBuf[rxLen + k] := bytes[k]; }
      rxLen := rxLen + take;
      assert rxBuf[..rxLen] == old(rxBuf[..rxLen]) + bytes[..take];
      if take < |bytes| {
        rxOverflow := true;
      }
    }

    /** Received CRC against the computed one. */
    method CheckCrc(frame: seq<Byte>) returns (ok: bool)
      requires |frame| >= 2
      ensures ok <==> CrcOk(frame)
    {
      var n := |frame| - 2;
      var stored := Crc.LeWord(Crc.ToWords(frame[n..]));
      var computed := Crc.SerialCrc(MODBUS, ONES16, Crc.ToWords(frame[..n]));
      ok := stored == computed;
    }

    /** `t35_expired`: the frame is taken, the buffer is empty again, and the
        server moves on as the frame deserves. */
    method T35Expired(dec: Decoder, now: U32) returns (reply: Option<seq<Byte>>)
      requires Valid() && dec.Valid()
      modifies this, dec, dec.regs
      ensures Valid() && State() == Received([]) && dec.Valid()
      ensures (dec.State(), reply) == Expire(old(State()), old(srvUnit), old(dec.State()), now)
    {
      var frame, overflow, unit := rxBuf[..rxLen], rxOverflow, srvUnit;
      Reset();
      var crcOk := false;
      if |frame| >= FRAME_MIN {
        crcOk := CheckCrc(frame);
      }
      reply := JudgeNow(frame, overflow, crcOk, unit, dec, now);
    }
  }

  /** The verdict on a frame, once its CRC has been checked. */
  method JudgeNow(frame: seq<Byte>, overflow: bool, crcOk: bool, unit: Byte, dec: Decoder, now: U32)
    returns (reply: Option<seq<Byte>>)
    requires dec.Valid()
    modifies dec, dec.regs
    ensures dec.Valid()
    ensures (dec.State(), reply) == Judge(Rtu(frame, overflow), crcOk, unit, old(dec.State()), now)
  {
    if frame == [] {
      return None;
    }
    if overflow || |frame| < FRAME_MIN {
      dec.diag := dec.diag.(busMsg := Sat(dec.diag.busMsg));
      dec.diag := dec.diag.(noResp := Sat(dec.diag.noResp));
      return None;
    }
    if !crcOk {
      dec.diag := dec.diag.(busMsg := Sat(dec.diag.busMsg), crcErr := Sat(dec.diag.crcErr));
      dec.diag := dec.diag.(noResp := Sat(dec.diag.noResp));
      return None;
    }
    if frame[0] != 0 && frame[0] != unit {
      dec.diag := dec.diag.(busMsg := Sat(dec.diag.busMsg));
      dec.diag := dec.diag.(noResp := Sat(dec.diag.noResp));
      return None;
    }
    reply := AnswerNow(frame[0], frame[1..|frame| - 2], dec, now);
  }

  method AnswerNow(unit: Byte, pdu: seq<Byte>, dec: Decoder, now: U32) returns (reply: Option<seq<Byte>>)
    requires dec.Valid()
    modifies dec, dec.regs
    ensures dec.Valid() && (dec.State(), reply) == Answer(unit, Process(old(dec.State()), pdu, now))
  {
    var rsp := dec.ProcessNow(pdu, now);
    if rsp == [] || unit == 0 {
      dec.diag := dec.diag.(noResp := Sat(dec.diag.noResp));
      return None;
    }
    reply := Some(Closed([unit] + rsp));
  }

  /** `mbtcp_adu_process`. */
  method MbtcpAduProcess(adu: seq<Byte>, dec: Decoder, now: U32) returns (out: seq<Byte>)
    requires dec.Valid()
    modifies dec, dec.regs
    ensures dec.Valid() && (dec.State(), out) == AduProcess(adu, old(dec.State()), now)
  {
    if |adu| < 8 {
      return [];
    }
    var fc := adu[7];
    if GetBe16(adu, 2) != 0 {
      return adu[..4] + Be16(3) + [adu[6], if fc >= 128 then fc else fc + 128, 4];
    }
    var rsp := dec.ProcessNow(adu[7..7 + PduLen(adu)], now);
    if adu[6] == 0 || rsp == [] {
      dec.diag := dec.diag.(noResp := Sat(dec.diag.noResp));
      return [];
    }
    out := adu[..2] + [0, 0] + Be16((|rsp| + 1) % 0x1_0000) + [adu[6]] + rsp;
  }
}
