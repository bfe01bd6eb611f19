/** The two Modbus transports: RTU frames closed by a silence, and TCP ADUs
    behind an MBAP header; who gets an answer and who is counted. */
module MbTransport {
  import opened Bytes
  import opened RegMap
  import opened MbServer
  import Crc
  import Words

  /* ---- RTU reception ---- */

  const FRAME_MAX: nat := 256
  const FRAME_MIN: nat := 4

  datatype Rtu = Rtu(buf: seq<Byte>, overflow: bool)

  function RxFeed(r: Rtu, bytes: seq<Byte>): Rtu
    requires |r.buf| <= FRAME_MAX
  {
    if bytes == [] || r.overflow then r
    else
      var take := Min(|bytes|, FRAME_MAX - |r.buf|);
      Rtu(r.buf + bytes[..take], take < |bytes|)
  }

  /** What a stream of bytes without a silence amounts to. */
  function Received(stream: seq<Byte>): Rtu {
    Rtu(stream[..Min(|stream|, FRAME_MAX)], |stream| > FRAME_MAX)
  }

  /** Reception depends on the bytes, not on how they were handed over. */
  lemma RxFeedConcat(stream: seq<Byte>, more: seq<Byte>)
    ensures RxFeed(Received(stream), more) == Received(stream + more)
  {
    if more == [] {
      assert stream + more == stream;
    } else if |stream| <= FRAME_MAX {
      var take := Min(|more|, FRAME_MAX - |stream|);
      assert stream[..|stream|] == stream;
      assert (stream + more)[..|stream| + take] == stream + more[..take];
    } else {
      assert (stream + more)[..FRAME_MAX] == stream[..FRAME_MAX];
    }
  }

  /* ---- CRC-16/MODBUS at the end of a frame ---- */

  // 0xA001
  const MODBUS: Words.Word := {0, 13, 15}
  const ONES16: Words.Word := set i | 0 <= i < 16

  function FrameCrc(data: seq<Byte>): Words.Word {
    Crc.Crc(MODBUS, ONES16, Crc.ToWords(data))
  }

  /** The last two bytes are the CRC of the rest, low byte first. */
  predicate CrcOk(frame: seq<Byte>)
    requires |frame| >= 2
  {
    Crc.LeWord(Crc.ToWords(frame[|frame| - 2..])) == FrameCrc(frame[..|frame| - 2])
  }

  function CrcBytes(data: seq<Byte>): (r: seq<Byte>)
    ensures |r| == 2
  {
    var w := FrameCrc(data);
    [Crc.ByteOf(w), Crc.ByteOf(Words.Shr(w, 8))]
  }

  lemma FrameCrcFits(data: seq<Byte>)
    ensures Words.Fits(FrameCrc(data), 16)
  {
    Crc.CrcFits(MODBUS, 16, ONES16, Crc.ToWords(data));
  }

  lemma StoredBytes(w: Words.Word, b: seq<Byte>)
    requires Words.Fits(w, 16) && b == [Crc.ByteOf(w), Crc.ByteOf(Words.Shr(w, 8))]
    ensures Crc.LeWord(Crc.ToWords(b)) == w
  {
    Crc.ByteBits(w);
    Crc.ByteBits(Words.Shr(w, 8));
    var high := Words.Shr(w, 8);
    forall i: nat ensures i in Words.Low(high, 8) <==> i in high {
      Words.ShrBit(w, 8, i);
    }
    Crc.LeRoundTrip(w, 2);
    assert Crc.ToWords(b) == [Words.Low(w, 8), Words.Low(high, 8)];
    assert Crc.LeBytes(high, 1) == [Words.Low(high, 8)];
    assert Crc.LeBytes(w, 2) == [Words.Low(w, 8)] + Crc.LeBytes(high, 1);
  }

  /** A frame with its CRC behind it. */
  function Closed(data: seq<Byte>): (r: seq<Byte>)
    ensures |r| == |data| + 2
  {
    data + CrcBytes(data)
  }

  /** A closed frame passes the receiver's check. */
  lemma ClosedFrameOk(data: seq<Byte>)
    requires data != []
    ensures CrcOk(Closed(data)) && Closed(data)[0] == data[0]
  {
    var f := Closed(data);
    assert f[|f| - 2..] == CrcBytes(data) && f[..|f| - 2] == data;
    FrameCrcFits(data);
    StoredBytes(FrameCrc(data), CrcBytes(data));
  }

  lemma CrcOfWhole(a: seq<Byte>, b: seq<Byte>)
    requires |b| == 2
    ensures FrameCrc(a + b) == {} <==> Crc.LeWord(Crc.ToWords(b)) == FrameCrc(a)
  {
    Crc.ToWordsConcat(a, b);
    Crc.TrailingCrc(MODBUS, 15, ONES16, Crc.ToWords(a), Crc.ToWords(b));
  }

  /** The check is that the CRC over the whole frame is zero. */
  lemma CrcOkIffZero(frame: seq<Byte>)
    requires |frame| >= 2
    ensures CrcOk(frame) <==> FrameCrc(frame) == {}
  {
    var n := |frame| - 2;
    assert frame == frame[..n] + frame[n..];
    CrcOfWhole(frame[..n], frame[n..]);
  }

  /* ---- RTU requests ---- */

  function CountBus(s: Server): Server {
    s.(diag := s.diag.(busMsg := Sat(s.diag.busMsg)))
  }

  function CountCrc(s: Server): Server {
    s.(diag := s.diag.(crcErr := Sat(s.diag.crcErr)))
  }

  function CountNoResp(s: Server): Server {
    s.(diag := s.diag.(noResp := Sat(s.diag.noResp)))
  }

  /** The silence after a frame: the new server state and the reply, if any. */
  function Expire(r: Rtu, unit: Byte, s: Server, now: U32): (Server, Option<seq<Byte>>)
    requires Shape(s.regs)
  {
    Judge(r, |r.buf| >= FRAME_MIN && CrcOk(r.buf), unit, s, now)
  }

  /** The same, with the outcome of the CRC check given. */
  function Judge(r: Rtu, crcOk: bool, unit: Byte, s: Server, now: U32): (Server, Option<seq<Byte>>)
    requires Shape(s.regs)
  {
    var f := r.buf;
    if f == [] then (s, None)
    else if r.overflow || |f| < FRAME_MIN then (CountNoResp(CountBus(s)), None)
    else if !crcOk then (CountNoResp(CountCrc(CountBus(s))), None)
    else if f[0] != 0 && f[0] != unit then (CountNoResp(CountBus(s)), None)
    else Answer(f[0], Process(s, f[1..|f| - 2], now))
  }

  /** A broadcast and a dropped PDU are counted, anything else is answered. */
  function Answer(unit: Byte, p: Result): (Server, Option<seq<Byte>>) {
    if p.1 == [] || unit == 0 then (CountNoResp(p.0), None) else (p.0, Some(Closed([unit] + p.1)))
  }

  /** From this unit, with a correct CRC. */
  predicate GoodReply(f: Option<seq<Byte>>, unit: Byte) {
    f.Some? ==> |f.value| >= 4 && CrcOk(f.value) && f.value[0] == unit
  }

  /** Whatever is answered comes from the unit addressed and carries a correct
      CRC; a broadcast is never answered. */
  lemma AnswerChecks(unit: Byte, p: Result)
    ensures GoodReply(Answer(unit, p).1, unit)
    ensures unit == 0 ==> Answer(unit, p).1 == None
  {
    ClosedFrameOk([unit] + p.1);
  }

  /* ---- TCP requests ---- */

  /** `mbtcp_adu_process`: a foreign protocol is refused before anything is
      counted; unit 0 is served but not answered. */
  function AduProcess(adu: seq<Byte>, s: Server, now: U32): (Server, seq<Byte>)
    requires Shape(s.regs)
  {
    if |adu| < 8 then (s, [])
    else
      var fc := adu[7];
      if GetBe16(adu, 2) != 0 then
        (s, adu[..4] + Be16(3) + [adu[6], if fc >= 128 then fc else fc + 128, 4])
      else
        var p := Process(s, adu[7..7 + PduLen(adu)], now);
        if adu[6] == 0 || p.1 == [] then (CountNoResp(p.0), [])
        else (p.0, adu[..2] + [0, 0] + Be16((|p.1| + 1) % 0x1_0000) + [adu[6]] + p.1)
  }

  /** Length of the PDU, clamped to 256 and to what was received. */
  function PduLen(adu: seq<Byte>): (n: nat)
    requires |adu| >= 8
    ensures 1 <= n <= |adu| - 7
  {
    var len := Min(GetBe16(adu, 4), 256);
    Min(if len >= 2 then len - 1 else 1, |adu| - 7)
  }

  /* ---- who is answered, who is counted ---- */

  datatype Request = RtuRequest(rx: Rtu) | TcpRequest(adu: seq<Byte>)

  function Handle(q: Request, unit: Byte, s: Server, now: U32): (r: (Server, bool))
    requires Shape(s.regs)
  {
    match q
    case RtuRequest(rx) =>
      var e := Expire(rx, unit, s, now);
      (e.0, e.1.Some?)
    case TcpRequest(adu) =>
      var a := AduProcess(adu, s, now);
      (a.0, a.1 != [])
  }

  /** There is a frame at all. */
  predicate Present(q: Request) {
    match q
    case RtuRequest(rx) => rx.buf != []
    case TcpRequest(adu) => |adu| >= 8
  }

  function RtuPdu(rx: Rtu, crcOk: bool, unit: Byte): Option<seq<Byte>> {
    var f := rx.buf;
    if rx.overflow || |f| < FRAME_MIN || !crcOk || (f[0] != 0 && f[0] != unit) then None else Some(f[1..|f| - 2])
  }

  /** The PDU the request brings to the decoder, if it gets there. */
  function PduOf(q: Request, unit: Byte): Option<seq<Byte>> {
    match q
    case RtuRequest(rx) => RtuPdu(rx, |rx.buf| >= FRAME_MIN && CrcOk(rx.buf), unit)
    case TcpRequest(adu) =>
      if |adu| < 8 || GetBe16(adu, 2) != 0 then None else Some(adu[7..7 + PduLen(adu)])
  }

  predicate Clears(q: Request, unit: Byte) {
    PduOf(q, unit).Some? && ClearsCounters(PduOf(q, unit).value)
  }

  /** Answered and not counted, or counted and not answered. */
  predicate OneOfTwo(s: Server, r: (Server, bool)) {
    r.0.diag.noResp == if r.1 then s.diag.noResp else Sat(s.diag.noResp)
  }

  lemma ServedOnce(s: Server, unit: Byte, p: Result)
    requires p.0.diag.noResp == s.diag.noResp
    ensures OneOfTwo(s, (Answer(unit, p).0, Answer(unit, p).1.Some?))
  {
  }

  lemma RtuOnce(rx: Rtu, crcOk: bool, unit: Byte, s: Server, now: U32)
    requires Shape(s.regs) && rx.buf != []
    requires RtuPdu(rx, crcOk, unit).Some? ==> !ClearsCounters(RtuPdu(rx, crcOk, unit).value)
    ensures var e := Judge(rx, crcOk, unit, s, now);
            OneOfTwo(s, (e.0, e.1.Some?))
  {
    var pdu := RtuPdu(rx, crcOk, unit);
    if pdu.Some? {
      ProcessCounts(s, pdu.value, now);
      ServedOnce(s, rx.buf[0], Process(s, pdu.value, now));
    }
  }

  lemma TcpOnce(adu: seq<Byte>, unit: Byte, s: Server, now: U32)
    requires Shape(s.regs) && |adu| >= 8 && !Clears(TcpRequest(adu), unit)
    ensures OneOfTwo(s, Handle(TcpRequest(adu), unit, s, now))
  {
    var pdu := PduOf(TcpRequest(adu), unit);
    if pdu.Some? {
      ProcessCounts(s, pdu.value, now);
    }
  }

  /** Every frame that is there gets exactly one of a reply and a tick of the
      no-response counter, unless it clears the counters itself. */
  lemma AnsweredOrCounted(q: Request, unit: Byte, s: Server, now: U32)
    requires Shape(s.regs) && Present(q) && !Clears(q, unit)
    ensures OneOfTwo(s, Handle(q, unit, s, now))
  {
    match q
    case RtuRequest(rx) => RtuOnce(rx, |rx.buf| >= FRAME_MIN && CrcOk(rx.buf), unit, s, now);
    case TcpRequest(adu) => TcpOnce(adu, unit, s, now);
  }

  /** An absent frame does nothing. */
  lemma AbsentIgnored(q: Request, unit: Byte, s: Server, now: U32)
    requires Shape(s.regs) && !Present(q)
    ensures Handle(q, unit, s, now) == (s, false)
  {
  }

  lemma JudgeInv(rx: Rtu, crcOk: bool, unit: Byte, s: Server, now: U32)
    requires RegMap.Inv(s.regs)
    ensures RegMap.Inv(Judge(rx, crcOk, unit, s, now).0.regs)
  {
    var pdu := RtuPdu(rx, crcOk, unit);
    if pdu.Some? {
      ProcessInv(s, pdu.value, now);
    }
  }

  lemma AduInv(adu: seq<Byte>, s: Server, now: U32)
    requires RegMap.Inv(s.regs)
    ensures RegMap.Inv(AduProcess(adu, s, now).0.regs)
  {
    if |adu| >= 8 {
      ProcessInv(s, adu[7..7 + PduLen(adu)], now);
    }
  }

  /** Registers, outputs and triggers stay together through every request. */
  lemma HandleInv(q: Request, unit: Byte, s: Server, now: U32)
    requires RegMap.Inv(s.regs)
    ensures RegMap.Inv(Handle(q, unit, s, now).0.regs)
  {
    match q
    case RtuRequest(rx) => JudgeInv(rx, |rx.buf| >= FRAME_MIN && CrcOk(rx.buf), unit, s, now);
    case TcpRequest(adu) => AduInv(adu, s, now);
  }

  /* ---- whole runs ---- */

  /** Requests with the time each arrives at. */
  datatype Arrival = Arrival(q: Request, now: U32)

  function Serve(arrivals: seq<Arrival>, unit: Byte, s: Server): (r: (Server, nat))
    requires RegMap.Inv(s.regs)
    ensures RegMap.Inv(r.0.regs)
    decreases |arrivals|
  {
    if arrivals == [] then (s, 0)
    else
      var h := Handle(arrivals[0].q, unit, s, arrivals[0].now);
      HandleInv(arrivals[0].q, unit, s, arrivals[0].now);
      var rest := Serve(arrivals[1..], unit, h.0);
      (rest.0, rest.1 + (if h.1 then 1 else 0))
  }

  /** What was left unanswered since the counters were cleared, one request on: a
      clear starts anew, and a frame that is not there does not count. */
  function Unanswered(q: Request, unit: Byte, answered: bool, before: nat): nat {
    if !Present(q) then before
    else (if Clears(q, unit) then 0 else before) + if answered then 0 else 1
  }

  lemma RtuClears(rx: Rtu, crcOk: bool, unit: Byte, s: Server, now: U32)
    requires Shape(s.regs) && rx.buf != []
    requires RtuPdu(rx, crcOk, unit).Some? && ClearsCounters(RtuPdu(rx, crcOk, unit).value)
    ensures var e := Judge(rx, crcOk, unit, s, now); e.0.diag.noResp == if e.1.Some? then 0 else 1
  {
    ProcessCounts(s, RtuPdu(rx, crcOk, unit).value, now);
  }

  lemma TcpClears(adu: seq<Byte>, unit: Byte, s: Server, now: U32)
    requires Shape(s.regs) && |adu| >= 8 && Clears(TcpRequest(adu), unit)
    ensures var h := Handle(TcpRequest(adu), unit, s, now); h.0.diag.noResp == if h.1 then 0 else 1
  {
    ProcessCounts(s, PduOf(TcpRequest(adu), unit).value, now);
  }

  lemma ClearingCounted(q: Request, unit: Byte, s: Server, now: U32)
    requires Shape(s.regs) && Present(q) && Clears(q, unit)
    ensures var h := Handle(q, unit, s, now); h.0.diag.noResp == if h.1 then 0 else 1
  {
    match q
    case RtuRequest(rx) => RtuClears(rx, |rx.buf| >= FRAME_MIN && CrcOk(rx.buf), unit, s, now);
    case TcpRequest(adu) => TcpClears(adu, unit, s, now);
  }

  lemma CappedNext(n: nat)
    ensures Sat(Capped(n)) == Capped(n + 1)
  {
  }

  /** The counter shows them, up to saturation: one request. */
  lemma UnansweredShown(q: Request, unit: Byte, s: Server, now: U32, before: nat)
    requires Shape(s.regs) && s.diag.noResp == Capped(before)
    ensures var h := Handle(q, unit, s, now); h.0.diag.noResp == Capped(Unanswered(q, unit, h.1, before))
  {
    CappedNext(before);
    if !Present(q) {
      AbsentIgnored(q, unit, s, now);
    } else if Clears(q, unit) {
      ClearingCounted(q, unit, s, now);
    } else {
      AnsweredOrCounted(q, unit, s, now);
    }
  }

  function AllUnanswered(arrivals: seq<Arrival>, unit: Byte, s: Server, before: nat): nat
    requires RegMap.Inv(s.regs)
    decreases |arrivals|
  {
    if arrivals == [] then before
    else
      var a := arrivals[0];
      var h := Handle(a.q, unit, s, a.now);
      HandleInv(a.q, unit, s, a.now);
      AllUnanswered(arrivals[1..], unit, h.0, Unanswered(a.q, unit, h.1, before))
  }

  /** Every run at all, with clears, saturation and frames that are not there: the
      no-response counter shows exactly what went unanswered since the last clear. */
  lemma {:induction false} CounterShows(arrivals: seq<Arrival>, unit: Byte, s: Server, before: nat)
    requires RegMap.Inv(s.regs) && s.diag.noResp == Capped(before)
    ensures Serve(arrivals, unit, s).0.diag.noResp == Capped(AllUnanswered(arrivals, unit, s, before))
    decreases |arrivals|
  {
    if arrivals != [] {
      var a := arrivals[0];
      var h := Handle(a.q, unit, s, a.now);
      UnansweredShown(a.q, unit, s, a.now, before);
      HandleInv(a.q, unit, s, a.now);
      CounterShows(arrivals[1..], unit, h.0, Unanswered(a.q, unit, h.1, before));
    }
  }

  predicate Countable(arrivals: seq<Arrival>, unit: Byte) {
    forall k :: 0 <= k < |arrivals| ==> Present(arrivals[k].q) && !Clears(arrivals[k].q, unit)
  }

  // Without clears, replies and silences add up to the requests.
  lemma {:induction false} RepliesAndSilences(arrivals: seq<Arrival>, unit: Byte, s: Server, before: nat)
    requires RegMap.Inv(s.regs) && Countable(arrivals, unit)
    ensures Serve(arrivals, unit, s).1 + AllUnanswered(arrivals, unit, s, before) == |arrivals| + before
    decreases |arrivals|
  {
    if arrivals != [] {
      var a := arrivals[0];
      var h := Handle(a.q, unit, s, a.now);
      assert Present(a.q) && !Clears(a.q, unit);
      HandleInv(a.q, unit, s, a.now);
      RepliesAndSilences(arrivals[1..], unit, h.0, Unanswered(a.q, unit, h.1, before));
    }
  }

  /** Conservation: over any run without a counter clear, replies and silences add up
      to the requests, and the counter shows the silences up to saturation. */
  lemma Accounting(arrivals: seq<Arrival>, unit: Byte, s: Server)
    requires RegMap.Inv(s.regs) && Countable(arrivals, unit)
    ensures var r := Serve(arrivals, unit, s);
            r.1 <= |arrivals| + s.diag.noResp && r.0.diag.noResp == Capped(|arrivals| + s.diag.noResp - r.1)
  {
    CounterShows(arrivals, unit, s, s.diag.noResp);
    RepliesAndSilences(arrivals, unit, s, s.diag.noResp);
  }

  /** Over any run at all the driven outputs equal the register and the trigger
      registers rest. */
  lemma OutputsFollowRegister(arrivals: seq<Arrival>, unit: Byte, s: Server)
    requires RegMap.Inv(s.regs)
    ensures var r := Serve(arrivals, unit, s).0.regs;
            LastDo(r.log) == r.holding[DO_IDX] % 256 && r.holding[CONFIG_SAVE_IDX] == 0 && r.holding[REBOOT_IDX] == 0
  {
  }
}
