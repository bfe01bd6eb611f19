/** The A/B configuration store: two 40-byte slot records, written alternately
    with a growing generation and a trailing CRC, read back at boot. */
module ConfigStore {
  import opened Bytes
  import opened Nor
  import Crc

  const SLOT_SIZE: nat := 0x8000
  const SLOT_A: nat := 0xE_0000
  const SLOT_B: nat := 0xE_8000
  const CRC_OFF: nat := 36
  const REC_LEN: nat := 40
  const MAGIC: seq<Byte> := [0x49, 0x4F, 0x43, 0x46]

  datatype IoCfg = IoCfg(diEn: U16, aiEn: U16, diSi: U16, aiSi: U16, his: U16, canId: U16, canBps: U16,
                         rs485Bps: U16, slaveId: U16, ip0: U16, ip1: U16, ip2: U16, ip3: U16)

  const DEFAULTS := IoCfg(0xFFFF, 0x000F, 200, 200, 0, 0x0111, 250, 9600, 1, 192, 168, 12, 101)

  /* ---- the record codec ---- */

  /** The 13 words in their order on disk. */
  function Fields(c: IoCfg): (r: seq<U16>)
    ensures |r| == 13
  {
    [c.diEn, c.aiEn, c.diSi, c.aiSi, c.his, c.canId, c.canBps, c.rs485Bps, c.slaveId, c.ip0, c.ip1, c.ip2, c.ip3]
  }

  function ToBytes(ws: seq<U16>): (r: seq<Byte>)
    ensures |r| == 2 * |ws|
  {
    if ws == [] then [] else Le16(ws[0]) + ToBytes(ws[1..])
  }

  /** Word i of a packed sequence. */
  function WordAt(b: seq<Byte>, i: nat): U16
    requires 2 * i + 2 <= |b|
  {
    Num16(b[2 * i..2 * i + 2])
  }

  function FromBytes(b: seq<Byte>): IoCfg
    requires |b| == 26
  {
    IoCfg(WordAt(b, 0), WordAt(b, 1), WordAt(b, 2), WordAt(b, 3), WordAt(b, 4), WordAt(b, 5), WordAt(b, 6),
          WordAt(b, 7), WordAt(b, 8), WordAt(b, 9), WordAt(b, 10), WordAt(b, 11), WordAt(b, 12))
  }

  lemma ToBytesAt(ws: seq<U16>, i: nat)
    requires i < |ws|
    ensures WordAt(ToBytes(ws), i) == ws[i]
  {
    PackedAt(ws, i);
    Num16Le16(ws[i]);
  }

  lemma FromToBytes(c: IoCfg)
    ensures FromBytes(ToBytes(Fields(c))) == c
  {
    var ws := Fields(c);
    forall i | 0 <= i < 13 ensures WordAt(ToBytes(ws), i) == ws[i] { ToBytesAt(ws, i); }
  }

  /** The sixteen bits at byte k. */
  predicate WordIs(r: seq<Byte>, k: nat, w: U16) {
    k + 2 <= |r| && r[k] == w % 256 && r[k + 1] == w / 256
  }

  /** Where each setting lies in a record on the flash, little endian. */
  lemma FieldPlaces(c: IoCfg, gen: U32)
    ensures var r := Record(c, gen);
            && r[..4] == [0x49, 0x4F, 0x43, 0x46] && r[4..8] == Le32(gen) && WordIs(r, 8, 26)
            && WordIs(r, 10, c.diEn) && WordIs(r, 12, c.aiEn) && WordIs(r, 14, c.diSi) && WordIs(r, 16, c.aiSi)
            && WordIs(r, 18, c.his) && WordIs(r, 20, c.canId) && WordIs(r, 22, c.canBps)
            && WordIs(r, 24, c.rs485Bps) && WordIs(r, 26, c.slaveId)
            && WordIs(r, 28, c.ip0) && WordIs(r, 30, c.ip1) && WordIs(r, 32, c.ip2) && WordIs(r, 34, c.ip3)
  {
    RecordParts(c, gen);
    WordsPlaced(Record(c, gen), Fields(c));
  }

  lemma WordsPlaced(r: seq<Byte>, ws: seq<U16>)
    requires |r| >= 36 && |ws| == 13 && r[10..36] == ToBytes(ws) && r[8..10] == Le16(26)
    ensures WordIs(r, 8, 26)
    ensures WordIs(r, 10, ws[0]) && WordIs(r, 12, ws[1]) && WordIs(r, 14, ws[2]) && WordIs(r, 16, ws[3])
    ensures WordIs(r, 18, ws[4]) && WordIs(r, 20, ws[5]) && WordIs(r, 22, ws[6]) && WordIs(r, 24, ws[7])
    ensures WordIs(r, 26, ws[8]) && WordIs(r, 28, ws[9]) && WordIs(r, 30, ws[10]) && WordIs(r, 32, ws[11])
    ensures WordIs(r, 34, ws[12])
  {
    assert r[8] == r[8..10][0] && r[9] == r[8..10][1];
    forall i | 0 <= i < 13 ensures WordIs(r, 10 + 2 * i, ws[i]) { WordPlaced(r, ws, i, 10 + 2 * i); }
    assert WordIs(r, 10 + 2 * 0, ws[0]) && WordIs(r, 10 + 2 * 1, ws[1]) && WordIs(r, 10 + 2 * 2, ws[2]);
    assert WordIs(r, 10 + 2 * 3, ws[3]) && WordIs(r, 10 + 2 * 4, ws[4]) && WordIs(r, 10 + 2 * 5, ws[5]);
    assert WordIs(r, 10 + 2 * 6, ws[6]) && WordIs(r, 10 + 2 * 7, ws[7]) && WordIs(r, 10 + 2 * 8, ws[8]);
    assert WordIs(r, 10 + 2 * 9, ws[9]) && WordIs(r, 10 + 2 * 10, ws[10]) && WordIs(r, 10 + 2 * 11, ws[11]);
    assert WordIs(r, 10 + 2 * 12, ws[12]);
  }

  lemma WordPlaced(r: seq<Byte>, ws: seq<U16>, i: nat, k: nat)
    requires |r| >= 36 && |ws| == 13 && r[10..36] == ToBytes(ws) && i < 13 && k == 10 + 2 * i
    ensures WordIs(r, k, ws[i])
  {
    var b := r[10..36];
    PackedAt(ws, i);
    var p := b[2 * i..2 * i + 2];
    assert r[k] == b[2 * i] == p[0] && r[k + 1] == b[2 * i + 1] == p[1];
  }

  lemma {:induction false} PackedAt(ws: seq<U16>, i: nat)
    requires i < |ws|
    ensures ToBytes(ws)[2 * i..2 * i + 2] == Le16(ws[i])
    decreases |ws|
  {
    var b := ToBytes(ws);
    if i == 0 {
      assert b[0..2] == Le16(ws[0]);
    } else {
      PackedAt(ws[1..], i - 1);
      assert b[2..] == ToBytes(ws[1..]);
      assert b[2 * i..2 * i + 2] == b[2..][2 * (i - 1)..2 * (i - 1) + 2];
    }
  }

  lemma FromBytesInjective(b: seq<Byte>, d: seq<Byte>)
    requires |b| == 26 && |d| == 26 && FromBytes(b) == FromBytes(d)
    ensures b == d
  {
    forall i | 0 <= i < 13 ensures b[2 * i] == d[2 * i] && b[2 * i + 1] == d[2 * i + 1] {
      Num16Injective(b[2 * i..2 * i + 2], d[2 * i..2 * i + 2]);
      assert b[2 * i..2 * i + 2][0] == b[2 * i] && d[2 * i..2 * i + 2][0] == d[2 * i];
    }
    forall k | 0 <= k < 26 ensures b[k] == d[k] { assert k == 2 * (k / 2) + k % 2; }
  }

  /** `crc32_ieee` as the four bytes that follow a record body. */
  function Checksum(data: seq<Byte>): (r: seq<Byte>)
    ensures |r| == 4
  {
    Crc.Crc32Bytes(data)
  }

  function EncodeBody(gen: U32, packed: seq<Byte>): seq<Byte> {
    MAGIC + Le32(gen) + Le16(26) + packed
  }

  /** Everything before the checksum. */
  function Body(c: IoCfg, gen: U32): (r: seq<Byte>)
    ensures |r| == CRC_OFF
  {
    EncodeBody(gen, ToBytes(Fields(c)))
  }

  function Record(c: IoCfg, gen: U32): (r: seq<Byte>)
    ensures |r| == REC_LEN
  {
    Body(c, gen) + Checksum(Body(c, gen))
  }

  type Rec = r: seq<Byte> | |r| == 40 witness Ones(40)

  function Decode(rec: Rec): Option<(IoCfg, U32)> {
    if rec[..4] != MAGIC then None
    else if Num16(rec[8..10]) != 26 then None
    else if rec[36..40] != Checksum(rec[..36]) then None
    else Some((FromBytes(rec[10..36]), Num32(rec[4..8])))
  }

  lemma BodyParts(c: IoCfg, gen: U32)
    ensures Body(c, gen)[..4] == MAGIC && Body(c, gen)[4..8] == Le32(gen)
    ensures Body(c, gen)[8..10] == Le16(26) && Body(c, gen)[10..36] == ToBytes(Fields(c))
  {
  }

  // Records that agree on their first n bytes agree on the fields there.
  lemma SamePrefix(r: seq<Byte>, b: seq<Byte>, n: nat)
    requires 10 <= n <= |r| && n <= |b| && r[..n] == b[..n]
    ensures r[..4] == b[..4] && r[4..8] == b[4..8] && r[8..10] == b[8..10]
  {
    assert r[..4] == r[..n][..4] && b[..4] == b[..n][..4];
    assert r[4..8] == r[..n][4..8] && b[4..8] == b[..n][4..8];
    assert r[8..10] == r[..n][8..10] && b[8..10] == b[..n][8..10];
  }

  lemma Slices(b: seq<Byte>, sum: seq<Byte>, r: seq<Byte>)
    requires |b| == 36 && |sum| == 4 && r == b + sum
    ensures r[..36] == b && r[36..40] == sum && r[10..36] == b[10..36]
    ensures r[..4] == b[..4] && r[4..8] == b[4..8] && r[8..10] == b[8..10]
  {
    assert r[..36] == b[..36];
    SamePrefix(r, b, 36);
  }

  lemma RecordParts(c: IoCfg, gen: U32)
    ensures Record(c, gen)[..36] == Body(c, gen) && Record(c, gen)[36..40] == Checksum(Body(c, gen))
    ensures Record(c, gen)[..4] == MAGIC && Record(c, gen)[4..8] == Le32(gen)
    ensures Record(c, gen)[8..10] == Le16(26) && Record(c, gen)[10..36] == ToBytes(Fields(c))
  {
    BodyParts(c, gen);
    Slices(Body(c, gen), Checksum(Body(c, gen)), Record(c, gen));
  }

  /** What was encoded is decoded. */
  lemma RoundTrip(c: IoCfg, gen: U32)
    ensures Decode(Record(c, gen)) == Some((c, gen))
  {
    RecordParts(c, gen);
    Num16Le16(26);
    Num32Le32(gen);
    FromToBytes(c);
  }

  lemma {:induction false} ToBytesNext(ws: seq<U16>, i: nat)
    requires i < |ws|
    ensures ToBytes(ws[..i + 1]) == ToBytes(ws[..i]) + Le16(ws[i])
    decreases |ws|
  {
    if i > 0 {
      ToBytesNext(ws[1..], i - 1);
      assert ws[..i + 1][1..] == ws[1..][..i] && ws[..i][1..] == ws[1..][..i - 1];
    }
  }

  /** The packing loop of `to_bytes`. */
  method PackWords(words: seq<U16>) returns (packed: seq<Byte>)
    ensures packed == ToBytes(words)
  {
    packed := [];
    for i := 0 to |words|
      invariant packed == ToBytes(words[..i])
    {
      ToBytesNext(words, i);
      packed := packed + Le16(words[i]);
    }
    assert words[..|words|] == words;
  }

  /** `encode_record`. */
  method EncodeRecord(c: IoCfg, gen: U32) returns (rec: Rec)
    ensures rec == Record(c, gen)
  {
    var packed := PackWords(Fields(c));
    var body := EncodeBody(gen, packed);
    assert body == Body(c, gen);
    rec := body + Checksum(body);
  }

  /* ---- records cut short ---- */

  /** The first k bytes of a record on erased flash. */
  function Torn(rec: Rec, k: nat): (r: Rec)
    requires k <= 40
  {
    rec[..k] + Ones(40 - k)
  }

  // Cut inside the header: magic or length is wrong.
  lemma TornHeader(c: IoCfg, gen: U32, k: nat)
    requires k < 10
    ensures Decode(Torn(Record(c, gen), k)) == None
  {
    var t := Torn(Record(c, gen), k);
    if k < 4 {
      RecordParts(c, gen);
      assert t[..4][k] == 0xFF;
    } else {
      assert t[8..10][1] == 0xFF;
    }
  }

  lemma TornSlices(r: Rec, t: Rec, k: nat)
    requires 10 <= k < 36 && t == Torn(r, k)
    ensures t[..4] == r[..4] && t[4..8] == r[4..8] && t[8..10] == r[8..10] && t[36..40] == Ones(4)
  {
    assert t[..k] == r[..k];
    SamePrefix(t, r, k);
  }

  lemma TornLayout(c: IoCfg, gen: U32, k: nat)
    requires 10 <= k < 36
    ensures var t := Torn(Record(c, gen), k);
            t[..4] == MAGIC && t[4..8] == Le32(gen) && t[8..10] == Le16(26) && t[36..40] == Ones(4)
  {
    RecordParts(c, gen);
    TornSlices(Record(c, gen), Torn(Record(c, gen), k), k);
  }

  // Cut inside the body: only the checksum can tell.
  lemma TornBody(c: IoCfg, gen: U32, k: nat)
    requires 10 <= k < 36
    ensures var t := Torn(Record(c, gen), k);
            Decode(t) == if Checksum(t[..36]) == Ones(4) then Some((FromBytes(t[10..36]), gen)) else None
  {
    TornLayout(c, gen, k);
    Num16Le16(26);
    Num32Le32(gen);
  }

  // Cut inside the checksum: valid only when nothing is missing.
  lemma TornSum(c: IoCfg, gen: U32, k: nat)
    requires 36 <= k <= 40
    ensures var t := Torn(Record(c, gen), k);
            Decode(t) == if t == Record(c, gen) then Some((c, gen)) else None
  {
    var r, t := Record(c, gen), Torn(Record(c, gen), k);
    RecordParts(c, gen);
    assert t[..36] == r[..36];
    if t[36..40] == r[36..40] {
      assert t == t[..36] + t[36..40] && r == r[..36] + r[36..40];
    }
    RoundTrip(c, gen);
  }

  /** A cut inside the body either misses the checksum or loses only bytes that
      were erased anyway. */
  predicate NoCollision(c: IoCfg, gen: U32, k: nat)
    requires k <= 40
  {
    var t := Torn(Record(c, gen), k);
    10 <= k < 36 && Checksum(t[..36]) == Ones(4) ==> t[..36] == Body(c, gen)
  }

  lemma SameBody(t: seq<Byte>, b: seq<Byte>)
    requires |t| == 40 && |b| == 36
    requires t[..4] == b[..4] && t[4..8] == b[4..8] && t[8..10] == b[8..10]
    ensures t[..36] == b <==> t[10..36] == b[10..36]
  {
    assert t[..36] == t[..4] + t[4..8] + t[8..10] + t[10..36];
    assert b == b[..4] + b[4..8] + b[8..10] + b[10..36];
    assert t[10..36] == t[..36][10..36];
  }

  lemma TornBodySame(c: IoCfg, gen: U32, k: nat)
    requires 10 <= k < 36
    ensures var t := Torn(Record(c, gen), k);
            FromBytes(t[10..36]) == c <==> t[..36] == Body(c, gen)
  {
    var t := Torn(Record(c, gen), k);
    TornLayout(c, gen, k);
    BodyParts(c, gen);
    SameBody(t, Body(c, gen));
    FromToBytes(c);
    if FromBytes(t[10..36]) == c {
      FromBytesInjective(t[10..36], ToBytes(Fields(c)));
    }
  }

  /** A torn record reads as nothing or as the whole record, exactly when its
      bytes do not collide with the erased checksum. */
  lemma TornIff(c: IoCfg, gen: U32, k: nat)
    requires k <= 40
    ensures Decode(Torn(Record(c, gen), k)) in {None, Some((c, gen))} <==> NoCollision(c, gen, k)
  {
    if k < 10 {
      TornHeader(c, gen, k);
    } else if k < 36 {
      TornBody(c, gen, k);
      TornBodySame(c, gen, k);
    } else {
      TornSum(c, gen, k);
    }
  }

  /* ---- choosing and saving ---- */

  datatype Slot = NoSlot | SlotA | SlotB

  datatype Loaded = Loaded(cfg: IoCfg, slot: Slot, gen: U32)

  /** The higher generation wins, A on a tie; a valid slot beats an invalid one. */
  function Select(a: Option<(IoCfg, U32)>, b: Option<(IoCfg, U32)>): Loaded {
    match (a, b)
    case (Some(x), Some(y)) => if x.1 >= y.1 then Loaded(x.0, SlotA, x.1) else Loaded(y.0, SlotB, y.1)
    case (Some(x), None) => Loaded(x.0, SlotA, x.1)
    case (None, Some(y)) => Loaded(y.0, SlotB, y.1)
    case (None, None) => Loaded(DEFAULTS, NoSlot, 0)
  }

  /** The slot a save overwrites. */
  function Target(slot: Slot): Slot {
    if slot == SlotA then SlotB else SlotA
  }

  function Addr(slot: Slot): nat {
    if slot == SlotB then SLOT_B else SLOT_A
  }

  /** Generations wrap: the release build does not trap on overflow. */
  function Inc(gen: U32): U32 {
    Wrap32(gen + 1)
  }

  function RecAt(mem: Memory, slot: Slot): Rec {
    mem[Addr(slot)..Addr(slot) + 40]
  }

  /** What a save leaves in its target after `fuse` device steps: the erase is one
      step, each byte another. */
  function SavedRec(before: Rec, rec: Rec, fuse: nat): Rec {
    if fuse == 0 then before else Torn(rec, Min(fuse - 1, 40))
  }

  // A 32 KiB slot is one erase command.
  lemma SlotErase(c: Chip, slot: Slot)
    ensures EraseTo(c, Addr(slot), SLOT_SIZE) ==
            if c.fuse == 0 then (c, false) else (EraseBlock(c, Addr(slot), SLOT_SIZE), Good(c) > 0)
  {
    assert Block(Addr(slot), SLOT_SIZE) == SLOT_SIZE;
  }

  lemma BurnOnBlank(c: Chip, addr: nat, rec: Rec)
    requires addr + 40 <= CHIP_SIZE && Blank(c.mem, addr, addr + 40)
    ensures Burn(c, addr, rec).mem[addr..addr + 40] == Torn(rec, Min(c.fuse, 40))
    ensures forall i :: 0 <= i < CHIP_SIZE && !(addr <= i < addr + 40) ==> Burn(c, addr, rec).mem[i] == c.mem[i]
  {
    var k := Min(c.fuse, 40);
    var m := Burn(c, addr, rec).mem;
    ProgramBlank(c.mem, addr, rec[..k]);
    ProgramFrame(c.mem, addr, rec[..k]);
    assert m[addr..addr + 40] == m[addr..addr + k] + m[addr + k..addr + 40];
    assert m[addr + k..addr + 40] == Ones(40 - k);
  }

  /** Erase and burn fill one slot and leave the other. */
  lemma SaveEffect(c: Chip, t: Slot, rec: Rec)
    requires t != NoSlot && c.fuse > 0
    ensures var done := Burn(EraseBlock(c, Addr(t), SLOT_SIZE), Addr(t), rec);
            && RecAt(done.mem, t) == SavedRec(RecAt(c.mem, t), rec, c.fuse)
            && RecAt(done.mem, Target(t)) == RecAt(c.mem, Target(t))
  {
    var erased := EraseBlock(c, Addr(t), SLOT_SIZE);
    WipedBlank(c.mem, Addr(t), SLOT_SIZE);
    BurnOnBlank(erased, Addr(t), rec);
    var done := Burn(erased, Addr(t), rec);
    var o := Addr(Target(t));
    forall i | o <= i < o + 40 ensures done.mem[i] == c.mem[i] {
      assert done.mem[i] == erased.mem[i];
    }
  }

  /** What a boot gets to see of a slot. */
  function SlotView(c: Chip, s: Slot, answers: bool): Option<(IoCfg, U32)> {
    if answers && c.readable then Decode(RecAt(c.mem, s)) else None
  }

  /** `boot_config_load`, `cfg_save` and the state they share. */
  class Store {
    var nor: W25q
    var slot: Slot
    var gen: U32

    constructor (n: W25q)
      ensures nor == n && slot == NoSlot && gen == 0
    {
      nor, slot, gen := n, NoSlot, 0;
    }

    /** One slot, unreadable or invalid as nothing; `answers` says whether this
        read gets through to a chip that can be read. */
    method ReadSlot(s: Slot, answers: bool) returns (r: Option<(IoCfg, U32)>)
      ensures r == SlotView(nor.chip, s, answers)
    {
      var ok, rec := nor.Read(Addr(s), 40);
      if ok && answers {
        r := Decode(rec);
      } else {
        r := None;
      }
    }

    /** `boot_config_load`: each read may fail on its own. */
    method BootConfigLoad(readA: bool, readB: bool) returns (cfg: IoCfg)
      modifies this
      ensures nor == old(nor)
      ensures Loaded(cfg, slot, gen) ==
              Select(SlotView(nor.chip, SlotA, readA), SlotView(nor.chip, SlotB, readB))
      ensures readA && readB && nor.chip.readable ==>
                Loaded(cfg, slot, gen) ==
                Select(Decode(RecAt(nor.chip.mem, SlotA)), Decode(RecAt(nor.chip.mem, SlotB)))
      ensures !nor.chip.readable || !(readA || readB) ==> Loaded(cfg, slot, gen) == Loaded(DEFAULTS, NoSlot, 0)
    {
      var a := ReadSlot(SlotA, readA);
      var b := ReadSlot(SlotB, readB);
      var l := Select(a, b);
      cfg, slot, gen := l.cfg, l.slot, l.gen;
    }

    /** `config_store_init`: the same choice, but a failed read is an error. */
    method ConfigStoreInit() returns (r: Option<(IoCfg, Slot)>)
      ensures r.Some? <==> nor.chip.readable
      ensures r.Some? ==>
                var l := Select(Decode(RecAt(nor.chip.mem, SlotA)), Decode(RecAt(nor.chip.mem, SlotB)));
                r.value == (l.cfg, l.slot)
    {
      var okA, ra := nor.Read(SLOT_A, 40);
      if !okA {
        return None;
      }
      var okB, rb := nor.Read(SLOT_B, 40);
      if !okB {
        return None;
      }
      var l := Select(Decode(ra), Decode(rb));
      r := Some((l.cfg, l.slot));
    }

    /** Header, body, checksum: three page programs that act as one. */
    method WriteRecord(addr: nat, rec: Rec) returns (ok: bool)
      requires addr == SLOT_A || addr == SLOT_B
      modifies nor
      ensures nor.chip == Burn(old(nor.chip), addr, rec)
      ensures ok <==> 40 <= Good(old(nor.chip))
    {
      ghost var c := nor.chip;
      assert rec[..10] + rec[10..36] == rec[..36] && rec[..36] + rec[36..40] == rec;
      assert rec[..10] + rec[10..] == rec;
      ok := nor.Write(addr, rec[..10]);
      if !ok {
        BurnShort(c, addr, rec[..10], rec[10..]);
        return;
      }
      ok := nor.Write(addr + 10, rec[10..36]);
      BurnConcat(c, addr, rec[..10], rec[10..36]);
      if !ok {
        BurnShort(c, addr, rec[..36], rec[36..40]);
        return;
      }
      ok := nor.Write(addr + 36, rec[36..40]);
      BurnConcat(c, addr, rec[..36], rec[36..40]);
    }

    /** `cfg_save`: the target slot gets as much of the record as the device
        steps allow, the other slot is untouched, and the shared state moves on
        exactly when everything was reported as written. */
    method CfgSave(cfg: IoCfg) returns (ok: bool)
      modifies this, nor
      ensures nor == old(nor)
      ensures ok <==> Good(old(nor.chip)) >= 41
      ensures var t := Target(old(slot));
              && (slot, gen) == (if ok then (t, Inc(old(gen))) else (old(slot), old(gen)))
              && RecAt(nor.chip.mem, t) ==
                 SavedRec(RecAt(old(nor.chip).mem, t), Record(cfg, Inc(old(gen))), old(nor.chip).fuse)
              && RecAt(nor.chip.mem, Target(t)) == RecAt(old(nor.chip).mem, Target(t))
    {
      var rec := EncodeRecord(cfg, Inc(gen));
      var t := Target(slot);
      ghost var c := nor.chip;
      SlotErase(c, t);
      ok := nor.Erase(Addr(t), SLOT_SIZE);
      if c.fuse > 0 { SaveEffect(c, t, rec); }
      if ok {
        ok := WriteRecord(Addr(t), rec);
      } else if c.fuse > 0 {
        assert Burn(nor.chip, Addr(t), rec) == nor.chip;
      }
      if ok {
        slot, gen := t, Inc(gen);
      }
    }
  }
}
