/** Every run of saves and boots: a save may stop after any device step, a boot
    may come at any time, and its reads may fail. */
module ConfigRuns {
  import opened Bytes
  import opened Nor
  import opened ConfigStore

  /** What a slot's record says. */
  type View = Option<(IoCfg, U32)>

  /** What both slots say, and the state kept in RAM. */
  datatype Disk = Disk(a: View, b: View, slot: Slot, gen: U32)

  function At(d: Disk, s: Slot): View {
    if s == SlotB then d.b else d.a
  }

  /** What the target says after a save in which `fuse` device steps succeed. */
  function SavedView(before: View, cfg: IoCfg, gen: U32, fuse: nat): View {
    if fuse == 0 then before else Decode(Torn(Record(cfg, gen), Min(fuse - 1, 40)))
  }

  /** That is what `Store.CfgSave` leaves there. */
  lemma SavedViewOfRecord(rec: Rec, cfg: IoCfg, gen: U32, fuse: nat)
    ensures Decode(SavedRec(rec, Record(cfg, gen), fuse)) == SavedView(Decode(rec), cfg, gen, fuse)
  {
  }

  /** Device steps during a save: how many are carried out, and whether the last of
      them is reported as failed all the same. */
  datatype Steps = Steps(fuse: nat, late: bool)

  /** Erase and 40 bytes are all reported as done. */
  predicate Acked(f: Steps) {
    f.fuse >= if f.late then 42 else 41
  }

  /** That is when `Store.CfgSave` reports success. */
  lemma AckedIsGood(c: Chip)
    ensures Acked(Steps(c.fuse, c.late)) <==> Good(c) >= 41
  {
  }

  /** A save of `cfg` with these device steps. */
  function Save(d: Disk, cfg: IoCfg, f: Steps): Disk {
    var t := Target(d.slot);
    var v := SavedView(At(d, t), cfg, Inc(d.gen), f.fuse);
    var d' := if t == SlotA then d.(a := v) else d.(b := v);
    if Acked(f) then d'.(slot := t, gen := Inc(d.gen)) else d'
  }

  /** What a boot that can read both slots loads. */
  function Choice(d: Disk): Loaded {
    Select(d.a, d.b)
  }

  /** A slot that cannot be read counts as empty. */
  function Seen(v: View, read: bool): View {
    if read then v else None
  }

  function ChoiceSeen(d: Disk, readA: bool, readB: bool): Loaded {
    Select(Seen(d.a, readA), Seen(d.b, readB))
  }

  function Boot(d: Disk, readA: bool, readB: bool): Disk {
    var l := ChoiceSeen(d, readA, readB);
    d.(slot := l.slot, gen := l.gen)
  }

  /** The disk of the run theorems, as a chip and the state in RAM hold it. */
  function DiskOf(c: Chip, slot: Slot, gen: U32): Disk {
    Disk(Decode(RecAt(c.mem, SlotA)), Decode(RecAt(c.mem, SlotB)), slot, gen)
  }

  /** What `Store.BootConfigLoad` does to a readable chip is a boot of that disk. */
  lemma BootRefines(c: Chip, slot: Slot, gen: U32, readA: bool, readB: bool)
    requires c.readable
    ensures var l := Select(SlotView(c, SlotA, readA), SlotView(c, SlotB, readB)); var d := DiskOf(c, slot, gen);
            l == ChoiceSeen(d, readA, readB) && DiskOf(c, l.slot, l.gen) == Boot(d, readA, readB)
  {
  }

  /** And what `Store.CfgSave` leaves behind, as its contract says, is a save to it. */
  lemma SaveRefines(c: Chip, c': Chip, slot: Slot, gen: U32, slot': Slot, gen': U32, cfg: IoCfg, ok: bool)
    requires ok <==> Good(c) >= 41
    requires var t := Target(slot);
             && (slot', gen') == (if ok then (t, Inc(gen)) else (slot, gen))
             && RecAt(c'.mem, t) == SavedRec(RecAt(c.mem, t), Record(cfg, Inc(gen)), c.fuse)
             && RecAt(c'.mem, Target(t)) == RecAt(c.mem, Target(t))
    ensures DiskOf(c', slot', gen') == Save(DiskOf(c, slot, gen), cfg, Steps(c.fuse, c.late))
  {
    AckedIsGood(c);
    SavedViewOfRecord(RecAt(c.mem, Target(slot)), cfg, Inc(gen), c.fuse);
  }

  /** The slot with the newest valid record, if there is one, is read. */
  predicate Sees(d: Disk, readA: bool, readB: bool) {
    match Choice(d).slot
    case NoSlot => true
    case SlotA => readA
    case SlotB => readB
  }

  /** A boot loads what it should if and only if that slot is read; a failed read
      of the other one changes nothing. */
  lemma SeesIff(d: Disk, readA: bool, readB: bool)
    ensures ChoiceSeen(d, readA, readB) == Choice(d) <==> Sees(d, readA, readB)
  {
  }

  /* ---- histories ---- */

  datatype Event = SaveEvent(cfg: IoCfg, f: Steps) | BootEvent(readA: bool, readB: bool)

  /** `tried` are the configurations saved so far (the defaults first), `base`
      the one acknowledged or booted last, `pending` the one whose complete
      record waits, unacknowledged, in the target slot (0 when none does). */
  datatype World = World(disk: Disk, tried: seq<IoCfg>, base: nat, pending: nat)

  function Step(w: World, e: Event): World {
    match e
    case BootEvent(readA, readB) =>
      var d := Boot(w.disk, readA, readB);
      if d.slot == w.disk.slot then w.(disk := d) else World(d, w.tried, w.pending, 0)
    case SaveEvent(cfg, f) =>
      var d, n := Save(w.disk, cfg, f), |w.tried|;
      if Acked(f) then World(d, w.tried + [cfg], n, 0)
      else if f.fuse == 0 then World(d, w.tried + [cfg], w.base, w.pending)
      else World(d, w.tried + [cfg], w.base, if At(d, Target(d.slot)).None? then 0 else n)
  }

  /** No generation overflow, no checksum collision, and no boot that misses the
      newest record. */
  predicate Legal(w: World, e: Event) {
    match e
    case SaveEvent(cfg, f) =>
      && w.disk.gen < 0xFFFF_FFFF
      && (f.fuse > 0 ==> NoCollision(cfg, Inc(w.disk.gen), Min(f.fuse - 1, 40)))
    case BootEvent(readA, readB) => Sees(w.disk, readA, readB)
  }

  /** The target slot holds nothing, something older, or the pending record.  A
      save that follows a boot without records may meet a generation 1 in slot B. */
  predicate TargetOk(o: View, slot: Slot, gen: U32, tried: seq<IoCfg>, base: nat, pending: nat) {
    || o == None
    || (slot != NoSlot && o.value.1 < gen)
    || (slot == SlotA && gen == 1 && o.value.1 == 1)
    || (base < pending < |tried| && o.value == (tried[pending], gen + 1))
  }

  predicate InvViews(a: View, b: View, slot: Slot, gen: U32, tried: seq<IoCfg>, base: nat, pending: nat) {
    && base < |tried|
    && TargetOk(if slot == SlotA then b else a, slot, gen, tried, base, pending)
    && match slot
       case NoSlot => gen == 0 && base == 0 && tried[0] == DEFAULTS && b == None
       case SlotA => a == Some((tried[base], gen))
       case SlotB => b == Some((tried[base], gen))
  }

  predicate Inv(w: World) {
    InvViews(w.disk.a, w.disk.b, w.disk.slot, w.disk.gen, w.tried, w.base, w.pending)
  }

  /** A factory-fresh device: both slots erased. */
  lemma FreshInv()
    ensures Inv(World(Disk(Decode(Ones(40)), Decode(Ones(40)), NoSlot, 0), [DEFAULTS], 0, 0))
  {
    ErasedSaysNothing();
  }

  lemma ErasedSaysNothing()
    ensures Decode(Ones(40)) == None
  {
    assert Ones(40)[..4][0] == 0xFF;
  }

  /* ---- one step, on what the slots say ---- */

  lemma BootViews(a: View, b: View, slot: Slot, gen: U32, tried: seq<IoCfg>, base: nat, pending: nat)
    requires InvViews(a, b, slot, gen, tried, base, pending)
    ensures var l := Select(a, b);
            var base' := if l.slot == slot then base else pending;
            && base <= base' < |tried| && l.cfg == tried[base']
            && InvViews(a, b, l.slot, l.gen, tried, base', if l.slot == slot then pending else 0)
  {
  }

  // An unacknowledged save: the target now says nothing or the new record.
  lemma CutViews(a: View, b: View, slot: Slot, gen: U32, tried: seq<IoCfg>, base: nat, pending: nat,
                 cfg: IoCfg, g: U32, v: View)
    requires InvViews(a, b, slot, gen, tried, base, pending) && g == gen + 1
    requires v == None || v == Some((cfg, g))
    ensures var p := if v == None then 0 else |tried|;
            if slot == SlotA then InvViews(a, v, slot, gen, tried + [cfg], base, p)
            else InvViews(v, b, slot, gen, tried + [cfg], base, p)
  {
  }

  lemma KeptViews(a: View, b: View, slot: Slot, gen: U32, tried: seq<IoCfg>, base: nat, pending: nat, cfg: IoCfg)
    requires InvViews(a, b, slot, gen, tried, base, pending)
    ensures InvViews(a, b, slot, gen, tried + [cfg], base, pending)
  {
  }

  lemma FullViews(a: View, b: View, slot: Slot, gen: U32, tried: seq<IoCfg>, base: nat, pending: nat, cfg: IoCfg)
    requires InvViews(a, b, slot, gen, tried, base, pending) && gen < 0xFFFF_FFFF
    ensures var v := Some((cfg, gen + 1));
            if slot == SlotA then InvViews(a, v, SlotB, gen + 1, tried + [cfg], |tried|, 0)
            else InvViews(v, b, SlotA, gen + 1, tried + [cfg], |tried|, 0)
  {
  }

  /* ---- one step ---- */

  /** A boot that reads the newest record loads the last acknowledged or booted
      configuration, or a later one. */
  lemma BootLoads(w: World, readA: bool, readB: bool)
    requires Inv(w) && Sees(w.disk, readA, readB)
    ensures var w' := Step(w, BootEvent(readA, readB));
            && w.base <= w'.base < |w.tried| && Choice(w.disk).cfg == w.tried[w'.base] && Inv(w')
            && w'.disk.gen == Choice(w.disk).gen >= w.disk.gen
  {
    SeesIff(w.disk, readA, readB);
    BootViews(w.disk.a, w.disk.b, w.disk.slot, w.disk.gen, w.tried, w.base, w.pending);
  }

  lemma IncPlain(gen: U32)
    ensures Inc(gen) == if gen < 0xFFFF_FFFF then gen + 1 else 0
  {
  }

  lemma TornView(cfg: IoCfg, g: U32, k: nat)
    requires k <= 40 && NoCollision(cfg, g, k)
    ensures var v := Decode(Torn(Record(cfg, g), k)); v == None || v == Some((cfg, g))
  {
    TornIff(cfg, g, k);
  }

  lemma CutSaveInv(w: World, cfg: IoCfg, f: Steps)
    requires Inv(w) && Legal(w, SaveEvent(cfg, f)) && 0 < f.fuse && !Acked(f)
    ensures Inv(Step(w, SaveEvent(cfg, f)))
  {
    var g := Inc(w.disk.gen);
    IncPlain(w.disk.gen);
    var k := Min(f.fuse - 1, 40);
    TornView(cfg, g, k);
    var v := Decode(Torn(Record(cfg, g), k));
    CutViews(w.disk.a, w.disk.b, w.disk.slot, w.disk.gen, w.tried, w.base, w.pending,
             cfg, g, v);
  }

  lemma FullSaveInv(w: World, cfg: IoCfg, f: Steps)
    requires Inv(w) && Legal(w, SaveEvent(cfg, f)) && Acked(f)
    ensures Inv(Step(w, SaveEvent(cfg, f)))
  {
    IncPlain(w.disk.gen);
    FullRecord(cfg, Inc(w.disk.gen));
    FullViews(w.disk.a, w.disk.b, w.disk.slot, w.disk.gen, w.tried, w.base, w.pending, cfg);
  }

  lemma FullRecord(cfg: IoCfg, gen: U32)
    ensures Decode(Torn(Record(cfg, gen), 40)) == Some((cfg, gen))
  {
    assert Torn(Record(cfg, gen), 40) == Record(cfg, gen);
    RoundTrip(cfg, gen);
  }

  lemma StepInv(w: World, e: Event)
    requires Inv(w) && Legal(w, e)
    ensures Inv(Step(w, e))
  {
    match e
    case BootEvent(readA, readB) => BootLoads(w, readA, readB);
    case SaveEvent(cfg, f) =>
      if Acked(f) {
        FullSaveInv(w, cfg, f);
      } else if f.fuse > 0 {
        CutSaveInv(w, cfg, f);
      } else {
        KeptViews(w.disk.a, w.disk.b, w.disk.slot, w.disk.gen, w.tried, w.base, w.pending, cfg);
      }
  }

  lemma StepGrows(w: World, e: Event)
    requires Inv(w) && Legal(w, e)
    ensures Step(w, e).base >= w.base && w.tried <= Step(w, e).tried && Step(w, e).disk.gen >= w.disk.gen
  {
    match e
    case BootEvent(readA, readB) => BootLoads(w, readA, readB);
    case SaveEvent(_, _) => IncPlain(w.disk.gen);
  }

  /* ---- whole runs ---- */

  function Run(w: World, es: seq<Event>): World
    decreases |es|
  {
    if es == [] then w else Run(Step(w, es[0]), es[1..])
  }

  predicate LegalRun(w: World, es: seq<Event>)
    decreases |es|
  {
    es == [] || (Legal(w, es[0]) && LegalRun(Step(w, es[0]), es[1..]))
  }

  lemma {:induction false} RunInv(w: World, es: seq<Event>)
    requires Inv(w) && LegalRun(w, es)
    ensures Inv(Run(w, es)) && Run(w, es).base >= w.base && w.tried <= Run(w, es).tried
    ensures Run(w, es).disk.gen >= w.disk.gen
    decreases |es|
  {
    if es != [] {
      StepInv(w, es[0]);
      StepGrows(w, es[0]);
      RunInv(Step(w, es[0]), es[1..]);
    }
  }

  /* ---- saves after any boots ---- */

  /** What is kept in RAM is the generation of its slot, whatever was read when:
      every boot and every save, cut or not, keeps this. */
  predicate RamOk(d: Disk) {
    if d.slot == NoSlot then d.gen == 0 else At(d, d.slot).Some? && At(d, d.slot).value.1 == d.gen
  }

  /** A save that ran to its end. */
  function Saved(d: Disk, cfg: IoCfg): Disk {
    var v := Some((cfg, Inc(d.gen)));
    (if Target(d.slot) == SlotA then d.(a := v) else d.(b := v)).(slot := Target(d.slot), gen := Inc(d.gen))
  }

  lemma FullSave(d: Disk, cfg: IoCfg, f: Steps)
    requires Acked(f)
    ensures Save(d, cfg, f) == Saved(d, cfg)
  {
    FullRecord(cfg, Inc(d.gen));
  }

  lemma BootRamOk(d: Disk, readA: bool, readB: bool)
    ensures RamOk(Boot(d, readA, readB))
  {
  }

  lemma SaveRamOk(d: Disk, cfg: IoCfg, f: Steps)
    requires RamOk(d)
    ensures RamOk(Save(d, cfg, f))
  {
    if Acked(f) {
      FullSave(d, cfg, f);
    }
  }

  /** It holds after every run at all, from any state it holds in. */
  lemma {:induction false} RunRamOk(w: World, es: seq<Event>)
    requires RamOk(w.disk)
    ensures RamOk(Run(w, es).disk)
    decreases |es|
  {
    if es != [] {
      match es[0] {
        case BootEvent(readA, readB) => BootRamOk(w.disk, readA, readB);
        case SaveEvent(cfg, f) => SaveRamOk(w.disk, cfg, f);
      }
      RunRamOk(Step(w, es[0]), es[1..]);
    }
  }

  /** The save will be newer than what the other slot holds: RAM knows that slot, or
      there is nothing in slot B that beats generation 1. */
  predicate Outdates(d: Disk) {
    d.slot != NoSlot || d.b == None || d.b.value.1 <= 1
  }

  lemma SavedChoice(d: Disk, cfg: IoCfg)
    requires RamOk(d)
    ensures Choice(Saved(d, cfg)).slot == Target(d.slot) <==> d.gen < 0xFFFF_FFFF && Outdates(d)
    ensures Choice(Saved(d, cfg)).slot == Target(d.slot) ==> Choice(Saved(d, cfg)).cfg == cfg
  {
    IncPlain(d.gen);
  }

  /** After any boots, an acknowledged save is what the next boot that can read
      loads if and only if the generation did not wrap and RAM knew the other
      slot's record, or none there beats it. */
  lemma LoadsAcknowledgedIff(d: Disk, cfg: IoCfg, f: Steps)
    requires RamOk(d) && Acked(f)
    ensures Choice(Save(d, cfg, f)).slot == Target(d.slot) <==> d.gen < 0xFFFF_FFFF && Outdates(d)
    ensures Choice(Save(d, cfg, f)).slot == Target(d.slot) ==> Choice(Save(d, cfg, f)).cfg == cfg
  {
    FullSave(d, cfg, f);
    SavedChoice(d, cfg);
  }

  lemma SavedSettles(d: Disk, tried: seq<IoCfg>, cfg: IoCfg)
    requires RamOk(d) && Outdates(d) && d.gen < 0xFFFF_FFFF
    ensures Inv(World(Saved(d, cfg), tried + [cfg], |tried|, 0))
  {
    IncPlain(d.gen);
  }

  /** A save that outdates puts the store in order again, whatever boots came before. */
  lemma FullSaveSettles(d: Disk, tried: seq<IoCfg>, cfg: IoCfg, f: Steps)
    requires RamOk(d) && Outdates(d) && d.gen < 0xFFFF_FFFF && Acked(f)
    ensures Inv(World(Save(d, cfg, f), tried + [cfg], |tried|, 0))
  {
    FullSave(d, cfg, f);
    SavedSettles(d, tried, cfg);
  }

  /** Crash safety: once a save is acknowledged that outdates the other slot, every
      later boot, after any run, loads it or a configuration whose save began
      after it. */
  lemma AcknowledgedSurvives(d: Disk, tried: seq<IoCfg>, cfg: IoCfg, f: Steps, es: seq<Event>) returns (j: nat)
    requires RamOk(d) && Outdates(d) && d.gen < 0xFFFF_FFFF && Acked(f)
    requires LegalRun(World(Save(d, cfg, f), tried + [cfg], |tried|, 0), es)
    ensures var end := Run(World(Save(d, cfg, f), tried + [cfg], |tried|, 0), es);
            && |tried| <= j < |end.tried|
            && end.tried[|tried|] == cfg
            && Choice(end.disk).cfg == end.tried[j]
  {
    var acked := World(Save(d, cfg, f), tried + [cfg], |tried|, 0);
    FullSaveSettles(d, tried, cfg, f);
    RunInv(acked, es);
    var end := Run(acked, es);
    BootLoads(end, true, true);
    j := Step(end, BootEvent(true, true)).base;
    assert acked.tried[|tried|] == cfg;
  }

  /** Booting never goes back: what one boot loads, no later boot replaces by
      anything tried before it. */
  lemma BootsAreMonotone(w: World, readA: bool, readB: bool, es: seq<Event>)
    requires Inv(w) && Sees(w.disk, readA, readB) && LegalRun(Step(w, BootEvent(readA, readB)), es)
    ensures var first := Step(w, BootEvent(readA, readB));
            Step(Run(first, es), BootEvent(true, true)).base >= first.base
  {
    BootLoads(w, readA, readB);
    RunInv(Step(w, BootEvent(readA, readB)), es);
    BootLoads(Run(Step(w, BootEvent(readA, readB)), es), true, true);
  }

  /* ---- boots that miss the newest record ---- */

  /** No legal run takes the store back behind generation g. */
  ghost predicate NeverBack(w: World, g: U32) {
    forall es :: LegalRun(w, es) ==> Choice(Run(w, es).disk).gen >= g
  }

  lemma SeesNeverBack(w: World, readA: bool, readB: bool)
    requires Inv(w) && Sees(w.disk, readA, readB)
    ensures NeverBack(Step(w, BootEvent(readA, readB)), Choice(w.disk).gen)
  {
    var first := Step(w, BootEvent(readA, readB));
    BootLoads(w, readA, readB);
    forall es | LegalRun(first, es) ensures Choice(Run(first, es).disk).gen >= Choice(w.disk).gen {
      RunInv(first, es);
      BootLoads(Run(first, es), true, true);
    }
  }

  const ERASE_ONLY := Steps(1, false)

  // A save that stops after its erase.
  lemma EraseEvent(w: World, cfg: IoCfg)
    ensures Step(w, SaveEvent(cfg, ERASE_ONLY)).disk == Erased(w.disk)
    ensures Legal(w, SaveEvent(cfg, ERASE_ONLY)) <==> w.disk.gen < 0xFFFF_FFFF
  {
    TornHeader(cfg, Inc(w.disk.gen), 0);
  }

  lemma GoesBack(w: World, es: seq<Event>, g: U32)
    requires LegalRun(w, es) && Choice(Run(w, es).disk).gen < g
    ensures !NeverBack(w, g)
  {
  }

  lemma RunOne(w: World, e: Event)
    requires Legal(w, e)
    ensures LegalRun(w, [e]) && Run(w, [e]) == Step(w, e)
  {
    assert [e][1..] == [];
    assert LegalRun(Step(w, e), []);
  }

  lemma RunTwo(w: World, e: Event, f: Event)
    requires Legal(w, e) && Legal(Step(w, e), f)
    ensures LegalRun(w, [e, f]) && Run(w, [e, f]) == Step(Step(w, e), f)
  {
    assert [e, f][1..] == [f];
    RunOne(Step(w, e), f);
  }

  // The slots differ, and one of them is the newest from generation 2 on.
  lemma NewestAlone(w: World)
    requires Inv(w) && Choice(w.disk).gen >= 2
    ensures var l := Choice(w.disk);
            && l.slot != NoSlot
            && (l.slot == SlotA && w.disk.b.Some? ==> w.disk.b.value.1 < l.gen)
            && (l.slot == SlotB && w.disk.a.Some? ==> w.disk.a.value.1 < l.gen)
  {
  }

  function Erased(d: Disk): Disk {
    if Target(d.slot) == SlotA then d.(a := None) else d.(b := None)
  }

  // After a boot that read the older record only, erasing the target loses the newest.
  lemma MissedErased(w: World, readA: bool, readB: bool)
    requires Inv(w) && Choice(w.disk).gen >= 2 && !Sees(w.disk, readA, readB)
    requires ChoiceSeen(w.disk, readA, readB).slot != NoSlot || Choice(w.disk).slot == SlotA
    ensures var d := Boot(w.disk, readA, readB);
            Choice(Erased(d)).gen < Choice(w.disk).gen && d.gen < Choice(w.disk).gen
  {
    NewestAlone(w);
  }

  lemma EraseGoesBack(w: World, cfg: IoCfg, g: U32)
    requires Choice(Erased(w.disk)).gen < g && w.disk.gen < g
    ensures !NeverBack(w, g)
  {
    EraseEvent(w, cfg);
    RunOne(w, SaveEvent(cfg, ERASE_ONLY));
    GoesBack(w, [SaveEvent(cfg, ERASE_ONLY)], g);
  }

  lemma MissedGoesBack(w: World, readA: bool, readB: bool, cfg: IoCfg)
    requires Inv(w) && Choice(w.disk).gen >= 2 && !Sees(w.disk, readA, readB)
    requires ChoiceSeen(w.disk, readA, readB).slot != NoSlot || Choice(w.disk).slot == SlotA
    ensures !NeverBack(Step(w, BootEvent(readA, readB)), Choice(w.disk).gen)
  {
    var first := Step(w, BootEvent(readA, readB));
    MissedErased(w, readA, readB);
    EraseGoesBack(first, cfg, Choice(w.disk).gen);
  }

  // After a boot that read nothing, a complete save does not outdate slot B, and
  // the next one erases it.
  lemma BlindErased(w: World, readA: bool, readB: bool, cfg: IoCfg)
    requires Inv(w) && Choice(w.disk).gen >= 2 && !Sees(w.disk, readA, readB)
    requires ChoiceSeen(w.disk, readA, readB).slot == NoSlot && Choice(w.disk).slot == SlotB
    ensures var d := Boot(w.disk, readA, readB);
            d.gen == 0 && Saved(d, cfg).gen == 1 && Choice(Erased(Saved(d, cfg))).gen < Choice(w.disk).gen
  {
    IncPlain(0);
  }

  lemma SaveEventLegal(w: World, cfg: IoCfg, f: Steps)
    requires w.disk.gen < 0xFFFF_FFFF && Acked(f)
    ensures Legal(w, SaveEvent(cfg, f)) && Step(w, SaveEvent(cfg, f)).disk == Saved(w.disk, cfg)
  {
    FullSave(w.disk, cfg, f);
  }

  lemma BlindGoesBack(w: World, readA: bool, readB: bool, cfg: IoCfg, f: Steps)
    requires Inv(w) && Choice(w.disk).gen >= 2 && !Sees(w.disk, readA, readB) && Acked(f)
    requires ChoiceSeen(w.disk, readA, readB).slot == NoSlot && Choice(w.disk).slot == SlotB
    ensures !NeverBack(Step(w, BootEvent(readA, readB)), Choice(w.disk).gen)
  {
    var first := Step(w, BootEvent(readA, readB));
    BlindErased(w, readA, readB, cfg);
    SaveEventLegal(first, cfg, f);
    var saved := Step(first, SaveEvent(cfg, f));
    EraseEvent(saved, cfg);
    RunTwo(first, SaveEvent(cfg, f), SaveEvent(cfg, ERASE_ONLY));
    GoesBack(first, [SaveEvent(cfg, f), SaveEvent(cfg, ERASE_ONLY)], Choice(w.disk).gen);
  }

  /** The slot RAM knows, or slot B while it knows none, holds a record of a
      generation above zero. */
  predicate Above(d: Disk) {
    if d.slot == NoSlot then d.gen == 0 && d.b.Some? && d.b.value.1 >= 1
    else At(d, d.slot).Some? && At(d, d.slot).value.1 == d.gen >= 1
  }

  lemma AboveBoot(d: Disk, readA: bool, readB: bool)
    requires Above(d) && Sees(d, readA, readB)
    ensures Above(Boot(d, readA, readB)) && Choice(d).gen >= 1
  {
    SeesIff(d, readA, readB);
  }

  lemma AboveSave(d: Disk, cfg: IoCfg, f: Steps)
    requires Above(d) && d.gen < 0xFFFF_FFFF
    ensures Above(Save(d, cfg, f))
  {
    if Acked(f) {
      FullSave(d, cfg, f);
      IncPlain(d.gen);
    }
  }

  lemma {:induction false} AboveRun(w: World, es: seq<Event>)
    requires Above(w.disk) && LegalRun(w, es)
    ensures Above(Run(w, es).disk)
    decreases |es|
  {
    if es != [] {
      match es[0] {
        case BootEvent(readA, readB) => AboveBoot(w.disk, readA, readB);
        case SaveEvent(cfg, f) => AboveSave(w.disk, cfg, f);
      }
      AboveRun(Step(w, es[0]), es[1..]);
    }
  }

  lemma AboveNeverBack(w: World)
    requires Above(w.disk)
    ensures NeverBack(w, 1)
  {
    forall es | LegalRun(w, es) ensures Choice(Run(w, es).disk).gen >= 1 {
      AboveRun(w, es);
      AboveBoot(Run(w, es).disk, true, true);
    }
  }

  predicate GenIs(v: View, g: U32) {
    v.Some? && v.value.1 == g
  }

  /** A missed newest record does no harm: there is none above generation zero, or
      it is of generation 1 and the next save will leave slot B, which holds one
      of generation 1, alone. */
  predicate Harmless(d: Disk, readA: bool, readB: bool) {
    || Choice(d).gen == 0
    || (Choice(d).gen == 1 && GenIs(d.b, 1) && !(readA && GenIs(d.a, 0)))
  }

  // At generation 1: either B keeps its record, or an erase loses the newest.
  lemma FirstGeneration(d: Disk, readA: bool, readB: bool)
    requires Choice(d).gen == 1 && !Sees(d, readA, readB)
    ensures var e := Boot(d, readA, readB);
            if Harmless(d, readA, readB) then Above(e) else Choice(Erased(e)).gen < 1 && e.gen < 1
  {
  }

  /** A boot is safe, in that no run of saves and of boots which read the newest
      record ever chooses a lower generation than it should have chosen, if and only
      if it reads that record or missing it is harmless.  Generations are what is
      compared: of two records of generation 1 either may be the one that is lost. */
  lemma BootSafeIff(w: World, readA: bool, readB: bool)
    requires Inv(w)
    ensures NeverBack(Step(w, BootEvent(readA, readB)), Choice(w.disk).gen) <==>
            Sees(w.disk, readA, readB) || Harmless(w.disk, readA, readB)
  {
    var first := Step(w, BootEvent(readA, readB));
    if Sees(w.disk, readA, readB) {
      SeesNeverBack(w, readA, readB);
    } else if Choice(w.disk).gen == 1 {
      FirstGeneration(w.disk, readA, readB);
      if Harmless(w.disk, readA, readB) { AboveNeverBack(first); } else { EraseGoesBack(first, DEFAULTS, 1); }
    } else if Choice(w.disk).gen >= 2 {
      if ChoiceSeen(w.disk, readA, readB).slot == NoSlot && Choice(w.disk).slot == SlotB {
        BlindGoesBack(w, readA, readB, DEFAULTS, Steps(41, false));
      } else {
        MissedGoesBack(w, readA, readB, DEFAULTS);
      }
    }
  }

  /** The state every device passes through: after the first save a boot that cannot
      read it is not safe. */
  lemma FirstSaveMissed(w: World, cfg: IoCfg, readB: bool)
    requires Inv(w) && w.disk.a == Some((cfg, 1)) && w.disk.b == None
    ensures !NeverBack(Step(w, BootEvent(false, readB)), 1)
  {
    BootSafeIff(w, false, readB);
  }

  /** A history: generations 8 and 7 in A and B, a boot that can read neither, an
      acknowledged save, and the next boot loads generation 7. */
  lemma UnreadableBootLoses(x: IoCfg, y: IoCfg, cfg: IoCfg, d: Disk, f: Steps)
    requires d.a == Some((x, 8)) && d.b == Some((y, 7)) && Acked(f)
    ensures var blind := Boot(d, false, false);
            RamOk(blind) && !Outdates(blind) && Choice(Save(blind, cfg, f)) == Loaded(y, SlotB, 7)
  {
    FullSave(Boot(d, false, false), cfg, f);
    IncPlain(0);
  }
}
