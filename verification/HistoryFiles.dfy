/** Which history files a cleanup removes: it works on a list of at most twelve
    names, each cut to 23 bytes. */
module HistoryFiles {
  import opened Bytes
  import opened Collections
  import opened History

  const HIST_MAX_FILES: nat := 10
  const LIST_CAP: nat := 12
  const NAME_CAP: nat := 23

  type FileName = seq<Byte>

  /** What the list keeps of a name. */
  function Cut(n: FileName): FileName {
    n[..Min(|n|, NAME_CAP)]
  }

  predicate IsData(n: FileName) {
    |n| > 5 && n[..5] == PREFIX
  }

  /** A name that goes on after "data_". */
  lemma IsDataIff(n: FileName)
    ensures IsData(n) <==> exists rest: seq<Byte> :: rest != [] && n == [0x64, 0x61, 0x74, 0x61, 0x5F] + rest
  {
    if IsData(n) { assert n == [0x64, 0x61, 0x74, 0x61, 0x5F] + n[5..]; }
  }

  /** The history files of a directory, in the order it is read. */
  function DataFiles(dir: seq<FileName>): seq<FileName> {
    if dir == [] then [] else (if IsData(dir[0]) then [dir[0]] else []) + DataFiles(dir[1..])
  }

  function CutAll(names: seq<FileName>): (r: seq<FileName>)
    ensures |r| == |names| && forall i :: 0 <= i < |r| ==> r[i] == Cut(names[i])
  {
    seq(|names|, i requires 0 <= i < |names| => Cut(names[i]))
  }

  /** The list `cleanup_old_files` works on: a push onto a full list is lost. */
  function Listed(dir: seq<FileName>): seq<FileName> {
    var all := CutAll(DataFiles(dir));
    all[..Min(|all|, LIST_CAP)]
  }

  lemma {:induction false} DataFilesNext(dir: seq<FileName>, i: nat)
    requires i < |dir|
    ensures DataFiles(dir[..i + 1]) == DataFiles(dir[..i]) + if IsData(dir[i]) then [dir[i]] else []
    decreases |dir|
  {
    if i > 0 {
      DataFilesNext(dir[1..], i - 1);
      assert dir[..i + 1][1..] == dir[1..][..i] && dir[..i][1..] == dir[1..][..i - 1];
    }
  }

  method ListNames(dir: seq<FileName>) returns (names: seq<FileName>)
    ensures names == Listed(dir)
  {
    names := [];
    for i := 0 to |dir|
      invariant names == Listed(dir[..i])
    {
      DataFilesNext(dir, i);
      if IsData(dir[i]) && |names| < LIST_CAP {
        names := names + [Cut(dir[i])];
      }
    }
    assert dir[..|dir|] == dir;
  }

  /** The place of the smallest of the first i names, as the scan finds it. */
  function Smallest(names: seq<FileName>, i: nat): (k: nat)
    requires 0 < i <= |names|
    ensures k < i
  {
    if i == 1 then 0
    else
      var k := Smallest(names, i - 1);
      if Less(names[i - 1], names[k]) then i - 1 else k
  }

  lemma {:induction false} SmallestLeast(names: seq<FileName>, i: nat, j: nat)
    requires j < i <= |names|
    ensures !Less(names[j], names[Smallest(names, i)])
    decreases i
  {
    var k := Smallest(names, i);
    if j == i - 1 {
      LessIrreflexive(names[j]);
      if i > 1 && k == i - 1 { assert names[j] == names[k]; }
    } else {
      SmallestLeast(names, i - 1, j);
      if k == i - 1 && Less(names[j], names[k]) {
        LessTransitive(names[j], names[k], names[Smallest(names, i - 1)]);
      }
    }
  }

  /** The list after the smallest name was replaced by the last and popped. */
  function Popped(names: seq<FileName>): (r: seq<FileName>)
    requires names != []
    ensures |r| == |names| - 1
  {
    var last := |names| - 1;
    names[Smallest(names, |names|) := names[last]][..last]
  }

  /** The names tried for removal, in that order, and those left on the list. */
  function Victims(names: seq<FileName>): seq<FileName>
    decreases |names|
  {
    if |names| <= HIST_MAX_FILES then [] else [names[Smallest(names, |names|)]] + Victims(Popped(names))
  }

  function Spared(names: seq<FileName>): seq<FileName>
    decreases |names|
  {
    if |names| <= HIST_MAX_FILES then names else Spared(Popped(names))
  }

  lemma SwapPop<T>(names: seq<T>, k: nat)
    requires k < |names|
    ensures var last := |names| - 1;
            multiset(names) == multiset(names[k := names[last]][..last]) + multiset{names[k]}
  {
    var last := |names| - 1;
    var swapped := names[k := names[last]];
    assert swapped == swapped[..last] + [swapped[last]];
    assert names == names[..last] + [names[last]];
    if k < last {
      assert swapped[..last] == names[..last][k := names[last]];
    }
  }

  lemma PoppedNames(names: seq<FileName>)
    requires names != []
    ensures multiset(names) == multiset(Popped(names)) + multiset{names[Smallest(names, |names|)]}
  {
    SwapPop(names, Smallest(names, |names|));
  }

  /** Nothing in `kept` is smaller than anything in `gone`. */
  predicate Separated(gone: seq<FileName>, kept: seq<FileName>) {
    forall g, k :: g in gone && k in kept ==> !Less(k, g)
  }

  lemma InMultiset(a: seq<FileName>, b: seq<FileName>, x: FileName)
    requires multiset(a) <= multiset(b) && x in a
    ensures x in b
  {
    assert x in multiset(a);
  }

  lemma PoppedLarger(names: seq<FileName>, x: FileName)
    requires names != [] && x in names
    ensures !Less(x, names[Smallest(names, |names|)])
  {
    var j :| 0 <= j < |names| && names[j] == x;
    SmallestLeast(names, |names|, j);
  }

  /** Of the listed names none is lost, ten stay, and none that is tried for
      removal is newer, by name, than one that stays. */
  lemma {:induction false} ListShared(names: seq<FileName>)
    ensures multiset(names) == multiset(Spared(names)) + multiset(Victims(names))
    ensures |Spared(names)| == Min(|names|, HIST_MAX_FILES)
    ensures |names| == |Spared(names)| + |Victims(names)|
    ensures Separated(Victims(names), Spared(names))
    decreases |names|
  {
    if |names| > HIST_MAX_FILES {
      var rest, x := Popped(names), names[Smallest(names, |names|)];
      ListShared(rest);
      PoppedNames(names);
      assert multiset([x] + Victims(rest)) == multiset{x} + multiset(Victims(rest));
      forall k | k in Spared(names) ensures !Less(k, x) {
        InMultiset(Spared(names), names, k);
        PoppedLarger(names, k);
      }
    }
  }

  /* ---- the directory ---- */

  function Data(dir: seq<FileName>): set<FileName> {
    set n | n in dir && IsData(n)
  }

  /** Those of the tried names whose removal takes a file away. */
  function Effective(tried: seq<FileName>, dir: seq<FileName>, works: set<FileName>): set<FileName> {
    set v | v in tried && v in dir && v in works
  }

  /** The files that are gone afterwards: `works` says which removals littlefs
      performs; a name that was cut need not be the name of a file. */
  function Gone(dir: seq<FileName>, works: set<FileName>): set<FileName> {
    Effective(Victims(Listed(dir)), dir, works)
  }

  /** The scan compares 24-byte buffers, padded with zeros. */
  function Buffer(n: FileName): FileName
    requires |n| <= NAME_CAP
  {
    n + Zeros(24 - |n|)
  }

  lemma {:induction false} PaddedLess(a: FileName, b: FileName, j: nat, k: nat)
    requires 0 !in a && 0 !in b && |a| + j == |b| + k && j > 0 && k > 0
    ensures Less(a + Zeros(j), b + Zeros(k)) <==> Less(a, b)
    decreases |a|
  {
    var x, y := a + Zeros(j), b + Zeros(k);
    if a == [] && b == [] {
      LessIrreflexive(x);
    } else if a != [] && b != [] {
      PaddedLess(a[1..], b[1..], j, k);
      assert x[1..] == a[1..] + Zeros(j) && y[1..] == b[1..] + Zeros(k);
    }
  }

  /** So the buffers order as the names do, which hold no zero byte. */
  lemma BufferLess(a: FileName, b: FileName)
    requires |a| <= NAME_CAP && |b| <= NAME_CAP && 0 !in a && 0 !in b
    ensures Less(Buffer(a), Buffer(b)) <==> Less(a, b)
  {
    PaddedLess(a, b, 24 - |a|, 24 - |b|);
  }

  predicate Storable(names: seq<FileName>) {
    forall i :: 0 <= i < |names| ==> |names[i]| <= NAME_CAP && 0 !in names[i]
  }

  /** The scan for the smallest buffer. */
  method ScanSmallest(names: seq<FileName>) returns (k: nat)
    requires names != [] && Storable(names)
    ensures k == Smallest(names, |names|)
  {
    k := 0;
    for i := 1 to |names|
      invariant k == Smallest(names, i)
    {
      BufferLess(names[i], names[k]);
      if Less(Buffer(names[i]), Buffer(names[k])) {
        k := i;
      }
    }
  }

  lemma {:induction false} DataFilesIn(dir: seq<FileName>, n: FileName)
    ensures n in DataFiles(dir) <==> n in dir && IsData(n)
    decreases |dir|
  {
    if dir != [] {
      DataFilesIn(dir[1..], n);
      assert dir == [dir[0]] + dir[1..];
    }
  }

  lemma {:induction false} DataFilesCount(dir: seq<FileName>)
    requires Distinct(dir)
    ensures Distinct(DataFiles(dir)) && |DataFiles(dir)| == |Data(dir)|
    decreases |dir|
  {
    if dir != [] {
      var d, rest := dir[0], dir[1..];
      DataFilesCount(rest);
      DataFilesIn(rest, d);
      DataSplit(dir);
      Consed(d, DataFiles(rest));
    }
  }

  lemma DataSplit(dir: seq<FileName>)
    requires dir != []
    ensures Data(dir) == Data(dir[1..]) + if IsData(dir[0]) then {dir[0]} else {}
  {
    assert dir == [dir[0]] + dir[1..];
  }

  lemma ListStorable(dir: seq<FileName>)
    requires forall i :: 0 <= i < |dir| ==> 0 !in dir[i]
    ensures Storable(Listed(dir))
  {
    var names := Listed(dir);
    forall i | 0 <= i < |names| ensures |names[i]| <= NAME_CAP && 0 !in names[i] {
      DataFilesIn(dir, DataFiles(dir)[i]);
    }
  }

  lemma StorablePopped(names: seq<FileName>)
    requires Storable(names) && names != []
    ensures Storable(Popped(names))
  {
  }

  lemma EffectiveNext(tried: seq<FileName>, v: FileName, dir: seq<FileName>, works: set<FileName>)
    ensures Effective(tried + [v], dir, works)
         == Effective(tried, dir, works) + if v in dir && v in works then {v} else {}
  {
  }

  /** One turn: the smallest listed name is removed, if it can be, and popped. */
  method RemoveSmallest(names: seq<FileName>, dir: seq<FileName>, works: set<FileName>, gone: set<FileName>)
    returns (rest: seq<FileName>, gone': set<FileName>)
    requires names != [] && Storable(names)
    ensures rest == Popped(names) && Storable(rest)
    ensures gone' == gone + Effective([names[Smallest(names, |names|)]], dir, works)
  {
    var k := ScanSmallest(names);
    EffectiveNext([], names[k], dir, works);
    assert [] + [names[k]] == [names[k]];
    gone' := if names[k] in dir && names[k] in works then gone + {names[k]} else gone;
    StorablePopped(names);
    var last := |names| - 1;
    rest := names[k := names[last]][..last];
  }

  lemma EffectiveConcat(a: seq<FileName>, b: seq<FileName>, dir: seq<FileName>, works: set<FileName>)
    ensures Effective(a + b, dir, works) == Effective(a, dir, works) + Effective(b, dir, works)
  {
  }

  /** `cleanup_old_files`; names in littlefs end at their zero byte. */
  method CleanupOldFiles(dir: seq<FileName>, works: set<FileName>) returns (gone: set<FileName>)
    requires forall i :: 0 <= i < |dir| ==> 0 !in dir[i]
    ensures gone == Gone(dir, works)
  {
    var names := ListNames(dir);
    ListStorable(dir);
    gone := {};
    while |names| > HIST_MAX_FILES
      invariant Storable(names)
      invariant Gone(dir, works) == gone + Effective(Victims(names), dir, works)
    {
      EffectiveConcat([names[Smallest(names, |names|)]], Victims(Popped(names)), dir, works);
      names, gone := RemoveSmallest(names, dir, works, gone);
    }
  }

  /* ---- when the cleanup does what it is for ---- */

  function Staying(dir: seq<FileName>, works: set<FileName>): set<FileName> {
    Data(dir) - Gone(dir, works)
  }

  /** At most ten history files stay, and none that is gone is newer, by name,
      than one that stays. */
  predicate Tidy(dir: seq<FileName>, works: set<FileName>) {
    && |Staying(dir, works)| <= HIST_MAX_FILES
    && forall g, k :: g in Gone(dir, works) && k in Staying(dir, works) ==> !Less(k, g)
  }

  /** Every removal the cleanup asks for takes another file away. */
  predicate Removable(dir: seq<FileName>, works: set<FileName>) {
    var victims := Victims(Listed(dir));
    Distinct(victims) && forall i :: 0 <= i < |victims| ==> victims[i] in dir && victims[i] in works
  }

  lemma CutIsData(n: FileName)
    requires IsData(n)
    ensures IsData(Cut(n))
  {
  }

  /** A listed name is a history file's, cut. */
  lemma VictimIsData(dir: seq<FileName>, v: FileName)
    requires v in Victims(Listed(dir))
    ensures v in Listed(dir) && IsData(v)
  {
    ListShared(Listed(dir));
    InMultiset(Victims(Listed(dir)), Listed(dir), v);
    var i :| 0 <= i < |Listed(dir)| && Listed(dir)[i] == v;
    DataFilesIn(dir, DataFiles(dir)[i]);
    CutIsData(DataFiles(dir)[i]);
  }

  lemma GoneIsData(dir: seq<FileName>, works: set<FileName>)
    ensures Gone(dir, works) <= Data(dir)
    ensures |Staying(dir, works)| == |Data(dir)| - |Gone(dir, works)|
  {
    forall v | v in Gone(dir, works) ensures v in Data(dir) { VictimIsData(dir, v); }
    SubsetCount(Gone(dir, works), Data(dir));
  }

  lemma VictimCount(dir: seq<FileName>)
    requires Distinct(dir)
    ensures |Victims(Listed(dir))| == Min(|Data(dir)|, LIST_CAP) - Min(|Data(dir)|, HIST_MAX_FILES)
  {
    DataFilesCount(dir);
    ListShared(Listed(dir));
  }

  // All of the tried names are effective if and only if each takes a file away.
  lemma AllEffective(tried: seq<FileName>, dir: seq<FileName>, works: set<FileName>)
    ensures |Effective(tried, dir, works)| <= |tried|
    ensures |Effective(tried, dir, works)| == |tried| <==>
            Distinct(tried) && forall i :: 0 <= i < |tried| ==> tried[i] in dir && tried[i] in works
  {
    var gone := Effective(tried, dir, works);
    ElementsSize(tried);
    SubsetCount(gone, Elements(tried));
    if |gone| == |tried| {
      forall i | 0 <= i < |tried| ensures tried[i] in dir && tried[i] in works {
        assert tried[i] in Elements(tried);
      }
    } else if forall i :: 0 <= i < |tried| ==> tried[i] in dir && tried[i] in works {
      assert gone == Elements(tried);
    }
  }

  /** How many files stay: whatever happens, at most two are removed. */
  lemma StayingCount(dir: seq<FileName>, works: set<FileName>)
    requires Distinct(dir)
    ensures |Staying(dir, works)| == |Data(dir)| - |Gone(dir, works)|
    ensures |Victims(Listed(dir))| == Min(|Data(dir)|, LIST_CAP) - Min(|Data(dir)|, HIST_MAX_FILES)
    ensures |Gone(dir, works)| <= |Victims(Listed(dir))|
    ensures |Gone(dir, works)| == |Victims(Listed(dir))| <==> Removable(dir, works)
  {
    GoneIsData(dir, works);
    VictimCount(dir);
    AllEffective(Victims(Listed(dir)), dir, works);
  }

  lemma {:induction false} LessPrefix(a: FileName, n: nat, b: FileName)
    requires n <= |a| && Less(a, b)
    ensures Less(a[..n], b)
    decreases n
  {
    if n > 0 && a[0] == b[0] {
      LessPrefix(a[1..], n - 1, b[1..]);
      assert a[..n][1..] == a[1..][..n - 1];
    }
  }

  // What occurs oftener among the names than among the victims is spared.
  lemma SparedOften<T>(names: seq<T>, spared: seq<T>, victims: seq<T>, x: T)
    requires multiset(names) == multiset(spared) + multiset(victims)
    requires Distinct(victims) && x in names && (x in victims ==> multiset(names)[x] >= 2)
    ensures x in spared
  {
    CountOnce(victims, x);
    assert x in multiset(names);
    assert multiset(spared)[x] >= 1;
  }

  lemma DistinctPart<T>(names: seq<T>, spared: seq<T>, victims: seq<T>)
    requires multiset(names) == multiset(spared) + multiset(victims) && Distinct(names)
    ensures Distinct(victims)
  {
    forall i, j | 0 <= i < j < |victims| ensures victims[i] != victims[j] {
      CountOnce(names, victims[i]);
      if victims[i] == victims[j] {
        CountTwice(victims, i, j);
        assert false;
      }
    }
  }

  // A cut name that is also a file's own name is listed twice.
  lemma ListedTwice(dir: seq<FileName>, n: FileName)
    requires |DataFiles(dir)| <= LIST_CAP && n in DataFiles(dir)
    ensures Cut(n) in Listed(dir)
    ensures Cut(n) != n && Cut(n) in DataFiles(dir) ==> multiset(Listed(dir))[Cut(n)] >= 2
  {
    var files, names := DataFiles(dir), Listed(dir);
    var i :| 0 <= i < |files| && files[i] == n;
    assert names[i] == Cut(n);
    if Cut(n) != n && Cut(n) in files {
      var j :| 0 <= j < |files| && files[j] == Cut(n);
      assert names[j] == Cut(n);
      CountTwice(names, if i < j then i else j, if i < j then j else i);
    }
  }

  // With all history files listed, the list still holds what stays.
  lemma StayingSpared(dir: seq<FileName>, works: set<FileName>, n: FileName)
    requires Distinct(dir) && |Data(dir)| <= LIST_CAP && Removable(dir, works) && n in Staying(dir, works)
    ensures Cut(n) in Spared(Listed(dir))
  {
    DataFilesCount(dir);
    DataFilesIn(dir, n);
    ListedTwice(dir, n);
    ListShared(Listed(dir));
    if Cut(n) in Victims(Listed(dir)) {
      VictimIsData(dir, Cut(n));
      DataFilesIn(dir, Cut(n));
      assert Cut(n) in Gone(dir, works);
    }
    SparedOften(Listed(dir), Spared(Listed(dir)), Victims(Listed(dir)), Cut(n));
  }

  /** The cleanup does what it is for if and only if the directory holds at most
      twelve history files and each removal it asks for is carried out. */
  lemma TidyIff(dir: seq<FileName>, works: set<FileName>)
    requires Distinct(dir)
    ensures Tidy(dir, works) <==> |Data(dir)| <= LIST_CAP && Removable(dir, works)
  {
    StayingCount(dir, works);
    if |Data(dir)| <= LIST_CAP && Removable(dir, works) {
      ListShared(Listed(dir));
      forall g, k | g in Gone(dir, works) && k in Staying(dir, works) ensures !Less(k, g) {
        StayingSpared(dir, works, k);
        if Less(k, g) {
          LessPrefix(k, Min(|k|, NAME_CAP), g);
        }
      }
    }
  }

  /** Names the list can hold. */
  predicate ShortNames(dir: seq<FileName>) {
    forall i :: 0 <= i < |dir| ==> |dir[i]| <= NAME_CAP
  }

  lemma ShortListed(dir: seq<FileName>)
    requires Distinct(dir) && ShortNames(dir)
    ensures Listed(dir) == DataFiles(dir)[..|Listed(dir)|] && Distinct(Listed(dir))
  {
    var files, names := DataFiles(dir), Listed(dir);
    DataFilesCount(dir);
    forall i | 0 <= i < |names| ensures names[i] == files[i] {
      DataFilesIn(dir, files[i]);
    }
  }

  lemma ShortRemovable(dir: seq<FileName>, works: set<FileName>)
    requires Distinct(dir) && ShortNames(dir) && Data(dir) <= works
    ensures Removable(dir, works)
  {
    var names := Listed(dir);
    ShortListed(dir);
    ListShared(names);
    DistinctPart(names, Spared(names), Victims(names));
    forall v | v in Victims(names) ensures v in dir && v in works {
      VictimIsData(dir, v);
      DataFilesIn(dir, v);
    }
  }

  /** With names that fit and removals that work, twelve files is the exact bound;
      beyond it each cleanup removes two files and leaves the others. */
  lemma TwelveFilesIff(dir: seq<FileName>, works: set<FileName>)
    requires Distinct(dir) && ShortNames(dir) && Data(dir) <= works
    ensures Tidy(dir, works) <==> |Data(dir)| <= LIST_CAP
    ensures |Data(dir)| > LIST_CAP ==> |Staying(dir, works)| == |Data(dir)| - 2
  {
    ShortRemovable(dir, works);
    TidyIff(dir, works);
    StayingCount(dir, works);
  }

  /** A file read after the list is full is never seen: should it be older than
      all that are listed, newer files go while it stays. */
  lemma UnseenOlderStays(dir: seq<FileName>, works: set<FileName>, u: FileName)
    requires Distinct(dir) && ShortNames(dir) && Data(dir) <= works && |Data(dir)| > LIST_CAP
    requires u in Data(dir) && forall i :: 0 <= i < |Listed(dir)| ==> Less(u, Listed(dir)[i])
    ensures u in Staying(dir, works) && exists g :: g in Gone(dir, works) && Less(u, g)
  {
    ShortRemovable(dir, works);
    StayingCount(dir, works);
    var g := Victims(Listed(dir))[0];
    VictimIsData(dir, g);
    if u in Victims(Listed(dir)) {
      VictimIsData(dir, u);
      LessIrreflexive(u);
    }
  }

  /** The file `data_` followed by one character. */
  function OneChar(c: Byte): (n: FileName)
    ensures IsData(n) && |n| == 6 && n[5] == c
  {
    PREFIX + [c]
  }

  /** The directory `data_1` to `data_<`, and then `data_0`. */
  predicate Thirteen(dir: seq<FileName>) {
    |dir| == 13 && forall i :: 0 <= i < 13 ==> dir[i] == OneChar(if i == 12 then 48 else 49 + i)
  }

  lemma {:induction false} AllData(dir: seq<FileName>)
    requires forall i :: 0 <= i < |dir| ==> IsData(dir[i])
    ensures DataFiles(dir) == dir
    decreases |dir|
  {
    if dir != [] {
      AllData(dir[1..]);
      assert dir == [dir[0]] + dir[1..];
    }
  }

  lemma OneCharLess(c: Byte, d: Byte)
    ensures Less(OneChar(c), OneChar(d)) <==> c < d
  {
    LessConcat(PREFIX, PREFIX, [c], [d]);
    LessOne(c, d);
    LessIrreflexive(PREFIX);
  }

  lemma ThirteenNames(dir: seq<FileName>)
    requires Thirteen(dir)
    ensures Distinct(dir) && ShortNames(dir) && DataFiles(dir) == dir
    ensures forall i :: 0 <= i < 12 ==> Less(dir[12], dir[i])
  {
    forall i, j | 0 <= i < j < 13 ensures dir[i] != dir[j] { assert dir[i][5] != dir[j][5]; }
    AllData(dir);
    forall i | 0 <= i < 12 ensures Less(dir[12], dir[i]) { OneCharLess(48, 49 + i); }
  }

  lemma ThirteenListed(dir: seq<FileName>)
    requires Thirteen(dir)
    ensures Listed(dir) == dir[..12] && |Data(dir)| == 13 && dir[12] in Data(dir)
  {
    ThirteenNames(dir);
    DataFilesCount(dir);
    ShortListed(dir);
  }

  /** Thirteen files, the oldest read last: eleven stay, and it is one of them. */
  lemma ThirteenFiles(dir: seq<FileName>)
    requires Thirteen(dir)
    ensures !Tidy(dir, Data(dir)) && |Staying(dir, Data(dir))| == 11
    ensures dir[12] in Staying(dir, Data(dir)) && exists g :: g in Gone(dir, Data(dir)) && Less(dir[12], g)
  {
    ThirteenNames(dir);
    ThirteenListed(dir);
    TwelveFilesIff(dir, Data(dir));
    UnseenOlderStays(dir, Data(dir), dir[12]);
  }
}
