/** Linux disk_partitions with get_physical_devices inside it. */
module Partitions {
  import opened CText
  import opened Heap
  import opened Lines
  import opened Records
  import opened Squeeze

  // ----- get_physical_devices

  /** The names on the lines of /proc/filesystems that do not start with nodev. */
  function DeviceNames(ls: seq<string>): seq<string> {
    if ls == [] then []
    else DeviceNames(ls[..|ls| - 1]) + DeviceName(ls[|ls| - 1])
  }

  function DeviceName(l: string): seq<string> {
    if "nodev" <= l then [] else [Without(l, " \t\n")]
  }

  function Devices(file: string): seq<string> {
    DeviceNames(Reads(file, 49))
  }

  lemma NamesMore(ls: seq<string>, k: nat)
    requires k < |ls|
    ensures DeviceNames(ls[..k + 1]) == DeviceNames(ls[..k]) + DeviceName(ls[k])
  {
    assert ls[..k + 1][..k] == ls[..k];
  }

  lemma {:induction false} NamesGrow(ls: seq<string>, k: nat)
    requires k <= |ls|
    ensures |DeviceNames(ls[..k])| <= |DeviceNames(ls)|
    decreases |ls|
  {
    if k < |ls| {
      NamesGrow(ls[..|ls| - 1], k);
      assert ls[..|ls| - 1][..k] == ls[..k];
    } else {
      assert ls[..k] == ls;
    }
  }

  /** A line of /proc/filesystems: nodev or not, blanks and tabs, the name, and perhaps more of them. */
  datatype FileSystem = FileSystem(nodev: bool, lead: string, name: string, trail: string)

  predicate ValidFs(f: FileSystem) {
    && f.lead != [] && Only(f.lead, {' ', '\t'}) && Only(f.trail, {' ', '\t'})
    && Free(f.name, {' ', '\t', '\n', '\0'})
  }

  function PrintedFs(f: FileSystem): string {
    (if f.nodev then "nodev" else "") + f.lead + f.name + f.trail + "\n"
  }

  lemma PlainPart(s: string)
    requires Only(s, {' ', '\t'})
    ensures Without(s, " \t\n") == [] && Free(s, {'\n'}) && NoNul(s)
  {
    WithoutAll(s, " \t\n");
  }

  lemma PlainName(s: string)
    requires Free(s, {' ', '\t', '\n', '\0'})
    ensures Without(s, " \t\n") == s
  {
    WithoutIdempotent(s, " \t\n");
    assert CharSet(" \t\n") == {' ', '\t', '\n'};
  }

  lemma PrintedName(f: FileSystem)
    requires ValidFs(f)
    ensures DeviceName(PrintedFs(f)) == if f.nodev then [] else [f.name]
  {
    hide Without;
    if f.nodev {
      assert PrintedFs(f) == "nodev" + (f.lead + f.name + f.trail + "\n");
    } else {
      assert PrintedFs(f) == f.lead + f.name + f.trail + "\n";
      assert PrintedFs(f)[0] == f.lead[0] != 'n';
      WithoutSplit(f.lead + f.name + f.trail, "\n", " \t\n");
      WithoutSplit(f.lead + f.name, f.trail, " \t\n");
      WithoutSplit(f.lead, f.name, " \t\n");
      PlainPart(f.lead);
      PlainPart(f.trail);
      PlainName(f.name);
      WithoutAll("\n", " \t\n");
      assert [] + f.name + [] + [] == f.name;
    }
  }

  lemma PrintedFsIsLine(f: FileSystem)
    requires ValidFs(f)
    ensures IsLine(PrintedFs(f)) && NoNul(PrintedFs(f))
  {
    hide Without;
    PlainPart(f.lead);
    PlainPart(f.trail);
    assert forall i :: 0 <= i < |f.name| ==> f.name[i] !in {' ', '\t', '\n', '\0'};
  }

  lemma {:induction false} PrintedNames(fs: seq<FileSystem>, ls: seq<string>)
    requires |ls| == |fs| && forall i :: 0 <= i < |fs| ==> ValidFs(fs[i]) && ls[i] == PrintedFs(fs[i])
    ensures var kept := Filter(fs, (f: FileSystem) => !f.nodev);
            |DeviceNames(ls)| == |kept| && forall i :: 0 <= i < |kept| ==> DeviceNames(ls)[i] == kept[i].name
    decreases |fs|
  {
    hide Filter, ValidFs, PrintedFs, DeviceName;
    if fs != [] {
      PrintedNames(fs[..|fs| - 1], ls[..|ls| - 1]);
      PrintedName(fs[|fs| - 1]);
      FilterLast(fs, (f: FileSystem) => !f.nodev);
    }
  }

  /** From a printed /proc/filesystems whose lines fit, the names that come out are those of the lines
      without nodev, in order and without the blanks around them. */
  lemma DevicesRoundTrip(fs: seq<FileSystem>, ls: seq<string>)
    requires |ls| == |fs| && forall i :: 0 <= i < |fs| ==> ValidFs(fs[i]) && ls[i] == PrintedFs(fs[i]) && |ls[i]| <= 49
    ensures var devs, kept := Devices(Flatten(ls)), Filter(fs, (f: FileSystem) => !f.nodev);
            |devs| == |kept| && forall i :: 0 <= i < |kept| ==> devs[i] == kept[i].name
  {
    hide Filter, ValidFs, PrintedFs, DeviceNames, Reads;
    forall i | 0 <= i < |fs| ensures IsLine(ls[i]) && NoNul(ls[i]) {
      PrintedFsIsLine(fs[i]);
    }
    ReadsOfLines(ls, 49);
    PrintedNames(fs, ls);
  }

  /** A longer line is read in two, and makes two names. */
  lemma LongLineSplits(s: string)
    requires 49 < |s| <= 97 && Free(s, {' ', '\t', '\n', '\0'}) && !("nodev" <= s) && !("nodev" <= s[49..])
    ensures Devices(s + "\n") == [s[..49], s[49..]]
  {
    hide Without, Reads;
    var head, tail := s[..49], s[49..];
    assert s + "\n" == head + (tail + "\n");
    assert forall i :: 0 <= i < |s| ==> s[i] !in {' ', '\t', '\n', '\0'};
    assert (tail + "\n")[..|tail|] == tail;
    TwoReads(head, tail + "\n", 49);
    PlainName(head);
    PlainName(tail);
    WithoutSplit(tail, "\n", " \t\n");
    WithoutAll("\n", " \t\n");
    assert tail + [] == tail;
    NotNodev(s, tail);
    TwoNames(head, tail + "\n");
  }

  lemma NotNodev(s: string, tail: string)
    requires |s| > 49 && s[49..] == tail && !("nodev" <= s) && !("nodev" <= tail)
    ensures !("nodev" <= s[..49]) && !("nodev" <= tail + "\n")
  {
    assert "nodev" <= s[..49] ==> "nodev" <= s;
    assert (tail + "\n")[|tail|] == '\n';
    assert "nodev" <= tail + "\n" ==> |tail| >= 5;
    assert "nodev" <= tail + "\n" ==> "nodev" <= tail;
  }

  lemma TwoNames(a: string, b: string)
    ensures DeviceNames([a, b]) == DeviceName(a) + DeviceName(b)
  {
    hide DeviceName;
    assert [a, b][..1] == [a] && [a][..0] == [];
    assert DeviceNames([a]) == DeviceNames([]) + DeviceName(a);
    assert DeviceNames([a, b]) == DeviceNames([a]) + DeviceName(b);
  }

  /** Apart from base, the ledger holds exactly the pointer array and the strings names. */
  ghost predicate DeviceArray(base: map<Ptr, Block>, live: map<Ptr, Block>, arr: Ptr, names: seq<string>) {
    && arr != 0 && arr !in base && arr in live && live[arr].Ptrs? && |live[arr].cells| == 100 && |names| <= 100
    && Owned(base, live - {arr}, live[arr].cells[..|names|])
    && Holds(live - {arr}, live[arr].cells[..|names|], names)
    && forall i :: 0 <= i < |names| ==> live[arr].cells[i] != 0
  }

  /** retval[*ndevices] = strdup(line); */
  method AddDevice(heap: Heap, arr: Ptr, n: nat, s: string, ghost base: map<Ptr, Block>, ghost names: seq<string>)
    requires DeviceArray(base, heap.live, arr, names) && n == |names| < 100
    modifies heap`live
    ensures DeviceArray(base, heap.live, arr, names + [s])
  {
    hide Owned, Holds;
    ghost var before := heap.live;
    KeptFromNull(base, before, arr, names);
    var p := heap.AllocOrDie(Text(s));
    ghost var cells := before[arr].cells;
    OwnMore(base, before - {arr}, cells[..n], p, Text(s), heap.live - {arr}) by {
      assert heap.live - {arr} == (before - {arr})[p := Text(s)];
    }
    HoldMore(before - {arr}, cells[..n], names, p, s, heap.live - {arr}) by {
      assert heap.live - {arr} == (before - {arr})[p := Text(s)];
    }
    assert cells[n := p][..n + 1] == cells[..n] + [p];
    ghost var mid := heap.live;
    heap.live := heap.live[arr := Ptrs(heap.live[arr].cells[n := p])];
    assert heap.live - {arr} == mid - {arr};
  }

  lemma KeptFromNull(base: map<Ptr, Block>, live: map<Ptr, Block>, arr: Ptr, names: seq<string>)
    requires DeviceArray(base, live, arr, names)
    ensures 0 !in live
  {
  }

  lemma NoDevicesYet(base: map<Ptr, Block>, live: map<Ptr, Block>, arr: Ptr)
    requires 0 !in live && arr != 0 && arr !in base && live == base[arr := Ptrs(seq(100, _ => 0))]
    ensures DeviceArray(base, live, arr, [])
  {
    assert live - {arr} == base;
    assert live[arr].cells[..0] == [];
    OwnedNothing(base);
  }

  /** One line of the file: its name, unless it starts with nodev. */
  method AddLine(heap: Heap, line: array<char>, retval: Ptr, n: nat, ghost base: map<Ptr, Block>, ghost ls: seq<string>,
                 ghost k: nat) returns (n': nat)
    requires k < |ls| && Str(line, 0, ls[k]) && |DeviceNames(ls)| < 100
    requires DeviceArray(base, heap.live, retval, DeviceNames(ls[..k])) && n == |DeviceNames(ls[..k])|
    modifies heap`live, line
    ensures DeviceArray(base, heap.live, retval, DeviceNames(ls[..k + 1])) && n' == |DeviceNames(ls[..k + 1])|
  {
    hide DeviceArray, DeviceNames, Str, Without;
    NamesMore(ls, k);
    NamesGrow(ls, k + 1);
    n' := n;
    var nodev := StartsWith(line, "nodev", ls[k]);
    if !nodev {
      SqueezeInPlace(line, 0, " \t\n", ls[k]);
      ReadStrIs(line, 0, Without(ls[k], " \t\n"));
      AddDevice(heap, retval, n, ReadStr(line, 0), base, DeviceNames(ls[..k]));
      n' := n + 1;
    } else {
      assert DeviceNames(ls[..k + 1]) == DeviceNames(ls[..k]);
    }
  }

  /** The fgets loop: the number of names found, which the array must hold with one to spare. */
  method ReadDevices(heap: Heap, fs: Stream, retval: Ptr, ghost base: map<Ptr, Block>, ghost ls: seq<string>) returns (ndevices: nat)
    requires fs.LinesLeft(49, ls, 0) && DeviceArray(base, heap.live, retval, []) && |DeviceNames(ls)| < 100
    modifies heap`live, fs
    ensures DeviceArray(base, heap.live, retval, DeviceNames(ls)) && ndevices == |DeviceNames(ls)|
  {
    hide DeviceArray, DeviceNames, Reads, Str, Without;
    var line := new char[60](_ => '\0');
    ghost var k := 0;
    ndevices := 0;
    NoNames(ls);
    var more := fs.NextLine(line, 49, ls, 0);
    while more
      invariant fs.LinesLeft(49, ls, k + 1) && k <= |ls|
      invariant (more <==> k < |ls|) && (more ==> Str(line, 0, ls[k]))
      invariant DeviceArray(base, heap.live, retval, DeviceNames(ls[..k])) && ndevices == |DeviceNames(ls[..k])|
      decreases |ls| - k
    {
      ndevices := AddLine(heap, line, retval, ndevices, base, ls, k);
      k := k + 1;
      more := fs.NextLine(line, 49, ls, k);
    }
    assert ls[..k] == ls;
  }

  lemma NoNames(ls: seq<string>)
    ensures DeviceNames(ls[..0]) == []
  {
  }

  /** How get_physical_devices ends: with the names, without the file, or without memory. */
  datatype DevicesEnd = Listed | Unreadable | Refused

  /** What get_physical_devices leaves behind: the array and its names; or nothing to use, and then
      the pointer array, lost to everybody, if it was the file that could not be opened. */
  ghost predicate DevicesDone(base: map<Ptr, Block>, live: map<Ptr, Block>, end: DevicesEnd, arr: Ptr,
                              names: seq<string>, lost: set<Ptr>)
  {
    match end
    case Listed => arr != 0 && lost == {} && DeviceArray(base, live, arr, names)
    case Unreadable => arr == 0 && names == [] && |lost| == 1 && Adds(base, live, lost)
    case Refused => arr == 0 && names == [] && lost == {} && Adds(base, live, lost)
  }

  /** How it ends when no request for memory is refused. */
  function DevicesUnrefused(file: Option<string>): DevicesEnd {
    if file.Some? then Listed else Unreadable
  }

  /** The names it finds. */
  function DevicesFound(end: DevicesEnd, file: Option<string>): seq<string> {
    if end.Listed? && file.Some? then Devices(file.value) else []
  }

  lemma WithoutLine(base: map<Ptr, Block>, live: map<Ptr, Block>, line: Ptr, arr: Ptr, names: seq<string>)
    requires line !in base && line != 0 && arr != 0
    requires DeviceArray(base[line := Scratch], live, arr, names)
    ensures line in live && DeviceArray(base, live - {line}, arr, names)
  {
    var ps := live[arr].cells[..|names|];
    assert arr != line;
    assert live - {line} - {arr} == live - {arr} - {line};
    assert Owned(base, live - {line} - {arr}, ps);
    assert forall j :: 0 <= j < |ps| && ps[j] != 0 ==> ps[j] in Blocks(ps);
  }

  /** get_physical_devices; fewer than a hundred file systems are on devices. */
  method GetPhysicalDevices(heap: Heap, file: Option<string>)
    returns (end: DevicesEnd, retval: Ptr, ndevices: nat, ghost names: seq<string>, ghost lost: set<Ptr>)
    requires 0 !in heap.live && (file.Some? ==> |Devices(file.value)| < 100)
    modifies heap
    ensures DevicesDone(old(heap.live), heap.live, end, retval, names, lost) && ndevices == |names|
    ensures names == DevicesFound(end, file)
    ensures heap.refused == old(heap.refused) + if end.Refused? then 1 else 0
    ensures end.Refused? || end == DevicesUnrefused(file)
  {
    hide DeviceArray, DeviceNames, Reads, Adds;
    ghost var base := heap.live;
    end, retval, ndevices, names, lost := Refused, 0, 0, [], {};
    AddsNothing(base);
    var line := heap.Alloc(Scratch);
    if line == 0 {
      return;
    }
    WithoutScratch(base, line);
    var arr := heap.Alloc(Ptrs(seq(100, _ => 0)));
    if arr == 0 {
      heap.Free(line);
      return;
    }
    if file.None? {
      ArrayForgotten(base, heap.live, line, arr, heap.live[arr]);
      heap.Free(line);
      end, lost := Unreadable, {arr};
      return;
    }
    NoDevicesYet(base[line := Scratch], heap.live, arr);
    ndevices := ReadDeviceFile(heap, file.value, line, arr, base);
    names := Devices(file.value);
    end, retval := Listed, arr;
  }

  lemma WithoutScratch(base: map<Ptr, Block>, line: Ptr)
    requires line !in base
    ensures base[line := Scratch] - {line} == base
  {
  }

  /** When /proc/filesystems cannot be opened, nobody frees the pointer array. */
  lemma ArrayForgotten(base: map<Ptr, Block>, live: map<Ptr, Block>, line: Ptr, arr: Ptr, b: Block)
    requires 0 !in live && line !in base && arr !in base && arr != line
    requires live == base[line := Scratch][arr := b]
    ensures Adds(base, live - {line}, {arr})
  {
  }

  /** From the open file to fclose and free(line). */
  method ReadDeviceFile(heap: Heap, text: string, line: Ptr, arr: Ptr, ghost base: map<Ptr, Block>) returns (ndevices: nat)
    requires line != 0 && arr != 0 && line !in base
    requires DeviceArray(base[line := Scratch], heap.live, arr, []) && |Devices(text)| < 100
    modifies heap`live
    ensures DeviceArray(base, heap.live, arr, Devices(text)) && ndevices == |Devices(text)|
  {
    hide DeviceArray, DeviceNames, Reads;
    var fs := new Stream(text);
    ndevices := ReadDevices(heap, fs, arr, base[line := Scratch], Reads(text, 49));
    WithoutLine(base, heap.live, line, arr, Devices(text));
    KeptFromNull(base[line := Scratch], heap.live, arr, Devices(text));
    heap.Free(line);
  }

  /** lfind with str_comp over the device names. */
  method IsPhysical(heap: Heap, key: string, arr: Ptr, n: nat, ghost names: seq<string>) returns (found: bool)
    requires n == |names| && (n > 0 ==> Named(heap.live, arr, names))
    ensures found <==> key in names
  {
    var i := 0;
    while i < n
      invariant i <= n && key !in names[..i]
    {
      var p := heap.live[arr].cells[i];
      if heap.live[p].s == key {
        assert names[i] == key;
        return true;
      }
      assert names[..i + 1] == names[..i] + [names[i]];
      i := i + 1;
    }
    assert names[..i] == names;
    found := false;
  }

  /** The array holds pointers to the names. */
  ghost predicate Named(live: map<Ptr, Block>, arr: Ptr, names: seq<string>) {
    && arr in live && live[arr].Ptrs? && |names| <= |live[arr].cells|
    && forall i :: 0 <= i < |names| ==> live[arr].cells[i] in live && live[live[arr].cells[i]] == Text(names[i])
  }

  lemma ArrayIsNamed(base: map<Ptr, Block>, live: map<Ptr, Block>, arr: Ptr, names: seq<string>)
    requires DeviceArray(base, live, arr, names)
    ensures Named(live, arr, names)
  {
    var ps := live[arr].cells[..|names|];
    forall i | 0 <= i < |names| ensures live[arr].cells[i] in live && live[live[arr].cells[i]] == Text(names[i]) {
      assert ps[i] != 0 && ps[i] in live - {arr};
    }
  }

  // ----- disk_partitions

  datatype Mount = Mount(fsname: string, dir: string, kind: string, opts: string)

  /** The strings of a record: device, mountpoint, fstype, opts. */
  function EntryOf(m: Mount): Entry {
    Entry([m.fsname, m.dir, m.kind, m.opts], 0)
  }

  predicate Wanted(m: Mount, physical: bool, devs: seq<string>) {
    physical ==> m.kind in devs
  }

  /** The mount entries that become records. */
  function Selected(ms: seq<Mount>, physical: bool, devs: seq<string>): (es: seq<Entry>)
    ensures |es| <= |ms|
  {
    if ms == [] then []
    else
      Selected(ms[..|ms| - 1], physical, devs)
      + if Wanted(ms[|ms| - 1], physical, devs) then [EntryOf(ms[|ms| - 1])] else []
  }

  lemma SelectedMore(ms: seq<Mount>, k: nat, physical: bool, devs: seq<string>)
    requires k < |ms|
    ensures Wanted(ms[k], physical, devs)
        ==> Selected(ms[..k + 1], physical, devs) == Selected(ms[..k], physical, devs) + [EntryOf(ms[k])]
    ensures !Wanted(ms[k], physical, devs) ==> Selected(ms[..k + 1], physical, devs) == Selected(ms[..k], physical, devs)
  {
    assert ms[..k + 1][..k] == ms[..k];
  }

  /** The records of a result, read off the mount table: entry i has the device, the directory, the type
      and the options of the i-th mount that is wanted as its strings, in this order. */
  lemma {:induction false} SelectedMeaning(ms: seq<Mount>, physical: bool, devs: seq<string>)
    ensures var kept, es := Filter(ms, (m: Mount) => physical ==> m.kind in devs), Selected(ms, physical, devs);
            && |es| == |kept|
            && forall i :: 0 <= i < |kept| ==>
                 es[i] == Entry([kept[i].fsname, kept[i].dir, kept[i].kind, kept[i].opts], 0)
  {
    hide Filter;
    if ms != [] {
      SelectedMeaning(ms[..|ms| - 1], physical, devs);
      FilterLast(ms, (m: Mount) => physical ==> m.kind in devs);
    }
  }

  /** Physical partitions, from the two files: with a printed /proc/filesystems, the records are those of
      exactly the mounts whose type stands there without nodev, in the order of the mount table. */
  lemma PhysicalMeaning(ms: seq<Mount>, fs: seq<FileSystem>, ls: seq<string>)
    requires |ls| == |fs| && forall i :: 0 <= i < |fs| ==> ValidFs(fs[i]) && ls[i] == PrintedFs(fs[i]) && |ls[i]| <= 49
    ensures var kept := Filter(ms, (m: Mount) => exists f :: f in fs && !f.nodev && f.name == m.kind);
            var es := Selected(ms, true, Devices(Flatten(ls)));
            && |es| == |kept|
            && forall i :: 0 <= i < |kept| ==>
                 es[i] == Entry([kept[i].fsname, kept[i].dir, kept[i].kind, kept[i].opts], 0)
  {
    hide Filter, ValidFs, PrintedFs, Devices, Selected;
    var devs := Devices(Flatten(ls));
    SelectedMeaning(ms, true, devs);
    forall kind: string ensures kind in devs <==> exists f :: f in fs && !f.nodev && f.name == kind {
      DeviceMeans(fs, ls, kind);
    }
    FilterSame(ms, (m: Mount) => true ==> m.kind in devs,
               (m: Mount) => exists f :: f in fs && !f.nodev && f.name == m.kind);
  }

  lemma DeviceMeans(fs: seq<FileSystem>, ls: seq<string>, kind: string)
    requires |ls| == |fs| && forall i :: 0 <= i < |fs| ==> ValidFs(fs[i]) && ls[i] == PrintedFs(fs[i]) && |ls[i]| <= 49
    ensures kind in Devices(Flatten(ls)) <==> exists f :: f in fs && !f.nodev && f.name == kind
  {
    hide ValidFs, PrintedFs, Devices;
    var devs, kept := Devices(Flatten(ls)), Filter(fs, (f: FileSystem) => !f.nodev);
    DevicesRoundTrip(fs, ls);
    if kind in devs {
      var i :| 0 <= i < |devs| && devs[i] == kind;
      assert kept[i] in kept;
    }
    if f :| f in fs && !f.nodev && f.name == kind {
      assert f in kept;
      var i :| 0 <= i < |kept| && kept[i] == f;
      assert devs[i] == kind;
    }
  }

  /** Four strdups, a record, the count and the cursor. */
  method AddMount(heap: Heap, ret: Ptr, d: Cursor, m: Mount, ghost base: map<Ptr, Block>, ghost cap: nat,
                  ghost es: seq<Entry>) returns (d': Cursor)
    requires Building(base, heap.live, ret, d.block, cap, es) && d.index == |es| < cap
    modifies heap
    ensures heap.refused >= old(heap.refused)
    ensures heap.refused == old(heap.refused) && Complete(old(heap.live), d.block, |es|) ==> Complete(heap.live, d.block, |es| + 1)
    ensures Building(base, heap.live, ret, d.block, cap, es + [EntryOf(m)]) && d' == Cursor(d.block, d.index + 1)
  {
    hide Owned, Holds, Contents, Building;
    ghost var before := heap.live;
    StartOwning(base, before, ret, d.block, cap, es);
    ghost var ps: seq<Ptr>, fs: seq<string> := [], [];
    var device := Strdup(heap, m.fsname, before, ps, fs);
    ps, fs := ps + [device], fs + [m.fsname];
    var mountpoint := Strdup(heap, m.dir, before, ps, fs);
    ps, fs := ps + [mountpoint], fs + [m.dir];
    var fstype := Strdup(heap, m.kind, before, ps, fs);
    ps, fs := ps + [fstype], fs + [m.kind];
    var opts := Strdup(heap, m.opts, before, ps, fs);
    ps, fs := ps + [opts], fs + [m.opts];
    assert ps == [device, mountpoint, fstype, opts] && fs == EntryOf(m).fields;
    ghost var r := Rec(ps, 0);
    d' := Append(heap, ret, d, Rec([device, mountpoint, fstype, opts], 0), base, before, cap, es, EntryOf(m));
    RecordsInLedger(base, before, ret, d.block, cap, es);
    RecordsInLedger(base, heap.live, ret, d.block, cap, es + [EntryOf(m)]);
    if heap.refused == old(heap.refused) && Complete(before, d.block, |es|) {
      CompleteMore(before, heap.live, d.block, |es|, r);
    }
  }

  /** A strdup'ed name among the devices stays readable while records are built on top of it. */
  lemma NamedInBase(base: map<Ptr, Block>, live: map<Ptr, Block>, info: Ptr, arr: Ptr, cap: nat, es: seq<Entry>,
                    phys: Ptr, names: seq<string>)
    requires Building(base, live, info, arr, cap, es) && Named(base, phys, names)
    ensures Named(live, phys, names)
  {
    assert forall p :: p in base ==> p in Rest(live, info, arr) && live[p] == base[p];
  }

  /** The getmntent loop: at its head there is room for one more record, the cursor stands behind
      the last one, and copied elements and the initial five make up the capacity. */
  method ReadMounts(heap: Heap, ret: Ptr, first: Ptr, mounts: seq<Mount>, physical: bool, phys: Ptr, nphys: nat,
                    ghost base: map<Ptr, Block>, ghost devs: seq<string>)
    returns (ok: bool, ghost arr: Ptr, ghost copied: nat, ghost done: seq<Entry>)
    requires Building(base, heap.live, ret, first, 5, []) && |mounts| < 0x8000_0000
    requires nphys == |devs| && (nphys > 0 ==> Named(base, phys, devs))
    modifies heap
    ensures Building(base, heap.live, ret, arr, if ok then Capacity(5, |done|) else |done|, done)
    ensures ok ==> done == Selected(mounts, physical, devs) && copied + 5 == Capacity(5, |done|)
    ensures heap.refused >= old(heap.refused)
    ensures heap.refused == old(heap.refused) ==> ok && Complete(heap.live, arr, |done|)
  {
    hide Owned, Holds, Contents, Building, Named, Capacity, Wanted, Complete;
    var d, nparts := Cursor(first, 0), 5;
    var k := 0;
    ok, copied, done := true, 0, [];
    InitialCapacity(5);
    NoRecords(base, heap.live, ret, first, 5);
    while k < |mounts|
      invariant k <= |mounts| && done == Selected(mounts[..k], physical, devs) && d.index == |done|
      invariant nparts == Capacity(5, |done|) && copied + 5 == nparts && |done| < nparts
      invariant Building(base, heap.live, ret, d.block, nparts, done)
      invariant heap.refused >= old(heap.refused)
      invariant heap.refused == old(heap.refused) ==> Complete(heap.live, d.block, |done|)
      decreases |mounts| - k
    {
      SelectedMore(mounts, k, physical, devs);
      var entry := mounts[k];
      var skip := false;
      if physical {
        if nphys > 0 {
          NamedInBase(base, heap.live, ret, d.block, nparts, done, phys, devs);
        }
        var found := IsPhysical(heap, entry.kind, phys, nphys, devs);
        skip := !found;
      }
      assert skip <==> !Wanted(entry, physical, devs) by {
        WantedMeans(entry, physical, devs);
      }
      if !skip {
        d := AddMount(heap, ret, d, entry, base, nparts, done);
        CapacityMore(5, |done|);
        done := done + [EntryOf(entry)];
        copied := copied + if |done| == nparts then nparts else 0;
        ok, d, nparts := Records.Grow(heap, ret, d, nparts, base, done);
        if !ok {
          arr := d.block;
          return;
        }
      }
      k := k + 1;
    }
    assert mounts[..k] == mounts;
    arr := d.block;
  }

  lemma WantedMeans(m: Mount, physical: bool, devs: seq<string>)
    ensures Wanted(m, physical, devs) <==> (physical ==> m.kind in devs)
  {
  }

  // ----- the whole call

  /** How disk_partitions ends. */
  datatype End = ArrayRefused | TableNotOpen | GrowthFailed(devices: DevicesEnd) | Done(devices: DevicesEnd)

  /** How it ends when no request for memory is refused. */
  function Unrefused(mounts: Option<seq<Mount>>, filesystems: Option<string>): End {
    if mounts.Some? then Done(DevicesUnrefused(filesystems)) else TableNotOpen
  }

  /** How many blocks nobody can free any more: a failed growth forgets the device array and its
      names, and without /proc/filesystems the array is lost in any case. */
  function Forgotten(end: End, devs: seq<string>): nat {
    match end
    case GrowthFailed(Listed) => 1 + |devs|
    case GrowthFailed(Unreadable) => 1
    case Done(Unreadable) => 1
    case _ => 0
  }

  /** The device blocks of a ledger: the array and its strings. */
  ghost function DeviceBlocks(live: map<Ptr, Block>, arr: Ptr, names: seq<string>): set<Ptr>
    requires arr in live && live[arr].Ptrs? && |names| <= |live[arr].cells|
  {
    {arr} + Blocks(live[arr].cells[..|names|])
  }

  /** What get_physical_devices added lies beside the struct and its array. */
  lemma DevicesBeside(base: map<Ptr, Block>, live1: map<Ptr, Block>, live2: map<Ptr, Block>, ret: Ptr, arr: Ptr,
                      end: DevicesEnd, phys: Ptr, names: seq<string>, lost: set<Ptr>)
    requires Building(base, live1, ret, arr, 5, []) && Rest(live1, ret, arr) == base
    requires DevicesDone(live1, live2, end, phys, names, lost)
    ensures DevicesDone(base, Rest(live2, ret, arr), end, phys, names, lost)
    ensures Building(Rest(live2, ret, arr), live2, ret, arr, 5, [])
    ensures names != [] ==> Named(Rest(live2, ret, arr), phys, names)
  {
    hide DeviceArray, Owned, Contents, Named, Adds;
    if end.Listed? {
      ArrayBeside(base, live1, live2, ret, arr, phys, names);
    } else {
      AddsBeside(live1, live2, ret, arr, lost);
    }
    FirstShape(Rest(live2, ret, arr), live2, ret, arr, 5);
  }

  lemma AddsBeside(live1: map<Ptr, Block>, live2: map<Ptr, Block>, ret: Ptr, arr: Ptr, lost: set<Ptr>)
    requires Adds(live1, live2, lost) && ret in live1 && arr in live1
    ensures Adds(Rest(live1, ret, arr), Rest(live2, ret, arr), lost)
    ensures 0 !in live2 && ret in live2 && arr in live2 && live2[ret] == live1[ret] && live2[arr] == live1[arr]
  {
  }

  lemma ArrayBeside(base: map<Ptr, Block>, live1: map<Ptr, Block>, live2: map<Ptr, Block>, ret: Ptr, arr: Ptr,
                    phys: Ptr, names: seq<string>)
    requires ret in live1 && arr in live1 && Rest(live1, ret, arr) == base
    requires DeviceArray(live1, live2, phys, names)
    ensures DeviceArray(base, Rest(live2, ret, arr), phys, names) && Named(Rest(live2, ret, arr), phys, names)
    ensures 0 !in live2 && ret in live2 && arr in live2 && live2[ret] == live1[ret] && live2[arr] == live1[arr]
  {
    hide Owned, Holds, Named;
    var rest, ps := Rest(live2, ret, arr), live2[phys].cells[..|names|];
    assert phys != ret && phys != arr;
    assert rest - {phys} == Rest(live2 - {phys}, ret, arr);
    OwnedKeeps(live1, live2 - {phys}, ps);
    OwnedElsewhere(live1, live2 - {phys}, ps, ret, arr);
    HoldsElsewhere(live1, live2 - {phys}, ps, names, ret, arr);
    DeviceArrayBeside(base, rest, phys, names);
    ArrayIsNamed(base, rest, phys, names);
  }

  lemma DeviceArrayBeside(base: map<Ptr, Block>, rest: map<Ptr, Block>, phys: Ptr, names: seq<string>)
    requires phys != 0 && phys !in base && phys in rest && rest[phys].Ptrs? && |rest[phys].cells| == 100 && |names| <= 100
    requires Owned(base, rest - {phys}, rest[phys].cells[..|names|])
    requires Holds(rest - {phys}, rest[phys].cells[..|names|], names)
    requires forall i :: 0 <= i < |names| ==> rest[phys].cells[i] != 0
    ensures DeviceArray(base, rest, phys, names)
  {
  }

  /** Blocks of the base can go while the records stay. */
  lemma BaseShrinks(base: map<Ptr, Block>, live: map<Ptr, Block>, gone: set<Ptr>, info: Ptr, arr: Ptr, cap: nat,
                    es: seq<Entry>)
    requires Building(base, live, info, arr, cap, es) && gone <= base.Keys
    ensures gone <= live.Keys && Building(base - gone, live - gone, info, arr, cap, es)
  {
    hide Holds;
    var rest, recs := Rest(live, info, arr), live[arr].recs;
    assert Rest(live - gone, info, arr) == rest - gone;
    var ps := Strings(recs[..|es|]);
    assert Owned(base - gone, rest - gone, ps);
    forall i | 0 <= i < |es| ensures IsEntry(rest - gone, recs[i], es[i]) {
      assert IsEntry(rest, recs[i], es[i]);
      StringsOfRecord(recs, |es|, i);
      HoldsAway(rest, gone, recs[i].strs, es[i].fields);
    }
  }

  lemma HoldsAway(rest: map<Ptr, Block>, gone: set<Ptr>, ps: seq<Ptr>, fs: seq<string>)
    requires Holds(rest, ps, fs) && forall p :: p in ps && p != 0 ==> p !in gone
    ensures Holds(rest - gone, ps, fs)
  {
    forall j | 0 <= j < |ps| && ps[j] != 0 ensures ps[j] in rest - gone {
      assert ps[j] in ps;
    }
  }

  /** for (i < nphys_devices) free(phys_devices[i]); free(phys_devices); */
  method FreeDevices(heap: Heap, end: DevicesEnd, phys: Ptr, nphys: nat, ghost names: seq<string>,
                     ghost base: map<Ptr, Block>, ghost based: map<Ptr, Block>, ghost lost: set<Ptr>, ghost info: Ptr,
                     ghost arr: Ptr, ghost cap: nat, ghost es: seq<Entry>)
    returns (ghost base': map<Ptr, Block>)
    requires Building(based, heap.live, info, arr, cap, es) && nphys == |names|
    requires DevicesDone(base, based, end, phys, names, lost)
    modifies heap`live
    ensures Building(base', heap.live, info, arr, cap, es) && Adds(base, base', lost)
    ensures |lost| == Forgotten(Done(end), names)
    ensures Complete(old(heap.live), arr, |es|) ==> Complete(heap.live, arr, |es|)
  {
    hide Building, DeviceArray, Complete, Adds;
    NoNull(based, heap.live, info, arr, cap, es);
    base' := based;
    if phys == 0 {  // no names either
      heap.Free(phys);
      assert heap.live == old(heap.live);
      return;
    }
    base' := FreeDeviceArray(heap, phys, nphys, names, base, based, info, arr, cap, es);
  }

  method FreeDeviceArray(heap: Heap, phys: Ptr, nphys: nat, ghost names: seq<string>, ghost base: map<Ptr, Block>,
                         ghost based: map<Ptr, Block>, ghost info: Ptr, ghost arr: Ptr, ghost cap: nat, ghost es: seq<Entry>)
    returns (ghost base': map<Ptr, Block>)
    requires Building(based, heap.live, info, arr, cap, es) && nphys == |names|
    requires DeviceArray(base, based, phys, names)
    modifies heap`live
    ensures Complete(old(heap.live), arr, |es|) ==> Complete(heap.live, arr, |es|)
    ensures Building(base', heap.live, info, arr, cap, es) && base' == base && Adds(base, base', {})
  {
    hide Building, Owned, Holds, Distinct, Blocks, Adds;
    ghost var gone := DeviceBlocks(based, phys, names);
    DevicesGoAway(base, based, phys, names);
    NoNull(based, heap.live, info, arr, cap, es);
    BaseShrinks(based, heap.live, gone, info, arr, cap, es);
    SameInBase(based, heap.live, info, arr, cap, es);
    FreeAll(heap, heap.live[phys].cells[..nphys]);
    heap.Free(phys);
    assert heap.live == old(heap.live) - gone;
    base' := based - gone;
    RecordsInLedger(base', heap.live, info, arr, cap, es);
  }

  lemma NoNull(base: map<Ptr, Block>, live: map<Ptr, Block>, info: Ptr, arr: Ptr, cap: nat, es: seq<Entry>)
    requires Building(base, live, info, arr, cap, es)
    ensures 0 !in live
  {
  }

  lemma SameInBase(base: map<Ptr, Block>, live: map<Ptr, Block>, info: Ptr, arr: Ptr, cap: nat, es: seq<Entry>)
    requires Building(base, live, info, arr, cap, es)
    ensures forall p :: p in base ==> p in live && live[p] == base[p]
  {
    assert forall p :: p in base ==> p in Rest(live, info, arr);
  }

  lemma DevicesGoAway(base: map<Ptr, Block>, based: map<Ptr, Block>, phys: Ptr, names: seq<string>)
    requires DeviceArray(base, based, phys, names)
    ensures var ps := based[phys].cells[..|names|];
            Distinct(ps) && phys !in Blocks(ps) && DeviceBlocks(based, phys, names) <= based.Keys
    ensures based - DeviceBlocks(based, phys, names) == base && Adds(base, base, {})
  {
    ReleaseAll(base, based - {phys}, based[phys].cells[..|names|]);
  }

  /** What a failed growth leaves: the device array and each of its names, when there are any. */
  lemma ForgottenDevices(base: map<Ptr, Block>, based: map<Ptr, Block>, end: DevicesEnd, phys: Ptr, names: seq<string>,
                         lost: set<Ptr>) returns (all: set<Ptr>)
    requires DevicesDone(base, based, end, phys, names, lost)
    ensures Adds(base, based, all) && |all| == Forgotten(GrowthFailed(end), names)
    ensures end.Listed? ==> DeviceArray(base, based, phys, names)
  {
    hide Owned, Holds, Adds;
    all := lost;
    if end.Listed? {
      var ps := based[phys].cells[..|names|];
      DevicesApart(base, based, phys, ps);
      CountBlocks(ps);
      CountOneMore(phys, Blocks(ps));
      all := {phys} + Blocks(ps);
    }
  }

  lemma DevicesApart(base: map<Ptr, Block>, based: map<Ptr, Block>, phys: Ptr, ps: seq<Ptr>)
    requires phys != 0 && phys !in base && phys in based && Owned(base, based - {phys}, ps)
    ensures Distinct(ps) && phys !in Blocks(ps) && Adds(base, based, {phys} + Blocks(ps))
  {
  }

  lemma CountOneMore(p: Ptr, s: set<Ptr>)
    requires p !in s
    ensures |{p} + s| == 1 + |s|
  {
  }

  /** From get_physical_devices to the end of the loop and, unless a growth failed, the freeing of
      the devices. */
  method ListMounts(heap: Heap, info: Ptr, first: Ptr, mounts: seq<Mount>, filesystems: Option<string>, physical: bool,
                    ghost start: map<Ptr, Block>)
    returns (end: End, ghost arr: Ptr, ghost copied: nat, ghost es: seq<Entry>, ghost phys: Ptr, ghost devs: seq<string>,
             ghost base: map<Ptr, Block>, ghost lost: set<Ptr>)
    requires Building(start, heap.live, info, first, 5, []) && Rest(heap.live, info, first) == start
    requires |mounts| < 0x8000_0000 && (filesystems.Some? ==> |Devices(filesystems.value)| < 100)
    modifies heap
    ensures end.GrowthFailed? || end.Done?
    ensures devs == DevicesFound(end.devices, filesystems)
    ensures end.devices.Refused? || end.devices == DevicesUnrefused(filesystems)
    ensures Building(base, heap.live, info, arr, if end.Done? then Capacity(5, |es|) else |es|, es)
    ensures Adds(start, base, lost) && |lost| == Forgotten(end, devs)
    ensures end == GrowthFailed(Listed) ==> DeviceArray(start, base, phys, devs)
    ensures end.Done? ==> es == Selected(mounts, physical, devs) && copied + 5 == Capacity(5, |es|)
    ensures heap.refused >= old(heap.refused)
    ensures heap.refused == old(heap.refused) ==> end == Unrefused(Some(mounts), filesystems) && Complete(heap.live, arr, |es|)
  {
    hide Building, DeviceArray, DevicesDone, Selected, Capacity, Devices, Adds, Named, Complete;
    ghost var live1 := heap.live;
    NoNull(start, live1, info, first, 5, []);
    var devices: DevicesEnd, nphys: nat, ok: bool, devArray: Ptr;
    devices, devArray, nphys, devs, lost := GetPhysicalDevices(heap, filesystems);
    phys, base := devArray, Rest(heap.live, info, first);
    DevicesBeside(start, live1, heap.live, info, first, devices, phys, devs, lost);
    ok, arr, copied, es := ReadMounts(heap, info, first, mounts, physical, devArray, nphys, base, devs);
    if !ok {
      end := GrowthFailed(devices);
      lost := ForgottenDevices(start, base, devices, phys, devs, lost);
      return;
    }
    end := Done(devices);
    base := FreeDevices(heap, devices, devArray, nphys, devs, start, base, lost, info, arr, Capacity(5, |es|), es);
  }

  /** disk_partitions. A result has exactly the selected mounts, in order, four strings each. Apart
      from it the ledger gains the forgotten blocks, and no others, whether the call succeeds or
      fails; when no request for memory is refused, only a mount table that cannot be opened makes it
      fail. */
  method DiskPartitions(heap: Heap, mounts: Option<seq<Mount>>, filesystems: Option<string>, physical: bool)
    returns (ret: Ptr, end: End, ghost arr: Ptr, ghost copied: nat, ghost es: seq<Entry>, ghost phys: Ptr,
             ghost devs: seq<string>, ghost base: map<Ptr, Block>, ghost lost: set<Ptr>)
    requires 0 !in heap.live
    requires mounts.Some? ==> |mounts.value| < 0x8000_0000
    requires filesystems.Some? ==> |Devices(filesystems.value)| < 100
    modifies heap
    ensures ret != 0 <==> end.Done?
    ensures end.GrowthFailed? || end.Done? ==> && mounts.Some? && devs == DevicesFound(end.devices, filesystems)
                                               && (end.devices.Refused? || end.devices == DevicesUnrefused(filesystems))
    ensures end.TableNotOpen? ==> mounts.None?
    ensures heap.refused >= old(heap.refused)
    ensures heap.refused == old(heap.refused) ==> end == Unrefused(mounts, filesystems)
    ensures end.Done? ==> es == Selected(mounts.value, physical, devs) && copied + 5 == Capacity(5, |es|)
    ensures end.Done? ==> Building(base, heap.live, ret, arr, Capacity(5, |es|), es)
    ensures Adds(old(heap.live), if end.Done? then base else heap.live, lost) && |lost| == Forgotten(end, devs)
    ensures !end.Done? ==> (heap.live == old(heap.live) <==> Forgotten(end, devs) == 0)
    ensures end == GrowthFailed(Listed) ==> DeviceArray(old(heap.live), heap.live, phys, devs)
    ensures heap.refused == old(heap.refused) && end.Done? ==>
      Complete(heap.live, arr, |es|) && |heap.live.Keys| == |old(heap.live).Keys| + 4 * |es| + 2 + Forgotten(end, devs)
  {
    hide Building, DeviceArray, Selected, Capacity, Devices, Adds, Complete;
    ghost var start := heap.live;
    ret, arr, copied, es, phys, devs, base, lost := 0, 0, 0, [], 0, [], start, {};
    AddsNothing(start);
    LostOrNot(start, start, {});
    var info, partitions := StartResult(heap, 5);
    if partitions == 0 {
      end := ArrayRefused;
      return;
    }
    if mounts.None? {
      FreeInfo(heap, info, start, partitions, 5, []);
      end := TableNotOpen;
      return;
    }
    end, arr, copied, es, phys, devs, base, lost :=
      ListMounts(heap, info, partitions, mounts.value, filesystems, physical, start);
    LostOrNot(start, base, lost);
    if end.GrowthFailed? {
      FreeInfo(heap, info, base, arr, |es|, es);
      return;
    }
    ret := info;
    if heap.refused == old(heap.refused) {
      FourStringsEach(mounts.value, physical, devs);
      LedgerSize(base, heap.live, ret, arr, Capacity(5, |es|), es, 4);
    }
  }

  lemma {:induction false} FourStringsEach(ms: seq<Mount>, physical: bool, devs: seq<string>)
    ensures forall i :: 0 <= i < |Selected(ms, physical, devs)| ==> |Selected(ms, physical, devs)[i].fields| == 4
  {
    if ms != [] {
      FourStringsEach(ms[..|ms| - 1], physical, devs);
    }
  }

  /** Conservation: disk_partitions followed by free_disk_partition_info on its result, if there is
      one, restores the ledger unless a growth failed with the devices at hand, or /proc/filesystems
      could not be opened. When no request for memory is refused, it does so if and only if the mount
      table cannot be opened or /proc/filesystems can. */
  method BuildThenFree(heap: Heap, mounts: Option<seq<Mount>>, filesystems: Option<string>, physical: bool) returns (end: End)
    requires 0 !in heap.live
    requires mounts.Some? ==> |mounts.value| < 0x8000_0000
    requires filesystems.Some? ==> |Devices(filesystems.value)| < 100
    modifies heap
    ensures heap.live == old(heap.live) <==> match end
                                             case GrowthFailed(devices) => devices.Refused?
                                             case Done(devices) => !devices.Unreadable?
                                             case _ => true
    ensures heap.refused == old(heap.refused) ==> end == Unrefused(mounts, filesystems)
    ensures heap.refused == old(heap.refused) ==> (heap.live == old(heap.live) <==> mounts.None? || filesystems.Some?)
  {
    hide Building, Devices, Selected, Capacity, Adds;
    ghost var before := heap.live;
    var ret: Ptr;
    ghost var arr, copied, es, phys, devs, base, lost;
    ret, end, arr, copied, es, phys, devs, base, lost := DiskPartitions(heap, mounts, filesystems, physical);
    if ret != 0 {
      LostOrNot(before, base, lost);
      FreeInfo(heap, ret, base, arr, Capacity(5, |es|), es);
    }
  }
}
