/** OS X disk_partitions: the doubling array again, with the option string of the flags in each record. */
module OsxPartitions {
  import opened CText
  import opened Heap
  import opened Records
  import MountOptions
  import Partitions

  /** One file system of getfsstat; reachable tells whether stat succeeds on its device name. */
  datatype Statfs = Statfs(fromName: string, onName: string, typeName: string, flags: bv64, reachable: bool)

  /** A physical device has a path for a name, or at least a name stat can examine. */
  predicate Wanted(fs: Statfs, physical: bool) {
    physical ==> (fs.fromName != [] && fs.fromName[0] == '/') || fs.reachable
  }

  function OptionString(flags: bv64, masks: MountOptions.Masks): string
  {
    MountOptions.Built(flags, masks, MountOptions.COUNT)
  }

  /** The mount entry a file system becomes. */
  function MountOf(fs: Statfs, masks: MountOptions.Masks): Partitions.Mount
  {
    Partitions.Mount(fs.fromName, fs.onName, fs.typeName, OptionString(fs.flags, masks))
  }

  /** The file systems that become records. */
  function Selected(fss: seq<Statfs>, physical: bool, masks: MountOptions.Masks): (es: seq<Entry>)
    ensures |es| <= |fss|
  {
    if fss == [] then []
    else
      Selected(fss[..|fss| - 1], physical, masks)
      + if Wanted(fss[|fss| - 1], physical) then [Partitions.EntryOf(MountOf(fss[|fss| - 1], masks))] else []
  }

  lemma NothingSelected(fss: seq<Statfs>, physical: bool, masks: MountOptions.Masks)
    ensures Selected(fss[..0], physical, masks) == []
  {
  }

  lemma SelectedMore(fss: seq<Statfs>, k: nat, physical: bool, masks: MountOptions.Masks)
    requires k < |fss|
    ensures Wanted(fss[k], physical)
        ==> Selected(fss[..k + 1], physical, masks)
            == Selected(fss[..k], physical, masks) + [Partitions.EntryOf(MountOf(fss[k], masks))]
    ensures !Wanted(fss[k], physical) ==> Selected(fss[..k + 1], physical, masks) == Selected(fss[..k], physical, masks)
  {
    assert fss[..k + 1][..k] == fss[..k];
  }

  lemma {:induction false} FourStringsEach(fss: seq<Statfs>, physical: bool, masks: MountOptions.Masks)
    ensures forall i :: 0 <= i < |Selected(fss, physical, masks)| ==> |Selected(fss, physical, masks)[i].fields| == 4
  {
    hide OptionString;
    if fss != [] {
      FourStringsEach(fss[..|fss| - 1], physical, masks);
    }
  }

  /** The records of a result, read off what getfsstat gave. A file system is left out if and only if
      physical devices are asked for, its name does not start with a slash, and stat fails on it; entry
      i has the names of the i-th other one and the string of its flags. */
  lemma {:induction false} SelectedMeaning(fss: seq<Statfs>, physical: bool, masks: MountOptions.Masks)
    ensures var kept := Filter(fss, (fs: Statfs) => !(physical && !("/" <= fs.fromName) && !fs.reachable));
            var es := Selected(fss, physical, masks);
            && |es| == |kept|
            && forall i :: 0 <= i < |kept| ==>
                 es[i] == Entry([kept[i].fromName, kept[i].onName, kept[i].typeName,
                                 MountOptions.Built(kept[i].flags, masks, MountOptions.COUNT)], 0)
  {
    hide Filter, MountOptions.Built;
    if fss != [] {
      SelectedMeaning(fss[..|fss| - 1], physical, masks);
      FilterLast(fss, (fs: Statfs) => !(physical && !("/" <= fs.fromName) && !fs.reachable));
    }
  }

  /** What record i says of its file system: the mount options split back out of its fourth string. */
  lemma RecordsShowOptions(fss: seq<Statfs>, physical: bool, masks: MountOptions.Masks, i: nat)
    requires i < |Selected(fss, physical, masks)|
    ensures var kept := Filter(fss, (fs: Statfs) => !(physical && !("/" <= fs.fromName) && !fs.reachable));
            var e := Selected(fss, physical, masks)[i];
            && i < |kept| && |e.fields| == 4
            && Split(e.fields[3], {','}) == MountOptions.Options(kept[i].flags, masks, MountOptions.COUNT)
  {
    hide Filter, Selected, Split, MountOptions.Built, MountOptions.Options;
    SelectedMeaning(fss, physical, masks);
    var kept := Filter(fss, (fs: Statfs) => !(physical && !("/" <= fs.fromName) && !fs.reachable));
    MountOptions.OptionsRoundTrip(kept[i].flags, masks);
  }

  /** opts[0] = 0, then the tests; the string is copied into the record. */
  method ShowOptions(opts: array<char>, flags: bv64, masks: MountOptions.Masks) returns (s: string)
    requires opts.Length == 400
    modifies opts
    ensures s == OptionString(flags, masks)
  {
    hide MountOptions.Built;
    MountOptions.BuildOptions(opts, flags, masks);
    ReadStrIs(opts, 0, OptionString(flags, masks));
    s := ReadStr(opts, 0);
  }

  lemma MountShown(fs: Statfs, masks: MountOptions.Masks)
    ensures MountOf(fs, masks) == Partitions.Mount(fs.fromName, fs.onName, fs.typeName, OptionString(fs.flags, masks))
  {
  }

  /** The loop over the file systems; its head is that of the Linux loop. */
  method ReadMounts(heap: Heap, ret: Ptr, first: Ptr, fss: seq<Statfs>, physical: bool, masks: MountOptions.Masks,
                    ghost base: map<Ptr, Block>)
    returns (ok: bool, ghost arr: Ptr, ghost copied: nat, ghost done: seq<Entry>)
    requires Building(base, heap.live, ret, first, 5, []) && |fss| < 0x8000_0000
    modifies heap
    ensures Building(base, heap.live, ret, arr, if ok then Capacity(5, |done|) else |done|, done)
    ensures ok ==> done == Selected(fss, physical, masks) && copied + 5 == Capacity(5, |done|)
    ensures heap.refused >= old(heap.refused)
    ensures heap.refused == old(heap.refused) ==> ok && Complete(heap.live, arr, |done|)
  {
    hide Building, Capacity, Complete, OptionString, Selected, MountOf, Partitions.EntryOf;
    var opts := new char[400](_ => '\0');
    var d, nparts := Cursor(first, 0), 5;
    var k := 0;
    ok, copied, done := true, 0, [];
    InitialCapacity(5);
    NoRecords(base, heap.live, ret, first, 5);
    NothingSelected(fss, physical, masks);
    while k < |fss|
      invariant k <= |fss| && done == Selected(fss[..k], physical, masks) && d.index == |done|
      invariant nparts == Capacity(5, |done|) && copied + 5 == nparts && |done| < nparts
      invariant Building(base, heap.live, ret, d.block, nparts, done)
      invariant heap.refused >= old(heap.refused)
      invariant heap.refused == old(heap.refused) ==> Complete(heap.live, d.block, |done|)
      decreases |fss| - k
    {
      SelectedMore(fss, k, physical, masks);
      var fs := fss[k];
      var shown := ShowOptions(opts, fs.flags, masks);
      if !(physical && !(fs.fromName != [] && fs.fromName[0] == '/') && !fs.reachable) {
        var m := Partitions.Mount(fs.fromName, fs.onName, fs.typeName, shown);
        assert m == MountOf(fs, masks) by {
          MountShown(fs, masks);
        }
        d := Partitions.AddMount(heap, ret, d, m, base, nparts, done);
        CapacityMore(5, |done|);
        done := done + [Partitions.EntryOf(m)];
        copied := copied + if |done| == nparts then nparts else 0;
        ok, d, nparts := Grow(heap, ret, d, nparts, base, done);
        if !ok {
          arr := d.block;
          return;
        }
      }
      k := k + 1;
    }
    assert fss[..k] == fss;
    arr := d.block;
  }

  /** A block allocated under an empty result. */
  lemma ScratchUnder(base: map<Ptr, Block>, live: map<Ptr, Block>, live': map<Ptr, Block>, info: Ptr, first: Ptr, fs: Ptr)
    requires Building(base, live, info, first, 5, []) && Rest(live, info, first) == base && info != 0
    requires fs != 0 && fs !in live && live' == live[fs := Scratch]
    ensures fs !in base && Building(base[fs := Scratch], live', info, first, 5, [])
  {
    assert Rest(live', info, first) == base[fs := Scratch];
    FirstShape(base[fs := Scratch], live', info, first, 5);
  }

  /** free(fs) under the records. */
  method FreeScratch(heap: Heap, fs: Ptr, ghost base: map<Ptr, Block>, ghost info: Ptr, ghost arr: Ptr, ghost cap: nat,
                     ghost es: seq<Entry>)
    requires fs !in base && fs != 0 && Building(base[fs := Scratch], heap.live, info, arr, cap, es)
    modifies heap`live
    ensures Building(base, heap.live, info, arr, cap, es)
    ensures Complete(old(heap.live), arr, |es|) ==> Complete(heap.live, arr, |es|)
  {
    hide Building;
    Partitions.NoNull(base[fs := Scratch], heap.live, info, arr, cap, es);
    Partitions.BaseShrinks(base[fs := Scratch], heap.live, {fs}, info, arr, cap, es);
    assert base[fs := Scratch] - {fs} == base;
    heap.Free(fs);
    RecordsInLedger(base, heap.live, info, arr, cap, es);
  }

  /** The second getfsstat, the loop, and free(fs) on every way out. */
  method ListMounts(heap: Heap, info: Ptr, first: Ptr, fs: Ptr, mounts: Option<seq<Statfs>>, physical: bool,
                    masks: MountOptions.Masks, ghost base: map<Ptr, Block>)
    returns (ok: bool, ghost arr: Ptr, ghost cap: nat, ghost copied: nat, ghost es: seq<Entry>)
    requires fs !in base && fs != 0 && Building(base[fs := Scratch], heap.live, info, first, 5, [])
    requires (mounts.Some? ==> |mounts.value| < 0x8000_0000)
    modifies heap
    ensures Building(base, heap.live, info, arr, cap, es)
    ensures ok ==> mounts.Some? && es == Selected(mounts.value, physical, masks)
    ensures ok ==> cap == Capacity(5, |es|) && copied + 5 == cap
    ensures heap.refused >= old(heap.refused)
    ensures heap.refused == old(heap.refused) && mounts.Some? ==> ok && Complete(heap.live, arr, |es|)
  {
    hide Building, Selected, Capacity, Complete;
    ok, arr, cap, copied, es := false, first, 5, 0, [];
    if mounts.Some? {
      ok, arr, copied, es := ReadMounts(heap, info, first, mounts.value, physical, masks, base[fs := Scratch]);
      cap := if ok then Capacity(5, |es|) else |es|;
    }
    FreeScratch(heap, fs, base, info, arr, cap, es);
  }

  /** disk_partitions on OS X: counted tells whether the first getfsstat succeeds, mounts is what the
      second one gives. A result has exactly the selected file systems, in order, and nothing else is
      left in the ledger; every failure leaves the ledger as it began. It can only fail when getfsstat
      does or memory is refused. */
  method DiskPartitions(heap: Heap, counted: bool, mounts: Option<seq<Statfs>>, physical: bool, masks: MountOptions.Masks)
    returns (ret: Ptr, ghost arr: Ptr, ghost copied: nat, ghost es: seq<Entry>)
    requires 0 !in heap.live
    requires mounts.Some? ==> |mounts.value| < 0x8000_0000
    modifies heap
    ensures ret != 0 ==> counted && mounts.Some? && es == Selected(mounts.value, physical, masks)
    ensures ret != 0 ==> Building(old(heap.live), heap.live, ret, arr, Capacity(5, |es|), es)
    ensures ret != 0 ==> copied + 5 == Capacity(5, |es|)
    ensures ret == 0 ==> heap.live == old(heap.live)
    ensures heap.refused >= old(heap.refused)
    ensures heap.refused == old(heap.refused) && counted && mounts.Some? ==>
      ret != 0 && Complete(heap.live, arr, |es|) && |heap.live.Keys| == |old(heap.live).Keys| + 4 * |es| + 2
  {
    hide Building, Selected, Capacity, Complete;
    ghost var base := heap.live;
    ret, arr, copied, es := 0, 0, 0, [];
    var info, partitions := StartResult(heap, 5);
    if partitions == 0 {
      return;
    }
    if !counted {
      FreeInfo(heap, info, base, partitions, 5, []);
      return;
    }
    ghost var before := heap.live;
    Partitions.NoNull(base, before, info, partitions, 5, []);
    var fs := heap.Alloc(Scratch);
    if fs == 0 {
      FreeInfo(heap, info, base, partitions, 5, []);
      return;
    }
    ScratchUnder(base, before, heap.live, info, partitions, fs);
    var ok: bool;
    ghost var cap: nat;
    ok, arr, cap, copied, es := ListMounts(heap, info, partitions, fs, mounts, physical, masks, base);
    if !ok {
      FreeInfo(heap, info, base, arr, cap, es);
      return;
    }
    ret := info;
    if heap.refused == old(heap.refused) {
      FourStringsEach(mounts.value, physical, masks);
      LedgerSize(base, heap.live, ret, arr, cap, es, 4);
    }
  }

  /** Conservation: disk_partitions, whatever comes of it, followed by free_disk_partition_info on
      its result, if there is one, restores the ledger. */
  method BuildThenFree(heap: Heap, counted: bool, mounts: Option<seq<Statfs>>, physical: bool, masks: MountOptions.Masks)
    requires 0 !in heap.live
    requires mounts.Some? ==> |mounts.value| < 0x8000_0000
    modifies heap
    ensures heap.live == old(heap.live)
  {
    hide Building, Selected, Capacity;
    ghost var before := heap.live;
    var ret, arr, copied, es := DiskPartitions(heap, counted, mounts, physical, masks);
    if ret != 0 {
      FreeInfo(heap, ret, before, arr, Capacity(5, |es|), es);
    }
  }
}
