/** The growing result arrays of disk_partitions and get_users, and their destructors. */
module Records {
  import opened Heap
  import opened Numbers

  /** A pointer into a record array. */
  datatype Cursor = Cursor(block: Ptr, index: nat)

  /** The strings of the records, in order. */
  function Strings(recs: seq<Rec>): seq<Ptr> {
    if recs == [] then [] else Strings(recs[..|recs| - 1]) + recs[|recs| - 1].strs
  }

  lemma StringsMore(recs: seq<Rec>, i: nat)
    requires i < |recs|
    ensures Strings(recs[..i + 1]) == Strings(recs[..i]) + recs[i].strs
  {
    assert recs[..i + 1][..i] == recs[..i];
  }

  lemma {:induction false} StringsPrefix(recs: seq<Rec>, i: nat)
    requires i <= |recs|
    ensures Strings(recs[..i]) <= Strings(recs)
    decreases |recs|
  {
    if i < |recs| {
      StringsPrefix(recs[..|recs| - 1], i);
      assert recs[..|recs| - 1][..i] == recs[..i];
    } else {
      assert recs[..i] == recs;
    }
  }

  lemma StringsOfRecord(recs: seq<Rec>, n: nat, i: nat)
    requires i < n <= |recs|
    ensures forall p :: p in recs[i].strs && p != 0 ==> p in Blocks(Strings(recs[..n]))
  {
    StringsMore(recs, i);
    StringsPrefix(recs[..n], i + 1);
    assert recs[..n][..i + 1] == recs[..i + 1];
    var a, all := Strings(recs[..i + 1]), Strings(recs[..n]);
    forall p | p in recs[i].strs && p != 0 ensures p in Blocks(all) {
      assert p in a;
      var j :| 0 <= j < |a| && a[j] == p;
      assert all[j] == p;
    }
  }

  /** Capacity after n records when it starts at c and doubles whenever it is reached. */
  function Capacity(c: nat, n: nat): (cap: nat)
    requires c >= 1
    ensures cap > n && cap >= c
    decreases n + 1 - c
  {
    if n < c then c else Capacity(2 * c, n)
  }

  /** The capacity is the initial one doubled some number of times; once it has grown it is at most
      twice the number of records, so less than twice that many elements were ever copied. */
  lemma {:induction false} CapacityBounds(c: nat, n: nat) returns (k: nat)
    requires c >= 1
    ensures Capacity(c, n) == c * Pow2(k)
    ensures Capacity(c, n) > c ==> Capacity(c, n) <= 2 * n
    ensures Capacity(c, n) - c <= 2 * n && (n > 0 ==> Capacity(c, n) - c < 2 * n)
    decreases n + 1 - c
  {
    if n < c {
      k := 0;
    } else {
      var j := CapacityBounds(2 * c, n);
      k := j + 1;
      DoubleFactor(c, Pow2(j));
    }
  }

  lemma DoubleFactor(c: nat, p: nat)
    ensures c * (2 * p) == 2 * c * p
  {
  }

  /** One more record doubles the capacity exactly when it fills the array. */
  lemma {:induction false} CapacityMore(c: nat, n: nat)
    requires c >= 1
    ensures Capacity(c, n + 1) == if n + 1 == Capacity(c, n) then 2 * Capacity(c, n) else Capacity(c, n)
    decreases n + 1 - c
  {
    if n >= c {
      CapacityMore(2 * c, n);
    }
  }

  // ----- the state of a builder

  /** What is left of the ledger without the result struct and the record array. */
  function Rest(live: map<Ptr, Block>, info: Ptr, arr: Ptr): map<Ptr, Block> {
    live - {info, arr}
  }

  /** The record holds the fields and the stamp of an entry. */
  ghost predicate IsEntry(live: map<Ptr, Block>, r: Rec, e: Entry) {
    Holds(live, r.strs, e.fields) && r.stamp == e.stamp
  }

  /** Record i holds es[i]. */
  ghost predicate Contents(live: map<Ptr, Block>, recs: seq<Rec>, es: seq<Entry>) {
    |es| <= |recs| && forall i {:trigger es[i]} :: 0 <= i < |es| ==> IsEntry(live, recs[i], es[i])
  }

  /** The struct and its array: |es| items of capacity cap. */
  ghost predicate Shape(live: map<Ptr, Block>, info: Ptr, arr: Ptr, cap: nat, n: nat) {
    && info != arr && info in live && live[info] == Info(n, arr)
    && arr in live && live[arr].Recs? && |live[arr].recs| == cap && n <= cap
  }

  /** Apart from base, the ledger holds exactly the struct, the array and the strings of the first
      |es| records, and those records are es. */
  ghost predicate Building(base: map<Ptr, Block>, live: map<Ptr, Block>, info: Ptr, arr: Ptr, cap: nat, es: seq<Entry>) {
    && 0 !in live && Shape(live, info, arr, cap, |es|)
    && info !in base && arr !in base
    && Owned(base, Rest(live, info, arr), Strings(live[arr].recs[..|es|]))
    && Contents(Rest(live, info, arr), live[arr].recs, es)
  }

  /** The struct alone, before there is an array. */
  ghost predicate Bare(base: map<Ptr, Block>, live: map<Ptr, Block>, info: Ptr) {
    0 !in live && info != 0 && info !in base && live == base[info := Info(0, 0)]
  }

  /** No record string is NULL. */
  ghost predicate Complete(live: map<Ptr, Block>, arr: Ptr, n: nat) {
    && arr in live && live[arr].Recs? && n <= |live[arr].recs|
    && forall i, j :: 0 <= i < n && 0 <= j < |live[arr].recs[i].strs| ==> live[arr].recs[i].strs[j] != 0
  }

  /** What a caller reads in a result in which no strdup failed: the number of items, the array, and in
      record i the stamp and every string of entry i, in new blocks. */
  lemma ResultReads(base: map<Ptr, Block>, live: map<Ptr, Block>, info: Ptr, arr: Ptr, cap: nat, es: seq<Entry>, i: nat)
    requires Building(base, live, info, arr, cap, es) && Complete(live, arr, |es|) && i < |es|
    ensures info in live && live[info] == Info(|es|, arr) && arr in live && live[arr].Recs? && i < |live[arr].recs|
    ensures var r := live[arr].recs[i];
            && r.stamp == es[i].stamp && |r.strs| == |es[i].fields|
            && forall j :: 0 <= j < |r.strs| ==>
                 r.strs[j] !in base && r.strs[j] in live && live[r.strs[j]] == Text(es[i].fields[j])
  {
    hide Owned;
    var rest, r := Rest(live, info, arr), live[arr].recs[i];
    assert IsEntry(rest, r, es[i]);
    forall j | 0 <= j < |r.strs| ensures r.strs[j] !in base {
      assert r.strs[j] in r.strs;
      StringsOfRecord(live[arr].recs, |es|, i);
      OwnedApart(base, rest, Strings(live[arr].recs[..|es|]));
    }
  }

  lemma OwnedApart(base: map<Ptr, Block>, live: map<Ptr, Block>, ps: seq<Ptr>)
    requires Owned(base, live, ps)
    ensures forall p :: p in Blocks(ps) ==> p !in base
  {
  }

  /** When no strdup failed, a result of n records with w strings each is n * w + 2 blocks. */
  lemma LedgerSize(base: map<Ptr, Block>, live: map<Ptr, Block>, info: Ptr, arr: Ptr, cap: nat, es: seq<Entry>, w: nat)
    requires Building(base, live, info, arr, cap, es) && Complete(live, arr, |es|)
    requires forall i :: 0 <= i < |es| ==> |es[i].fields| == w
    ensures |live.Keys| == |base.Keys| + 2 + |es| * w
  {
    var recs, rest := live[arr].recs[..|es|], Rest(live, info, arr);
    forall i | 0 <= i < |recs| ensures |recs[i].strs| == w && forall j :: 0 <= j < w ==> recs[i].strs[j] != 0 {
      assert IsEntry(rest, live[arr].recs[i], es[i]);
    }
    StringCount(recs, w);
    assert forall i :: 0 <= i < |Strings(recs)| ==> Strings(recs)[i] in Strings(recs);
    CountBlocks(Strings(recs));
    CountKeys(base, live, rest, info, arr, Strings(recs));
  }

  lemma CountKeys(base: map<Ptr, Block>, live: map<Ptr, Block>, rest: map<Ptr, Block>, info: Ptr, arr: Ptr, ps: seq<Ptr>)
    requires info != arr && info in live && arr in live && rest == Rest(live, info, arr) && Owned(base, rest, ps)
    ensures |live.Keys| == |base.Keys| + 2 + |Blocks(ps)|
  {
    assert live.Keys == rest.Keys + {info, arr};
    assert |{info, arr}| == 2;
    assert |rest.Keys| == |base.Keys| + |Blocks(ps)|;
  }

  lemma {:induction false} StringCount(recs: seq<Rec>, w: nat)
    requires forall i :: 0 <= i < |recs| ==> |recs[i].strs| == w && forall j :: 0 <= j < w ==> recs[i].strs[j] != 0
    ensures |Strings(recs)| == |recs| * w && forall p :: p in Strings(recs) ==> p != 0
    decreases |recs|
  {
    if recs != [] {
      var init, last := recs[..|recs| - 1], recs[|recs| - 1];
      StringCount(init, w);
      assert |recs| * w == (|recs| - 1) * w + w;
      assert forall p :: p in last.strs ==> p != 0;
    }
  }

  lemma InitialCapacity(c: nat)
    requires c >= 1
    ensures Capacity(c, 0) == c
  {
  }

  /** The struct with its first, empty array. */
  lemma FirstShape(base: map<Ptr, Block>, live: map<Ptr, Block>, ret: Ptr, arr: Ptr, cap: nat)
    requires 0 !in base && ret != 0 && arr != 0 && ret != arr && ret !in base && arr !in base
    requires arr in live && live[arr].Recs? && |live[arr].recs| == cap
    requires ret in live && live[ret] == Info(0, arr) && Rest(live, ret, arr) == base
    ensures Building(base, live, ret, arr, cap, [])
  {
    assert live[arr].recs[..0] == [];
    OwnedNothing(base);
  }

  /** The two callocs of a builder, and its error block when the one of the array fails. */
  method StartResult(heap: Heap, cap: nat) returns (info: Ptr, first: Ptr)
    requires 0 !in heap.live
    modifies heap
    ensures heap.refused == old(heap.refused) + if first == 0 then 1 else 0
    ensures first == 0 ==> heap.live == old(heap.live)
    ensures first != 0 ==> Building(old(heap.live), heap.live, info, first, cap, [])
    ensures first != 0 ==> info != 0 && Rest(heap.live, info, first) == old(heap.live)
  {
    hide Building;
    ghost var base := heap.live;
    first := heap.Alloc(Recs(seq(cap, _ => NO_RECORD)));
    info := heap.AllocOrDie(Info(0, 0));
    if first == 0 {
      FreeInfo(heap, info, base, 0, 0, []);
      return;
    }
    heap.live := heap.live[info := Info(0, first)];
    assert Rest(heap.live, info, first) == base;
    FirstShape(base, heap.live, info, first, cap);
  }

  // ----- adding a record

  lemma StartOwning(base: map<Ptr, Block>, live: map<Ptr, Block>, info: Ptr, arr: Ptr, cap: nat, es: seq<Entry>)
    requires Building(base, live, info, arr, cap, es)
    ensures 0 !in live && Owned(live, live, []) && Holds(live, [], [])
  {
    OwnedNothing(live);
  }

  /** The strings ps were allocated on top of a built ledger. */
  lemma AppendedOwned(base: map<Ptr, Block>, rest: map<Ptr, Block>, ss: seq<Ptr>, rest': map<Ptr, Block>, ps: seq<Ptr>)
    requires Owned(base, rest, ss) && Owned(rest, rest', ps)
    ensures Owned(base, rest', ss + ps)
  {
    var qs := ss + ps;
    assert forall q :: q in qs <==> q in ss || q in ps;
    assert Blocks(qs) == Blocks(ss) + Blocks(ps);
    forall i, j | 0 <= i < j < |qs| && qs[i] != 0 ensures qs[i] != qs[j] {
      if i < |ss| <= j {
        assert qs[i] in Blocks(ss) && (qs[j] == 0 || qs[j] in Blocks(ps));
      }
    }
  }

  lemma ContentsKept(rest: map<Ptr, Block>, rest': map<Ptr, Block>, recs: seq<Rec>, es: seq<Entry>)
    requires Contents(rest, recs, es)
    requires forall p :: p in rest ==> p in rest' && rest'[p] == rest[p]
    ensures Contents(rest', recs, es)
  {
    forall i | 0 <= i < |es| ensures IsEntry(rest', recs[i], es[i]) {
      assert IsEntry(rest, recs[i], es[i]);
    }
  }

  lemma ContentsMore(rest: map<Ptr, Block>, recs: seq<Rec>, es: seq<Entry>, r: Rec, e: Entry)
    requires Contents(rest, recs, es) && |es| < |recs| && IsEntry(rest, r, e)
    ensures Contents(rest, recs[|es| := r], es + [e])
  {
    hide IsEntry;
    var recs' := recs[|es| := r];
    forall i | 0 <= i < |es + [e]| ensures IsEntry(rest, recs'[i], (es + [e])[i]) {
      if i < |es| {
        assert IsEntry(rest, recs[i], es[i]);
      }
    }
  }

  /** *d = the record; ret->nitems++; d++ */
  method Append(heap: Heap, info: Ptr, d: Cursor, r: Rec, ghost base: map<Ptr, Block>, ghost before: map<Ptr, Block>,
                ghost cap: nat, ghost es: seq<Entry>, ghost e: Entry) returns (d': Cursor)
    requires Building(base, before, info, d.block, cap, es) && d.index == |es| < cap
    requires Owned(before, heap.live, r.strs) && IsEntry(heap.live, r, e)
    modifies heap`live
    ensures Building(base, heap.live, info, d.block, cap, es + [e]) && d' == Cursor(d.block, d.index + 1)
    ensures heap.live[d.block] == Recs(before[d.block].recs[|es| := r])
  {
    hide Owned, Holds, Contents;
    ghost var mid := heap.live;
    OwnedKeeps(before, mid, r.strs);
    var recs := heap.live[d.block].recs[d.index := r];
    heap.live := heap.live[d.block := Recs(recs)];
    heap.live := heap.live[info := Info(heap.live[info].nitems + 1, heap.live[info].arr)];
    AppendLemma(base, before, mid, heap.live, info, d.block, cap, es, r, e);
    d' := Cursor(d.block, d.index + 1);
  }

  lemma OwnedKeeps(base: map<Ptr, Block>, live: map<Ptr, Block>, ps: seq<Ptr>)
    requires Owned(base, live, ps)
    ensures 0 !in live && forall p :: p in base ==> p in live && live[p] == base[p]
  {
  }

  lemma OwnedElsewhere(before: map<Ptr, Block>, mid: map<Ptr, Block>, ps: seq<Ptr>, info: Ptr, arr: Ptr)
    requires Owned(before, mid, ps) && info in before && arr in before
    ensures Owned(Rest(before, info, arr), Rest(mid, info, arr), ps)
  {
  }

  lemma HoldsElsewhere(before: map<Ptr, Block>, mid: map<Ptr, Block>, ps: seq<Ptr>, fs: seq<string>, info: Ptr, arr: Ptr)
    requires Owned(before, mid, ps) && Holds(mid, ps, fs) && info in before && arr in before
    ensures Holds(Rest(mid, info, arr), ps, fs)
  {
    forall j | 0 <= j < |ps| && ps[j] != 0 ensures ps[j] in Rest(mid, info, arr) {
      assert ps[j] in Blocks(ps);
    }
  }

  lemma AppendLemma(base: map<Ptr, Block>, before: map<Ptr, Block>, mid: map<Ptr, Block>, after: map<Ptr, Block>,
                    info: Ptr, arr: Ptr, cap: nat, es: seq<Entry>, r: Rec, e: Entry)
    requires Building(base, before, info, arr, cap, es) && |es| < cap
    requires Owned(before, mid, r.strs) && IsEntry(mid, r, e)
    requires after == mid[arr := Recs(before[arr].recs[|es| := r])][info := Info(|es| + 1, arr)]
    ensures Building(base, after, info, arr, cap, es + [e])
  {
    hide Owned, Holds, Contents, Strings;
    var recs, recs' := before[arr].recs, before[arr].recs[|es| := r];
    OwnedKeeps(before, mid, r.strs);
    var rest := Rest(mid, info, arr);
    assert Rest(after, info, arr) == rest;
    OwnedElsewhere(before, mid, r.strs, info, arr);
    HoldsElsewhere(before, mid, r.strs, e.fields, info, arr);
    AppendedOwned(base, Rest(before, info, arr), Strings(recs[..|es|]), rest, r.strs);
    StringsMore(recs', |es|);
    assert recs'[..|es|] == recs[..|es|];
    OwnedKeeps(Rest(before, info, arr), rest, r.strs);
    ContentsKept(Rest(before, info, arr), rest, recs, es);
    ContentsMore(rest, recs, es, r, e);
  }

  /** Appending a record without NULLs keeps every record without NULLs. */
  lemma CompleteMore(before: map<Ptr, Block>, live: map<Ptr, Block>, arr: Ptr, n: nat, r: Rec)
    requires Complete(before, arr, n) && n < |before[arr].recs|
    requires arr in live && live[arr] == Recs(before[arr].recs[n := r])
    requires forall j :: 0 <= j < |r.strs| ==> r.strs[j] != 0
    ensures Complete(live, arr, n + 1)
  {
  }

  lemma RecordsInLedger(base: map<Ptr, Block>, live: map<Ptr, Block>, info: Ptr, arr: Ptr, cap: nat, es: seq<Entry>)
    requires Building(base, live, info, arr, cap, es)
    ensures Shape(live, info, arr, cap, |es|)
  {
  }

  lemma NoRecords(base: map<Ptr, Block>, live: map<Ptr, Block>, info: Ptr, arr: Ptr, cap: nat)
    requires Building(base, live, info, arr, cap, [])
    ensures Complete(live, arr, 0)
  {
  }

  // ----- growing

  /** if (ret->nitems == capacity): double, and move the struct and the cursor to wherever the array
      is now. When realloc fails nothing has changed. */
  method Grow(heap: Heap, info: Ptr, d: Cursor, cap: nat, ghost base: map<Ptr, Block>, ghost es: seq<Entry>)
    returns (ok: bool, d': Cursor, cap': nat)
    requires Building(base, heap.live, info, d.block, cap, es) && d.index == |es|
    requires |es| == cap ==> 2 * cap < U32
    modifies heap
    ensures heap.refused == old(heap.refused) + if ok then 0 else 1
    ensures !ok ==> heap.live == old(heap.live) && |es| == cap && d' == d && cap' == cap
    ensures ok ==> Building(base, heap.live, info, d'.block, cap', es) && d'.index == |es|
    ensures ok ==> cap' == if |es| == cap then 2 * cap else cap
    ensures ok && Complete(old(heap.live), d.block, |es|) ==> Complete(heap.live, d'.block, |es|)
  {
    hide Owned, Contents;
    ok, d', cap' := true, d, cap;
    if heap.live[info].nitems == cap {
      ghost var before := heap.live;
      cap' := cap * 2 % U32;
      var q := heap.Realloc(d.block, cap');
      if q == 0 {
        return false, d, cap;
      }
      heap.live := heap.live[info := Info(heap.live[info].nitems, q)];
      d' := Cursor(q, heap.live[info].nitems);
      GrowLemma(base, before, heap.live, info, d.block, q, cap, es);
    }
  }

  lemma GrowLemma(base: map<Ptr, Block>, before: map<Ptr, Block>, after: map<Ptr, Block>, info: Ptr, arr: Ptr, q: Ptr,
                  cap: nat, es: seq<Entry>)
    requires Building(base, before, info, arr, cap, es) && |es| == cap
    requires q != 0 && (q == arr || q !in before)
    requires after == (before - {arr})[q := Recs(Grown(before[arr].recs, 2 * cap))][info := Info(|es|, q)]
    ensures Building(base, after, info, q, 2 * cap, es)
    ensures Complete(before, arr, |es|) ==> Complete(after, q, |es|)
  {
    hide Owned, Contents, Strings;
    var recs := before[arr].recs;
    assert info in Rest(before, info, arr) <==> false;
    assert q != info;
    assert Rest(after, info, q) == Rest(before, info, arr);
    BaseInLive(base, Rest(before, info, arr), Strings(recs[..|es|]));
    assert Grown(recs, 2 * cap)[..|es|] == recs[..|es|];
    MoreRoom(Rest(before, info, arr), recs, Grown(recs, 2 * cap), es);
  }

  lemma BaseInLive(base: map<Ptr, Block>, live: map<Ptr, Block>, ps: seq<Ptr>)
    requires Owned(base, live, ps)
    ensures forall p :: p in base ==> p in live
  {
  }

  lemma MoreRoom(rest: map<Ptr, Block>, recs: seq<Rec>, more: seq<Rec>, es: seq<Entry>)
    requires Contents(rest, recs, es) && |recs| <= |more| && more[..|recs|] == recs
    ensures Contents(rest, more, es)
  {
    hide IsEntry;
    forall i | 0 <= i < |es| ensures IsEntry(rest, more[i], es[i]) {
      assert IsEntry(rest, recs[i], es[i]);
      assert more[i] == more[..|recs|][i];
    }
  }

  // ----- the destructors

  /** free_disk_partition_info and free_users_info: the strings of every record, the array, the
      struct. What is left is the ledger the builder started from. */
  method FreeInfo(heap: Heap, di: Ptr, ghost base: map<Ptr, Block>, ghost arr: Ptr, ghost cap: nat, ghost es: seq<Entry>)
    requires Bare(base, heap.live, di) || Building(base, heap.live, di, arr, cap, es)
    modifies heap`live
    ensures heap.live == base
  {
    hide Owned, Contents, Strings, Blocks;
    var n, parts := heap.live[di].nitems, heap.live[di].arr;
    if n > 0 || parts != 0 {  // there is an array to walk
      FreeStrings(heap, parts, n, di, base, cap, es);
    }
    heap.Free(parts);
    heap.Free(di);
  }

  /** while (di->nitems--) free the strings of *d++ */
  method FreeStrings(heap: Heap, arr: Ptr, n: nat, ghost info: Ptr, ghost base: map<Ptr, Block>, ghost cap: nat, ghost es: seq<Entry>)
    requires Building(base, heap.live, info, arr, cap, es) && n == |es|
    modifies heap`live
    ensures heap.live.Keys == base.Keys + {info, arr} && 0 !in heap.live
    ensures forall p :: p in base ==> heap.live[p] == base[p]
  {
    hide Owned, Contents, Strings, Blocks;
    ghost var all := heap.live;
    ghost var recs := heap.live[arr].recs;
    var d, left := Cursor(arr, 0), n;
    NoBlocks(all, recs);
    while left > 0
      invariant d.block == arr && d.index + left == n
      invariant heap.live == all - Blocks(Strings(recs[..d.index]))
      decreases left
    {
      left := left - 1;
      FreeStep(base, all, info, arr, recs, n, d.index);
      FreeAll(heap, heap.live[d.block].recs[d.index].strs);
      d := Cursor(d.block, d.index + 1);
    }
    assert recs[..n] == recs[..|es|];
    Released(base, all, info, arr, Strings(recs[..n]));
  }

  lemma NoBlocks(all: map<Ptr, Block>, recs: seq<Rec>)
    ensures all == all - Blocks(Strings(recs[..0]))
  {
    assert Strings(recs[..0]) == [];
    assert Blocks([]) == {};
  }

  /** The strings of record i are still live when its turn comes, and the array is too. */
  lemma FreeStep(base: map<Ptr, Block>, all: map<Ptr, Block>, info: Ptr, arr: Ptr, recs: seq<Rec>, n: nat, i: nat)
    requires i < n <= |recs| && arr in all && all[arr] == Recs(recs) && 0 !in all
    requires Owned(base, Rest(all, info, arr), Strings(recs[..n]))
    ensures var gone := Blocks(Strings(recs[..i]));
            && arr !in gone && Distinct(recs[i].strs) && Blocks(recs[i].strs) <= (all - gone).Keys
            && all - gone - Blocks(recs[i].strs) == all - Blocks(Strings(recs[..i + 1]))
  {
    hide Strings;
    StringsMore(recs, i);
    StringsPrefix(recs[..n], i + 1);
    assert recs[..n][..i + 1] == recs[..i + 1];
    SplitOwned(base, Rest(all, info, arr), Strings(recs[..i]), recs[i].strs, Strings(recs[..n]));
  }

  lemma SplitOwned(base: map<Ptr, Block>, rest: map<Ptr, Block>, a: seq<Ptr>, b: seq<Ptr>, ps: seq<Ptr>)
    requires Owned(base, rest, ps) && a + b <= ps
    ensures Distinct(b) && Blocks(a) <= rest.Keys && Blocks(b) <= rest.Keys - Blocks(a)
    ensures Blocks(a + b) == Blocks(a) + Blocks(b)
  {
    assert forall q :: q in a + b <==> q in a || q in b;
    assert forall i :: 0 <= i < |a| ==> ps[i] == a[i];
    assert forall i :: 0 <= i < |b| ==> ps[|a| + i] == b[i];
    assert forall q :: q in a ==> q in ps;
    assert forall q :: q in b ==> q in ps;
  }

  lemma Released(base: map<Ptr, Block>, all: map<Ptr, Block>, info: Ptr, arr: Ptr, ps: seq<Ptr>)
    requires Owned(base, Rest(all, info, arr), ps) && info in all && arr in all
    requires info !in base && arr !in base
    ensures (all - Blocks(ps)).Keys == base.Keys + {info, arr}
    ensures forall p :: p in base ==> (all - Blocks(ps))[p] == base[p]
  {
  }
}
