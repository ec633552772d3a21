/** The C heap as a ledger of live blocks, and who owns them. */
module Heap {
  /** 0 is NULL. */
  type Ptr = nat

  /** A result record: its strings, and a time stamp for users. */
  datatype Rec = Rec(strs: seq<Ptr>, stamp: int)

  datatype Block =
    | Text(s: string)
    | Scratch
    | Ptrs(cells: seq<Ptr>)
    | Recs(recs: seq<Rec>)
    | Info(nitems: nat, arr: Ptr)

  const NO_RECORD := Rec([], 0)

  /** What a record stands for. */
  datatype Entry = Entry(fields: seq<string>, stamp: int)

  /** What realloc keeps, and what it adds. */
  function Grown(recs: seq<Rec>, size: nat): (r: seq<Rec>)
    requires |recs| <= size
    ensures |r| == size && r[..|recs|] == recs
  {
    recs + seq(size - |recs|, _ => NO_RECORD)
  }

  class Heap {
    var live: map<Ptr, Block>

    /** How many requests for memory were refused so far. */
    ghost var refused: nat

    /** calloc or strdup: a block not in use, or NULL. */
    method Alloc(b: Block) returns (p: Ptr)
      requires 0 !in live
      modifies this
      ensures 0 !in live && refused == old(refused) + if p == 0 then 1 else 0
      ensures p == 0 ==> live == old(live)
      ensures p != 0 ==> p !in old(live) && live == old(live)[p := b]
    {
      var enough: bool := *;
      if !enough {
        refused := refused + 1;
        return 0;
      }
      p := AllocOrDie(b);
    }

    /** An allocation whose failure the library does not survive. */
    method AllocOrDie(b: Block) returns (p: Ptr)
      requires 0 !in live
      modifies this`live
      ensures 0 !in live && p != 0 && p !in old(live) && live == old(live)[p := b]
    {
      ghost var q := Unused(live.Keys);
      p :| p != 0 && p !in live;
      live := live[p := b];
    }

    /** free(p): NULL is ignored, anything else must be live. */
    method Free(p: Ptr)
      requires p == 0 || p in live
      requires 0 !in live
      modifies this`live
      ensures live == old(live) - {p}
    {
      live := live - {p};
    }

    /** realloc of a record array (section 7.22.3.5 of ISO C11): NULL and nothing changed, or the
        grown array in the same or in another place. */
    method Realloc(p: Ptr, size: nat) returns (q: Ptr)
      requires 0 !in live && p in live && live[p].Recs? && |live[p].recs| <= size
      modifies this
      ensures 0 !in live && refused == old(refused) + if q == 0 then 1 else 0
      ensures q == 0 ==> live == old(live)
      ensures q != 0 ==> q == p || q !in old(live)
      ensures q != 0 ==> live == (old(live) - {p})[q := Recs(Grown(old(live)[p].recs, size))]
    {
      var enough: bool, stay: bool := *, *;
      if !enough {
        refused := refused + 1;
        return 0;
      }
      var recs := Grown(live[p].recs, size);
      if stay {
        live := (live - {p})[p := Recs(recs)];
        return p;
      }
      q := AllocOrDie(Recs(recs));
      Free(p);
    }
  }

  lemma Unused(used: set<Ptr>) returns (p: Ptr)
    ensures p != 0 && p !in used
  {
    p := Above(used);
  }

  lemma {:induction false} Above(used: set<Ptr>) returns (p: Ptr)
    ensures p != 0 && forall q :: q in used ==> q < p
    decreases |used|
  {
    if used == {} {
      p := 1;
    } else {
      var q :| q in used;
      var r := Above(used - {q});
      p := if q < r then r else q + 1;
      assert forall x :: x in used ==> x == q || x in used - {q};
    }
  }

  // ----- ownership

  /** The blocks among some pointers. */
  function Blocks(ps: seq<Ptr>): set<Ptr> {
    set p | p in ps && p != 0
  }

  /** No block is pointed to twice. */
  ghost predicate Distinct(ps: seq<Ptr>) {
    forall i, j :: 0 <= i < j < |ps| && ps[i] != 0 ==> ps[i] != ps[j]
  }

  /** The ledger live is base and, apart from it, exactly the blocks ps. */
  ghost predicate Owned(base: map<Ptr, Block>, live: map<Ptr, Block>, ps: seq<Ptr>) {
    && 0 !in live && Distinct(ps)
    && live.Keys == base.Keys + Blocks(ps) && base.Keys !! Blocks(ps)
    && forall p :: p in base ==> live[p] == base[p]
  }

  /** Each pointer is NULL or holds its string. */
  ghost predicate Holds(live: map<Ptr, Block>, ps: seq<Ptr>, fs: seq<string>) {
    |ps| == |fs| && forall j :: 0 <= j < |ps| ==> ps[j] == 0 || (ps[j] in live && live[ps[j]] == Text(fs[j]))
  }

  lemma BlocksMore(ps: seq<Ptr>, p: Ptr)
    ensures Blocks(ps + [p]) == Blocks(ps) + if p == 0 then {} else {p}
  {
    assert forall q :: q in ps + [p] <==> q in ps || q == p;
  }

  lemma DistinctMore(ps: seq<Ptr>, p: Ptr)
    requires Distinct(ps) && (p == 0 || p !in Blocks(ps))
    ensures Distinct(ps + [p])
  {
    var qs := ps + [p];
    forall i, j | 0 <= i < j < |qs| && qs[i] != 0 ensures qs[i] != qs[j] {
      if j == |ps| {
        assert ps[i] in ps;
      }
    }
  }

  lemma OwnedNothing(base: map<Ptr, Block>)
    requires 0 !in base
    ensures Owned(base, base, [])
  {
    assert Blocks([]) == {};
  }

  /** After an allocation the new block is owned too. */
  lemma OwnMore(base: map<Ptr, Block>, live: map<Ptr, Block>, ps: seq<Ptr>, p: Ptr, b: Block, live': map<Ptr, Block>)
    requires Owned(base, live, ps) && 0 !in live'
    requires p == 0 ==> live' == live
    requires p != 0 ==> p !in live && live' == live[p := b]
    ensures Owned(base, live', ps + [p])
  {
    BlocksMore(ps, p);
    assert p != 0 ==> p !in Blocks(ps);
    DistinctMore(ps, p);
  }

  lemma HoldMore(live: map<Ptr, Block>, ps: seq<Ptr>, fs: seq<string>, p: Ptr, s: string, live': map<Ptr, Block>)
    requires Holds(live, ps, fs)
    requires p == 0 ==> live' == live
    requires p != 0 ==> p !in live && live' == live[p := Text(s)]
    ensures Holds(live', ps + [p], fs + [s])
  {
  }

  /** strdup into the owned strings. */
  method Strdup(heap: Heap, s: string, ghost base: map<Ptr, Block>, ghost ps: seq<Ptr>, ghost fs: seq<string>) returns (p: Ptr)
    requires Owned(base, heap.live, ps) && Holds(heap.live, ps, fs)
    modifies heap
    ensures Owned(base, heap.live, ps + [p]) && Holds(heap.live, ps + [p], fs + [s])
    ensures heap.refused == old(heap.refused) + if p == 0 then 1 else 0
    ensures p == 0 ==> heap.live == old(heap.live)
    ensures p != 0 ==> p !in old(heap.live) && heap.live == old(heap.live)[p := Text(s)]
  {
    hide Owned, Holds;
    ghost var before := heap.live;
    assert 0 !in heap.live by {
      OwnedHasNoNull(base, heap.live, ps);
    }
    p := heap.Alloc(Text(s));
    OwnMore(base, before, ps, p, Text(s), heap.live);
    HoldMore(before, ps, fs, p, s, heap.live);
  }

  lemma OwnedHasNoNull(base: map<Ptr, Block>, live: map<Ptr, Block>, ps: seq<Ptr>)
    requires Owned(base, live, ps)
    ensures 0 !in live
  {
  }

  /** Freeing strings one after the other: no block twice, and all of them gone. */
  method FreeAll(heap: Heap, ps: seq<Ptr>)
    requires 0 !in heap.live && Distinct(ps) && Blocks(ps) <= heap.live.Keys
    modifies heap`live
    ensures heap.live == old(heap.live) - Blocks(ps)
  {
    ghost var all := heap.live;
    var i := 0;
    while i < |ps|
      invariant i <= |ps| && heap.live == all - Blocks(ps[..i])
    {
      BlocksMore(ps[..i], ps[i]);
      assert ps[..i + 1] == ps[..i] + [ps[i]];
      assert ps[i] != 0 ==> ps[i] in Blocks(ps);
      assert ps[i] != 0 ==> ps[i] !in ps[..i];
      heap.Free(ps[i]);
      i := i + 1;
    }
    assert ps[..i] == ps;
  }

  /** Releasing everything owned restores the ledger. */
  lemma ReleaseAll(base: map<Ptr, Block>, live: map<Ptr, Block>, ps: seq<Ptr>)
    requires Owned(base, live, ps)
    ensures live - Blocks(ps) == base
  {
  }

  lemma {:induction false} CountBlocks(ps: seq<Ptr>)
    requires Distinct(ps) && forall i :: 0 <= i < |ps| ==> ps[i] != 0
    ensures |Blocks(ps)| == |ps|
  {
    if ps == [] {
      assert Blocks(ps) == {};
    } else {
      var init, last := ps[..|ps| - 1], ps[|ps| - 1];
      CountBlocks(init);
      BlocksMore(init, last);
      assert ps == init + [last];
      assert last !in init;
    }
  }

  /** The ledger live is base and, apart from it, exactly the blocks lost. */
  ghost predicate Adds(base: map<Ptr, Block>, live: map<Ptr, Block>, lost: set<Ptr>) {
    && 0 !in live && live.Keys == base.Keys + lost && base.Keys !! lost
    && forall p :: p in base ==> live[p] == base[p]
  }

  lemma AddsNothing(base: map<Ptr, Block>)
    requires 0 !in base
    ensures Adds(base, base, {})
  {
  }

  /** A ledger that adds blocks is the old one if and only if it adds none. */
  lemma LostOrNot(base: map<Ptr, Block>, live: map<Ptr, Block>, lost: set<Ptr>)
    requires Adds(base, live, lost)
    ensures live == base <==> lost == {}
    ensures lost == {} <==> |lost| == 0
    ensures |live.Keys| == |base.Keys| + |lost|
  {
  }
}
