/** get_users and free_users_info. */
module Users {
  import opened CText
  import opened Heap
  import opened Records

  const USER_PROCESS: int := 7

  datatype Utmp = Utmp(kind: int, user: string, line: string, host: string, seconds: int)

  /** A record: username, tty, hostname, and the time stamp. */
  function EntryOf(u: Utmp): Entry {
    Entry([u.user, u.line, u.host], u.seconds)
  }

  /** The login records that become users. */
  function LoggedIn(us: seq<Utmp>): (es: seq<Entry>)
    ensures |es| <= |us|
  {
    if us == [] then []
    else
      LoggedIn(us[..|us| - 1]) + if us[|us| - 1].kind == USER_PROCESS then [EntryOf(us[|us| - 1])] else []
  }

  lemma LoggedInMore(us: seq<Utmp>, k: nat)
    requires k < |us|
    ensures us[k].kind == USER_PROCESS ==> LoggedIn(us[..k + 1]) == LoggedIn(us[..k]) + [EntryOf(us[k])]
    ensures us[k].kind != USER_PROCESS ==> LoggedIn(us[..k + 1]) == LoggedIn(us[..k])
  {
    assert us[..k + 1][..k] == us[..k];
  }

  /** The records of a result, read off the login table: entry i has the user, the line and the host of
      the i-th login record of kind 7 as its strings, in this order, and its time as the stamp. No
      other login record contributes. */
  lemma {:induction false} LoggedInMeaning(us: seq<Utmp>)
    ensures var kept := Filter(us, (u: Utmp) => u.kind == 7);
            && |LoggedIn(us)| == |kept|
            && forall i :: 0 <= i < |kept| ==>
                 LoggedIn(us)[i] == Entry([kept[i].user, kept[i].line, kept[i].host], kept[i].seconds)
  {
    hide Filter;
    if us != [] {
      LoggedInMeaning(us[..|us| - 1]);
      FilterLast(us, (u: Utmp) => u.kind == 7);
    }
  }

  lemma {:induction false} ThreeStringsEach(us: seq<Utmp>)
    ensures forall i :: 0 <= i < |LoggedIn(us)| ==> |LoggedIn(us)[i].fields| == 3
  {
    if us != [] {
      ThreeStringsEach(us[..|us| - 1]);
    }
  }

  /** How the loop ends: at the end of the table, or in the error block. A failed strdup comes after
      some of the record's strings have been made. */
  datatype End = Finished | GrowthFailed | StrdupFailed(already: nat)

  /** Three strdups, each checked; n counts the strings made, which are ps. */
  method DupFields(heap: Heap, u: Utmp, ghost before: map<Ptr, Block>) returns (r: Rec, n: nat, ghost ps: seq<Ptr>)
    requires before == heap.live && Owned(before, before, []) && Holds(before, [], [])
    modifies heap
    ensures Owned(before, heap.live, ps) && n == |ps| <= 3 && forall i :: 0 <= i < |ps| ==> ps[i] != 0
    ensures n == 3 ==> r.strs == ps && IsEntry(heap.live, r, EntryOf(u))
    ensures heap.refused == old(heap.refused) + if n == 3 then 0 else 1
  {
    hide Owned, Holds;
    ghost var fs: seq<string> := [];
    r, n, ps := NO_RECORD, 0, [];
    var username := Strdup(heap, u.user, before, ps, fs);
    if username == 0 {
      NullAddsNothing(before, heap.live, ps);
      return;
    }
    n, ps, fs := 1, ps + [username], fs + [u.user];
    var tty := Strdup(heap, u.line, before, ps, fs);
    if tty == 0 {
      NullAddsNothing(before, heap.live, ps);
      return;
    }
    n, ps, fs := 2, ps + [tty], fs + [u.line];
    var hostname := Strdup(heap, u.host, before, ps, fs);
    if hostname == 0 {
      NullAddsNothing(before, heap.live, ps);
      return;
    }
    n, ps, fs := 3, ps + [hostname], fs + [u.host];
    assert ps == [username, tty, hostname] && fs == EntryOf(u).fields;
    r := Rec([username, tty, hostname], u.seconds);
  }

  lemma NullAddsNothing(base: map<Ptr, Block>, live: map<Ptr, Block>, ps: seq<Ptr>)
    requires Owned(base, live, ps + [0])
    ensures Owned(base, live, ps)
  {
    BlocksMore(ps, 0);
    forall i, j | 0 <= i < j < |ps| && ps[i] != 0 ensures ps[i] != ps[j] {
      assert (ps + [0])[i] == ps[i] && (ps + [0])[j] == ps[j];
    }
  }

  /** The strings of an unfinished record join what nobody will free. */
  lemma PartialJoinsBase(base: map<Ptr, Block>, before: map<Ptr, Block>, live: map<Ptr, Block>, ps: seq<Ptr>,
                         info: Ptr, arr: Ptr, cap: nat, es: seq<Entry>) returns (based: map<Ptr, Block>)
    requires Building(base, before, info, arr, cap, es) && Owned(before, live, ps)
    requires forall i :: 0 <= i < |ps| ==> ps[i] != 0
    ensures Building(based, live, info, arr, cap, es)
    ensures Adds(base, based, Blocks(ps)) && |Blocks(ps)| == |ps|
  {
    hide Owned, Contents, Strings, Adds, Distinct;
    var ss := Strings(before[arr].recs[..|es|]);
    var rest, rest' := Rest(before, info, arr), Rest(live, info, arr);
    based := rest' - Blocks(ss);
    SameRecords(before, live, ps, info, arr);
    OwnedElsewhere(before, live, ps, info, arr);
    OwnSwap(base, rest, rest', ss, ps);
    ContentsKept(rest, rest', before[arr].recs, es);
    CountBlocks(ps);
  }

  lemma SameRecords(before: map<Ptr, Block>, live: map<Ptr, Block>, ps: seq<Ptr>, info: Ptr, arr: Ptr)
    requires Owned(before, live, ps) && info in before && arr in before
    ensures info in live && arr in live && live[info] == before[info] && live[arr] == before[arr] && 0 !in live
    ensures Distinct(ps)
  {
  }

  lemma OwnSwap(base: map<Ptr, Block>, rest: map<Ptr, Block>, rest': map<Ptr, Block>, ss: seq<Ptr>, ps: seq<Ptr>)
    requires Owned(base, rest, ss) && Owned(rest, rest', ps)
    ensures Owned(rest' - Blocks(ss), rest', ss)
    ensures Adds(base, rest' - Blocks(ss), Blocks(ps))
    ensures forall p :: p in rest ==> p in rest' && rest'[p] == rest[p]
  {
  }

  lemma NothingLost(base: map<Ptr, Block>, live: map<Ptr, Block>, info: Ptr, arr: Ptr, cap: nat, es: seq<Entry>)
    requires Building(base, live, info, arr, cap, es)
    ensures Adds(base, base, {})
  {
    assert forall p :: p in base ==> p in Rest(live, info, arr);
  }

  /** One login record: false leaves the strings of an unfinished record, lost. */
  method AddUser(heap: Heap, ret: Ptr, u: Cursor, ut: Utmp, ghost base: map<Ptr, Block>, ghost cap: nat, ghost es: seq<Entry>)
    returns (made: nat, u': Cursor, ghost based: map<Ptr, Block>, ghost lost: set<Ptr>)
    requires Building(base, heap.live, ret, u.block, cap, es) && u.index == |es| < cap
    requires Complete(heap.live, u.block, |es|)
    modifies heap
    ensures made <= 3 && heap.refused == old(heap.refused) + if made == 3 then 0 else 1
    ensures made == 3 ==> && Building(base, heap.live, ret, u.block, cap, es + [EntryOf(ut)])
                          && Complete(heap.live, u.block, |es| + 1) && u' == Cursor(u.block, u.index + 1)
    ensures made < 3 ==> && Building(based, heap.live, ret, u.block, cap, es) && Complete(heap.live, u.block, |es|)
                         && Adds(base, based, lost) && |lost| == made && u' == u
  {
    hide Owned, Holds, Contents, IsEntry, Building;
    ghost var before := heap.live;
    u', based, lost := u, base, {};
    StartOwning(base, before, ret, u.block, cap, es);
    ghost var ps: seq<Ptr>;
    var r: Rec;
    r, made, ps := DupFields(heap, ut, before);
    if made < 3 {
      based := PartialJoinsBase(base, before, heap.live, ps, ret, u.block, cap, es);
      lost := Blocks(ps);
      RecordsInLedger(base, before, ret, u.block, cap, es);
      SameRecords(before, heap.live, ps, ret, u.block);
      return;
    }
    u' := Append(heap, ret, u, r, base, before, cap, es, EntryOf(ut));
    RecordsInLedger(base, before, ret, u.block, cap, es);
    RecordsInLedger(base, heap.live, ret, u.block, cap, es + [EntryOf(ut)]);
    CompleteMore(before, heap.live, u.block, |es|, r);
  }

  /** The getutent loop. Whatever way it ends, the struct still owns the array it points to. */
  method ReadUsers(heap: Heap, ret: Ptr, first: Ptr, us: seq<Utmp>, ghost base: map<Ptr, Block>)
    returns (end: End, ghost arr: Ptr, ghost cap: nat, ghost copied: nat, ghost done: seq<Entry>,
             ghost based: map<Ptr, Block>, ghost lost: set<Ptr>)
    requires Building(base, heap.live, ret, first, 100, []) && |us| < 0x8000_0000
    modifies heap
    ensures Building(based, heap.live, ret, arr, cap, done) && Adds(base, based, lost)
    ensures Complete(heap.live, arr, |done|)
    ensures heap.refused == old(heap.refused) + if end.Finished? then 0 else 1
    ensures end.Finished? ==> done == LoggedIn(us) && cap == Capacity(100, |done|) && copied + 100 == cap
    ensures end.Finished? || end.GrowthFailed? ==> lost == {}
    ensures end.StrdupFailed? ==> |lost| == end.already < 3
  {
    hide Owned, Holds, Contents, Building, Capacity, Complete, Adds;
    var u, nusers := Cursor(first, 0), 100;
    var k := 0;
    copied, done, based, lost := 0, [], base, {};
    InitialCapacity(100);
    NothingLost(base, heap.live, ret, first, 100, []);
    NoRecords(base, heap.live, ret, first, 100);
    while k < |us|
      invariant k <= |us| && done == LoggedIn(us[..k]) && u.index == |done|
      invariant nusers == Capacity(100, |done|) && copied + 100 == nusers && |done| < nusers
      invariant Building(base, heap.live, ret, u.block, nusers, done) && Complete(heap.live, u.block, |done|)
      invariant heap.refused == old(heap.refused) && based == base && lost == {} && Adds(base, base, {})
      decreases |us| - k
    {
      LoggedInMore(us, k);
      if us[k].kind == USER_PROCESS {
        var made: nat;
        made, u, based, lost := AddUser(heap, ret, u, us[k], base, nusers, done);
        if made < 3 {
          end, arr, cap := StrdupFailed(made), u.block, nusers;
          return;
        }
        based, lost := base, {};
        CapacityMore(100, |done|);
        done := done + [EntryOf(us[k])];
        copied := copied + if |done| == nusers then nusers else 0;
        var ok: bool;
        ok, u, nusers := Grow(heap, ret, u, nusers, base, done);
        if !ok {
          end, arr, cap := GrowthFailed, u.block, nusers;
          return;
        }
      }
      k := k + 1;
    }
    assert us[..k] == us;
    end, arr, cap := Finished, u.block, nusers;
  }

  /** get_users. A result holds exactly the logged-in users, in order, three strings each, and the
      ledger nothing else. A failed allocation of the array or a failed growth leaves the ledger as
      it began: the struct still points to the old block, and the destructor releases everything.
      A failed strdup leaves the strings already made for its record, so the ledger is as it began
      if and only if it was the first of the three. */
  method GetUsers(heap: Heap, us: seq<Utmp>)
    returns (ret: Ptr, end: End, ghost arr: Ptr, ghost copied: nat, ghost lost: set<Ptr>)
    requires 0 !in heap.live && |us| < 0x8000_0000
    modifies heap
    ensures heap.refused == old(heap.refused) + if ret == 0 then 1 else 0
    ensures ret != 0 ==> Building(old(heap.live), heap.live, ret, arr, Capacity(100, |LoggedIn(us)|), LoggedIn(us))
    ensures ret != 0 ==> Complete(heap.live, arr, |LoggedIn(us)|) && copied + 100 == Capacity(100, |LoggedIn(us)|)
    ensures ret != 0 ==> |heap.live.Keys| == |old(heap.live).Keys| + 3 * |LoggedIn(us)| + 2
    ensures ret == 0 && !end.StrdupFailed? ==> heap.live == old(heap.live)
    ensures ret == 0 && end.StrdupFailed? ==> Adds(old(heap.live), heap.live, lost) && |lost| == end.already < 3
    ensures ret == 0 ==> (heap.live == old(heap.live) <==> !end.StrdupFailed? || end.already == 0)
  {
    hide Building, Complete, LoggedIn, Capacity;
    ghost var base := heap.live;
    ret, arr, copied, lost := 0, 0, 0, {};
    end := Finished;
    var info, users := StartResult(heap, 100);
    if users == 0 {
      return;
    }
    ghost var cap: nat, done: seq<Entry>, based: map<Ptr, Block>;
    end, arr, cap, copied, done, based, lost := ReadUsers(heap, info, users, us, base);
    if !end.Finished? {
      FreeInfo(heap, info, based, arr, cap, done);
      LostOrNot(base, based, lost);
      return;
    }
    LostOrNot(base, based, lost);
    ret := info;
    ThreeStringsEach(us);
    LedgerSize(base, heap.live, ret, arr, cap, done, 3);
  }

  /** Conservation: a successful get_users followed by free_users_info restores the ledger. */
  method BuildThenFree(heap: Heap, us: seq<Utmp>) returns (built: bool)
    requires 0 !in heap.live && |us| < 0x8000_0000
    modifies heap
    ensures built <==> heap.refused == old(heap.refused)
    ensures built ==> heap.live == old(heap.live)
  {
    hide Building, LoggedIn, Capacity;
    ghost var before := heap.live;
    var ret, end, arr, copied, lost := GetUsers(heap, us);
    built := ret != 0;
    if built {
      FreeInfo(heap, ret, before, arr, Capacity(100, |LoggedIn(us)|), LoggedIn(us));
    }
  }
}
