/** OS X net_io_counters: the routing messages sysctl returns, walked by their length prefixes. */
module IfMessages {
  import opened Buffers
  import opened CText
  import opened NetDev

  /** RTM_IFINFO2 of <net/route.h>. */
  const IFINFO2: int := 0x12

  /** struct if_msghdr starts with a 16-bit length (low byte first), a version and a type. */
  function MsgLen(b: seq<int>): int
    requires |b| >= 4
  {
    b[0] + 256 * b[1]
  }

  predicate IsInfo(b: seq<int>)
    requires |b| >= 4
  {
    b[3] == IFINFO2
  }

  /** The fields the walk reads from an RTM_IFINFO2 message: link-level name and counters. */
  datatype IfData = IfData(sdlData: string, nameLength: nat, obytes: int, ibytes: int, opackets: int, ipackets: int,
                           ierrors: int, oerrors: int, iqdrops: int)

  /** How the C structures lay these fields out in a message. */
  type Layout = seq<int> -> IfData

  /** strncpy of nameLength characters, then a NUL. */
  function NameOf(d: IfData): string {
    CStr(if d.nameLength <= |d.sdlData| then d.sdlData[..d.nameLength] else d.sdlData)
  }

  function RecordOf(d: IfData): NetIOCounters {
    NetIOCounters(NameOf(d), bytesSent := d.obytes, bytesRecv := d.ibytes, packetsSent := d.opackets,
                  packetsRecv := d.ipackets, errin := d.ierrors, errout := d.oerrors, dropin := d.iqdrops,
                  dropout := 0)
  }

  // ----- messages and buffers

  /** A message that states its own length. */
  predicate IsMessage(m: seq<int>) {
    |m| >= 4 && MsgLen(m) == |m|
  }

  predicate AreMessages(ms: seq<seq<int>>) {
    forall i {:trigger IsMessage(ms[i])} :: 0 <= i < |ms| ==> IsMessage(ms[i])
  }

  /** Where each message of the concatenation starts. */
  function Offsets(ms: seq<seq<int>>, from: nat): (os: seq<nat>)
    ensures |os| == |ms|
  {
    if ms == [] then [] else [from] + Offsets(ms[1..], from + |ms[0]|)
  }

  /** Message k starts where the ones before it end. */
  lemma {:induction false} OffsetsMeaning(ms: seq<seq<int>>, from: nat, k: nat)
    requires k < |ms|
    ensures Offsets(ms, from)[k] == from + |Flatten(ms[..k])|
  {
    if k > 0 {
      OffsetsMeaning(ms[1..], from + |ms[0]|, k - 1);
      assert ms[..k][0] == ms[0] && ms[..k][1..] == ms[1..][..k - 1];
    }
  }

  /** A buffer the walk can follow: every message start leaves room for its header and its length. */
  predicate Walkable(b: seq<int>)
    decreases |b|
  {
    b == [] || (|b| >= 4 && 4 <= MsgLen(b) <= |b| && Walkable(b[MsgLen(b)..]))
  }

  /** The messages the walk visits. */
  function Messages(b: seq<int>): (ms: seq<seq<int>>)
    requires Walkable(b)
    decreases |b|
  {
    if b == [] then [] else [b[..MsgLen(b)]] + Messages(b[MsgLen(b)..])
  }

  lemma OneMessage(m: seq<int>, rest: seq<int>)
    requires IsMessage(m)
    ensures MsgLen(m + rest) == |m| && (m + rest)[..|m|] == m && (m + rest)[|m|..] == rest
    ensures Walkable(m + rest) <==> Walkable(rest)
  {
    assert (m + rest)[|m|..] == rest;
  }

  /** Laying messages, each with its length in its first two bytes, low byte first, end to end gives a
      buffer whose walk visits exactly those messages. */
  lemma {:induction false} ConcatenationIsWalked(ms: seq<seq<int>>)
    requires forall m :: m in ms ==> |m| >= 4 && m[0] + 256 * m[1] == |m|
    ensures Walkable(Flatten(ms)) && Messages(Flatten(ms)) == ms
  {
    forall i | 0 <= i < |ms| ensures IsMessage(ms[i]) {
      assert ms[i] in ms;
    }
    MessagesAreWalked(ms);
  }

  lemma {:induction false} MessagesAreWalked(ms: seq<seq<int>>)
    requires AreMessages(ms)
    ensures Walkable(Flatten(ms)) && Messages(Flatten(ms)) == ms
  {
    hide IsMessage;
    if ms != [] {
      assert IsMessage(ms[0]);
      TailMessages(ms);
      MessagesAreWalked(ms[1..]);
      OneMessage(ms[0], Flatten(ms[1..]));
      FirstMessage(ms[0], Flatten(ms[1..]));
    }
  }

  lemma TailMessages(ms: seq<seq<int>>)
    requires AreMessages(ms) && ms != []
    ensures AreMessages(ms[1..])
  {
    hide IsMessage;
    forall i | 0 <= i < |ms[1..]| ensures IsMessage(ms[1..][i]) {
      assert IsMessage(ms[i + 1]);
    }
  }

  lemma FirstMessage(m: seq<int>, rest: seq<int>)
    requires IsMessage(m) && Walkable(rest)
    ensures Walkable(m + rest) && Messages(m + rest) == [m] + Messages(rest)
  {
    OneMessage(m, rest);
  }

  /** And every walkable buffer is such a concatenation. */
  lemma {:induction false} WalkedIsConcatenation(b: seq<int>)
    requires Walkable(b)
    ensures AreMessages(Messages(b)) && Flatten(Messages(b)) == b
    decreases |b|
  {
    if b != [] {
      var n := MsgLen(b);
      WalkedIsConcatenation(b[n..]);
      assert IsMessage(b[..n]);
      var ms := Messages(b);
      assert ms[0] == b[..n] && ms[1..] == Messages(b[n..]);
      forall i | 0 <= i < |ms| ensures IsMessage(ms[i]) {
        if i > 0 {
          assert IsMessage(Messages(b[n..])[i - 1]);
        }
      }
      assert b[..n] + b[n..] == b;
    }
  }

  // ----- the walk

  /** One record per RTM_IFINFO2 message, in order. */
  function Records(ms: seq<seq<int>>, layout: Layout): (rs: seq<NetIOCounters>)
    ensures |rs| <= |ms|
  {
    if ms == [] then []
    else
      Records(ms[..|ms| - 1], layout) + RecordsOfOne(ms[|ms| - 1], layout)
  }

  function RecordsOfOne(m: seq<int>, layout: Layout): seq<NetIOCounters> {
    if |m| >= 4 && IsInfo(m) then [RecordOf(layout(m))] else []
  }

  function InfoCount(ms: seq<seq<int>>): nat {
    if ms == [] then 0
    else InfoCount(ms[..|ms| - 1]) + if |ms[|ms| - 1]| >= 4 && IsInfo(ms[|ms| - 1]) then 1 else 0
  }

  lemma {:induction false} OneRecordPerInfo(ms: seq<seq<int>>, layout: Layout)
    ensures |Records(ms, layout)| == InfoCount(ms)
    decreases |ms|
  {
    if ms != [] {
      OneRecordPerInfo(ms[..|ms| - 1], layout);
    }
  }

  /** The records, read off the messages: record j has the data of the j-th message whose byte 3 is 18,
      every counter in its own field, no dropped output, and the name as far as its length and a NUL
      let it go. */
  lemma {:induction false} RecordsMeaning(ms: seq<seq<int>>, layout: Layout)
    ensures var rs, kept := Records(ms, layout), Filter(ms, (m: seq<int>) => |m| >= 4 && m[3] == 18);
            && |rs| == |kept|
            && forall j :: 0 <= j < |kept| ==> HasData(rs[j], layout(kept[j]))
    decreases |ms|
  {
    hide Filter, HasData, RecordOf;
    if ms != [] {
      var last := ms[|ms| - 1];
      RecordsMeaning(ms[..|ms| - 1], layout);
      FilterLast(ms, (m: seq<int>) => |m| >= 4 && m[3] == 18);
      RecordHasData(layout(last));
    }
  }

  ghost predicate HasData(r: NetIOCounters, d: IfData) {
    && r.bytesSent == d.obytes && r.bytesRecv == d.ibytes && r.packetsSent == d.opackets && r.packetsRecv == d.ipackets
    && r.errin == d.ierrors && r.errout == d.oerrors && r.dropin == d.iqdrops && r.dropout == 0
    && r.name <= d.sdlData && |r.name| <= d.nameLength && NoNul(r.name)
    && (|r.name| < d.nameLength && |r.name| < |d.sdlData| ==> d.sdlData[|r.name|] == '\0')
  }

  lemma RecordHasData(d: IfData)
    ensures HasData(RecordOf(d), d)
  {
  }

  lemma RecordsMore(ms: seq<seq<int>>, k: nat, layout: Layout)
    requires k < |ms| && |ms[k]| >= 4
    ensures Records(ms[..k + 1], layout)
         == var rs := Records(ms[..k], layout); if IsInfo(ms[k]) then rs + [RecordOf(layout(ms[k]))] else rs
  {
    assert ms[..k + 1][..k] == ms[..k];
  }

  lemma {:induction false} RecordsGrow(ms: seq<seq<int>>, k: nat, layout: Layout)
    requires k <= |ms|
    ensures |Records(ms[..k], layout)| <= |Records(ms, layout)|
    decreases |ms|
  {
    if k < |ms| {
      RecordsGrow(ms[..|ms| - 1], k, layout);
      assert ms[..|ms| - 1][..k] == ms[..k];
    } else {
      assert ms[..k] == ms;
    }
  }

  /** The walk stands at the start of message k. */
  ghost predicate AtMessage(b: seq<int>, next: nat, ms: seq<seq<int>>, k: nat) {
    && next <= |b| && k <= |ms| && Walkable(b[next..]) && Messages(b[next..]) == From(ms, k)
    && (next < |b| <==> k < |ms|)
  }

  lemma StepMessage(b: seq<int>, next: nat, ms: seq<seq<int>>, k: nat)
    requires AtMessage(b, next, ms, k) && next < |b|
    ensures k < |ms| && |b| - next >= 4 && |ms[k]| >= 4
    ensures var n := b[next] + 256 * b[next + 1];
            && 4 <= n <= |b| - next && ms[k] == b[next..next + n]
            && AtMessage(b, next + n, ms, k + 1)
    ensures IsInfo(ms[k]) <==> b[next + 3] == IFINFO2
  {
    var s := b[next..];
    var n := MsgLen(s);
    assert s[n..] == b[next + n..] && s[..n] == b[next..next + n];
    assert From(ms, k)[0] == ms[k] && From(ms, k)[1..] == From(ms, k + 1);
    assert ms[k] == s[..n];
    if next + n < |b| {
      assert Messages(s[n..]) != [];
    }
  }

  lemma OffsetsStep(ms: seq<seq<int>>, k: nat, next: nat)
    requires k < |ms|
    ensures Offsets(From(ms, k), next) == [next] + Offsets(From(ms, k + 1), next + |ms[k]|)
  {
    assert From(ms, k)[0] == ms[k] && From(ms, k)[1..] == From(ms, k + 1);
  }

  /** The body of the for loop: a record for an RTM_IFINFO2 message, and on to the next one. */
  method VisitMessage(buf: array<int>, counters: array<NetIOCounters>, layout: Layout, ifm: nat, n: nat,
                      ghost b: seq<int>, ghost ms: seq<seq<int>>, ghost k: nat) returns (next: nat, n': nat)
    requires Contains(buf, b) && AtMessage(b, ifm, ms, k) && ifm < |b| && |Records(ms, layout)| <= counters.Length
    requires n == |Records(ms[..k], layout)| && Starts(counters, Records(ms[..k], layout))
    modifies counters
    ensures k < |ms| && next == ifm + |ms[k]| > ifm && AtMessage(b, next, ms, k + 1)
    ensures n' == |Records(ms[..k + 1], layout)| && Starts(counters, Records(ms[..k + 1], layout))
  {
    hide Records, IsInfo, AtMessage, RecordOf, Starts;
    StepMessage(b, ifm, ms, k);
    RecordsMore(ms, k, layout);
    RecordsGrow(ms, k + 1, layout);
    var msglen := buf[ifm] + 256 * buf[ifm + 1];
    next, n' := ifm + msglen, n;
    assert buf[ifm..next] == ms[k];
    if buf[ifm + 3] == IFINFO2 {
      Push(counters, Records(ms[..k], layout), n, RecordOf(layout(buf[ifm..next])));
      n' := n + 1;
    }
  }

  /** The for loop of net_io_counters into an array of counters (15 in the library). It visits every
      message start once, in order, and stops at lim. */
  method WalkMessages(buf: array<int>, counters: array<NetIOCounters>, layout: Layout, ghost b: seq<int>)
    returns (ninterfaces: nat, ghost visited: seq<nat>, next: nat)
    requires Contains(buf, b) && Walkable(b)
    requires |Records(Messages(b), layout)| <= counters.Length
    requires forall m :: m in Messages(b) && |m| >= 4 && IsInfo(m) ==> layout(m).nameLength < 32
    modifies counters
    ensures next == buf.Length
    ensures visited == Offsets(Messages(b), 0)
    ensures ninterfaces == InfoCount(Messages(b)) && Starts(counters, Records(Messages(b), layout))
  {
    hide Walkable, Messages, Records, IsInfo, InfoCount, Offsets, Starts;
    ghost var ms := Messages(b);
    ghost var k := 0;
    next, ninterfaces, visited := 0, 0, [];
    WalkStarts(b, layout);
    NothingYet(counters);
    while next < buf.Length
      invariant AtMessage(b, next, ms, k)
      invariant ninterfaces == |Records(ms[..k], layout)| && Starts(counters, Records(ms[..k], layout))
      invariant visited + Offsets(From(ms, k), next) == Offsets(ms, 0)
      decreases buf.Length - next
    {
      visited := visited + [next];
      OffsetsStep(ms, k, next);
      next, ninterfaces := VisitMessage(buf, counters, layout, next, ninterfaces, b, ms, k);
      k := k + 1;
    }
    assert ms[..k] == ms;
    OneRecordPerInfo(ms, layout);
    WalkEnds(ms, k, next);
    assert visited + [] == visited;
  }

  lemma WalkStarts(b: seq<int>, layout: Layout)
    requires Walkable(b)
    ensures AtMessage(b, 0, Messages(b), 0)
    ensures Records(Messages(b)[..0], layout) == []
    ensures [] + Offsets(From(Messages(b), 0), 0) == Offsets(Messages(b), 0)
  {
    assert b[0..] == b;
  }

  lemma WalkEnds(ms: seq<seq<int>>, k: nat, next: nat)
    requires k == |ms|
    ensures Offsets(From(ms, k), next) == []
  {
    assert From(ms, k) == [];
  }
}
