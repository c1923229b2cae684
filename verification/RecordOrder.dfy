/**
 The order in which the viewer merges its readers (cyber/record/record_viewer.cc, Init): any order that
 std::sort may leave, which sorts by the times in the files' headers and decides nothing between equal ones.
 */
module RecordOrder {
  import opened RecordReader
  import opened RecordViewer
  import RecordWriter

  // ------------------------------------------------------------ parts of a stream

  lemma BothParts(a: seq<Message>, b: seq<Message>)
    requires Sorted(a + b)
    ensures Sorted(a) && Sorted(b) && (Positive(a + b) ==> Positive(a) && Positive(b))
  {
    assert forall k | 0 <= k < |a| :: (a + b)[k] == a[k];
    assert forall k | 0 <= k < |b| :: (a + b)[|a| + k] == b[k];
  }

  lemma {:induction false} PartOfStream(parts: seq<seq<Message>>, i: nat)
    requires i < |parts| && Sorted(RecordWriter.Concat(parts))
    ensures Sorted(parts[i]) && (Positive(RecordWriter.Concat(parts)) ==> Positive(parts[i]))
  {
    hide Sorted, Positive;
    var n := |parts| - 1;
    BothParts(RecordWriter.Concat(parts[..n]), parts[n]);
    if i < n { PartOfStream(parts[..n], i); }
  }

  lemma {:induction false} LaterPart(parts: seq<seq<Message>>, i: nat, bound: nat)
    requires i < |parts| && parts[i] != []
    requires forall k | 0 <= k < |RecordWriter.Concat(parts)| :: RecordWriter.Concat(parts)[k].time <= bound
    ensures parts[i][|parts[i]| - 1].time <= bound
  {
    var n := |parts| - 1;
    var front, last, all := RecordWriter.Concat(parts[..n]), parts[n], RecordWriter.Concat(parts);
    assert forall k | 0 <= k < |front| :: all[k] == front[k];
    if i < n {
      LaterPart(parts[..n], i, bound);
    } else {
      assert all[|all| - 1] == last[|last| - 1];
    }
  }

  /** The files of an ordered stream follow each other in time. */
  lemma {:induction false} FilesInTimeOrder(parts: seq<seq<Message>>, i: nat, j: nat)
    requires i < j < |parts| && parts[i] != [] && parts[j] != [] && Sorted(RecordWriter.Concat(parts))
    ensures parts[i][|parts[i]| - 1].time <= parts[j][0].time
  {
    var n := |parts| - 1;
    var front, last, all := RecordWriter.Concat(parts[..n]), parts[n], RecordWriter.Concat(parts);
    assert forall k | 0 <= k < |front| :: all[k] == front[k];
    if j < n {
      BothParts(front, last);
      FilesInTimeOrder(parts[..n], i, j);
    } else {
      assert all[|front|] == last[0];
      LaterPart(parts[..n], i, last[0].time);
    }
  }

  // ------------------------------------------------------------ orders of the files

  /** The times in the header of a file written in order; an empty file has none. */
  function Begin(part: seq<Message>): nat {
    if part == [] then 0 else part[0].time
  }

  function End(part: seq<Message>): nat {
    if part == [] then 0 else part[|part| - 1].time
  }

  /** The comparison of the sort. */
  predicate Earlier(begin1: nat, end1: nat, begin2: nat, end2: nat) {
    if begin1 == begin2 then end1 < end2 else begin1 < begin2
  }

  ghost predicate IsOrder(order: seq<nat>, n: nat) {
    && |order| == n && (forall i | 0 <= i < n :: order[i] < n) && (forall x: nat | x < n :: x in order)
    && (forall i, j | 0 <= i < j < n :: order[i] != order[j])
  }

  ghost function Arranged(parts: seq<seq<Message>>, order: seq<nat>): seq<seq<Message>>
    requires forall i | 0 <= i < |order| :: order[i] < |parts|
  {
    seq(|order|, i requires 0 <= i < |order| => parts[order[i]])
  }

  ghost predicate PartEarlier(parts: seq<seq<Message>>, a: nat, b: nat)
    requires a < |parts| && b < |parts|
  {
    Earlier(Begin(parts[a]), End(parts[a]), Begin(parts[b]), End(parts[b]))
  }

  /** An order the sort may leave. */
  ghost predicate Admissible(parts: seq<seq<Message>>, order: seq<nat>) {
    IsOrder(order, |parts|) && forall i, j | 0 <= i < j < |order| :: !PartEarlier(parts, order[j], order[i])
  }

  /** Two files with messages and the same header times. */
  ghost predicate Tied(parts: seq<seq<Message>>, a: nat, b: nat) {
    && a < |parts| && b < |parts| && a != b && parts[a] != [] && parts[b] != []
    && Begin(parts[a]) == Begin(parts[b]) && End(parts[a]) == End(parts[b])
  }

  ghost predicate NoTies(parts: seq<seq<Message>>) {
    forall a: nat, b: nat :: !Tied(parts, a, b)
  }

  /** Merging in this order is merging in the order of the files. */
  ghost predicate SameMerge(parts: seq<seq<Message>>, order: seq<nat>)
    requires IsOrder(order, |parts|)
  {
    forall time: nat :: At(Arranged(parts, order), time) == At(parts, time)
  }

  // ------------------------------------------------------------ selecting from an order

  /** The entries of an order that lie in a set. */
  ghost function Picks(order: seq<nat>, hits: set<nat>): seq<nat> {
    if order == [] then [] else
      var k := |order| - 1;
      Picks(order[..k], hits) + if order[k] in hits then [order[k]] else []
  }

  lemma {:induction false} PicksElements(order: seq<nat>, hits: set<nat>)
    ensures forall x: nat :: x in Picks(order, hits) <==> x in order && x in hits
  {
    if order != [] {
      var k := |order| - 1;
      PicksElements(order[..k], hits);
      assert order == order[..k] + [order[k]];
    }
  }

  ghost predicate Rising(s: seq<nat>) {
    forall i, j | 0 <= i < j < |s| :: s[i] < s[j]
  }

  lemma {:induction false} PicksRise(order: seq<nat>, hits: set<nat>)
    requires forall i, j | 0 <= i < j < |order| && order[i] in hits && order[j] in hits :: order[i] < order[j]
    ensures Rising(Picks(order, hits))
  {
    if order != [] {
      var k := |order| - 1;
      PicksRise(order[..k], hits);
      PicksElements(order[..k], hits);
      forall x | x in Picks(order[..k], hits) && order[k] in hits
        ensures x < order[k]
      {
        var i :| 0 <= i < k && order[..k][i] == x;
        assert order[i] == x;
      }
      var picks := Picks(order[..k], hits);
      assert forall i | 0 <= i < |picks| :: picks[i] in picks;
    }
  }

  /** Rising sequences with the same elements are equal. */
  lemma {:induction false} RisingUnique(a: seq<nat>, b: seq<nat>)
    requires Rising(a) && Rising(b) && forall x: nat :: x in a <==> x in b
    ensures a == b
  {
    assert (a != [] ==> a[0] in b) && (b != [] ==> b[0] in a);
    if a != [] {
      var m, n := |a| - 1, |b| - 1;
      assert a[m] in b && b[n] in a;
      assert a[m] == b[n];
      forall x: nat
        ensures x in a[..m] <==> x in b[..n]
      {
        assert x in a <==> x in a[..m] || x == a[m];
        assert x in b <==> x in b[..n] || x == b[n];
      }
      RisingUnique(a[..m], b[..n]);
      assert a == a[..m] + [a[m]] && b == b[..n] + [b[n]];
    }
  }

  lemma AtMore(files: seq<seq<Message>>, f: seq<Message>, time: nat)
    ensures At([], time) == []
    ensures At(files + [f], time) == At(files, time) + Window(f, time, time)
  {
    assert (files + [f])[..|files|] == files;
  }

  lemma Associative(a: seq<Message>, b: seq<Message>, c: seq<Message>)
    ensures (a + b) + c == a + (b + c) && a + [] == a
  {
  }

  lemma ArrangedMore(parts: seq<seq<Message>>, order: seq<nat>, x: nat)
    requires (forall i | 0 <= i < |order| :: order[i] < |parts|) && x < |parts|
    ensures Arranged(parts, order + [x]) == Arranged(parts, order) + [parts[x]]
  {
  }

  /** Files without a message of a time do not matter for it. */
  lemma {:induction false} AtOfPicks(parts: seq<seq<Message>>, order: seq<nat>, hits: set<nat>, time: nat)
    requires forall i | 0 <= i < |order| :: order[i] < |parts|
    requires forall i | 0 <= i < |order| && order[i] !in hits :: Window(parts[order[i]], time, time) == []
    ensures forall i | 0 <= i < |Picks(order, hits)| :: Picks(order, hits)[i] < |parts|
    ensures At(Arranged(parts, order), time) == At(Arranged(parts, Picks(order, hits)), time)
  {
    if order != [] {
      hide At, Arranged, Window;
      var front, x := order[..|order| - 1], order[|order| - 1];
      assert order == front + [x];
      AtOfPicks(parts, front, hits, time);
      ArrangedMore(parts, front, x);
      AtMore(Arranged(parts, front), parts[x], time);
      var picks := Picks(front, hits);
      if x in hits {
        assert Picks(order, hits) == picks + [x];
        ArrangedMore(parts, picks, x);
        AtMore(Arranged(parts, picks), parts[x], time);
      } else {
        assert Picks(order, hits) == picks;
        Associative(At(Arranged(parts, front), time), [], []);
      }
    }
  }

  function Identity(n: nat): seq<nat> {
    seq(n, i => i)
  }

  // ------------------------------------------------------------ without ties the order is the files' own

  /** Of two files that both hold messages, the one written earlier is the earlier one to the sort. */
  lemma WrittenEarlierIsEarlier(parts: seq<seq<Message>>, a: nat, b: nat)
    requires Sorted(RecordWriter.Concat(parts)) && NoTies(parts)
    requires a < b < |parts| && parts[a] != [] && parts[b] != []
    ensures PartEarlier(parts, a, b)
  {
    FilesInTimeOrder(parts, a, b);
    PartOfStream(parts, a);
    PartOfStream(parts, b);
    assert !Tied(parts, a, b);
  }

  lemma WrittenOrderKept(parts: seq<seq<Message>>, order: seq<nat>, i: nat, j: nat)
    requires Sorted(RecordWriter.Concat(parts)) && Admissible(parts, order) && NoTies(parts)
    requires i < j < |order| && parts[order[i]] != [] && parts[order[j]] != []
    ensures order[i] < order[j]
  {
    assert !PartEarlier(parts, order[j], order[i]);
    if order[j] < order[i] { WrittenEarlierIsEarlier(parts, order[j], order[i]); }
  }

  lemma SameAt(parts: seq<seq<Message>>, order: seq<nat>, time: nat)
    requires Sorted(RecordWriter.Concat(parts)) && Admissible(parts, order) && NoTies(parts)
    ensures At(Arranged(parts, order), time) == At(parts, time)
  {
    var n := |parts|;
    var hits := set x: nat | x < n && parts[x] != [];
    forall i | 0 <= i < n && parts[i] == []
      ensures Window(parts[i], time, time) == []
    {
    }
    AtOfPicks(parts, order, hits, time);
    AtOfPicks(parts, Identity(n), hits, time);
    assert Arranged(parts, Identity(n)) == parts;
    forall i, j | 0 <= i < j < |order| && order[i] in hits && order[j] in hits
      ensures order[i] < order[j]
    {
      WrittenOrderKept(parts, order, i, j);
    }
    PicksRise(order, hits);
    PicksRise(Identity(n), hits);
    PicksElements(order, hits);
    PicksElements(Identity(n), hits);
    forall x: nat | x < n
      ensures x in Identity(n)
    {
      assert Identity(n)[x] == x;
    }
    RisingUnique(Picks(order, hits), Picks(Identity(n), hits));
  }

  // ------------------------------------------------------------ with ties it is not determined

  function Swapped(order: seq<nat>, i: nat, j: nat): seq<nat>
    requires i < |order| && j < |order|
  {
    order[i := order[j]][j := order[i]]
  }

  lemma SwapAdmissible(parts: seq<seq<Message>>, order: seq<nat>, i: nat, j: nat)
    requires Admissible(parts, order) && i < j < |order| && Tied(parts, order[i], order[j])
    ensures Admissible(parts, Swapped(order, i, j))
  {
    var other := Swapped(order, i, j);
    forall x: nat | x < |parts|
      ensures x in other
    {
      assert x in order;
      var k :| 0 <= k < |order| && order[k] == x;
      assert other[if k == i then j else if k == j then i else k] == x;
    }
    forall p, q | 0 <= p < q < |other|
      ensures !PartEarlier(parts, other[q], other[p])
    {
      assert !PartEarlier(parts, order[q], order[p]);
    }
  }

  lemma {:induction false} AtConcat(a: seq<seq<Message>>, b: seq<seq<Message>>, time: nat)
    ensures At(a + b, time) == At(a, time) + At(b, time)
  {
    hide At, Window;
    if b == [] {
      assert a + b == a;
      AtMore([], [], time);
    } else {
      var front, last := b[..|b| - 1], b[|b| - 1];
      assert front + [last] == b && a + b == (a + front) + [last];
      AtConcat(a, front, time);
      AtMore(a + front, last, time);
      AtMore(front, last, time);
      Associative(At(a, time), At(front, time), Window(last, time, time));
    }
  }

  /** What the merge of one time begins with, behind the files before position i. */
  lemma AtBehind(parts: seq<seq<Message>>, order: seq<nat>, i: nat, time: nat)
    requires (forall k | 0 <= k < |order| :: order[k] < |parts|) && i < |order|
    requires Window(parts[order[i]], time, time) != []
    ensures var before := At(Arranged(parts, order[..i]), time);
      var all := At(Arranged(parts, order), time);
      |before| < |all| && all[|before|] == Window(parts[order[i]], time, time)[0]
  {
    var front, one, rest := Arranged(parts, order[..i]), [parts[order[i]]], Arranged(parts, order[i + 1..]);
    assert Arranged(parts, order) == front + (one + rest);
    AtConcat(front, one + rest, time);
    AtConcat(one, rest, time);
    AtOne(parts[order[i]], time);
  }

  lemma {:induction false} OneTime(ms: seq<Message>, time: nat)
    requires Between(ms, time, time)
    ensures Window(ms, time, time) == ms
  {
    if ms != [] { OneTime(ms[1..], time); }
  }

  /** Two tied files hold one and the same time only. */
  lemma TiedHoldOneTime(parts: seq<seq<Message>>, a: nat, b: nat)
    requires Sorted(RecordWriter.Concat(parts)) && Tied(parts, a, b)
    ensures Window(parts[a], Begin(parts[a]), Begin(parts[a])) == parts[a]
    ensures Window(parts[b], Begin(parts[a]), Begin(parts[a])) == parts[b]
  {
    PartOfStream(parts, a);
    PartOfStream(parts, b);
    if a < b { FilesInTimeOrder(parts, a, b); } else { FilesInTimeOrder(parts, b, a); }
    OneTime(parts[a], Begin(parts[a]));
    OneTime(parts[b], Begin(parts[a]));
  }

  lemma SwapDiffers(parts: seq<seq<Message>>, order: seq<nat>, i: nat, j: nat)
    requires Sorted(RecordWriter.Concat(parts)) && Admissible(parts, order)
    requires i < j < |order| && Tied(parts, order[i], order[j]) && parts[order[i]][0] != parts[order[j]][0]
    ensures var time := Begin(parts[order[i]]);
      At(Arranged(parts, order), time) != At(Arranged(parts, Swapped(order, i, j)), time)
  {
    var other, time := Swapped(order, i, j), Begin(parts[order[i]]);
    TiedHoldOneTime(parts, order[i], order[j]);
    assert other[..i] == order[..i];
    AtBehind(parts, order, i, time);
    AtBehind(parts, other, i, time);
  }

  ghost predicate DistinctStarts(parts: seq<seq<Message>>) {
    forall a, b | 0 <= a < b < |parts| && parts[a] != [] && parts[b] != [] :: parts[a][0] != parts[b][0]
  }

  /** Exactly when the merge of a recording keeps the written order whatever the sort does with equal keys: when no two
      of its files with messages have the same header times.  The given order is the one the sort left. */
  lemma WrittenOrderExactly(parts: seq<seq<Message>>, order: seq<nat>)
    requires Sorted(RecordWriter.Concat(parts)) && DistinctStarts(parts) && Admissible(parts, order)
    ensures (forall o | Admissible(parts, o) :: SameMerge(parts, o)) <==> NoTies(parts)
  {
    hide Sorted, At, DistinctStarts;
    if NoTies(parts) {
      forall o | Admissible(parts, o)
        ensures SameMerge(parts, o)
      {
        forall time: nat ensures At(Arranged(parts, o), time) == At(parts, time) { SameAt(parts, o, time); }
      }
    } else {
      var a: nat, b: nat :| Tied(parts, a, b);
      assert a in order && b in order;
      var i :| 0 <= i < |order| && order[i] == a;
      var j :| 0 <= j < |order| && order[j] == b;
      if i < j { TieIsOpen(parts, order, i, j); } else { TieIsOpen(parts, order, j, i); }
    }
  }

  lemma TieIsOpen(parts: seq<seq<Message>>, order: seq<nat>, i: nat, j: nat)
    requires Sorted(RecordWriter.Concat(parts)) && DistinctStarts(parts) && Admissible(parts, order)
    requires i < j < |order| && Tied(parts, order[i], order[j])
    ensures exists o :: Admissible(parts, o) && !SameMerge(parts, o)
  {
    var other, time := Swapped(order, i, j), Begin(parts[order[i]]);
    assert parts[order[i]][0] != parts[order[j]][0];
    SwapAdmissible(parts, order, i, j);
    SwapDiffers(parts, order, i, j);
    hide Sorted, DistinctStarts, Admissible, At;
    if SameMerge(parts, order) {
      assert At(Arranged(parts, order), time) == At(parts, time);
      assert !SameMerge(parts, other);
    }
  }

  // ------------------------------------------------------------ the sort

  predicate ReaderEarlier(a: Reader, b: Reader) {
    Earlier(a.headerBegin, a.headerEnd, b.headerBegin, b.headerEnd)
  }

  ghost predicate ReadersSorted(readers: seq<Reader>) {
    forall i, j | 0 <= i < j < |readers| :: !ReaderEarlier(readers[j], readers[i])
  }

  /** Sorts the readers by the times in their headers. */
  method SortReaders(readers: seq<Reader>) returns (sorted: seq<Reader>, ghost order: seq<nat>)
    ensures IsOrder(order, |readers|) && ReadersSorted(sorted) && |sorted| == |readers|
    ensures forall i | 0 <= i < |sorted| :: sorted[i] == readers[order[i]]
  {
    sorted, order := [], [];
    for k := 0 to |readers|
      invariant IsOrder(order, k) && ReadersSorted(sorted) && |sorted| == k
      invariant forall i | 0 <= i < k :: sorted[i] == readers[order[i]]
    {
      var p := k;
      while p > 0 && ReaderEarlier(readers[k], sorted[p - 1])
        invariant p <= k && forall i | p <= i < k :: ReaderEarlier(readers[k], sorted[i])
      {
        p := p - 1;
      }
      InsertedOrder(order, p);
      InsertedSorted(sorted, readers[k], p);
      sorted, order := sorted[..p] + [readers[k]] + sorted[p..], order[..p] + [k] + order[p..];
    }
  }

  lemma InsertedOrder(order: seq<nat>, p: nat)
    requires IsOrder(order, |order|) && p <= |order|
    ensures IsOrder(order[..p] + [|order|] + order[p..], |order| + 1)
  {
    var k := |order|;
    var longer := order[..p] + [k] + order[p..];
    forall x: nat | x < k + 1
      ensures x in longer
    {
      if x < k {
        assert x in order;
        var i :| 0 <= i < k && order[i] == x;
        assert longer[if i < p then i else i + 1] == x;
      } else {
        assert longer[p] == x;
      }
    }
  }

  lemma InsertedSorted(sorted: seq<Reader>, reader: Reader, p: nat)
    requires ReadersSorted(sorted) && p <= |sorted|
    requires forall i | p <= i < |sorted| :: ReaderEarlier(reader, sorted[i])
    requires p > 0 ==> !ReaderEarlier(reader, sorted[p - 1])
    ensures ReadersSorted(sorted[..p] + [reader] + sorted[p..])
  {
    var longer := sorted[..p] + [reader] + sorted[p..];
    forall i | 0 <= i < p
      ensures !ReaderEarlier(reader, sorted[i])
    {
      if i < p - 1 { assert !ReaderEarlier(sorted[p - 1], sorted[i]); }
    }
    forall i, j | 0 <= i < j < |longer|
      ensures !ReaderEarlier(longer[j], longer[i])
    {
      if j < p {
        assert longer[i] == sorted[i] && longer[j] == sorted[j];
      } else if j > p && i > p {
        assert longer[i] == sorted[i - 1] && longer[j] == sorted[j - 1];
      } else if j > p && i < p {
        assert longer[i] == sorted[i] && longer[j] == sorted[j - 1];
      }
    }
  }

  /** The shortest such recording: two files of one message each, written in the order a, b at one and the same
      time.  The sort may put b first, and the merge then does. */
  lemma TiedFilesMaySwap(a: Message, b: Message)
    requires a.time == b.time && a != b
    ensures var parts := [[a], [b]];
      && Sorted(RecordWriter.Concat(parts)) && Admissible(parts, [1, 0]) && Arranged(parts, [1, 0]) == [[b], [a]]
      && At(parts, a.time) == [a, b] && At(Arranged(parts, [1, 0]), a.time) == [b, a]
  {
    var parts := [[a], [b]];
    assert Arranged(parts, [1, 0]) == [[b], [a]];
    BackwardsIsOrder();
    AtTwo(a, b);
    AtTwo(b, a);
    hide At;
    assert RecordWriter.Concat(parts) == [a, b] by {
      RecordWriter.ConcatAppend([], [a]);
      RecordWriter.ConcatAppend([[a]], [b]);
      assert [[a]] + [[b]] == parts && [] + [[a]] == [[a]];
    }
  }

  lemma BackwardsIsOrder()
    ensures IsOrder([1, 0], 2)
  {
    assert [1, 0][0] == 1 && [1, 0][1] == 0;
  }

  lemma AtTwo(a: Message, b: Message)
    requires a.time == b.time
    ensures At([[a], [b]], a.time) == [a, b]
  {
    hide At;
    assert [[a]] + [[b]] == [[a], [b]];
    AtMore([[a]], [b], a.time);
    AtOne([a], a.time);
    WindowSingle(a, a.time, a.time);
    WindowSingle(b, a.time, a.time);
  }

  lemma AtOne(f: seq<Message>, time: nat)
    ensures At([f], time) == Window(f, time, time)
  {
    AtMore([], f, time);
    assert [] + [f] == [f];
  }
}
