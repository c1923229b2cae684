/**
 Segmented writing (cyber/record/record_writer.cc).  A file is the sequence of channel declarations and
 messages handed to its file writer, whose writes succeed.
 */
module RecordWriter {
  import opened RecordReader

  datatype Item = Declaration(name: string, messageType: string, protoDesc: string) | Stored(message: Message)

  /** segment_interval and segment_raw_size of the header; 0 means no limit. */
  datatype Limits = Limits(interval: nat, rawSize: nat)

  ghost function Messages(items: seq<Item>): seq<Message> {
    if items == [] then []
    else Messages(items[..|items| - 1]) +
         (if items[|items| - 1].Stored? then [items[|items| - 1].message] else [])
  }

  ghost function Names(items: seq<Item>): set<string> {
    if items == [] then {}
    else Names(items[..|items| - 1]) +
         (if items[|items| - 1].Declaration? then {items[|items| - 1].name} else {})
  }

  ghost function MessagesOfAll(files: seq<seq<Item>>): seq<seq<Message>> {
    if files == [] then [] else MessagesOfAll(files[..|files| - 1]) + [Messages(files[|files| - 1])]
  }

  ghost function NamesOfAll(files: seq<seq<Item>>): set<string> {
    if files == [] then {} else NamesOfAll(files[..|files| - 1]) + Names(files[|files| - 1])
  }

  ghost function Concat(parts: seq<seq<Message>>): seq<Message> {
    if parts == [] then [] else Concat(parts[..|parts| - 1]) + parts[|parts| - 1]
  }

  lemma AppendItem(items: seq<Item>, x: Item)
    ensures x.Stored? ==> Messages(items + [x]) == Messages(items) + [x.message] && Names(items + [x]) == Names(items)
    ensures x.Declaration? ==> Messages(items + [x]) == Messages(items) && Names(items + [x]) == Names(items) + {x.name}
  {
    assert (items + [x])[..|items|] == items;
  }

  lemma AppendFile(files: seq<seq<Item>>, f: seq<Item>)
    ensures MessagesOfAll(files + [f]) == MessagesOfAll(files) + [Messages(f)]
    ensures NamesOfAll(files + [f]) == NamesOfAll(files) + Names(f)
  {
    assert (files + [f])[..|files|] == files;
  }

  lemma ConcatAppend(parts: seq<seq<Message>>, p: seq<Message>)
    ensures Concat(parts + [p]) == Concat(parts) + p
  {
    assert (parts + [p])[..|parts|] == parts;
  }

  // ---------------------------------------------------------------- segmentation by limits

  ghost function Raw(ms: seq<Message>): nat {
    if ms == [] then 0 else Raw(ms[..|ms| - 1]) + |ms[|ms| - 1].content|
  }

  ghost predicate PositiveBetween(ms: seq<Message>, i: int, j: int)
    requires 0 <= i <= j < |ms|
  {
    forall k | i <= k <= j :: ms[k].time > 0
  }

  /** Message j came more than the interval after message i, and no message of time 0 lies between. */
  ghost predicate Apart(ms: seq<Message>, i: int, j: int, interval: nat)
    requires 0 <= i <= j < |ms|
  {
    ms[j].time > ms[i].time + interval && PositiveBetween(ms, i, j)
  }

  /** A message of time 0 makes the writer forget the earlier times of the segment. */
  ghost predicate OverTime(ms: seq<Message>, interval: nat) {
    interval > 0 && exists i, j | 0 <= i < j < |ms| :: Apart(ms, i, j, interval)
  }

  /** With positive times the interval limits the span of the segment, and nothing else. */
  lemma PositiveOverTime(ms: seq<Message>, interval: nat)
    requires Positive(ms)
    ensures OverTime(ms, interval) <==>
      interval > 0 && exists i, j | 0 <= i < j < |ms| :: ms[j].time > ms[i].time + interval
  {
    if interval > 0 && exists i, j | 0 <= i < j < |ms| :: ms[j].time > ms[i].time + interval {
      var i, j :| 0 <= i < j < |ms| && ms[j].time > ms[i].time + interval;
      assert Apart(ms, i, j, interval);
    }
    if OverTime(ms, interval) {
      var i, j :| 0 <= i < j < |ms| && Apart(ms, i, j, interval);
      assert ms[j].time > ms[i].time + interval;
    }
  }

  ghost predicate Far(ms: seq<Message>, i: int, j: int, interval: nat)
    requires 0 <= i <= j < |ms|
  {
    ms[j].time > ms[i].time + interval
  }

  ghost predicate ZeroBetween(ms: seq<Message>, i: int, j: int)
    requires 0 <= i <= j < |ms|
  {
    exists k | i <= k <= j :: ms[k].time == 0
  }

  lemma ApartExactly(ms: seq<Message>, i: int, j: int, interval: nat)
    requires 0 <= i <= j < |ms|
    ensures Apart(ms, i, j, interval) <==> Far(ms, i, j, interval) && !ZeroBetween(ms, i, j)
  {
    if !PositiveBetween(ms, i, j) {
      var k :| i <= k <= j && ms[k].time == 0;
    }
  }

  /** A segment does not exceed the interval if and only if between any two messages further apart than it there is
      one of time 0. */
  lemma ZeroTimeHidesSpan(ms: seq<Message>, interval: nat)
    requires interval > 0
    ensures !OverTime(ms, interval) <==>
      forall i, j | 0 <= i < j < |ms| && Far(ms, i, j, interval) :: ZeroBetween(ms, i, j)
  {
    hide Apart, Far, ZeroBetween;
    forall i, j | 0 <= i < j < |ms|
      ensures Apart(ms, i, j, interval) <==> Far(ms, i, j, interval) && !ZeroBetween(ms, i, j)
    {
      ApartExactly(ms, i, j, interval);
    }
  }

  /** So a message of time 0 and one at any later time make a segment that is within every interval. */
  lemma ZeroTimeThenAnyTime(a: Message, b: Message, interval: nat)
    requires a.time == 0
    ensures !OverTime([a, b], interval)
  {
    var ms := [a, b];
    forall i, j | 0 <= i < j < |ms|
      ensures !Apart(ms, i, j, interval)
    {
      assert i == 0 && ms[i].time == 0;
    }
  }

  ghost predicate OverSize(ms: seq<Message>, rawSize: nat) {
    rawSize > 0 && Raw(ms) > rawSize
  }

  ghost predicate Exceeds(ms: seq<Message>, limits: Limits) {
    OverTime(ms, limits.interval) || OverSize(ms, limits.rawSize)
  }

  /** The reference: closed segments, and the one being filled. */
  datatype Segmentation = Segmentation(closed: seq<seq<Message>>, open: seq<Message>)

  ghost function Place(s: Segmentation, m: Message, limits: Limits): Segmentation {
    var ms := s.open + [m];
    if Exceeds(ms, limits) then Segmentation(s.closed + [ms], []) else Segmentation(s.closed, ms)
  }

  ghost function Segment(ms: seq<Message>, limits: Limits): Segmentation {
    if ms == [] then Segmentation([], []) else Place(Segment(ms[..|ms| - 1], limits), ms[|ms| - 1], limits)
  }

  lemma SegmentMore(ms: seq<Message>, m: Message, limits: Limits)
    ensures Segment(ms + [m], limits) == Place(Segment(ms, limits), m, limits)
  {
    assert (ms + [m])[..|ms|] == ms;
  }

  /** A closed segment exceeds the limits, and no longer does without its last message. */
  ghost predicate ClosedInTime(seg: seq<Message>, limits: Limits) {
    seg != [] && Exceeds(seg, limits) && !Exceeds(seg[..|seg| - 1], limits)
  }

  ghost predicate Divides(s: Segmentation, ms: seq<Message>, limits: Limits) {
    && Concat(s.closed) + s.open == ms
    && (forall i | 0 <= i < |s.closed| :: ClosedInTime(s.closed[i], limits))
    && !Exceeds(s.open, limits)
  }

  lemma PlaceDivides(s: Segmentation, ms: seq<Message>, m: Message, limits: Limits)
    requires Divides(s, ms, limits)
    ensures Divides(Place(s, m, limits), ms + [m], limits)
  {
    hide Concat, Exceeds;
    var seg := s.open + [m];
    assert seg[..|seg| - 1] == s.open;
    ConcatAppend(s.closed, seg);
    assert Concat(s.closed) + seg == ms + [m];
    NothingExceeds(limits);
  }

  lemma NothingExceeds(limits: Limits)
    ensures !Exceeds([], limits)
  {
  }

  /** The reference divides the messages, each segment closed as soon as it exceeds a limit. */
  lemma {:induction false} SegmentDivides(ms: seq<Message>, limits: Limits)
    ensures Divides(Segment(ms, limits), ms, limits)
  {
    hide Divides, Place;
    if ms == [] {
      NothingDivides(limits);
    } else {
      var front, m := ms[..|ms| - 1], ms[|ms| - 1];
      SegmentDivides(front, limits);
      PlaceDivides(Segment(front, limits), front, m, limits);
      assert front + [m] == ms;
    }
  }

  lemma NothingDivides(limits: Limits)
    ensures Divides(Segmentation([], []), [], limits)
  {
    NothingExceeds(limits);
    hide Exceeds;
  }

  lemma ApartLonger(ms: seq<Message>, m: Message, i: int, j: int, interval: nat)
    requires 0 <= i <= j < |ms|
    ensures Apart(ms + [m], i, j, interval) <==> Apart(ms, i, j, interval)
  {
    assert forall k | 0 <= k < |ms| :: (ms + [m])[k] == ms[k];
  }

  lemma ExceedsLonger(ms: seq<Message>, m: Message, limits: Limits)
    ensures Exceeds(ms, limits) ==> Exceeds(ms + [m], limits)
  {
    RawMore(ms, m);
    if OverTime(ms, limits.interval) {
      var i, j :| 0 <= i < j < |ms| && Apart(ms, i, j, limits.interval);
      ApartLonger(ms, m, i, j, limits.interval);
    }
  }

  /** And it is the only such division. */
  lemma {:induction false} SegmentUnique(s: Segmentation, ms: seq<Message>, limits: Limits)
    requires Divides(s, ms, limits)
    ensures s == Segment(ms, limits)
    decreases |ms|
  {
    hide Exceeds;
    if s.open != [] {
      var n := |s.open| - 1;
      var front, m := s.open[..n], s.open[n];
      assert s.open == front + [m];
      assert ms == Concat(s.closed) + front + [m];
      assert ms[..|ms| - 1] == Concat(s.closed) + front;
      ExceedsLonger(front, m, limits);
      SegmentUnique(Segmentation(s.closed, front), ms[..|ms| - 1], limits);
    } else if s.closed != [] {
      var n := |s.closed| - 1;
      var seg := s.closed[n];
      assert ClosedInTime(seg, limits);
      var front, m := seg[..|seg| - 1], seg[|seg| - 1];
      assert seg == front + [m];
      assert ms == Concat(s.closed[..n]) + front + [m];
      assert ms[..|ms| - 1] == Concat(s.closed[..n]) + front;
      SegmentUnique(Segmentation(s.closed[..n], front), ms[..|ms| - 1], limits);
      assert s.closed == s.closed[..n] + [seg];
    }
  }

  // ---------------------------------------------------------------- the writer's counters

  /** segment_begin_time_ after a message; 0 counts as not set. */
  function BeginTime(begin: nat, m: Message): (b: nat)
    ensures b <= m.time
  {
    if begin == 0 || begin > m.time then m.time else begin
  }

  /** begin is the earliest time since the last message of time 0; 0 if there is none. */
  ghost predicate Earliest(ms: seq<Message>, begin: nat) {
    if ms == [] || ms[|ms| - 1].time == 0 then begin == 0
    else
      && (exists i | 0 <= i < |ms| :: PositiveBetween(ms, i, |ms| - 1) && ms[i].time == begin)
      && (forall i | 0 <= i < |ms| && PositiveBetween(ms, i, |ms| - 1) :: begin <= ms[i].time)
  }

  lemma EarliestMore(ms: seq<Message>, begin: nat, m: Message)
    requires Earliest(ms, begin)
    ensures Earliest(ms + [m], BeginTime(begin, m))
  {
    var all, n := ms + [m], |ms|;
    if m.time > 0 {
      assert PositiveBetween(all, n, n) && all[n].time == m.time;
      forall i | 0 <= i < n
        ensures PositiveBetween(all, i, n) <==> PositiveBetween(ms, i, n - 1)
      {
        assert forall k | 0 <= k < n :: all[k] == ms[k];
      }
      if n > 0 && ms[n - 1].time > 0 {
        var i :| 0 <= i < n && PositiveBetween(ms, i, n - 1) && ms[i].time == begin;
        assert PositiveBetween(all, i, n) && all[i].time == begin;
      } else {
        assert forall i | 0 <= i < n :: !PositiveBetween(all, i, n);
      }
    }
  }

  lemma RawMore(ms: seq<Message>, m: Message)
    ensures Raw(ms + [m]) == Raw(ms) + |m.content|
  {
    assert (ms + [m])[..|ms|] == ms;
  }

  /** The time half of the writer's test. */
  lemma TestIsOverTime(ms: seq<Message>, begin: nat, m: Message, interval: nat)
    requires Earliest(ms, begin) && !OverTime(ms, interval)
    ensures OverTime(ms + [m], interval) <==> interval > 0 && m.time - BeginTime(begin, m) > interval
  {
    var all, n, begin' := ms + [m], |ms|, BeginTime(begin, m);
    EarliestMore(ms, begin, m);
    hide BeginTime;
    if interval > 0 && m.time - begin' > interval {
      var i :| 0 <= i <= n && PositiveBetween(all, i, n) && all[i].time == begin';
      assert Apart(all, i, n, interval);
    }
    if OverTime(all, interval) {
      var i, j :| 0 <= i < j <= n && Apart(all, i, j, interval);
      LatestPair(ms, m, i, j, interval);
      assert PositiveBetween(all, i, n) && begin' <= all[i].time;
    }
  }

  lemma LatestPair(ms: seq<Message>, m: Message, i: int, j: int, interval: nat)
    requires 0 <= i < j <= |ms| && interval > 0 && !OverTime(ms, interval) && Apart(ms + [m], i, j, interval)
    ensures j == |ms|
  {
    if j < |ms| { ApartLonger(ms, m, i, j, interval); }
  }

  /** What the writer tests is whether the segment now exceeds its limits. */
  lemma TestIsExceeds(ms: seq<Message>, begin: nat, m: Message, limits: Limits)
    requires Earliest(ms, begin) && !Exceeds(ms, limits)
    ensures Exceeds(ms + [m], limits) <==> Full(BeginTime(begin, m), Raw(ms) + |m.content|, m, limits)
  {
    hide Earliest, OverTime, BeginTime;
    RawMore(ms, m);
    TestIsOverTime(ms, begin, m, limits.interval);
  }

  // ---------------------------------------------------------------- declarations

  /** Among the messages on channels registered before them, exactly those on a missing channel are not
      preceded in this very file by a declaration. */
  ghost predicate LacksExactly(items: seq<Item>, earlier: set<string>, missing: set<string>) {
    forall i | 0 <= i < |items| && items[i].Stored? :: LacksAt(items, i, earlier, missing)
  }

  ghost predicate LacksAt(items: seq<Item>, i: int, earlier: set<string>, missing: set<string>)
    requires 0 <= i < |items| && items[i].Stored?
  {
    var channel, before := items[i].message.channel, Names(items[..i]);
    channel in earlier + before ==> (channel !in before <==> channel in missing)
  }

  lemma LacksMore(items: seq<Item>, earlier: set<string>, missing: set<string>, x: Item)
    requires LacksExactly(items, earlier, missing)
    requires x.Stored? && x.message.channel in earlier + Names(items) ==>
      (x.message.channel !in Names(items) <==> x.message.channel in missing)
    ensures LacksExactly(items + [x], earlier, missing)
  {
    var all := items + [x];
    forall i | 0 <= i < |all| && all[i].Stored?
      ensures LacksAt(all, i, earlier, missing)
    {
      assert all[..i] == items[..i];
      if i == |items| { assert items[..i] == items; } else { assert LacksAt(items, i, earlier, missing); }
    }
  }

  /** A message on a channel declared before, here or in an earlier file, is preceded in this very file by
      its declaration. */
  ghost predicate SelfContained(items: seq<Item>, earlier: set<string>) {
    LacksExactly(items, earlier, {})
  }

  /** A file is self-contained exactly when nothing was written to it on a missing channel. */
  lemma SelfContainedExactly(items: seq<Item>, earlier: set<string>, missing: set<string>)
    requires LacksExactly(items, earlier, missing) && missing <= earlier
    ensures SelfContained(items, earlier) <==>
      forall i | 0 <= i < |items| && items[i].Stored? :: items[i].message.channel !in missing
  {
    forall i | 0 <= i < |items| && items[i].Stored?
      ensures LacksAt(items, i, earlier, {}) <==> items[i].message.channel !in missing
    {
      assert LacksAt(items, i, earlier, missing);
    }
  }

  /** The channels registered but not declared at the start of the file behind these: none after a split,
      all of them after the writer was opened again. */
  ghost function Missing(files: seq<seq<Item>>, split: seq<bool>): set<string>
    requires |files| == |split|
  {
    if files == [] || split[|files| - 1] then {} else NamesOfAll(files)
  }

  /** A declaration tells the type and description registered for its channel. */
  ghost predicate Tells(x: Item, types: map<string, string>, descs: map<string, string>) {
    x.Declaration? ==>
      x.name in types && x.messageType == types[x.name] && x.name in descs && x.protoDesc == descs[x.name]
  }

  ghost predicate Faithful(items: seq<Item>, types: map<string, string>, descs: map<string, string>) {
    forall i | 0 <= i < |items| :: Tells(items[i], types, descs)
  }

  lemma FaithfulMore(items: seq<Item>, types: map<string, string>, descs: map<string, string>, x: Item,
                     types': map<string, string>, descs': map<string, string>)
    requires Faithful(items, types, descs)
    requires forall c | c in types :: c in types' && types'[c] == types[c]
    requires forall c | c in descs :: c in descs' && descs'[c] == descs[c]
    requires Tells(x, types', descs')
    ensures Faithful(items + [x], types', descs') && Faithful(items, types', descs')
  {
  }

  /** All files so far, how they were closed, and the set of channels registered with the writer. */
  ghost predicate Declared(files: seq<seq<Item>>, split: seq<bool>, current: seq<Item>, registered: set<string>) {
    && |split| == |files|
    && registered == NamesOfAll(files) + Names(current) && Names(current) == registered - Missing(files, split)
    && LacksExactly(current, NamesOfAll(files), Missing(files, split))
    && FilesLackExactly(files, split)
  }

  ghost predicate FilesLackExactly(files: seq<seq<Item>>, split: seq<bool>)
    requires |files| == |split|
  {
    forall f | 0 <= f < |files| :: LacksExactly(files[f], NamesOfAll(files[..f]), Missing(files[..f], split[..f]))
  }

  lemma FilesLackMore(files: seq<seq<Item>>, split: seq<bool>, current: seq<Item>, bySplit: bool)
    requires |files| == |split| && FilesLackExactly(files, split)
    requires LacksExactly(current, NamesOfAll(files), Missing(files, split))
    ensures FilesLackExactly(files + [current], split + [bySplit])
  {
    hide LacksExactly, NamesOfAll, Missing;
    var files', split' := files + [current], split + [bySplit];
    forall f | 0 <= f < |files'|
      ensures LacksExactly(files'[f], NamesOfAll(files'[..f]), Missing(files'[..f], split'[..f]))
    {
      if f < |files| {
        assert files'[f] == files[f] && files'[..f] == files[..f] && split'[..f] == split[..f];
      } else {
        assert files'[..f] == files && split'[..f] == split;
      }
    }
  }

  lemma DeclaredStored(files: seq<seq<Item>>, split: seq<bool>, current: seq<Item>, registered: set<string>, m: Message)
    requires Declared(files, split, current, registered)
    ensures Declared(files, split, current + [Stored(m)], registered)
  {
    AppendItem(current, Stored(m));
    LacksMore(current, NamesOfAll(files), Missing(files, split), Stored(m));
  }

  lemma DeclaredNew(files: seq<seq<Item>>, split: seq<bool>, current: seq<Item>, registered: set<string>, x: Item)
    requires Declared(files, split, current, registered) && x.Declaration? && x.name !in registered
    ensures Declared(files, split, current + [x], registered + {x.name})
  {
    AppendItem(current, x);
    LacksMore(current, NamesOfAll(files), Missing(files, split), x);
  }

  lemma NothingLacks(items: seq<Item>, earlier: set<string>, missing: set<string>)
    requires forall i | 0 <= i < |items| :: items[i].Declaration?
    ensures LacksExactly(items, earlier, missing)
  {
  }

  /** The next file, after a split with all registered channels declared, after a reopening with none. */
  lemma DeclaredNext(files: seq<seq<Item>>, split: seq<bool>, current: seq<Item>, bySplit: bool, opening: seq<Item>,
                     registered: set<string>)
    requires Declared(files, split, current, registered)
    requires Names(opening) == (if bySplit then registered else {})
    requires forall i | 0 <= i < |opening| :: opening[i].Declaration?
    ensures Declared(files + [current], split + [bySplit], opening, registered)
  {
    hide FilesLackExactly, LacksExactly, NamesOfAll, Names;
    AppendFile(files, current);
    FilesLackMore(files, split, current, bySplit);
    NothingLacks(opening, NamesOfAll(files + [current]), Missing(files + [current], split + [bySplit]));
  }

  lemma LacksInFile(files: seq<seq<Item>>, split: seq<bool>, current: seq<Item>, registered: set<string>, f: nat, i: nat)
    requires Declared(files, split, current, registered) && f < |files| && i < |files[f]| && files[f][i].Stored?
    requires files[f][i].message.channel in NamesOfAll(files[..f]) + Names(files[f][..i])
    ensures |split| == |files|
    ensures var channel := files[f][i].message.channel;
      channel !in Names(files[f][..i]) <==> f > 0 && !split[f - 1] && channel in NamesOfAll(files[..f])
  {
    hide NamesOfAll, Names;
    assert LacksAt(files[f], i, NamesOfAll(files[..f]), Missing(files[..f], split[..f]));
  }

  lemma LacksInCurrent(files: seq<seq<Item>>, split: seq<bool>, current: seq<Item>, registered: set<string>, i: nat)
    requires Declared(files, split, current, registered) && i < |current| && current[i].Stored?
    requires current[i].message.channel in NamesOfAll(files) + Names(current[..i])
    ensures |split| == |files|
    ensures var channel := current[i].message.channel;
      channel !in Names(current[..i]) <==> |files| > 0 && !split[|files| - 1] && channel in NamesOfAll(files)
  {
    hide NamesOfAll, Names, FilesLackExactly;
    assert LacksAt(current, i, NamesOfAll(files), Missing(files, split));
  }

  // ---------------------------------------------------------------- the invariant, part by part

  /** No message is lost, repeated or moved. */
  ghost predicate Conserved(files: seq<seq<Item>>, current: seq<Item>, written: seq<Message>) {
    Concat(MessagesOfAll(files)) + Messages(current) == written
  }

  /** However a file came to be closed, without its last message it is within the size limit. */
  ghost predicate SizeKept(ms: seq<Message>, limits: Limits) {
    ms == [] || !OverSize(ms[..|ms| - 1], limits.rawSize)
  }

  ghost predicate Sizes(files: seq<seq<Item>>, current: seq<Item>, raw: nat, limits: Limits) {
    && (forall f | 0 <= f < |files| :: SizeKept(Messages(files[f]), limits))
    && Raw(Messages(current)) <= raw && (limits.rawSize > 0 ==> raw <= limits.rawSize)
  }

  /** The segments the files make up: only a split ends one, so a segment continues in the next file when
      the writer is opened again. */
  ghost function Grouped(files: seq<seq<Item>>, split: seq<bool>): Segmentation
    requires |files| == |split|
  {
    if files == [] then Segmentation([], []) else
      var n := |files| - 1;
      var g := Grouped(files[..n], split[..n]);
      var open := g.open + Messages(files[n]);
      if split[n] then Segmentation(g.closed + [open], []) else Segmentation(g.closed, open)
  }

  lemma GroupedMore(files: seq<seq<Item>>, split: seq<bool>, current: seq<Item>, bySplit: bool)
    requires |files| == |split|
    ensures var g := Grouped(files, split);
      var open := g.open + Messages(current);
      Grouped(files + [current], split + [bySplit]) ==
        if bySplit then Segmentation(g.closed + [open], []) else Segmentation(g.closed, open)
  {
    assert (files + [current])[..|files|] == files && (split + [bySplit])[..|split|] == split;
  }

  /** A writer that was opened once makes one file per segment. */
  lemma {:induction false} GroupedBySplits(files: seq<seq<Item>>, split: seq<bool>)
    requires |files| == |split| && forall i | 0 <= i < |split| :: split[i]
    ensures Grouped(files, split) == Segmentation(MessagesOfAll(files), [])
  {
    if files != [] {
      var n := |files| - 1;
      GroupedBySplits(files[..n], split[..n]);
      assert [] + Messages(files[n]) == Messages(files[n]);
    }
  }

  /** The segment being filled. */
  ghost function OpenSegment(files: seq<seq<Item>>, split: seq<bool>, current: seq<Item>): seq<Message>
    requires |files| == |split|
  {
    Grouped(files, split).open + Messages(current)
  }

  /** The files make up the segments of the reference, and the counters tell the state of the open one. */
  ghost predicate Segmented(files: seq<seq<Item>>, split: seq<bool>, current: seq<Item>, written: seq<Message>, begin: nat,
                            raw: nat, limits: Limits) {
    && |split| == |files|
    && Segmentation(Grouped(files, split).closed, OpenSegment(files, split, current)) == Segment(written, limits)
    && Earliest(OpenSegment(files, split, current), begin) && raw == Raw(OpenSegment(files, split, current))
  }

  ghost predicate Described(files: seq<seq<Item>>, current: seq<Item>, types: map<string, string>, descs: map<string, string>) {
    Faithful(current, types, descs) && forall f | 0 <= f < |files| :: Faithful(files[f], types, descs)
  }

  lemma ConservedStored(files: seq<seq<Item>>, current: seq<Item>, written: seq<Message>, m: Message)
    requires Conserved(files, current, written)
    ensures Conserved(files, current + [Stored(m)], written + [m])
  {
    AppendItem(current, Stored(m));
  }

  lemma ConservedDeclaration(files: seq<seq<Item>>, current: seq<Item>, written: seq<Message>, x: Item)
    requires Conserved(files, current, written) && x.Declaration?
    ensures Conserved(files, current + [x], written)
  {
    AppendItem(current, x);
  }

  lemma ConservedSplit(files: seq<seq<Item>>, current: seq<Item>, opening: seq<Item>, written: seq<Message>)
    requires Conserved(files, current, written) && Messages(opening) == []
    ensures Conserved(files + [current], opening, written)
  {
    AppendFile(files, current);
    ConcatAppend(MessagesOfAll(files), Messages(current));
  }

  lemma SizesDeclaration(files: seq<seq<Item>>, current: seq<Item>, raw: nat, limits: Limits, x: Item)
    requires Sizes(files, current, raw, limits) && x.Declaration?
    ensures Sizes(files, current + [x], raw, limits)
  {
    AppendItem(current, x);
  }

  lemma SizesStored(files: seq<seq<Item>>, current: seq<Item>, raw: nat, limits: Limits, m: Message)
    requires Sizes(files, current, raw, limits)
    ensures forall f | 0 <= f < |files| :: SizeKept(Messages(files[f]), limits)
    ensures SizeKept(Messages(current + [Stored(m)]), limits)
    ensures limits.rawSize == 0 || raw + |m.content| <= limits.rawSize ==>
      Sizes(files, current + [Stored(m)], raw + |m.content|, limits)
  {
    AppendItem(current, Stored(m));
    RawMore(Messages(current), m);
    assert (Messages(current) + [m])[..|Messages(current)|] == Messages(current);
  }

  lemma SizesSplit(files: seq<seq<Item>>, current: seq<Item>, opening: seq<Item>, raw: nat, limits: Limits)
    requires forall f | 0 <= f < |files| :: SizeKept(Messages(files[f]), limits)
    requires SizeKept(Messages(current), limits) && Messages(opening) == [] && (limits.rawSize > 0 ==> raw <= limits.rawSize)
    ensures Sizes(files + [current], opening, raw, limits)
  {
  }

  lemma SegmentedDeclaration(files: seq<seq<Item>>, split: seq<bool>, current: seq<Item>, written: seq<Message>, begin: nat,
                             raw: nat, limits: Limits, x: Item)
    requires Segmented(files, split, current, written, begin, raw, limits) && x.Declaration?
    ensures Segmented(files, split, current + [x], written, begin, raw, limits)
  {
    AppendItem(current, x);
  }

  /** The test of the writer after storing m. */
  predicate Full(begin: nat, raw: nat, m: Message, limits: Limits) {
    || (limits.interval > 0 && m.time - begin > limits.interval)
    || (limits.rawSize > 0 && raw > limits.rawSize)
  }

  lemma SegmentedStored(files: seq<seq<Item>>, split: seq<bool>, current: seq<Item>, written: seq<Message>, begin: nat,
                        raw: nat, limits: Limits, m: Message)
    requires Segmented(files, split, current, written, begin, raw, limits)
    ensures var begin', raw', stored := BeginTime(begin, m), raw + |m.content|, current + [Stored(m)];
      && (Full(begin', raw', m, limits) <==> Exceeds(OpenSegment(files, split, current) + [m], limits))
      && OpenSegment(files, split, stored) == OpenSegment(files, split, current) + [m]
      && (!Full(begin', raw', m, limits) ==> Segmented(files, split, stored, written + [m], begin', raw', limits))
      && (Full(begin', raw', m, limits) ==>
            Segment(written + [m], limits) == Grouped(files + [stored], split + [true]))
  {
    hide Exceeds, Segment, Concat, Raw, Names, OverSize, OverTime, Grouped, Earliest, Full, BeginTime;
    var ms := OpenSegment(files, split, current);
    SegmentDivides(written, limits);
    TestIsExceeds(ms, begin, m, limits);
    EarliestMore(ms, begin, m);
    RawMore(ms, m);
    SegmentMore(written, m, limits);
    AppendItem(current, Stored(m));
    GroupedMore(files, split, current + [Stored(m)], true);
    assert OpenSegment(files, split, current + [Stored(m)]) == ms + [m];
  }

  lemma SegmentedSplit(files: seq<seq<Item>>, split: seq<bool>, opening: seq<Item>, written: seq<Message>, limits: Limits)
    requires |files| == |split| && Segment(written, limits) == Grouped(files, split) && Grouped(files, split).open == []
    requires Messages(opening) == []
    ensures Segmented(files, split, opening, written, 0, 0, limits)
  {
  }

  lemma SegmentedReopen(files: seq<seq<Item>>, split: seq<bool>, current: seq<Item>, written: seq<Message>, begin: nat,
                        raw: nat, limits: Limits)
    requires Segmented(files, split, current, written, begin, raw, limits)
    ensures Segmented(files + [current], split + [false], [], written, begin, raw, limits)
  {
    GroupedMore(files, split, current, false);
    NoItems();
  }

  lemma DescribedMore(files: seq<seq<Item>>, current: seq<Item>, types: map<string, string>, descs: map<string, string>, x: Item,
                      types': map<string, string>, descs': map<string, string>)
    requires Described(files, current, types, descs)
    requires forall c | c in types :: c in types' && types'[c] == types[c]
    requires forall c | c in descs :: c in descs' && descs'[c] == descs[c]
    requires Tells(x, types', descs')
    ensures Described(files, current + [x], types', descs')
  {
    FaithfulMore(current, types, descs, x, types', descs');
    forall f | 0 <= f < |files| ensures Faithful(files[f], types', descs') {
      FaithfulMore(files[f], types, descs, x, types', descs');
    }
  }

  lemma DescribedSplit(files: seq<seq<Item>>, current: seq<Item>, opening: seq<Item>, types: map<string,
                       string>, descs: map<string, string>)
    requires Described(files, current, types, descs) && Faithful(opening, types, descs)
    ensures Described(files + [current], opening, types, descs)
  {
  }

  lemma NoItems()
    ensures Messages([]) == [] && Names([]) == {} && MessagesOfAll([]) == [] && NamesOfAll([]) == {} && Concat([]) == []
  {
  }

  /** Where a writer stands; split tells of each finished file whether a split ended it, and written is all
      that was written. */
  datatype Progress = Progress(
    files: seq<seq<Item>>, split: seq<bool>, current: seq<Item>, written: seq<Message>, begin: nat, raw: nat)

  function Store(p: Progress, m: Message): (q: Progress)
    ensures q.begin <= m.time
  {
    p.(current := p.current + [Stored(m)], written := p.written + [m], begin := BeginTime(p.begin, m), raw := p.raw + |m.content|)
  }

  function Split(p: Progress, opening: seq<Item>): Progress {
    Progress(p.files + [p.current], p.split + [true], opening, p.written, 0, 0)
  }

  /** A new file; the counters of the segment go on. */
  function Reopen(p: Progress): Progress {
    p.(files := p.files + [p.current], split := p.split + [false], current := [])
  }

  /** What holds between calls, over every run. */
  ghost predicate Inv(p: Progress, types: map<string, string>, descs: map<string, string>, limits: Limits) {
    && types.Keys == descs.Keys
    && Conserved(p.files, p.current, p.written) && Sizes(p.files, p.current, p.raw, limits)
    && Described(p.files, p.current, types, descs)
    && Declared(p.files, p.split, p.current, types.Keys)
    && Segmented(p.files, p.split, p.current, p.written, p.begin, p.raw, limits)
  }

  lemma Lengths(p: Progress, registered: set<string>)
    requires Declared(p.files, p.split, p.current, registered)
    ensures |p.split| == |p.files|
  {
  }

  lemma CompareSize(q: Progress, m: Message, limits: Limits)
    ensures !Full(q.begin, q.raw, m, limits) ==> limits.rawSize == 0 || q.raw <= limits.rawSize
  {
  }

  lemma InvDeclared(p: Progress, types: map<string, string>, descs: map<string, string>, limits: Limits,
                    name: string, messageType: string, protoDesc: string)
    requires Inv(p, types, descs, limits) && name !in types
    ensures Inv(p.(current := p.current + [Declaration(name, messageType, protoDesc)]),
                types[name := messageType], descs[name := protoDesc], limits)
  {
    hide Conserved, Sizes, Segmented, Declared, Described;
    var x := Declaration(name, messageType, protoDesc);
    ConservedDeclaration(p.files, p.current, p.written, x);
    SizesDeclaration(p.files, p.current, p.raw, limits, x);
    DeclaredNew(p.files, p.split, p.current, types.Keys, x);
    SegmentedDeclaration(p.files, p.split, p.current, p.written, p.begin, p.raw, limits, x);
    DescribedMore(p.files, p.current, types, descs, x, types[name := messageType], descs[name := protoDesc]);
    assert types[name := messageType].Keys == types.Keys + {name};
  }

  lemma InvStored(p: Progress, types: map<string, string>, descs: map<string, string>, limits: Limits, m: Message)
    requires Inv(p, types, descs, limits)
    ensures var q := Store(p, m);
      && |p.split| == |p.files|
      && (!Full(q.begin, q.raw, m, limits) ==> Inv(q, types, descs, limits))
      && (Full(q.begin, q.raw, m, limits) <==> Exceeds(OpenSegment(p.files, p.split, p.current) + [m], limits))
  {
    hide Conserved, Sizes, Segmented, Declared, Described, Exceeds, Messages, OpenSegment, BeginTime, Full;
    Lengths(p, types.Keys);
    CompareSize(Store(p, m), m, limits);
    ConservedStored(p.files, p.current, p.written, m);
    SizesStored(p.files, p.current, p.raw, limits, m);
    DeclaredStored(p.files, p.split, p.current, types.Keys, m);
    SegmentedStored(p.files, p.split, p.current, p.written, p.begin, p.raw, limits, m);
    DescribedMore(p.files, p.current, types, descs, Stored(m), types, descs);
  }

  lemma InvSplit(p: Progress, types: map<string, string>, descs: map<string, string>, limits: Limits,
                 m: Message, opening: seq<Item>)
    requires Inv(p, types, descs, limits) && Full(Store(p, m).begin, Store(p, m).raw, m, limits)
    requires Messages(opening) == [] && Names(opening) == types.Keys && Faithful(opening, types, descs)
    requires forall i | 0 <= i < |opening| :: opening[i].Declaration?
    ensures Inv(Split(Store(p, m), opening), types, descs, limits)
  {
    hide Conserved, Sizes, Segmented, Declared, Described, Exceeds, Messages, Names, Faithful, SizeKept, OpenSegment, BeginTime, Full;
    Lengths(p, types.Keys);
    var q := Store(p, m);
    ConservedStored(p.files, p.current, p.written, m);
    ConservedSplit(q.files, q.current, opening, q.written);
    SizesStored(p.files, p.current, p.raw, limits, m);
    SizesSplit(q.files, q.current, opening, 0, limits);
    DeclaredStored(p.files, p.split, p.current, types.Keys, m);
    DeclaredNext(q.files, q.split, q.current, true, opening, types.Keys);
    SegmentedStored(p.files, p.split, p.current, p.written, p.begin, p.raw, limits, m);
    GroupedMore(q.files, q.split, q.current, true);
    SegmentedSplit(q.files + [q.current], q.split + [true], opening, q.written, limits);
    DescribedMore(p.files, p.current, types, descs, Stored(m), types, descs);
    DescribedSplit(q.files, q.current, opening, types, descs);
  }

  lemma InvReopen(p: Progress, types: map<string, string>, descs: map<string, string>, limits: Limits)
    requires Inv(p, types, descs, limits)
    ensures Inv(Reopen(p), types, descs, limits)
  {
    hide Conserved, Described, Declared, Segmented, OverSize;
    NoItems();
    ConservedSplit(p.files, p.current, [], p.written);
    DescribedSplit(p.files, p.current, [], types, descs);
    WithinSize(Messages(p.current), p.raw, limits);
    SizesSplit(p.files, p.current, [], p.raw, limits);
    DeclaredNext(p.files, p.split, p.current, false, [], types.Keys);
    SegmentedReopen(p.files, p.split, p.current, p.written, p.begin, p.raw, limits);
  }

  lemma WithinSize(ms: seq<Message>, raw: nat, limits: Limits)
    requires Raw(ms) <= raw && (limits.rawSize > 0 ==> raw <= limits.rawSize)
    ensures SizeKept(ms, limits)
  {
  }

  lemma InvInit(limits: Limits)
    ensures Inv(Progress([], [], [], [], 0, 0), map[], map[], limits)
  {
  }

  class Writer {
    const limits: Limits
    /** Files finished, and the one being written; isOpened tells whether there is one. */
    var files: seq<seq<Item>>
    var current: seq<Item>
    var isOpened: bool
    var channelMessageNumber: map<string, nat>
    var channelMessageType: map<string, string>
    var channelProtoDesc: map<string, string>
    var segmentRawSize: nat
    var segmentBeginTime: nat
    /** All messages written, and which finished files were ended by a split. */
    ghost var written: seq<Message>
    ghost var split: seq<bool>

    ghost function Now(): Progress
      reads this
    {
      Progress(files, split, current, written, segmentBeginTime, segmentRawSize)
    }

    ghost predicate Valid()
      reads this
    {
      && channelMessageNumber.Keys == channelMessageType.Keys
      && Inv(Now(), channelMessageType, channelProtoDesc, limits)
      && (!isOpened ==> current == [] && files == [])
    }

    constructor (limits: Limits)
      ensures Valid() && !isOpened && written == [] && files == [] && current == [] && this.limits == limits
      ensures channelMessageNumber == map[]
    {
      this.limits := limits;
      files, current, isOpened := [], [], false;
      channelMessageNumber, channelMessageType, channelProtoDesc := map[], map[], map[];
      segmentRawSize, segmentBeginTime := 0, 0;
      written, split := [], [];
      InvInit(limits);
    }

    /** In any file, the current one included, a message on a channel registered before it lacks its
        declaration in that file exactly when the file was begun by opening the writer again and the channel
        was registered before that. */
    lemma DeclarationLacksExactly(f: nat, i: nat)
      requires Valid() && f <= |files|
      requires var file := (files + [current])[f];
        i < |file| && file[i].Stored? && file[i].message.channel in NamesOfAll(files[..f]) + Names(file[..i])
      ensures |split| == |files|
      ensures var file := (files + [current])[f];
        var channel := file[i].message.channel;
        channel !in Names(file[..i]) <==> f > 0 && !split[f - 1] && channel in NamesOfAll(files[..f])
    {
      DeclaredHolds();
      hide Valid, NamesOfAll, Names, Declared;
      if f < |files| {
        LacksInFile(files, split, current, channelMessageNumber.Keys, f, i);
      } else {
        assert files[..f] == files;
        LacksInCurrent(files, split, current, channelMessageNumber.Keys, i);
      }
    }

    lemma DeclaredHolds()
      requires Valid()
      ensures Declared(files, split, current, channelMessageNumber.Keys)
    {
    }

    /** The files in sequence hold the written stream; cut at the splits, it is divided as the reference
        divides it, whether or not the writer was opened again; and every finished file, without its last
        message, is within the size limit. */
    lemma StreamIsSegmented()
      requires Valid()
      ensures |split| == |files| && Concat(MessagesOfAll(files)) + Messages(current) == written
      ensures Segmentation(Grouped(files, split).closed, OpenSegment(files, split, current)) == Segment(written, limits)
      ensures forall f | 0 <= f < |files| :: SizeKept(Messages(files[f]), limits)
    {
    }

    /** Starts a file.  A writer opened again keeps its tables and counters: the new file lacks the
        declarations of exactly the channels registered so far, and the segment goes on in it. */
    method Open()
      requires Valid()
      modifies this
      ensures Valid() && isOpened && current == [] && written == old(written)
      ensures files == if old(isOpened) then old(files) + [old(current)] else []
      ensures split == if old(isOpened) then old(split) + [false] else []
      ensures channelMessageNumber == old(channelMessageNumber)
      ensures Missing(files, split) == channelMessageNumber.Keys
      ensures OpenSegment(files, split, current) == old(OpenSegment(files, split, current))
    {
      hide Inv, NamesOfAll, Names, Messages, Grouped;
      OpenedFacts();
      if isOpened {
        InvReopen(Now(), channelMessageType, channelProtoDesc, limits);
        GroupedMore(files, split, current, false);
        NamesOfFiles();
        files, split, current := files + [current], split + [false], [];
        NoItems();
      }
      isOpened := true;
    }

    lemma OpenedFacts()
      requires Valid()
      ensures |split| == |files| && (files == [] && current == [] ==> channelMessageNumber.Keys == {})
    {
      NoItems();
    }

    lemma NamesOfFiles()
      requires Valid()
      ensures NamesOfAll(files + [current]) == channelMessageNumber.Keys
    {
      AppendFile(files, current);
    }

    /** Registers and declares a channel; a known one is left alone. */
    method WriteChannel(name: string, messageType: string, protoDesc: string)
      requires Valid() && isOpened
      modifies this
      ensures Valid() && isOpened && files == old(files) && split == old(split) && written == old(written)
      ensures name in old(channelMessageNumber) ==>
        && current == old(current) && channelMessageNumber == old(channelMessageNumber)
        && channelMessageType == old(channelMessageType) && channelProtoDesc == old(channelProtoDesc)
      ensures name !in old(channelMessageNumber) ==>
        && current == old(current) + [Declaration(name, messageType, protoDesc)]
        && channelMessageNumber == old(channelMessageNumber)[name := 0]
        && channelMessageType == old(channelMessageType)[name := messageType]
        && channelProtoDesc == old(channelProtoDesc)[name := protoDesc]
    {
      hide Inv;
      if name !in channelMessageNumber {
        InvDeclared(Now(), channelMessageType, channelProtoDesc, limits, name, messageType, protoDesc);
        channelMessageNumber := channelMessageNumber[name := 0];
        channelMessageType := channelMessageType[name := messageType];
        channelProtoDesc := channelProtoDesc[name := protoDesc];
        current := current + [Declaration(name, messageType, protoDesc)];
        assert channelMessageNumber.Keys == old(channelMessageNumber.Keys) + {name};
        assert channelMessageType.Keys == old(channelMessageType.Keys) + {name};
      }
    }

    /** Starts the next file with the declarations of all registered channels, in any order. */
    method SplitOutfile()
      requires channelMessageType.Keys == channelMessageNumber.Keys && channelProtoDesc.Keys == channelMessageNumber.Keys
      modifies this`files, this`split, this`current, this`segmentRawSize, this`segmentBeginTime
      ensures files == old(files) + [old(current)] && split == old(split) + [true]
      ensures segmentRawSize == segmentBeginTime == 0
      ensures Messages(current) == [] && Names(current) == channelMessageNumber.Keys
      ensures forall i | 0 <= i < |current| :: current[i].Declaration?
      ensures Faithful(current, channelMessageType, channelProtoDesc)
    {
      hide Messages, Names;
      files, split, current := files + [current], split + [true], [];
      segmentRawSize, segmentBeginTime := 0, 0;
      NoItems();
      var keys := channelMessageNumber.Keys;
      while keys != {}
        invariant keys <= channelMessageNumber.Keys && Names(current) == channelMessageNumber.Keys - keys
        invariant Messages(current) == [] && files == old(files) + [old(current)] && split == old(split) + [true]
        invariant segmentRawSize == segmentBeginTime == 0
        invariant forall i | 0 <= i < |current| :: current[i].Declaration?
        invariant Faithful(current, channelMessageType, channelProtoDesc)
        decreases keys
      {
        var name :| name in keys;
        var x := Declaration(name, channelMessageType[name], channelProtoDesc[name]);
        AppendItem(current, x);
        current := current + [x];
        keys := keys - {name};
      }
    }

    /** Stores a message and, exactly when the segment exceeds a limit with it, starts the next file. */
    method WriteMessage(m: Message)
      requires Valid() && isOpened
      modifies this
      ensures Valid() && isOpened && written == old(written) + [m]
      ensures channelMessageType == old(channelMessageType) && channelProtoDesc == old(channelProtoDesc)
      ensures channelMessageNumber == if m.channel in old(channelMessageNumber)
                                      then old(channelMessageNumber)[m.channel := old(channelMessageNumber)[m.channel] + 1]
                                      else old(channelMessageNumber)
      ensures old(|split| == |files|)
      ensures if Exceeds(old(OpenSegment(files, split, current)) + [m], limits)
              then files == old(files) + [old(current) + [Stored(m)]] && split == old(split) + [true]
                   && Messages(current) == [] && Names(current) == channelMessageNumber.Keys
              else files == old(files) && split == old(split) && current == old(current) + [Stored(m)]
    {
      hide Inv, Exceeds, Messages, Names, Faithful, Store, BeginTime, OpenSegment;
      ghost var before := Now();
      InvStored(before, channelMessageType, channelProtoDesc, limits, m);
      KeysAgree();
      StoreMessage(m);
      if (limits.interval > 0 && m.time - segmentBeginTime > limits.interval)
         || (limits.rawSize > 0 && segmentRawSize > limits.rawSize) {
        SplitOutfile();
        InvSplit(before, channelMessageType, channelProtoDesc, limits, m, current);
      }
    }

    /** The message goes to the current file and into the counters. */
    method StoreMessage(m: Message)
      modifies this`channelMessageNumber, this`current, this`written, this`segmentRawSize, this`segmentBeginTime
      ensures Now() == Store(old(Now()), m) && current == old(current) + [Stored(m)]
      ensures written == old(written) + [m] && files == old(files) && split == old(split)
      ensures channelMessageNumber.Keys == old(channelMessageNumber.Keys)
      ensures channelMessageNumber == if m.channel in old(channelMessageNumber)
                                      then old(channelMessageNumber)[m.channel := old(channelMessageNumber)[m.channel] + 1]
                                      else old(channelMessageNumber)
    {
      if m.channel in channelMessageNumber {
        channelMessageNumber := channelMessageNumber[m.channel := channelMessageNumber[m.channel] + 1];
      }
      current := current + [Stored(m)];
      written := written + [m];
      segmentRawSize := segmentRawSize + |m.content|;
      if segmentBeginTime == 0 {
        segmentBeginTime := m.time;
      }
      if segmentBeginTime > m.time {
        segmentBeginTime := m.time;
      }
    }

    lemma KeysAgree()
      requires Valid()
      ensures channelProtoDesc.Keys == channelMessageNumber.Keys
    {
    }
  }

  /** Opened twice, a writer stores a message whose channel is declared only in the earlier file. */
  method ReopenLosesDeclaration(name: string, messageType: string, protoDesc: string, m: Message) returns (w: Writer)
    requires m.channel == name
    ensures w.files == [[Declaration(name, messageType, protoDesc)]] && w.current == [Stored(m)]
    ensures !SelfContained(w.current, NamesOfAll(w.files))
  {
    hide Writer.Valid, Messages, OpenSegment, Missing, LacksExactly, OverTime, OverSize;
    NoLimits();
    w := new Writer(Limits(0, 0));
    w.Open();
    w.WriteChannel(name, messageType, protoDesc);
    assert w.files == [] && w.current == [Declaration(name, messageType, protoDesc)];
    w.Open();
    assert w.files == [[Declaration(name, messageType, protoDesc)]];
    w.WriteMessage(m);
    LacksDeclaration(w.current, w.files, m, Declaration(name, messageType, protoDesc));
  }

  lemma NoLimits()
    ensures forall ms: seq<Message> :: !OverTime(ms, 0) && !OverSize(ms, 0)
  {
  }

  lemma LacksDeclaration(items: seq<Item>, files: seq<seq<Item>>, m: Message, x: Item)
    requires items == [Stored(m)] && files == [[x]] && x.Declaration? && x.name == m.channel
    ensures !SelfContained(items, NamesOfAll(files))
  {
    AppendItem([], x);
    AppendFile([], [x]);
    assert [] + [x] == [x] && [] + [[x]] == files;
    assert items[..0] == [];
    assert !LacksAt(items, 0, NamesOfAll(files), {});
  }
}
