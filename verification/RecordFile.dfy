/**
 Writing one record file in chunks (cyber/record/file/record_file_writer.*).  Messages gather in an
 active chunk; a full one is swapped with the flush chunk, which a second thread writes out.  The
 critical sections under flush_mutex_ are the steps: WriteMessage, Flush (one iteration of the
 flushing thread, at any moment) and Close.
 */
module RecordFile {
  import opened RecordReader
  import RecordWriter

  /** The chunk being gathered: its header's times and size, and its body. */
  datatype Chunk = Chunk(begin: nat, end: nat, rawSize: nat, messages: seq<Message>)

  const Cleared := Chunk(0, 0, 0, [])

  /** Chunk::add; a begin time of 0 counts as not set. */
  function Add(c: Chunk, m: Message): (r: Chunk)
    ensures r.begin <= m.time <= r.end && r.messages == c.messages + [m]
  {
    var begin := if c.begin == 0 then m.time else c.begin;
    Chunk(if begin > m.time then m.time else begin, if c.end < m.time then m.time else c.end,
          c.rawSize + |m.content|, c.messages + [m])
  }

  /** The chunk that gathers the messages one by one. */
  ghost function Gathered(ms: seq<Message>): Chunk {
    if ms == [] then Cleared else Add(Gathered(ms[..|ms| - 1]), ms[|ms| - 1])
  }

  lemma {:induction false} GatheredMessages(ms: seq<Message>)
    ensures Gathered(ms).messages == ms
  {
    if ms != [] { GatheredMessages(ms[..|ms| - 1]); }
  }

  /** Adding to a gathered chunk gathers one more. */
  lemma GatherMore(ms: seq<Message>, m: Message)
    ensures Add(Gathered(ms), m) == Gathered(ms + [m])
  {
    assert (ms + [m])[..|ms|] == ms;
  }

  lemma {:induction false} GatheredBounds(ms: seq<Message>)
    requires ms != []
    ensures forall i | 0 <= i < |ms| :: ms[i].time <= Gathered(ms).end
    ensures Gathered(ms).begin > 0 <==> ms[|ms| - 1].time > 0
    ensures Positive(ms) || ms[|ms| - 1].time == 0 ==> forall i | 0 <= i < |ms| :: Gathered(ms).begin <= ms[i].time
  {
    var front := ms[..|ms| - 1];
    if front != [] {
      GatheredBounds(front);
      assert forall i | 0 <= i < |front| :: ms[i] == front[i];
    }
  }

  /** A chunk's header brackets its body exactly when no message has time 0, or the last one has. */
  lemma BracketsExactly(ms: seq<Message>)
    requires ms != []
    ensures Between(ms, Gathered(ms).begin, Gathered(ms).end) <==> Positive(ms) || ms[|ms| - 1].time == 0
  {
    GatheredBounds(ms);
    ZeroEscapes(ms, Gathered(ms).begin);
    hide Gathered;
  }

  /** A message of time 0 is outside every bracket that begins later. */
  lemma ZeroEscapes(ms: seq<Message>, begin: nat)
    ensures begin > 0 && !Positive(ms) ==> exists i | 0 <= i < |ms| :: ms[i].time < begin
  {
    if begin > 0 && !Positive(ms) {
      var i :| 0 <= i < |ms| && ms[i].time == 0;
      assert ms[i].time < begin;
    }
  }

  lemma {:induction false} GatheredCounters(ms: seq<Message>)
    ensures Gathered(ms).rawSize == RecordWriter.Raw(ms) && RecordWriter.Earliest(ms, Gathered(ms).begin)
  {
    if ms != [] {
      hide RecordWriter.Earliest;
      var front, m := ms[..|ms| - 1], ms[|ms| - 1];
      GatheredCounters(front);
      RecordWriter.EarliestMore(front, Gathered(front).begin, m);
      assert front + [m] == ms;
    }
  }

  /** A chunk that takes its last message is full with it: that message comes more than the interval after another of the
      chunk, with none of time 0 between, or the contents exceed the size; 0 means no limit. */
  ghost predicate ChunkFull(ms: seq<Message>, interval: nat, rawSize: nat) {
    || (interval > 0 && exists i, j | 0 <= i < j < |ms| && j == |ms| - 1 :: RecordWriter.Apart(ms, i, j, interval))
    || RecordWriter.OverSize(ms, rawSize)
  }

  /** The test after adding a message is whether the chunk is full with it. */
  lemma FullExactly(ms: seq<Message>, interval: nat, rawSize: nat)
    requires ms != []
    ensures ChunkFull(ms, interval, rawSize) <==>
      || (interval > 0 && ms[|ms| - 1].time - Gathered(ms).begin > interval)
      || (rawSize > 0 && Gathered(ms).rawSize > rawSize)
  {
    GatheredCounters(ms);
    if interval > 0 { LastApartExactly(ms, Gathered(ms).begin, interval); }
    hide Gathered, RecordWriter.Raw, RecordWriter.Earliest, RecordWriter.Apart;
  }

  /** The last message is far from another exactly when it is far from the earliest one counted. */
  lemma LastApartExactly(ms: seq<Message>, begin: nat, interval: nat)
    requires ms != [] && interval > 0 && RecordWriter.Earliest(ms, begin)
    ensures (exists i, j | 0 <= i < j < |ms| && j == |ms| - 1 :: RecordWriter.Apart(ms, i, j, interval)) <==>
            ms[|ms| - 1].time - begin > interval
  {
    var n := |ms| - 1;
    if ms[n].time == 0 {
      assert forall i, j | 0 <= i < j < |ms| && j == n :: !RecordWriter.Apart(ms, i, j, interval);
    } else {
      var e :| 0 <= e <= n && RecordWriter.PositiveBetween(ms, e, n) && ms[e].time == begin;
      assert RecordWriter.Apart(ms, e, n, interval) <==> ms[n].time > begin + interval;
      forall i, j | 0 <= i < j < |ms| && j == n && RecordWriter.Apart(ms, i, j, interval)
        ensures ms[n].time > begin + interval
      {
        assert RecordWriter.PositiveBetween(ms, i, n);
      }
    }
  }

  // ---------------------------------------------------------------- file contents

  ghost predicate NoIndex(s: seq<Section>) {
    forall i | 0 <= i < |s| :: !s[i].Index?
  }

  lemma {:induction false} FlattenConcat(a: seq<Section>, b: seq<Section>)
    requires NoIndex(a)
    ensures Flatten(a + b) == Flatten(a) + Flatten(b)
  {
    if a == [] {
      assert a + b == b;
    } else {
      assert (a + b)[1..] == a[1..] + b;
      FlattenConcat(a[1..], b);
    }
  }

  /** Channel sections, and chunk headers each with its own body right behind it. */
  ghost predicate Blocks(s: seq<Section>)
    decreases |s|
  {
    s == [] || (s[0].Channel? && Blocks(s[1..])) ||
    (|s| >= 2 && s[0].ChunkHeader? && s[1].ChunkBody? && s[1].messages != []
     && Between(s[1].messages, s[0].begin, s[0].end) && Blocks(s[2..]))
  }

  lemma {:induction false} BlocksConcat(a: seq<Section>, b: seq<Section>)
    requires Blocks(a) && Blocks(b)
    ensures Blocks(a + b)
    decreases |a|
  {
    if a == [] {
      assert a + b == b;
    } else if a[0].Channel? {
      assert (a + b)[1..] == a[1..] + b;
      BlocksConcat(a[1..], b);
    } else {
      assert (a + b)[2..] == a[2..] + b;
      BlocksConcat(a[2..], b);
    }
  }

  /** Such sections, closed by an index, are what the reader expects. */
  lemma {:induction false} BlocksWellFormed(s: seq<Section>)
    requires Blocks(s)
    ensures WellFormed(s + [Index])
    decreases |s|
  {
    var t := s + [Index];
    if s == [] {
    } else if s[0].Channel? {
      assert t[1..] == s[1..] + [Index];
      BlocksWellFormed(s[1..]);
    } else {
      assert t[0] == s[0] && t[1..][0] == s[1] && t[1..][1..] == s[2..] + [Index];
      BlocksWellFormed(s[2..]);
      assert WellFormed(t[1..]);
      assert BodyFollows(t[1..]) && NextBody(t[1..]) == s[1].messages;
    }
  }

  function ChunkSections(c: Chunk): (s: seq<Section>) {
    [ChunkHeader(c.begin, c.end), ChunkBody(c.messages)]
  }

  lemma ChunkWritten(s: seq<Section>, ms: seq<Message>)
    requires NoIndex(s) && ms != []
    ensures NoIndex(s + ChunkSections(Gathered(ms)))
    ensures Flatten(s + ChunkSections(Gathered(ms))) == Flatten(s) + ms
    ensures Blocks(s) && Positive(ms) ==> Blocks(s + ChunkSections(Gathered(ms)))
  {
    var c := ChunkSections(Gathered(ms));
    GatheredMessages(ms);
    FlattenConcat(s, c);
    assert c[1..] == [ChunkBody(ms)] && c[1..][1..] == [] && c[2..] == [];
    assert Flatten(c[1..]) == ms + Flatten([]);
    if Blocks(s) && Positive(ms) {
      BracketsExactly(ms);
      BlocksConcat(s, c);
    }
  }

  lemma ChannelWritten(s: seq<Section>)
    requires NoIndex(s)
    ensures NoIndex(s + [Channel]) && Flatten(s + [Channel]) == Flatten(s)
    ensures Blocks(s) ==> Blocks(s + [Channel])
  {
    FlattenConcat(s, [Channel]);
    assert [Channel][1..] == [];
    assert Flatten([Channel]) == [];
    if Blocks(s) { BlocksConcat(s, [Channel]); }
  }

  lemma IndexWritten(s: seq<Section>)
    requires NoIndex(s)
    ensures Flatten(s + [Index]) == Flatten(s)
    ensures Blocks(s) ==> WellFormed(s + [Index])
  {
    FlattenConcat(s, [Index]);
    if Blocks(s) { BlocksWellFormed(s); }
  }

  // ---------------------------------------------------------------- order of the messages

  ghost predicate Distinct(ms: seq<Message>) {
    forall m :: multiset(ms)[m] <= 1
  }

  /** What becomes of the written messages: in the file, then the flush chunk, then the active one.
      The order is lost exactly when a swap found the flush chunk not yet flushed. */
  ghost predicate History(file: seq<Message>, flush: seq<Message>, active: seq<Message>, written: seq<Message>, overlapped: bool) {
    && multiset(file + flush + active) == multiset(written)
    && (!overlapped ==> file + flush + active == written)
    && (overlapped && Distinct(written) ==> file + flush + active != written)
  }

  lemma WriteHistory(file: seq<Message>, flush: seq<Message>, active: seq<Message>, written: seq<Message>,
                     overlapped: bool, m: Message)
    requires History(file, flush, active, written, overlapped)
    ensures History(file, flush, active + [m], written + [m], overlapped)
  {
    var stream := file + flush + active;
    assert file + flush + (active + [m]) == stream + [m];
    if overlapped && Distinct(written + [m]) {
      forall x ensures multiset(written)[x] <= 1 {
        assert multiset(written + [m])[x] <= 1;
      }
      assert (stream + [m])[..|stream|] == stream && (written + [m])[..|written|] == written;
    }
  }

  /** A swap right after the newest message went to the active chunk. */
  lemma SwapHistory(file: seq<Message>, flush: seq<Message>, active: seq<Message>, written: seq<Message>, overlapped: bool)
    requires History(file, flush, active, written, overlapped)
    requires active != [] && written != [] && active[|active| - 1] == written[|written| - 1]
    ensures History(file, active, flush, written, overlapped || flush != [])
  {
    var stream := file + active + flush;
    assert multiset(stream) == multiset(file + flush + active);
    if flush == [] {
      assert file + flush + active == stream;
    } else if Distinct(written) {
      var m := active[|active| - 1];
      assert multiset(stream)[m] == multiset(file)[m] + multiset(active)[m] + multiset(flush)[m];
      assert multiset(written)[m] <= 1;
      assert m in multiset(active);
      assert m !in multiset(flush);
      assert stream[|stream| - 1] == flush[|flush| - 1] != m;
    }
  }

  lemma FlushHistory(file: seq<Message>, flush: seq<Message>, active: seq<Message>, written: seq<Message>, overlapped: bool)
    requires History(file, flush, active, written, overlapped)
    ensures History(file + flush, [], active, written, overlapped)
    ensures flush == [] ==> History(file, active, [], written, overlapped)
  {
    assert file + flush + [] + active == file + flush + active;
    assert flush == [] ==> file + active + [] == file + flush + active;
  }

  /** The file header's times, while messages arrive in order. */
  ghost predicate HeaderOk(file: seq<Message>, begin: nat, end: nat) {
    if file == [] then begin == 0 && end == 0 else begin == file[0].time && end == file[|file| - 1].time
  }

  ghost predicate Orderly(written: seq<Message>, overlapped: bool) {
    Positive(written) && Sorted(written) && !overlapped
  }

  lemma HeaderFlush(file: seq<Message>, ms: seq<Message>, rest: seq<Message>, written: seq<Message>, begin: nat, end: nat)
    requires written == file + ms + rest && Positive(written) && Sorted(written) && ms != []
    requires HeaderOk(file, begin, end)
    ensures HeaderOk(file + ms, if begin == 0 then Gathered(ms).begin else begin, Gathered(ms).end)
  {
    assert forall i | 0 <= i < |ms| :: ms[i] == written[|file| + i];
    assert Positive(ms) && Sorted(ms);
    SortedTimes(ms);
    assert file != [] ==> file[0] == written[0];
  }

  lemma {:induction false} SortedTimes(ms: seq<Message>)
    requires ms != [] && Positive(ms) && Sorted(ms)
    ensures Gathered(ms).begin == ms[0].time && Gathered(ms).end == ms[|ms| - 1].time
  {
    var front := ms[..|ms| - 1];
    if front != [] { SortedTimes(front); }
  }

  /** The begin time of the file header after a chunk was written; 0 counts as not set. */
  function FirstBegin(begin: nat, c: Chunk): nat {
    if begin == 0 && c.messages != [] then c.begin else begin
  }

  /** Its end time is the one of the last chunk written. */
  function LastEnd(end: nat, c: Chunk): nat {
    if c.messages != [] then c.end else end
  }

  lemma OrderlyBefore(written: seq<Message>, m: Message, overlapped: bool)
    ensures Positive(written + [m]) ==> Positive(written)
    ensures Orderly(written + [m], overlapped) ==> Orderly(written, overlapped)
  {
    assert written == (written + [m])[..|written|];
  }

  lemma PositivePart(file: seq<Message>, flush: seq<Message>, active: seq<Message>, written: seq<Message>)
    requires multiset(file + flush + active) == multiset(written) && Positive(written)
    ensures Positive(flush)
  {
    forall i | 0 <= i < |flush| ensures flush[i].time > 0 {
      assert (file + flush + active)[|file| + i] == flush[i];
      assert flush[i] in multiset(written);
    }
  }

  /** The state of a writer that is not yet closed. */
  ghost predicate Good(sections: seq<Section>, flush: Chunk, active: Chunk, written: seq<Message>, overlapped: bool) {
    && NoIndex(sections) && active == Gathered(active.messages) && flush == Gathered(flush.messages)
    && History(Flatten(sections), flush.messages, active.messages, written, overlapped)
    && (Positive(written) ==> Blocks(sections))
  }

  ghost predicate HeaderGood(sections: seq<Section>, begin: nat, end: nat, written: seq<Message>, overlapped: bool) {
    Orderly(written, overlapped) ==> HeaderOk(Flatten(sections), begin, end)
  }

  lemma GoodWrite(sections: seq<Section>, flush: Chunk, active: Chunk, written: seq<Message>, overlapped: bool, m: Message)
    requires Good(sections, flush, active, written, overlapped)
    ensures Good(sections, flush, Add(active, m), written + [m], overlapped)
  {
    hide History, Gathered, Flatten, Blocks, NoIndex, Positive;
    GatherMore(active.messages, m);
    WriteHistory(Flatten(sections), flush.messages, active.messages, written, overlapped, m);
    OrderlyBefore(written, m, overlapped);
  }

  lemma HeaderWrite(sections: seq<Section>, begin: nat, end: nat, written: seq<Message>, overlapped: bool, m: Message)
    requires HeaderGood(sections, begin, end, written, overlapped)
    ensures HeaderGood(sections, begin, end, written + [m], overlapped)
    ensures HeaderGood(sections, begin, end, written + [m], true)
  {
    OrderlyBefore(written, m, overlapped);
  }

  lemma GoodSwap(sections: seq<Section>, flush: Chunk, active: Chunk, written: seq<Message>, overlapped: bool)
    requires Good(sections, flush, active, written, overlapped)
    requires active.messages != [] && written != [] && active.messages[|active.messages| - 1] == written[|written| - 1]
    ensures Good(sections, active, flush, written, overlapped || flush.messages != [])
  {
    hide History, Gathered, Flatten, Blocks, NoIndex, Positive;
    SwapHistory(Flatten(sections), flush.messages, active.messages, written, overlapped);
  }

  class FileWriter {
    const chunkInterval: nat
    const chunkRawSize: nat
    var active: Chunk
    var flush: Chunk
    var sections: seq<Section>
    var headerBegin: nat
    var headerEnd: nat
    /** All messages handed in, and whether a swap ever found the flush chunk occupied. */
    ghost var written: seq<Message>
    ghost var overlapped: bool

    ghost predicate Valid()
      reads this
    {
      Good(sections, flush, active, written, overlapped) && HeaderGood(sections, headerBegin, headerEnd, written, overlapped)
    }

    constructor (chunkInterval: nat, chunkRawSize: nat)
      ensures Valid() && written == [] && !overlapped && sections == [] && flush == active == Cleared
      ensures this.chunkInterval == chunkInterval && this.chunkRawSize == chunkRawSize
    {
      this.chunkInterval, this.chunkRawSize := chunkInterval, chunkRawSize;
      active, flush, sections, headerBegin, headerEnd := Cleared, Cleared, [], 0, 0;
      written, overlapped := [], false;
    }

    /** Whether a chunk that just took m is full. */
    predicate NeedsFlush(c: Chunk, m: Message)
      requires c.begin <= m.time
    {
      || (chunkInterval > 0 && m.time - c.begin > chunkInterval)
      || (chunkRawSize > 0 && c.rawSize > chunkRawSize)
    }

    method WriteChannel()
      requires Valid()
      modifies this`sections
      ensures Valid() && sections == old(sections) + [Channel]
    {
      hide Flatten, History, Blocks, NoIndex, Gathered, Orderly, HeaderOk, Positive;
      ChannelWritten(sections);
      sections := sections + [Channel];
    }

    method WriteMessage(m: Message)
      requires Valid()
      modifies this
      ensures Valid() && written == old(written) + [m] && sections == old(sections)
      ensures var c := Add(old(active), m);
        if NeedsFlush(c, m)
        then flush == c && active == old(flush) && overlapped == (old(overlapped) || old(flush.messages) != [])
        else flush == old(flush) && active == c && overlapped == old(overlapped)
      ensures var ms := old(active.messages) + [m];
        if ChunkFull(ms, chunkInterval, chunkRawSize)
        then flush.messages == ms && active == old(flush)
        else active.messages == ms && flush == old(flush)
    {
      hide Good, HeaderGood, Gathered, ChunkFull;
      ActiveGathered();
      GatherMore(active.messages, m);
      FullExactly(active.messages + [m], chunkInterval, chunkRawSize);
      GoodWrite(sections, flush, active, written, overlapped, m);
      HeaderWrite(sections, headerBegin, headerEnd, written, overlapped, m);
      active := Add(active, m);
      written := written + [m];
      if NeedsFlush(active, m) {
        GoodSwap(sections, flush, active, written, overlapped);
        overlapped := overlapped || flush.messages != [];
        active, flush := flush, active;
      }
    }

    lemma ActiveGathered()
      requires Valid()
      ensures active == Gathered(active.messages)
    {
    }

    /** One turn of the flushing thread; an empty flush chunk leaves it waiting. */
    method Flush()
      requires Valid()
      modifies this`flush, this`sections, this`headerBegin, this`headerEnd
      ensures Valid() && flush == Cleared
      ensures Flatten(sections) == old(Flatten(sections) + flush.messages)
      ensures headerBegin == FirstBegin(old(headerBegin), old(flush)) && headerEnd == LastEnd(old(headerEnd), old(flush))
    {
      hide History, Flatten, Blocks;
      if flush.messages == [] {
        GatheredEmpty();
        return;
      }
      WriteChunk();
      flush := Cleared;
      GatheredEmpty();
    }

    method WriteChunk()
      requires Valid() && flush.messages != []
      modifies this`sections, this`headerBegin, this`headerEnd
      ensures NoIndex(sections) && Flatten(sections) == old(Flatten(sections)) + flush.messages
      ensures History(Flatten(sections), [], active.messages, written, overlapped)
      ensures Positive(written) ==> Blocks(sections)
      ensures Orderly(written, overlapped) ==> HeaderOk(Flatten(sections), headerBegin, headerEnd)
      ensures headerBegin == FirstBegin(old(headerBegin), flush) && headerEnd == flush.end
    {
      hide Gathered, Flatten, Blocks, HeaderOk;
      FlushHistory(Flatten(sections), flush.messages, active.messages, written, overlapped);
      ChunkWritten(sections, flush.messages);
      if Positive(written) { PositivePart(Flatten(sections), flush.messages, active.messages, written); }
      if Orderly(written, overlapped) {
        HeaderFlush(Flatten(sections), flush.messages, active.messages, written, headerBegin, headerEnd);
      }
      sections := sections + ChunkSections(flush);
      if headerBegin == 0 {
        headerBegin := flush.begin;
      }
      headerEnd := flush.end;
    }

    lemma GatheredEmpty()
      ensures Gathered([]) == Cleared
    {
    }

    /** Waits for the flushing thread, swaps once more, waits again, and writes the index.  No message
        is lost or repeated.  They come in the order written exactly when no swap overlapped a flush. */
    method Close()
      requires Valid()
      modifies this
      ensures written == old(written) && overlapped == old(overlapped)
      ensures multiset(Flatten(sections)) == multiset(written)
      ensures !overlapped ==> Flatten(sections) == written
      ensures Distinct(written) ==> (Flatten(sections) == written <==> !overlapped)
      ensures headerBegin == FirstBegin(FirstBegin(old(headerBegin), old(flush)), old(active))
      ensures headerEnd == LastEnd(LastEnd(old(headerEnd), old(flush)), old(active))
      ensures Orderly(written, overlapped) ==> WellFormed(sections) && HeaderOk(written, headerBegin, headerEnd)
      ensures Orderly(written, overlapped) ==> Between(written, headerBegin, headerEnd)
    {
      hide Good, HeaderGood, Flatten, WellFormed, Distinct, HeaderOk, Orderly, Between;
      Flush();
      GoodLastSwap(sections, active, written, overlapped);
      active, flush := flush, active;
      Flush();
      ClosedFile(sections, headerBegin, headerEnd, written, overlapped);
      sections := sections + [Index];
    }
  }

  lemma GoodLastSwap(sections: seq<Section>, active: Chunk, written: seq<Message>, overlapped: bool)
    requires Good(sections, Cleared, active, written, overlapped)
    ensures Good(sections, active, Cleared, written, overlapped)
  {
    hide History, Flatten, Blocks, NoIndex, Positive;
    FlushHistory(Flatten(sections), [], active.messages, written, overlapped);
  }

  /** What a file is once both chunks are empty and the index is written. */
  lemma ClosedFile(sections: seq<Section>, begin: nat, end: nat, written: seq<Message>, overlapped: bool)
    requires Good(sections, Cleared, Cleared, written, overlapped) && HeaderGood(sections, begin, end, written, overlapped)
    ensures var file := Flatten(sections + [Index]);
      && multiset(file) == multiset(written) && (!overlapped ==> file == written)
      && (Distinct(written) ==> (file == written <==> !overlapped))
    ensures Orderly(written, overlapped) ==>
      WellFormed(sections + [Index]) && HeaderOk(written, begin, end) && Between(written, begin, end)
  {
    hide Gathered, Flatten, Blocks, WellFormed, History, NoIndex, Distinct, HeaderOk, Between;
    Everything(Flatten(sections), written, overlapped);
    IndexWritten(sections);
    if Orderly(written, overlapped) {
      HeaderBrackets(written, begin, end);
    }
  }

  lemma Everything(file: seq<Message>, written: seq<Message>, overlapped: bool)
    requires History(file, [], [], written, overlapped)
    ensures multiset(file) == multiset(written)
    ensures !overlapped ==> file == written
    ensures overlapped && Distinct(written) ==> file != written
  {
    assert file + [] + [] == file;
  }

  lemma HeaderBrackets(file: seq<Message>, begin: nat, end: nat)
    requires HeaderOk(file, begin, end) && Sorted(file)
    ensures Between(file, begin, end)
  {
  }

  /** Round trip: what was written in order, with positive times and no overlapping swap, is read back
      window by window as if filtered from the written messages themselves. */
  method PlayBack(w: FileWriter, begin: nat, end: nat) returns (out: seq<Message>)
    requires w.Valid() && Orderly(w.written, w.overlapped)
    modifies w
    ensures out == Window(old(w.written), begin, end)
  {
    hide WellFormed, Window, Flatten, History, Gathered, Blocks, HeaderOk, Positive, NoIndex, FileWriter.Valid;
    w.Close();
    var reader := new Reader(w.sections, w.headerBegin, w.headerEnd, true);
    out := reader.Drain(begin, end);
  }

  lemma OtherOrder(file: seq<Message>, a: Message, b: Message)
    requires multiset(file) == multiset([a, b]) && file != [a, b]
    ensures file == [b, a]
  {
    assert |file| == |multiset(file)| == 2;
    assert file == [file[0], file[1]];
    assert file[0] in multiset(file) && file[1] in multiset(file);
    assert multiset([a, b]) == multiset{a, b};
  }

  /** Order is lost: two messages, each filling its chunk before the flushing thread gets a turn, are
      stored newest first. */
  method OverlapReorders(a: Message, b: Message) returns (w: FileWriter)
    requires a != b && |a.content| > 1 && |b.content| > 1
    ensures w.written == [a, b] && Flatten(w.sections) == [b, a]
  {
    hide Flatten, FileWriter.Valid, Orderly, WellFormed, Between, ChunkFull, LastEnd, FirstBegin;
    w := new FileWriter(0, 1);
    w.WriteMessage(a);
    w.WriteMessage(b);
    assert w.written == [a, b] && w.overlapped;
    w.Close();
    assert multiset([a, b]) == multiset{a, b};
    assert Distinct(w.written);
    OtherOrder(Flatten(w.sections), a, b);
  }

  /** A message is lost to readers: two messages in one chunk, the first of time 0.  Chunk and file header begin at
      the second, so reading the window that holds the first finds nothing. */
  method ZeroTimeIsLost(a: Message, b: Message) returns (w: FileWriter, found: bool)
    requires a.time == 0 < b.time
    ensures Flatten(w.sections) == [a, b] && Window([a, b], 0, 0) == [a] && !found
  {
    hide Flatten, FileWriter.Valid, Orderly, WellFormed, Between, HeaderOk, Reader.Valid, Reader.GoodFile, Passed, Delivered,
         ChunkFull, Distinct, Window, LastEnd;
    WindowOfFirst(a, b);
    w := new FileWriter(0, 0);
    w.WriteMessage(a);
    w.WriteMessage(b);
    assert w.written == [a, b];
    w.Close();
    var reader := new Reader(w.sections, w.headerBegin, w.headerEnd, true);
    var message;
    found, message := reader.ReadMessage(0, 0);
  }

  lemma WindowOfFirst(a: Message, b: Message)
    requires a.time == 0 < b.time
    ensures Window([a, b], 0, 0) == [a]
  {
    WindowSingle(a, 0, 0);
    WindowNone([b], 0, 0);
    WindowConcat([a], [b], 0, 0);
    assert [a] + [b] == [a, b];
  }
}
