/**
 The whole way of a recording: the record writer (cyber/record/record_writer.cc) cuts the stream into files,
 a file writer (cyber/record/file/record_file_writer.cc) stores each in chunks, a reader
 (cyber/record/record_reader.cc) opens each, and the viewer (cyber/record/record_viewer.cc) merges them.
 */
module RecordReplay {
  import opened RecordReader
  import opened RecordViewer
  import RecordWriter
  import RecordFile
  import opened RecordOrder

  lemma {:induction false} AtOfSegments(parts: seq<seq<Message>>, time: nat)
    ensures At(parts, time) == Window(RecordWriter.Concat(parts), time, time)
  {
    if parts != [] {
      var front := parts[..|parts| - 1];
      AtOfSegments(front, time);
      WindowConcat(RecordWriter.Concat(front), parts[|parts| - 1], time, time);
    }
  }

  lemma {:induction false} WindowNotBefore(ms: seq<Message>, begin: nat, end: nat, low: nat)
    requires NotBefore(ms, low)
    ensures NotBefore(Window(ms, begin, end), low)
  {
    if ms != [] { WindowNotBefore(ms[1..], begin, end, low); }
  }

  lemma {:induction false} WindowSorted(ms: seq<Message>, begin: nat, end: nat)
    requires Sorted(ms)
    ensures Sorted(Window(ms, begin, end))
  {
    if ms != [] {
      WindowSorted(ms[1..], begin, end);
      WindowNotBefore(ms[1..], begin, end, ms[0].time);
    }
  }

  /** Merging the segments of a time-ordered stream is cutting the window out of the stream. */
  lemma SegmentsMergeBack(parts: seq<seq<Message>>, begin: nat, end: nat)
    requires Sorted(RecordWriter.Concat(parts))
    ensures Merges(Window(RecordWriter.Concat(parts), begin, end), parts, begin, end + 1)
  {
    var all := RecordWriter.Concat(parts);
    WindowSorted(all, begin, end);
    forall time: nat
      ensures Window(Window(all, begin, end), time, time) == if begin <= time < end + 1 then At(parts, time) else []
    {
      WindowOfWindow(all, begin, end, time);
      AtOfSegments(parts, time);
    }
  }

  /** Viewing the files of a recording: exactly the recorded messages of the interval on the allowed
      channels, in the order they were recorded, wherever the stream was cut into files. */
  method Replay(readers: seq<Reader>, ghost written: seq<Message>, begin: nat, end: nat, channels: set<string>)
    returns (out: seq<Message>)
    requires forall i, j | 0 <= i < j < |readers| :: readers[i] != readers[j]
    requires forall i | 0 <= i < |readers| :: readers[i].Valid()
    requires RecordWriter.Concat(FilesOf(readers)) == written && Sorted(written)
    modifies readers
    ensures out == Keep(Window(written, begin, end), channels)
  {
    hide Merges, Window, Reader.Valid, Reader.All;
    SegmentsMergeBack(FilesOf(readers), begin, end);
    ghost var merged;
    out, merged := View(readers, begin, end, channels);
    MergeUnique(merged, Window(written, begin, end), FilesOf(readers), begin, end + 1);
  }

  // ------------------------------------------------------------ files and readers

  /** What file writer f was given, by any schedule of its flushing thread that never let a swap overlap. */
  ghost predicate HoldsPart(f: RecordFile.FileWriter, part: seq<Message>)
    reads f
  {
    f.Valid() && f.written == part && !f.overlapped
  }

  /** Hands the items of one file to a file writer whose flushing thread keeps up. */
  method SaveFile(items: seq<RecordWriter.Item>, chunkInterval: nat, chunkRawSize: nat)
    returns (f: RecordFile.FileWriter)
    ensures fresh(f) && HoldsPart(f, RecordWriter.Messages(items))
  {
    hide RecordFile.FileWriter.Valid, RecordWriter.Messages;
    f := new RecordFile.FileWriter(chunkInterval, chunkRawSize);
    RecordWriter.NoItems();
    assert items[..0] == [];
    for k := 0 to |items|
      invariant f.Valid() && !f.overlapped && f.flush == RecordFile.Cleared
      invariant f.written == RecordWriter.Messages(items[..k])
    {
      assert items[..k + 1] == items[..k] + [items[k]];
      RecordWriter.AppendItem(items[..k], items[k]);
      match items[k]
      case Declaration(_, _, _) => f.WriteChannel();
      case Stored(m) =>
        f.WriteMessage(m);
        f.Flush();
    }
    assert items[..|items|] == items;
  }

  /** Closes one file and opens a reader on it. */
  method OpenFile(f: RecordFile.FileWriter, ghost part: seq<Message>) returns (reader: Reader)
    requires HoldsPart(f, part) && Positive(part) && Sorted(part)
    modifies f
    ensures fresh(reader) && reader.Valid() && reader.All() == part
    ensures reader.headerBegin == Begin(part) && reader.headerEnd == End(part)
  {
    hide WellFormed, Flatten, RecordFile.FileWriter.Valid, Between;
    f.Close();
    reader := new Reader(f.sections, f.headerBegin, f.headerEnd, true);
  }

  ghost predicate Apart<T>(objects: seq<T>) {
    forall i, j | 0 <= i < j < |objects| :: objects[i] != objects[j]
  }

  /** Closes all files and opens readers on them, in the order of the files. */
  method OpenFiles(fs: seq<RecordFile.FileWriter>, ghost parts: seq<seq<Message>>) returns (readers: seq<Reader>)
    requires Apart(fs) && |fs| == |parts| && forall i | 0 <= i < |fs| :: HoldsPart(fs[i], parts[i])
    requires forall i | 0 <= i < |fs| :: Positive(parts[i]) && Sorted(parts[i])
    modifies fs
    ensures Apart(readers) && (forall i | 0 <= i < |readers| :: fresh(readers[i]) && readers[i].Valid())
    ensures FilesOf(readers) == parts
    ensures forall i | 0 <= i < |readers| :: readers[i].headerBegin == Begin(parts[i]) && readers[i].headerEnd == End(parts[i])
  {
    hide HoldsPart, Reader.Valid, Reader.All, Positive, Sorted, Begin, End;
    readers := [];
    for k := 0 to |fs|
      invariant |readers| == k && Apart(readers)
      invariant forall i | 0 <= i < k :: fresh(readers[i]) && readers[i].Valid() && readers[i].All() == parts[i]
      invariant forall i | 0 <= i < k :: readers[i].headerBegin == Begin(parts[i]) && readers[i].headerEnd == End(parts[i])
      invariant forall i | k <= i < |fs| :: HoldsPart(fs[i], parts[i])
    {
      var reader := OpenFile(fs[k], parts[k]);
      readers := readers + [reader];
    }
  }

  // ------------------------------------------------------------ the whole way

  /** The messages of all files of a writer, file by file. */
  ghost function Parts(w: RecordWriter.Writer): seq<seq<Message>>
    reads w
  {
    RecordWriter.MessagesOfAll(w.files + [w.current])
  }

  /** Views files in the order the sort leaves. */
  method ReplaySorted(readers: seq<Reader>, ghost parts: seq<seq<Message>>, begin: nat, end: nat, channels: set<string>)
    returns (out: seq<Message>, ghost order: seq<nat>)
    requires Apart(readers) && (forall i | 0 <= i < |readers| :: readers[i].Valid())
    requires FilesOf(readers) == parts && Sorted(RecordWriter.Concat(parts))
    requires forall i | 0 <= i < |readers| :: readers[i].headerBegin == Begin(parts[i]) && readers[i].headerEnd == End(parts[i])
    modifies readers
    ensures Admissible(parts, order)
    ensures exists merged :: Merges(merged, Arranged(parts, order), begin, end + 1) && out == Keep(merged, channels)
    ensures SameMerge(parts, order) ==> out == Keep(Window(RecordWriter.Concat(parts), begin, end), channels)
    ensures NoTies(parts) ==> out == Keep(Window(RecordWriter.Concat(parts), begin, end), channels)
  {
    hide Merges, Window, Reader.Valid, Reader.All, Sorted, Keep, Begin, End, At, NoTies;
    var sorted;
    sorted, order := SortReaders(readers);
    assert Admissible(parts, order);
    assert FilesOf(sorted) == Arranged(parts, order);
    ghost var merged;
    out, merged := View(sorted, begin, end, channels);
    if NoTies(parts) {
      forall time: nat ensures At(Arranged(parts, order), time) == At(parts, time) { SameAt(parts, order, time); }
    }
    if SameMerge(parts, order) { MergedAlike(parts, order, merged, begin, end); }
  }

  lemma MergedAlike(parts: seq<seq<Message>>, order: seq<nat>, merged: seq<Message>, begin: nat, end: nat)
    requires Sorted(RecordWriter.Concat(parts)) && IsOrder(order, |parts|) && SameMerge(parts, order)
    requires Merges(merged, Arranged(parts, order), begin, end + 1)
    ensures merged == Window(RecordWriter.Concat(parts), begin, end)
  {
    hide Window, At, Arranged;
    assert Merges(merged, parts, begin, end + 1);
    SegmentsMergeBack(parts, begin, end);
    MergeUnique(merged, Window(RecordWriter.Concat(parts), begin, end), parts, begin, end + 1);
  }

  /** From a writer to its replay, however its files were chunked and flushed without overlap: viewing them gives
      exactly the messages that were written, of the interval and on the allowed channels, merged in an
      order the sort may leave; and in the order written, when no two files with messages have the same header
      times. */
  method ReplayRecording(w: RecordWriter.Writer, fs: seq<RecordFile.FileWriter>, begin: nat, end: nat, channels: set<string>)
    returns (out: seq<Message>, ghost order: seq<nat>)
    requires w.Valid() && Positive(w.written) && Sorted(w.written)
    requires Apart(fs) && |fs| == |w.files| + 1
    requires forall i | 0 <= i < |fs| :: HoldsPart(fs[i], RecordWriter.Messages((w.files + [w.current])[i]))
    modifies fs
    ensures Admissible(Parts(w), order)
    ensures exists merged :: Merges(merged, Arranged(Parts(w), order), begin, end + 1) && out == Keep(merged, channels)
    ensures SameMerge(Parts(w), order) ==> out == Keep(Window(w.written, begin, end), channels)
    ensures NoTies(Parts(w)) ==> out == Keep(Window(w.written, begin, end), channels)
  {
    hide RecordWriter.Writer.Valid, HoldsPart, Reader.Valid, Reader.All, Positive, Sorted, Keep, Window, RecordWriter.Concat,
         Merges, Admissible, SameMerge, NoTies, Begin, End;
    ghost var parts := Parts(w);
    PartsAre(w.files + [w.current]);
    w.StreamIsSegmented();
    RecordWriter.AppendFile(w.files, w.current);
    RecordWriter.ConcatAppend(RecordWriter.MessagesOfAll(w.files), RecordWriter.Messages(w.current));
    forall i | 0 <= i < |fs|
      ensures Positive(parts[i]) && Sorted(parts[i])
    {
      PartOfStream(parts, i);
    }
    var readers := OpenFiles(fs, parts);
    out, order := ReplaySorted(readers, parts, begin, end, channels);
  }

  lemma {:induction false} PartsAre(files: seq<seq<RecordWriter.Item>>)
    ensures |RecordWriter.MessagesOfAll(files)| == |files|
    ensures forall i | 0 <= i < |files| :: RecordWriter.MessagesOfAll(files)[i] == RecordWriter.Messages(files[i])
  {
    if files != [] { PartsAre(files[..|files| - 1]); }
  }

  /** The files of a recording: the segments of the reference, and the open one. */
  ghost function Segments(stream: seq<Message>, limits: RecordWriter.Limits): seq<seq<Message>> {
    var g := RecordWriter.Segment(stream, limits);
    g.closed + [g.open]
  }

  lemma PartsAreSegments(w: RecordWriter.Writer)
    requires w.Valid() && forall i | 0 <= i < |w.split| :: w.split[i]
    ensures Parts(w) == Segments(w.written, w.limits)
  {
    hide RecordWriter.Writer.Valid, RecordWriter.Segment, RecordWriter.Messages;
    w.StreamIsSegmented();
    RecordWriter.GroupedBySplits(w.files, w.split);
    RecordWriter.AppendFile(w.files, w.current);
    assert [] + RecordWriter.Messages(w.current) == RecordWriter.Messages(w.current);
  }

  /** Records a stream and replays it: filtering the stream, when no two of its segments have the same times. */
  method RecordAndReplay(declarations: seq<(string, string, string)>, stream: seq<Message>, limits: RecordWriter.Limits,
                         chunkInterval: nat, chunkRawSize: nat, begin: nat, end: nat, channels: set<string>)
    returns (out: seq<Message>, ghost order: seq<nat>)
    requires Positive(stream) && Sorted(stream)
    ensures Admissible(Segments(stream, limits), order)
    ensures exists merged :: Merges(merged, Arranged(Segments(stream, limits), order), begin, end + 1)
                             && out == Keep(merged, channels)
    ensures NoTies(Segments(stream, limits)) ==> out == Keep(Window(stream, begin, end), channels)
  {
    hide RecordWriter.Writer.Valid, HoldsPart, Positive, Sorted, Keep, Window, RecordWriter.Messages, RecordWriter.Names,
         RecordWriter.Missing, RecordWriter.Exceeds, RecordWriter.OpenSegment, Merges, Admissible, SameMerge, NoTies,
         Segments;
    var w := new RecordWriter.Writer(limits);
    w.Open();
    for k := 0 to |declarations|
      invariant w.Valid() && w.isOpened && w.written == [] && fresh(w) && w.split == []
    {
      w.WriteChannel(declarations[k].0, declarations[k].1, declarations[k].2);
    }
    for k := 0 to |stream|
      invariant w.Valid() && w.isOpened && w.written == stream[..k] && fresh(w)
      invariant forall i | 0 <= i < |w.split| :: w.split[i]
    {
      w.WriteMessage(stream[k]);
    }
    assert stream[..|stream|] == stream;
    PartsAreSegments(w);
    var all := w.files + [w.current];
    var fs: seq<RecordFile.FileWriter> := [];
    for k := 0 to |all|
      invariant w.Valid() && |fs| == k && Apart(fs) && forall i | 0 <= i < k :: fresh(fs[i])
      invariant w.written == stream && w.files + [w.current] == all
      invariant forall i | 0 <= i < k :: HoldsPart(fs[i], RecordWriter.Messages(all[i]))
    {
      var f := SaveFile(all[k], chunkInterval, chunkRawSize);
      fs := fs + [f];
    }
    out, order := ReplayRecording(w, fs, begin, end, channels);
  }
}
