/**
 Windowed reading of one record file (cyber/record/record_reader.cc).  A file is the sequence
 of sections that follow its header section.
 */
module RecordReader {

  datatype Message = Message(time: nat, channel: string, content: string)

  datatype Section =
    | Channel
    | ChunkHeader(begin: nat, end: nat)
    | ChunkBody(messages: seq<Message>)
    | Index

  /** The messages of a file in order; the index section ends it. */
  ghost function Flatten(s: seq<Section>): seq<Message> {
    if s == [] || s[0].Index? then []
    else if s[0].ChunkBody? then s[0].messages + Flatten(s[1..])
    else Flatten(s[1..])
  }

  /** The body the next chunk header, already consumed, belongs to. */
  ghost function NextBody(s: seq<Section>): seq<Message> {
    if s == [] then [] else if s[0].Channel? then NextBody(s[1..]) else if s[0].ChunkBody? then s[0].messages else []
  }

  /** Behind a chunk header comes its body, except at the end of a truncated file. */
  ghost predicate BodyFollows(s: seq<Section>) {
    s == [] || s[0].Index? || (s[0].ChunkBody? && s[0].messages != []) || (s[0].Channel? && BodyFollows(s[1..]))
  }

  ghost predicate Between(ms: seq<Message>, begin: nat, end: nat) {
    forall i | 0 <= i < |ms| :: begin <= ms[i].time <= end
  }

  ghost predicate Before(ms: seq<Message>, begin: nat) {
    forall i | 0 <= i < |ms| :: ms[i].time < begin
  }

  ghost predicate After(ms: seq<Message>, end: nat) {
    forall i | 0 <= i < |ms| :: ms[i].time > end
  }

  /** Chunk headers bracket the chunk that follows. */
  ghost predicate WellFormed(s: seq<Section>) {
    s == [] || s[0].Index? ||
    (WellFormed(s[1..]) &&
     (s[0].ChunkHeader? ==> BodyFollows(s[1..]) && Between(NextBody(s[1..]), s[0].begin, s[0].end)))
  }

  ghost predicate Sorted(ms: seq<Message>) {
    forall i, j | 0 <= i < j < |ms| :: ms[i].time <= ms[j].time
  }

  ghost predicate Positive(ms: seq<Message>) {
    forall i | 0 <= i < |ms| :: ms[i].time > 0
  }

  /** The messages of a closed time window, in order: the plain filter. */
  ghost function Window(ms: seq<Message>, begin: nat, end: nat): seq<Message> {
    if ms == [] then []
    else (if begin <= ms[0].time <= end then [ms[0]] else []) + Window(ms[1..], begin, end)
  }

  lemma {:induction false} WindowConcat(a: seq<Message>, b: seq<Message>, begin: nat, end: nat)
    ensures Window(a + b, begin, end) == Window(a, begin, end) + Window(b, begin, end)
  {
    if a == [] {
      assert a + b == b;
    } else {
      assert (a + b)[1..] == a[1..] + b;
      WindowConcat(a[1..], b, begin, end);
    }
  }

  lemma {:induction false} WindowNone(ms: seq<Message>, begin: nat, end: nat)
    requires forall i | 0 <= i < |ms| :: !(begin <= ms[i].time <= end)
    ensures Window(ms, begin, end) == []
  {
    if ms != [] { WindowNone(ms[1..], begin, end); }
  }

  lemma {:induction false} FlattenNextBody(s: seq<Section>)
    requires BodyFollows(s)
    ensures Flatten(s) == [] || (NextBody(s) != [] && Flatten(s)[0] == NextBody(s)[0])
  {
    if s != [] && s[0].Channel? { FlattenNextBody(s[1..]); }
  }

  lemma SortedSuffix(a: seq<Message>, b: seq<Message>)
    requires Sorted(a + b)
    ensures Sorted(b)
  {
    assert forall i | 0 <= i < |b| :: b[i] == (a + b)[|a| + i];
  }

  /** The state of a search for the next chunk: of the messages in all, those dropped lie before
      the window and the sections s hold the others; skip says that the next body is to be dropped. */
  ghost predicate Scanning(all: seq<Message>, s: seq<Section>, skip: bool, dropped: seq<Message>, begin: nat) {
    && WellFormed(s) && Sorted(all)
    && all == dropped + Flatten(s) && Before(dropped, begin)
    && (skip ==> BodyFollows(s) && Before(NextBody(s), begin))
  }

  lemma ScanChannel(all: seq<Message>, s: seq<Section>, skip: bool, dropped: seq<Message>, begin: nat)
    requires Scanning(all, s, skip, dropped, begin) && s != [] && s[0].Channel?
    ensures Scanning(all, s[1..], skip, dropped, begin)
  {
  }

  /** Reading a chunk header decides about its body; a chunk that begins behind the window puts
      everything ahead behind it. */
  lemma ScanHeader(all: seq<Message>, s: seq<Section>, skip: bool, dropped: seq<Message>, begin: nat, end: nat)
    requires Scanning(all, s, skip, dropped, begin) && s != [] && s[0].ChunkHeader?
    ensures !skip && Scanning(all, s[1..], s[0].end < begin, dropped, begin)
    ensures s[0].begin > end ==> After(Flatten(s[1..]), end)
  {
    FlattenNextBody(s[1..]);
    SortedSuffix(dropped, Flatten(s));
  }

  lemma ScanBody(all: seq<Message>, s: seq<Section>, skip: bool, dropped: seq<Message>, begin: nat)
    requires Scanning(all, s, skip, dropped, begin) && s != [] && s[0].ChunkBody?
    ensures all == dropped + s[0].messages + Flatten(s[1..]) && WellFormed(s[1..])
    ensures skip ==> Scanning(all, s[1..], false, dropped + s[0].messages, begin)
  {
    assert dropped + s[0].messages + Flatten(s[1..]) == dropped + (s[0].messages + Flatten(s[1..]));
  }

  lemma ScanResult(all: seq<Message>, s: seq<Section>, skip: bool, dropped: seq<Message>, begin: nat)
    requires Scanning(all, s, skip, dropped, begin)
    ensures all == dropped + Flatten(s) && Before(dropped, begin) && WellFormed(s)
  {
  }

  lemma Nothing(end: nat)
    ensures After([], end)
  {
  }

  lemma ScanEnd(all: seq<Message>, s: seq<Section>, skip: bool, dropped: seq<Message>, begin: nat)
    requires Scanning(all, s, skip, dropped, begin) && (s == [] || s[0].Index?)
    ensures all == dropped && Flatten(s) == [] && Before(dropped, begin)
  {
  }

  lemma Regroup(all: seq<Message>, g: seq<Message>, a: seq<Message>, b: seq<Message>, c: seq<Message>)
    ensures g + (a + b + c) == (g + a) + (b + c)
    ensures all == g + (a + c) ==> all == (g + a) + c
    ensures [] + c == c
  {
  }

  lemma WindowBehind(ms: seq<Message>, begin: nat, end: nat)
    requires After(ms, end)
    ensures Window(ms, begin, end) == []
  {
    WindowNone(ms, begin, end);
  }

  /** From g0 to g, only messages earlier than the window were passed over. */
  ghost predicate Passed(g0: seq<Message>, g: seq<Message>, begin: nat) {
    g0 <= g && Before(g[|g0|..], begin)
  }

  /** The same, and then m was delivered. */
  ghost predicate Delivered(g0: seq<Message>, g: seq<Message>, begin: nat, m: Message) {
    g != [] && g[|g| - 1] == m && Passed(g0, g[..|g| - 1], begin)
  }

  lemma PassedSelf(g: seq<Message>, begin: nat)
    ensures Passed(g, g, begin)
  {
  }

  lemma PassedOne(g0: seq<Message>, g: seq<Message>, m: Message, begin: nat)
    requires Passed(g0, g, begin)
    ensures if m.time < begin then Passed(g0, g + [m], begin) else Delivered(g0, g + [m], begin, m)
  {
    assert (g + [m])[..|g|] == g;
  }

  lemma PassedMore(g0: seq<Message>, g: seq<Message>, more: seq<Message>, begin: nat)
    requires Passed(g0, g, begin) && Before(more, begin)
    ensures Passed(g0, g + more, begin)
  {
  }

  lemma PassedThrough(g0: seq<Message>, g1: seq<Message>, g2: seq<Message>, begin: nat, m: Message)
    requires Passed(g0, g1, begin)
    ensures Passed(g1, g2, begin) ==> Passed(g0, g2, begin)
    ensures Delivered(g1, g2, begin, m) ==> Delivered(g0, g2, begin, m)
  {
  }

  ghost predicate Increasing(windows: seq<(nat, nat)>) {
    && (forall i | 0 <= i < |windows| :: windows[i].0 <= windows[i].1)
    && (forall i, j | 0 <= i < j < |windows| && j == i + 1 :: windows[i].1 < windows[j].0)
  }

  /** Passing over earlier messages adds nothing to the window. */
  lemma WindowPassed(g0: seq<Message>, g: seq<Message>, begin: nat, end: nat, bound: nat)
    requires Passed(g0, g, begin) && Before(g0, bound) && begin <= bound
    ensures Window(g, begin, end) == Window(g0, begin, end) && Before(g, bound)
  {
    assert g == g0 + g[|g0|..];
    WindowConcat(g0, g[|g0|..], begin, end);
    WindowNone(g[|g0|..], begin, end);
  }

  /** Delivering a message of the window adds just it. */
  lemma WindowDelivered(g0: seq<Message>, g: seq<Message>, begin: nat, end: nat, m: Message)
    requires Delivered(g0, g, begin, m) && begin <= m.time <= end && Before(g0, end + 1)
    ensures |g0| < |g| && Window(g, begin, end) == Window(g0, begin, end) + [m] && Before(g, end + 1)
  {
    hide Window;
    var h := g[..|g| - 1];
    WindowPassed(g0, h, begin, end, end + 1);
    WindowSingle(m, begin, end);
    assert g == h + [m];
    WindowConcat(h, [m], begin, end);
  }

  lemma WindowSingle(m: Message, begin: nat, end: nat)
    requires begin <= m.time <= end
    ensures Window([m], begin, end) == [m]
  {
    assert [m][1..] == [];
  }

  class Reader {
    const sections: seq<Section>
    const headerBegin: nat
    const headerEnd: nat
    const isValid: bool
    /** Position of the underlying file, in sections. */
    var pos: nat
    var reachEnd: bool
    var chunk: seq<Message>
    var messageIndex: nat
    /** Messages already passed: delivered, or earlier than the window asked for. */
    ghost var gone: seq<Message>

    /** All messages a reader can ever deliver. */
    ghost function All(): seq<Message> {
      if isValid then Flatten(sections) else []
    }

    /** A readable file is well-formed, ordered by time, and bracketed by its header; a file that
        could not be opened carries nothing. */
    ghost predicate GoodFile() {
      WellFormed(sections) && Sorted(All()) && Between(All(), headerBegin, headerEnd)
    }

    ghost function Tail(): seq<Message>
      requires pos <= |sections|
      reads this
    {
      if !isValid || reachEnd then [] else Flatten(sections[pos..])
    }

    predicate Bounds()
      reads this
    {
      pos <= |sections| && messageIndex <= |chunk|
    }

    ghost predicate Valid()
      reads this
    {
      && GoodFile() && Bounds()
      && (!reachEnd ==> WellFormed(sections[pos..]))
      && All() == gone + Rest()
    }

    /** The messages still ahead. */
    ghost function Rest(): seq<Message>
      requires pos <= |sections| && messageIndex <= |chunk|
      reads this
    {
      chunk[messageIndex..] + Tail()
    }

    constructor (sections: seq<Section>, headerBegin: nat, headerEnd: nat, isValid: bool)
      ensures Bounds() && gone == [] && (GoodFile() ==> Valid())
      ensures this.sections == sections && this.isValid == isValid
      ensures this.headerBegin == headerBegin && this.headerEnd == headerEnd
    {
      this.sections, this.headerBegin, this.headerEnd := sections, headerBegin, headerEnd;
      this.isValid := isValid;
      pos, reachEnd, chunk, messageIndex, gone := 0, false, [], 0, [];
    }

    method Reset()
      modifies this
      ensures Bounds() && gone == [] && (GoodFile() ==> Valid())
    {
      pos, reachEnd, messageIndex, chunk := 0, false, 0, [];
      gone := [];
      assert sections[0..] == sections;
    }

    /** What is ahead of the position is well-formed and ordered. */
    ghost predicate Scannable()
      requires pos <= |sections|
      reads this
    {
      (!reachEnd ==> WellFormed(sections[pos..])) && Sorted(Tail())
    }

    /** Finds the next chunk that may hold messages of the window.  In a well-formed ordered file, skipped
        chunks lie before the window, and stopping early means that everything ahead lies behind it. */
    method ReadNextChunk(begin: nat, end: nat) returns (ok: bool, ghost dropped: seq<Message>)
      requires isValid && pos <= |sections|
      modifies this`pos, this`reachEnd, this`chunk
      ensures old(pos) <= pos <= |sections| && (if ok then old(pos) < pos else chunk == old(chunk))
      ensures old(Scannable()) ==> Before(dropped, begin) && (!reachEnd ==> WellFormed(sections[pos..]))
      ensures old(Scannable()) && ok ==> old(Tail()) == dropped + chunk + Tail()
      ensures old(Scannable()) && !ok ==> old(Tail()) == dropped + Tail() && After(Tail(), end)
    {
      hide Scanning, Flatten, WellFormed, Before, After, Scannable;
      var skipNextChunkBody := false;
      dropped := [];
      ghost var good, all := Scannable(), Tail();
      if good { StartScan(begin); }
      while !reachEnd
        invariant old(pos) <= pos <= |sections| && chunk == old(chunk)
        invariant good ==> if reachEnd then all == dropped && Before(dropped, begin)
                           else Scanning(all, sections[pos..], skipNextChunkBody, dropped, begin)
        decreases |sections| - pos, !reachEnd
      {
        ghost var here := sections[pos..];
        if pos == |sections| {
          if good {
            ScanEnd(all, here, skipNextChunkBody, dropped, begin);
            Nothing(end);
            ScanResult(all, here, skipNextChunkBody, dropped, begin);
          }
          return false, dropped;
        }
        var section := sections[pos];
        assert here[0] == section && here[1..] == sections[pos + 1..];
        pos := pos + 1;
        match section
        case Index =>
          if good { ScanEnd(all, here, skipNextChunkBody, dropped, begin); }
          reachEnd := true;
        case Channel =>
          if good { ScanChannel(all, here, skipNextChunkBody, dropped, begin); }
        case ChunkHeader(b, e) =>
          if good { ScanHeader(all, here, skipNextChunkBody, dropped, begin, end); }
          if e < begin {
            skipNextChunkBody := true;
          }
          if b > end {
            if good { ScanResult(all, sections[pos..], skipNextChunkBody, dropped, begin); }
            return false, dropped;
          }
        case ChunkBody(messages) =>
          if good { ScanBody(all, here, skipNextChunkBody, dropped, begin); }
          if skipNextChunkBody {
            dropped := dropped + messages;
            skipNextChunkBody := false;
          } else {
            if good { ScanResult(all, here, skipNextChunkBody, dropped, begin); }
            chunk := messages;
            return true, dropped;
          }
      }
      Nothing(end);
      ok := false;
    }

    lemma StartScan(begin: nat)
      requires isValid && pos <= |sections| && Scannable()
      ensures if reachEnd then Tail() == [] && Before([], begin) else Scanning(Tail(), sections[pos..], false, [], begin)
    {
    }

    /** The loop over the current chunk: it stops at a message of the window, or in front of one
        behind the window, or runs to the end of the chunk. */
    method ScanChunk(begin: nat, end: nat) returns (stop: bool, found: bool, message: Message)
      requires Bounds()
      modifies this`messageIndex, this`gone
      ensures Bounds() && (old(Valid()) ==> Valid())
      ensures !stop ==> messageIndex == |chunk|
      ensures stop && found ==> begin <= message.time <= end
      ensures stop && found && old(Valid()) ==> Delivered(old(gone), gone, begin, message)
      ensures !(stop && found) && old(Valid()) ==> Passed(old(gone), gone, begin)
      ensures stop && !found && old(Valid()) ==> Window(Rest(), begin, end) == []
    {
      hide GoodFile, Flatten, WellFormed, Window, Passed, Delivered, Sorted, Between, Before;
      message := Message(0, "", "");
      ghost var good := Valid();
      PassedSelf(gone, begin);
      while messageIndex < |chunk|
        invariant Bounds() && (good ==> Valid()) && Passed(old(gone), gone, begin)
      {
        var next := chunk[messageIndex];
        if next.time > end {
          if good { NothingInWindow(begin, end); }
          return true, false, message;
        }
        messageIndex := messageIndex + 1;
        PassedOne(old(gone), gone, next, begin);
        gone := gone + [next];
        if next.time < begin {
          continue;
        }
        return true, true, next;
      }
      return false, false, message;
    }

    lemma NothingInWindow(begin: nat, end: nat)
      requires Valid() && messageIndex < |chunk| && chunk[messageIndex].time > end
      ensures Window(Rest(), begin, end) == []
    {
      RestFacts();
      assert Rest()[0] == chunk[messageIndex];
      WindowNone(Rest(), begin, end);
    }

    /** Does the file's header rule the window out? */
    predicate RuledOut(begin: nat, end: nat) {
      !isValid || begin > headerEnd || end < headerBegin
    }

    /** Delivers a message of the window or none; none for a window the header rules out.  From a good file it
        is the next message of the window, if there is one, passing over nothing but earlier messages. */
    method ReadMessage(begin: nat, end: nat) returns (found: bool, message: Message)
      requires Bounds()
      modifies this
      ensures Bounds() && (old(Valid()) ==> Valid())
      ensures found ==> begin <= message.time <= end
      ensures RuledOut(begin, end) ==> !found && gone == old(gone)
      ensures found && old(Valid()) ==> Delivered(old(gone), gone, begin, message)
      ensures !found && old(Valid()) ==> Window(Rest(), begin, end) == [] && Passed(old(gone), gone, begin)
      decreases |sections| - pos
    {
      hide GoodFile, Flatten, WellFormed, Window, Passed, Delivered, Sorted, Between, Before, After, Scannable;
      message := Message(0, "", "");
      ghost var good := Valid();
      if RuledOut(begin, end) {
        if good { OutsideBracket(begin, end); }
        PassedSelf(gone, begin);
        return false, message;
      }
      var stop;
      stop, found, message := ScanChunk(begin, end);
      if stop {
        return;
      }
      if good { TailScannable(); }
      assert Rest() == Tail();
      ghost var before, tail := gone, Tail();
      ghost var skipped;
      found, skipped := ReadNextChunk(begin, end);
      if good { PassedMore(old(gone), gone, skipped, begin); }
      gone := gone + skipped;
      if found {
        messageIndex := 0;
        assert chunk[messageIndex..] == chunk;
        Regroup(All(), before, skipped, chunk, Tail());
        ghost var mid := gone;
        found, message := ReadMessage(begin, end);
        if good { PassedThrough(old(gone), mid, gone, begin, message); }
      } else {
        Regroup(All(), before, skipped, [], Tail());
        assert Rest() == Tail();
        if good { WindowBehind(Tail(), begin, end); }
      }
    }

    lemma TailScannable()
      requires Valid() && messageIndex == |chunk|
      ensures Scannable()
    {
      RestFacts();
      assert Rest() == Tail();
    }

    lemma OutsideBracket(begin: nat, end: nat)
      requires Valid() && (!isValid || begin > headerEnd || end < headerBegin)
      ensures Window(Rest(), begin, end) == []
    {
      RestFacts();
      WindowNone(Rest(), begin, end);
    }

    /** What lies ahead is ordered and within the file header's bracket. */
    lemma RestFacts()
      requires Valid()
      ensures Sorted(Rest()) && (isValid ==> Between(Rest(), headerBegin, headerEnd)) && (!isValid ==> Rest() == [])
    {
      assert forall i | 0 <= i < |Rest()| :: Rest()[i] == All()[|gone| + i];
    }

    /** When nothing of the window is ahead, what was seen of it is all of it. */
    lemma WholeWindow(begin: nat, end: nat)
      requires Valid() && Window(Rest(), begin, end) == []
      ensures Window(All(), begin, end) == Window(gone, begin, end)
    {
      WindowConcat(gone, Rest(), begin, end);
    }

    lemma Usable()
      requires Valid()
      ensures Bounds() && GoodFile()
    {
    }

    lemma EndsBefore(time: nat)
      requires Valid() && headerEnd < time
      ensures Before(All(), time)
    {
    }

    lemma GoneWithin()
      requires Valid()
      ensures |gone| <= |All()|
    {
    }

    /** Reads a window to its end: exactly the plain filter of the whole file, whatever was read
        before the window. */
    method Drain(begin: nat, end: nat) returns (out: seq<Message>)
      requires Valid() && Before(gone, begin)
      modifies this
      ensures Valid() && out == Window(All(), begin, end)
      ensures Before(gone, if begin <= end then end + 1 else begin)
    {
      hide GoodFile, Flatten, WellFormed, Window, Passed, Delivered;
      out := [];
      WindowNone(gone, begin, end);
      while true
        invariant Valid() && out == Window(gone, begin, end)
        invariant Before(gone, if begin <= end then end + 1 else begin)
        decreases |All()| - |gone|
      {
        ghost var before := gone;
        var found, message := ReadMessage(begin, end);
        if !found {
          WindowPassed(before, gone, begin, end, if begin <= end then end + 1 else begin);
          WindowConcat(gone, Rest(), begin, end);
          return;
        }
        WindowDelivered(before, gone, begin, end, message);
        out := out + [message];
      }
    }

    /** Increasing disjoint windows: each yields exactly its own messages, although sections were
        consumed and chunks skipped on behalf of earlier ones. */
    method DrainWindows(windows: seq<(nat, nat)>) returns (outs: seq<seq<Message>>)
      requires Valid() && gone == [] && Increasing(windows)
      modifies this
      ensures Valid() && |outs| == |windows|
      ensures forall i | 0 <= i < |windows| :: outs[i] == Window(All(), windows[i].0, windows[i].1)
    {
      hide Valid, Window, All;
      outs := [];
      for k := 0 to |windows|
        invariant Valid() && |outs| == k
        invariant forall i | 0 <= i < k :: outs[i] == Window(All(), windows[i].0, windows[i].1)
        invariant if k == 0 then gone == [] else Before(gone, windows[k - 1].1 + 1)
      {
        var out := Drain(windows[k].0, windows[k].1);
        outs := outs + [out];
      }
    }
  }
}
