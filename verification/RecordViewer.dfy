/**
 Merging several record files (cyber/record/record_viewer.cc).
 */
module RecordViewer {
  import opened RecordReader

  const STEP_TIME_NANO_SEC := 1_000_000_000
  const BUFFER_MIN_SIZE := 128
  const UINT64_MAX := 0xFFFF_FFFF_FFFF_FFFF

  // ------------------------------------------------------- the plain merge

  /** All messages with one timestamp: reader by reader, each in file order. */
  ghost function At(files: seq<seq<Message>>, time: nat): seq<Message> {
    if files == [] then [] else At(files[..|files| - 1], time) + Window(files[|files| - 1], time, time)
  }

  /** out merges the messages of [begin, end): ordered by time, and within one timestamp exactly
      the files' messages, by reader and then by position in the file. */
  ghost predicate Merges(out: seq<Message>, files: seq<seq<Message>>, begin: nat, end: nat) {
    Sorted(out) && forall time: nat :: Window(out, time, time) == if begin <= time < end then At(files, time) else []
  }

  lemma {:induction false} WindowMember(ms: seq<Message>, i: nat)
    requires i < |ms|
    ensures Window(ms, ms[i].time, ms[i].time) != []
  {
    if i > 0 { WindowMember(ms[1..], i - 1); }
  }

  lemma {:induction false} SameTimesEqual(a: seq<Message>, b: seq<Message>)
    requires Sorted(a) && Sorted(b)
    requires forall time: nat :: Window(a, time, time) == Window(b, time, time)
    ensures a == b
  {
    if a != [] { WindowMember(a, 0); }
    if b != [] { WindowMember(b, 0); }
    if a != [] && b != [] {
      HeadIsEarliest(a, b);
      HeadIsEarliest(b, a);
      assert Window(a, a[0].time, a[0].time)[0] == a[0] && Window(b, a[0].time, a[0].time)[0] == b[0];
      forall time: nat
        ensures Window(a[1..], time, time) == Window(b[1..], time, time)
      {
        var pre := if time == a[0].time then [a[0]] else [];
        assert Window(a, time, time) == pre + Window(a[1..], time, time);
        assert Window(b, time, time) == pre + Window(b[1..], time, time);
        assert Window(a[1..], time, time) == Window(a, time, time)[|pre|..];
        assert Window(b[1..], time, time) == Window(b, time, time)[|pre|..];
      }
      SameTimesEqual(a[1..], b[1..]);
    }
  }

  lemma HeadIsEarliest(a: seq<Message>, b: seq<Message>)
    requires Sorted(b) && a != [] && b != [] && Window(b, a[0].time, a[0].time) != []
    ensures b[0].time <= a[0].time
  {
    if b[0].time > a[0].time {
      WindowNone(b, a[0].time, a[0].time);
      assert false;
    }
  }

  /** The merge is unique: time, reader order and file order leave no freedom. */
  lemma MergeUnique(a: seq<Message>, b: seq<Message>, files: seq<seq<Message>>, begin: nat, end: nat)
    requires Merges(a, files, begin, end) && Merges(b, files, begin, end)
    ensures a == b
  {
    SameTimesEqual(a, b);
  }

  // ------------------------------------------------------------- the multimap

  /** Insertion into a multimap: behind the elements with an equal key. */
  function Emplace(buffer: seq<Message>, m: Message): seq<Message> {
    if buffer == [] || m.time < buffer[0].time then [m] + buffer else [buffer[0]] + Emplace(buffer[1..], m)
  }

  ghost predicate NotBefore(ms: seq<Message>, low: nat) {
    forall i | 0 <= i < |ms| :: low <= ms[i].time
  }

  lemma {:induction false} EmplaceNotBefore(buffer: seq<Message>, m: Message, low: nat)
    requires NotBefore(buffer, low) && low <= m.time
    ensures NotBefore(Emplace(buffer, m), low)
  {
    if buffer != [] && m.time >= buffer[0].time {
      EmplaceNotBefore(buffer[1..], m, low);
    }
  }

  lemma {:induction false} EmplaceSorted(buffer: seq<Message>, m: Message)
    requires Sorted(buffer)
    ensures Sorted(Emplace(buffer, m))
  {
    if buffer != [] && m.time >= buffer[0].time {
      EmplaceSorted(buffer[1..], m);
      EmplaceNotBefore(buffer[1..], m, buffer[0].time);
    }
  }

  lemma {:induction false} EmplaceAt(buffer: seq<Message>, m: Message, time: nat)
    requires Sorted(buffer)
    ensures Window(Emplace(buffer, m), time, time) == Window(buffer, time, time) + Window([m], time, time)
  {
    hide Window;
    assert buffer != [] ==> buffer == [buffer[0]] + buffer[1..];
    if buffer == [] {
      WindowNone([], time, time);
      assert Emplace(buffer, m) == [m];
    } else if m.time < buffer[0].time {
      WindowConcat([m], buffer, time, time);
      if time == m.time { WindowNone(buffer, time, time); } else { WindowNone([m], time, time); }
    } else {
      EmplaceAt(buffer[1..], m, time);
      WindowConcat([buffer[0]], Emplace(buffer[1..], m), time, time);
      WindowConcat([buffer[0]], buffer[1..], time, time);
    }
  }

  /** Messages not later than m stay in front of it. */
  lemma {:induction false} EmplaceBehind(a: seq<Message>, b: seq<Message>, m: Message)
    requires forall i | 0 <= i < |a| :: a[i].time <= m.time
    ensures Emplace(a + b, m) == a + Emplace(b, m)
  {
    if a == [] {
      assert a + b == b;
    } else {
      assert (a + b)[1..] == a[1..] + b;
      EmplaceBehind(a[1..], b, m);
    }
  }

  // --------------------------------------------------------- filling a window

  /** Halfway through the window [from, to]: everything before it is merged, and of the window
      itself the first n files. */
  ghost predicate Filling(p: seq<Message>, files: seq<seq<Message>>, begin: nat, from: nat, to: nat, n: nat)
    requires n <= |files|
  {
    Sorted(p) && forall time: nat :: Window(p, time, time) ==
                   if begin <= time < from then At(files, time)
                   else if from <= time <= to then At(files[..n], time) else []
  }

  lemma FillingStarts(p: seq<Message>, files: seq<seq<Message>>, begin: nat, from: nat, to: nat)
    requires Merges(p, files, begin, from) && begin <= from
    ensures Filling(p, files, begin, from, to, 0)
  {
    assert files[..0] == [];
  }

  lemma FillingEnds(p: seq<Message>, files: seq<seq<Message>>, begin: nat, from: nat, to: nat)
    requires Filling(p, files, begin, from, to, |files|) && begin <= from <= to
    ensures Merges(p, files, begin, to + 1)
  {
    assert files[..|files|] == files;
  }

  /** p is p0 with the messages d put in. */
  ghost predicate Added(p: seq<Message>, p0: seq<Message>, d: seq<Message>) {
    Sorted(p) && forall time: nat :: Window(p, time, time) == Window(p0, time, time) + Window(d, time, time)
  }

  lemma AddedNothing(p: seq<Message>)
    requires Sorted(p)
    ensures Added(p, p, [])
  {
  }

  lemma AddedOne(p: seq<Message>, p0: seq<Message>, d: seq<Message>, m: Message)
    requires Added(p, p0, d)
    ensures Added(Emplace(p, m), p0, d + [m])
  {
    EmplaceSorted(p, m);
    forall time: nat
      ensures Window(Emplace(p, m), time, time) == Window(p0, time, time) + Window(d + [m], time, time)
    {
      EmplaceAt(p, m, time);
      WindowConcat(d, [m], time, time);
    }
  }

  lemma {:induction false} WindowOfWindow(ms: seq<Message>, from: nat, to: nat, time: nat)
    ensures Window(Window(ms, from, to), time, time) == if from <= time <= to then Window(ms, time, time) else []
  {
    if ms != [] {
      WindowOfWindow(ms[1..], from, to, time);
      var head := if from <= ms[0].time <= to then [ms[0]] else [];
      WindowConcat(head, Window(ms[1..], from, to), time, time);
    }
  }

  /** A whole window of the next file put in. */
  lemma FillingNext(p: seq<Message>, p0: seq<Message>, files: seq<seq<Message>>, begin: nat, from: nat, to: nat, n: nat)
    requires n < |files| && Filling(p0, files, begin, from, to, n) && Added(p, p0, Window(files[n], from, to))
    ensures Filling(p, files, begin, from, to, n + 1)
  {
    forall time: nat
      ensures Window(p, time, time) == if begin <= time < from then At(files, time)
                                       else if from <= time <= to then At(files[..n + 1], time) else []
    {
      WindowOfWindow(files[n], from, to, time);
      assert files[..n + 1][..n] == files[..n];
    }
  }

  /** A file that ends before the window contributes nothing to it. */
  lemma FillingSkips(p: seq<Message>, files: seq<seq<Message>>, begin: nat, from: nat, to: nat, n: nat)
    requires n < |files| && Filling(p, files, begin, from, to, n) && Before(files[n], from)
    ensures Filling(p, files, begin, from, to, n + 1)
  {
    WindowNone(files[n], from, to);
    AddedNothing(p);
    FillingNext(p, p, files, begin, from, to, n);
  }

  lemma {:induction false} EmplaceBefore(buffer: seq<Message>, m: Message, bound: nat)
    requires Before(buffer, bound) && m.time < bound
    ensures Before(Emplace(buffer, m), bound)
  {
    if buffer != [] && m.time >= buffer[0].time { EmplaceBefore(buffer[1..], m, bound); }
  }

  // ------------------------------------------------------------------ channels

  predicate Allowed(channels: set<string>, m: Message) {
    channels == {} || m.channel in channels
  }

  ghost function Keep(ms: seq<Message>, channels: set<string>): seq<Message> {
    if ms == [] then []
    else Keep(ms[..|ms| - 1], channels) + if Allowed(channels, ms[|ms| - 1]) then [ms[|ms| - 1]] else []
  }

  lemma KeepOne(ms: seq<Message>, channels: set<string>, m: Message)
    ensures Keep(ms + [m], channels) == Keep(ms, channels) + if Allowed(channels, m) then [m] else []
  {
    assert (ms + [m])[..|ms|] == ms;
  }

  /** at lists, in rising order, exactly the places of the messages on allowed channels; an empty set of channels allows
      all. */
  ghost predicate AllowedPlaces(ms: seq<Message>, channels: set<string>, kept: seq<Message>, at: seq<nat>) {
    && |at| == |kept| && (forall i, j | 0 <= i < j < |at| :: at[i] < at[j])
    && (forall i | 0 <= i < |at| :: at[i] < |ms| && ms[at[i]] == kept[i])
    && (forall p: nat | p < |ms| :: (channels == {} || ms[p].channel in channels) <==> p in at)
  }

  lemma AllowedPlacesMore(ms: seq<Message>, channels: set<string>, kept: seq<Message>, at: seq<nat>, m: Message)
    requires AllowedPlaces(ms, channels, kept, at)
    ensures if Allowed(channels, m) then AllowedPlaces(ms + [m], channels, kept + [m], at + [|ms|])
            else AllowedPlaces(ms + [m], channels, kept, at)
  {
    var longer := ms + [m];
    assert forall p: nat | p < |ms| :: longer[p] == ms[p];
    assert forall i | 0 <= i < |at| :: at[i] in at && at[i] < |ms|;
    assert longer[|ms|] == m && |ms| !in at;
  }

  lemma NothingAllowed(channels: set<string>)
    ensures AllowedPlaces([], channels, [], [])
  {
  }

  /** Filtering by channel keeps exactly the messages on allowed channels, in their order. */
  lemma {:induction false} KeepsExactly(ms: seq<Message>, channels: set<string>) returns (at: seq<nat>)
    ensures AllowedPlaces(ms, channels, Keep(ms, channels), at)
  {
    hide AllowedPlaces;
    at := [];
    if ms == [] {
      NothingAllowed(channels);
    } else {
      var front, m := ms[..|ms| - 1], ms[|ms| - 1];
      at := KeepsExactly(front, channels);
      AllowedPlacesMore(front, channels, Keep(front, channels), at, m);
      assert front + [m] == ms;
      if Allowed(channels, m) {
        at := at + [|front|];
      } else {
        assert Keep(ms, channels) == Keep(front, channels);
      }
    }
  }

  class Viewer {
    const readers: seq<Reader>
    const channels: set<string>
    var beginTime: nat
    var endTime: nat
    var currBeginTime: nat
    var readersFinished: seq<bool>
    var msgBuffer: seq<Message>
    /** Everything taken out of the buffer since the last reset. */
    ghost var taken: seq<Message>

    ghost predicate Readers()
      reads this, readers
    {
      && (forall i, j | 0 <= i < j < |readers| :: readers[i] != readers[j])
      && (forall i | 0 <= i < |readers| :: readers[i].Valid())
      && |readersFinished| == |readers|
    }

    /** No reader has passed a message at or behind this time; finished ones have none there. */
    ghost predicate ReadUpTo(time: nat)
      requires |readersFinished| == |readers|
      reads this, readers
    {
      forall i | 0 <= i < |readers| ::
        Before(readers[i].gone, time) && (readersFinished[i] ==> readers[i].headerEnd < time)
    }

    ghost function Produced(): seq<Message>
      reads this
    {
      taken + msgBuffer
    }

    ghost predicate Valid()
      reads this, readers
    {
      && Readers() && ReadUpTo(currBeginTime)
      && beginTime <= currBeginTime && (currBeginTime <= endTime + 1 || currBeginTime == beginTime)
      && Merges(Produced(), FilesOf(readers), beginTime, currBeginTime)
      && Before(Produced(), currBeginTime)
    }

    /** The inner loop: everything one reader has in the window goes into the buffer. */
    method FillFrom(i: nat, from: nat, to: nat)
      requires i < |readers| && Readers() && from <= to
      requires Before(readers[i].gone, from) && Before(taken, from) && Before(Produced(), to + 1)
      requires Filling(Produced(), FilesOf(readers), beginTime, from, to, i)
      modifies this`msgBuffer, readers[i]
      ensures Readers() && Before(readers[i].gone, to + 1) && Before(Produced(), to + 1)
      ensures Filling(Produced(), FilesOf(readers), beginTime, from, to, i + 1)
    {
      hide Filling, Added, Window, Emplace, Passed, Delivered, Sorted, Reader.Valid, Reader.All;
      var reader := readers[i];
      ghost var p0, d := Produced(), [];
      FillingSorted(p0, FilesOf(readers), beginTime, from, to, i);
      AddedNothing(p0);
      WindowNone(reader.gone, from, to);
      while true
        invariant Readers() && Added(Produced(), p0, d) && d == Window(reader.gone, from, to)
        invariant Before(reader.gone, to + 1) && Before(Produced(), to + 1)
        modifies this`msgBuffer, reader
        decreases |reader.All()| - |reader.gone|
      {
        ghost var gone0 := reader.gone;
        reader.Usable();
        var found, message := reader.ReadMessage(from, to);
        if !found {
          WindowPassed(gone0, reader.gone, from, to, to + 1);
          reader.WholeWindow(from, to);
          FillingNext(Produced(), p0, FilesOf(readers), beginTime, from, to, i);
          return;
        }
        WindowDelivered(gone0, reader.gone, from, to, message);
        reader.GoneWithin();
        EmplaceBehind(taken, msgBuffer, message);
        AddedOne(Produced(), p0, d, message);
        EmplaceBefore(Produced(), message, to + 1);
        msgBuffer := Emplace(msgBuffer, message);
        d := d + [message];
      }
    }

    /** Readers whose file ends before the window are done with. */
    method RetireReaders(from: nat)
      requires Readers() && ReadUpTo(from)
      modifies this`readersFinished, readers
      ensures Readers() && ReadUpTo(from)
    {
      hide Reader.Valid;
      for i := 0 to |readers|
        invariant Readers() && ReadUpTo(from)
      {
        if !readersFinished[i] && readers[i].headerEnd < from {
          readersFinished := readersFinished[i := true];
          readers[i].Usable();
          readers[i].Reset();
        }
      }
    }

    /** One window: every reader that is not done contributes its messages. */
    method FillWindow(from: nat, to: nat)
      requires Readers() && ReadUpTo(from) && from <= to && Before(Produced(), from)
      requires Filling(Produced(), FilesOf(readers), beginTime, from, to, 0)
      modifies this`msgBuffer, readers
      ensures Readers() && ReadUpTo(to + 1) && Before(Produced(), to + 1)
      ensures Filling(Produced(), FilesOf(readers), beginTime, from, to, |readers|)
    {
      hide Filling, Reader.Valid, Reader.All;
      assert forall k | 0 <= k < |taken| :: taken[k] == Produced()[k];
      for i := 0 to |readers|
        invariant Readers() && Before(taken, from) && Before(Produced(), to + 1)
        invariant forall k | 0 <= k < |readers| ::
                    Before(readers[k].gone, if k < i then to + 1 else from)
                    && (readersFinished[k] ==> readers[k].headerEnd < from)
        invariant Filling(Produced(), FilesOf(readers), beginTime, from, to, i)
      {
        if readersFinished[i] {
          readers[i].EndsBefore(from);
          FillingSkips(Produced(), FilesOf(readers), beginTime, from, to, i);
          continue;
        }
        FillFrom(i, from, to);
      }
    }

    method FillBuffer() returns (any: bool)
      requires Valid()
      modifies this`currBeginTime, this`readersFinished, this`msgBuffer, readers
      ensures Valid() && any == (msgBuffer != []) && old(currBeginTime) <= currBeginTime
      ensures old(msgBuffer) == [] && any ==> old(currBeginTime) <= endTime && old(currBeginTime) < currBeginTime
      ensures !any ==> currBeginTime > endTime
    {
      hide Merges, Filling, Before, Reader.Valid;
      while currBeginTime <= endTime && |msgBuffer| < BUFFER_MIN_SIZE
        invariant Valid() && old(currBeginTime) <= currBeginTime
        invariant currBeginTime == old(currBeginTime) ==> msgBuffer == old(msgBuffer)
        decreases endTime + 1 - currBeginTime
      {
        var thisBeginTime := currBeginTime;
        var thisEndTime := thisBeginTime + STEP_TIME_NANO_SEC;
        if thisEndTime > endTime {
          thisEndTime := endTime;
        }
        RetireReaders(thisBeginTime);
        FillingStarts(Produced(), FilesOf(readers), beginTime, thisBeginTime, thisEndTime);
        FillWindow(thisBeginTime, thisEndTime);
        FillingEnds(Produced(), FilesOf(readers), beginTime, thisBeginTime, thisEndTime);
        currBeginTime := thisEndTime + 1;
      }
      any := msgBuffer != [];
    }

    /** Delivers the next message on an allowed channel. */
    method Update() returns (find: bool, message: Message)
      requires Valid()
      modifies this`currBeginTime, this`readersFinished, this`msgBuffer, this`taken, readers
      ensures Valid()
      ensures find ==> Keep(taken, channels) == Keep(old(taken), channels) + [message]
      ensures find ==> (old(currBeginTime) < currBeginTime && old(currBeginTime) <= endTime)
                       || (old(currBeginTime) == currBeginTime && |msgBuffer| < |old(msgBuffer)|)
      ensures !find ==> Keep(taken, channels) == Keep(old(taken), channels)
                        && Merges(taken, FilesOf(readers), beginTime, if beginTime <= endTime then endTime + 1 else beginTime)
    {
      hide Merges, Before, Keep, Reader.Valid;
      find, message := false, Message(0, "", "");
      while !find
        invariant Valid()
        invariant Keep(taken, channels) == Keep(old(taken), channels) + if find then [message] else []
        invariant (old(currBeginTime) < currBeginTime && old(currBeginTime) <= endTime)
                  || (old(currBeginTime) == currBeginTime && |msgBuffer| <= |old(msgBuffer)|)
        invariant find && old(currBeginTime) == currBeginTime ==> |msgBuffer| < |old(msgBuffer)|
        decreases if currBeginTime <= endTime then endTime + 1 - currBeginTime else 0, |msgBuffer|, !find
      {
        if msgBuffer == [] {
          var any := FillBuffer();
          if !any {
            assert Produced() == taken;
            return;
          }
        }
        var msg := msgBuffer[0];
        if Allowed(channels, msg) {
          message := msg;
          find := true;
        }
        KeepOne(taken, channels, msg);
        assert Produced() == taken + [msg] + msgBuffer[1..];
        taken := taken + [msg];
        msgBuffer := msgBuffer[1..];
      }
    }

    method Reset()
      requires Readers()
      modifies this`readersFinished, this`currBeginTime, this`msgBuffer, this`taken, readers
      ensures Valid() && taken == msgBuffer == []
    {
      hide Reader.Valid;
      for i := 0 to |readers|
        invariant Readers() && readersFinished == old(readersFinished)
        invariant forall k | 0 <= k < i :: readers[k].gone == []
      {
        readers[i].Usable();
        readers[i].Reset();
      }
      readersFinished := seq(|readers|, _ => false);
      currBeginTime := beginTime;
      msgBuffer := [];
      taken := [];
    }

    /** Narrows the asked-for interval to what the valid files cover: to exactly the earliest begin and
        the latest end of their headers, where those are tighter. */
    method UpdateTime()
      requires Readers()
      modifies this`beginTime, this`endTime, this`currBeginTime
      ensures Readers() && currBeginTime == beginTime
      ensures old(beginTime) <= beginTime && endTime <= old(endTime)
      ensures forall i | 0 <= i < |readers| && readers[i].isValid ::
                (beginTime == old(beginTime) || beginTime <= readers[i].headerBegin)
                && (endTime == old(endTime) || readers[i].headerEnd <= endTime)
      ensures beginTime >= UINT64_MAX || exists i | 0 <= i < |readers| && readers[i].isValid :: readers[i].headerBegin <= beginTime
      ensures endTime == 0 || exists i | 0 <= i < |readers| && readers[i].isValid :: endTime <= readers[i].headerEnd
    {
      hide Reader.Valid;
      var minBeginTime: nat := UINT64_MAX;
      var maxEndTime: nat := 0;
      for i := 0 to |readers|
        invariant forall k | 0 <= k < i && readers[k].isValid ::
                    minBeginTime <= readers[k].headerBegin && readers[k].headerEnd <= maxEndTime
        invariant minBeginTime == UINT64_MAX || exists k | 0 <= k < i
                  && readers[k].isValid :: readers[k].headerBegin == minBeginTime
        invariant maxEndTime == 0 || exists k | 0 <= k < i && readers[k].isValid :: readers[k].headerEnd == maxEndTime
      {
        if !readers[i].isValid {
          continue;
        }
        if minBeginTime > readers[i].headerBegin {
          minBeginTime := readers[i].headerBegin;
        }
        if maxEndTime < readers[i].headerEnd {
          maxEndTime := readers[i].headerEnd;
        }
      }
      if beginTime < minBeginTime {
        beginTime := minBeginTime;
      }
      if endTime > maxEndTime {
        endTime := maxEndTime;
      }
      currBeginTime := beginTime;
    }

    /** The readers come sorted by their headers' times; the merge below holds for any order. */
    constructor (readers: seq<Reader>, begin: nat, end: nat, channels: set<string>)
      requires forall i, j | 0 <= i < j < |readers| :: readers[i] != readers[j]
      requires forall i | 0 <= i < |readers| :: readers[i].Valid()
      ensures Readers() && this.readers == readers && this.channels == channels
      ensures begin <= beginTime && endTime <= end
      ensures forall i | 0 <= i < |readers| && readers[i].isValid ::
                (beginTime == begin || beginTime <= readers[i].headerBegin)
                && (endTime == end || readers[i].headerEnd <= endTime)
    {
      this.readers, this.channels := readers, channels;
      beginTime, endTime, currBeginTime := begin, end, begin;
      readersFinished := seq(|readers|, _ => false);
      msgBuffer, taken := [], [];
      new;
      UpdateTime();
    }

    /** From begin() to end(): the whole iteration. */
    method Iterate() returns (out: seq<Message>, ghost merged: seq<Message>)
      requires Readers()
      modifies this`readersFinished, this`currBeginTime, this`msgBuffer, this`taken, readers
      ensures Readers() && out == Keep(merged, channels)
      ensures Merges(merged, FilesOf(readers), beginTime, if beginTime <= endTime then endTime + 1 else beginTime)
    {
      hide Merges, Reader.Valid;
      Reset();
      out := [];
      if beginTime > endTime {
        merged := taken;
        assert Produced() == taken;
        return;
      }
      while true
        invariant Valid() && out == Keep(taken, channels)
        decreases if currBeginTime <= endTime then endTime + 1 - currBeginTime else 0, |msgBuffer|
      {
        var find, message := Update();
        if !find {
          merged := taken;
          return;
        }
        out := out + [message];
      }
    }
  }

  lemma FillingSorted(p: seq<Message>, files: seq<seq<Message>>, begin: nat, from: nat, to: nat, n: nat)
    requires n <= |files| && Filling(p, files, begin, from, to, n)
    ensures Sorted(p)
  {
  }

  ghost function FilesOf(readers: seq<Reader>): seq<seq<Message>> {
    seq(|readers|, i requires 0 <= i < |readers| => readers[i].All())
  }

  lemma {:induction false} NothingAt(files: seq<seq<Message>>, time: nat)
    requires forall i | 0 <= i < |files| :: Window(files[i], time, time) == []
    ensures At(files, time) == []
  {
    if files != [] { NothingAt(files[..|files| - 1], time); }
  }

  /** Narrowing the interval to what the files cover loses no message. */
  lemma NarrowingIsInvisible(
    readers: seq<Reader>, merged: seq<Message>, begin: nat, end: nat, beginTime: nat, endTime: nat)
    requires forall i | 0 <= i < |readers| :: readers[i].GoodFile()
    requires begin <= beginTime && endTime <= end
    requires forall i | 0 <= i < |readers| && readers[i].isValid ::
               (beginTime == begin || beginTime <= readers[i].headerBegin)
               && (endTime == end || readers[i].headerEnd <= endTime)
    requires Merges(merged, FilesOf(readers), beginTime, if beginTime <= endTime then endTime + 1 else beginTime)
    ensures Merges(merged, FilesOf(readers), begin, end + 1)
  {
    forall time: nat | begin <= time <= end && !(beginTime <= time <= endTime)
      ensures At(FilesOf(readers), time) == []
    {
      forall i | 0 <= i < |readers|
        ensures Window(FilesOf(readers)[i], time, time) == []
      {
        WindowNone(readers[i].All(), time, time);
      }
      NothingAt(FilesOf(readers), time);
    }
  }

  /** The viewer equals the plain merge: iterating a new viewer yields exactly the messages of all
      files with begin <= time <= end on the allowed channels, once each, ordered by time, then
      reader, then file position; windows and batches leave no trace. */
  method View(readers: seq<Reader>, begin: nat, end: nat, channels: set<string>)
    returns (out: seq<Message>, ghost merged: seq<Message>)
    requires forall i, j | 0 <= i < j < |readers| :: readers[i] != readers[j]
    requires forall i | 0 <= i < |readers| :: readers[i].Valid()
    modifies readers
    ensures out == Keep(merged, channels)
    ensures Merges(merged, FilesOf(readers), begin, end + 1)
  {
    var viewer := new Viewer(readers, begin, end, channels);
    out, merged := viewer.Iterate();
    NarrowingIsInvisible(readers, merged, begin, end, viewer.beginTime, viewer.endTime);
  }
}
