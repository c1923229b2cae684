/**
 The channel data path: overwrite ring (cyber/data/cache_buffer.h), channel buffer
 (cyber/data/channel_buffer.h), reader cursor (cyber/data/data_visitor.h) and latest-value
 fusion (cyber/data/fusion/all_latest.h).  Each method runs under the buffer's mutex, so an
 interleaving is a sequence of calls.
 */
module ChannelData {
  import Arith
  import opened Common

  class CacheBuffer<T> {
    var head: nat
    var tail: nat
    const capacity: nat
    const buffer: array<T>
    /** Every value ever filled. */
    ghost var history: seq<T>

    function GetIndex(pos: nat): nat
      requires capacity > 0
    {
      pos % capacity
    }

    function Head(): nat
      reads this
    {
      head + 1
    }

    function Size(): int
      reads this
    {
      tail - head
    }

    predicate Empty()
      reads this
    {
      tail == 0
    }

    predicate Full()
      reads this
    {
      capacity - 1 == tail - head
    }

    ghost predicate Holds(pos: nat)
      requires 0 < pos <= |history| && buffer.Length == capacity > 0
      reads this, buffer
    {
      buffer[GetIndex(pos)] == history[pos - 1]
    }

    /** The ring refines the history: position i of it holds the i-th value ever filled, for the last
        min(n, size) positions, and the last position is good even for size 0. */
    ghost predicate Valid()
      reads this, buffer
    {
      && buffer.Length == capacity >= 1
      && tail == |history|
      && head == (if tail <= capacity - 1 then 0 else tail - (capacity - 1))
      && (forall i | head < i <= tail :: Holds(i))
      && (tail > 0 ==> Holds(tail))
    }

    lemma Counters()
      requires Valid()
      ensures capacity >= 1 && tail == |history|
      ensures head == if tail <= capacity - 1 then 0 else tail - (capacity - 1)
    {
    }

    constructor (size: nat, initial: T)
      ensures Valid() && history == [] && capacity == size + 1
      ensures fresh(buffer)
    {
      capacity := size + 1;
      buffer := new T[size + 1](_ => initial);
      head, tail, history := 0, 0, [];
    }

    /** Fill without a fusion callback. */
    method Fill(value: T)
      requires Valid()
      modifies this, buffer
      ensures Valid() && history == old(history) + [value]
    {
      ghost var n := tail + 1;
      if Full() {
        Arith.ModShift(head, capacity);
        buffer[GetIndex(head)] := value;
        head := head + 1;
        tail := tail + 1;
      } else {
        buffer[GetIndex(tail + 1)] := value;
        tail := tail + 1;
      }
      history := history + [value];
      assert GetIndex(n) == n % capacity && buffer[GetIndex(n)] == value;
      forall i | head < i <= tail
        ensures Holds(i)
      {
        if i < n {
          assert old(Holds(i));
          if GetIndex(i) == GetIndex(n) {
            Arith.ModInjective(i, n, capacity);
          }
        }
      }
    }

    /** The slot of a position: for a held position the value filled there; for one beyond the tail whatever
        earlier value its slot still carries. */
    method At(pos: nat) returns (value: T)
      requires Valid()
      ensures value == buffer[pos % capacity]
      ensures head < pos <= tail || (pos == tail && tail > 0) ==> value == history[pos - 1]
    {
      assert head < pos <= tail || (pos == tail && tail > 0) ==> Holds(pos);
      value := buffer[GetIndex(pos)];
    }

    method Back() returns (value: T)
      requires Valid() && !Empty()
      ensures value == history[|history| - 1]
    {
      assert Holds(tail);
      value := buffer[GetIndex(tail)];
    }
  }

  /** The position Fetch delivers, given the cursor: the first fetch takes the newest message, a
      cursor that has caught up gets nothing, an overrun cursor jumps to the newest message. */
  function FetchAt(size: nat, tail: nat, index: nat): Option<nat> {
    var head := if tail <= size then 0 else tail - size;
    if tail == 0 then None
    else if index == 0 then Some(tail)
    else if index == tail + 1 then None
    else if index < head + 1 then Some(tail)
    else Some(index)
  }

  /** What Fetch reports as dropped. */
  function DropAt(size: nat, tail: nat, index: nat): nat {
    var head := if tail <= size then 0 else tail - size;
    if tail != 0 && index != 0 && index != tail + 1 && index < head + 1 && index <= tail then tail - index else 0
  }

  class ChannelBuffer<T> {
    const buffer: CacheBuffer<T>

    constructor (buffer: CacheBuffer<T>)
      ensures this.buffer == buffer
    {
      this.buffer := buffer;
    }

    /** A cursor beyond the next message, which no visitor has, would be given a stale slot. */
    method Fetch(index: nat) returns (m: Option<T>, newIndex: nat, dropMessage: nat)
      requires buffer.Valid()
      ensures var at := FetchAt(buffer.capacity - 1, buffer.tail, index);
              if at.None? then m == None && newIndex == index
              else newIndex == at.value
                   && (if index > buffer.tail + 1 then m == Some(buffer.buffer[index % buffer.capacity])
                       else 0 < newIndex <= |buffer.history| && m == Some(buffer.history[newIndex - 1]))
      ensures dropMessage == DropAt(buffer.capacity - 1, buffer.tail, index)
      ensures var n := |buffer.history|;
        && (index == 0 < n ==> m == Some(buffer.history[n - 1]) && newIndex == n && dropMessage == 0)
        && (0 < index <= n && n - index < buffer.capacity - 1 ==>
              m == Some(buffer.history[index - 1]) && newIndex == index && dropMessage == 0)
        && (0 < index <= n && n - index >= buffer.capacity - 1 ==>
              m == Some(buffer.history[n - 1]) && newIndex == n && dropMessage == n - index)
        && (m == None <==> n == 0 || index == n + 1)
    {
      m, newIndex, dropMessage := None, index, 0;
      if buffer.Empty() {
        return;
      }
      if index == 0 {
        newIndex := buffer.tail;
      } else if index == buffer.tail + 1 {
        return;
      } else if index < buffer.Head() {
        dropMessage := buffer.tail - index;
        newIndex := buffer.tail;
      }
      var value := buffer.At(newIndex);
      m := Some(value);
    }

    method Latest() returns (m: Option<T>)
      requires buffer.Valid()
      ensures m == if buffer.history == [] then None else Some(buffer.history[|buffer.history| - 1])
    {
      if buffer.Empty() {
        return None;
      }
      var value := buffer.Back();
      m := Some(value);
    }

    /** The newest min(Size, fetchSize) values in order. */
    method FetchMulti(fetchSize: nat) returns (ok: bool, vec: seq<T>)
      requires buffer.Valid()
      ensures ok == (buffer.history != [])
      ensures var n := |buffer.history|;
              var held := if n < buffer.capacity - 1 then n else buffer.capacity - 1;
              vec == if !ok then [] else buffer.history[n - (if held < fetchSize then held else fetchSize)..]
    {
      hide CacheBuffer.Valid;
      buffer.Counters();
      vec := [];
      if buffer.Empty() {
        return false, vec;
      }
      var num: nat := if buffer.Size() < fetchSize then buffer.Size() else fetchSize;
      var index := buffer.tail - num + 1;
      while index <= buffer.tail
        invariant buffer.tail - num + 1 <= index <= buffer.tail + 1
        invariant vec == buffer.history[buffer.tail - num..index - 1]
      {
        var value := buffer.At(index);
        assert buffer.history[buffer.tail - num..index] == buffer.history[buffer.tail - num..index - 1] + [value];
        vec := vec + [value];
        index := index + 1;
      }
      assert buffer.history[buffer.tail - num..index - 1] == buffer.history[buffer.tail - num..];
      ok := true;
    }
  }

  // ------------------------------------------------------------ the cursor

  /** A reader's bookkeeping: messages filled, the cursor, the positions delivered so far, and the
      sum of the reported drops. */
  datatype Cursor = Cursor(tail: nat, next: nat, delivered: seq<nat>, dropped: nat)

  datatype CursorEvent = Filled | Fetched

  function CursorNext(size: nat, c: Cursor, e: CursorEvent): Cursor {
    match e
    case Filled => c.(tail := c.tail + 1)
    case Fetched =>
      match FetchAt(size, c.tail, c.next)
      case None => c
      case Some(i) =>
        c.(next := i + 1, delivered := c.delivered + [i], dropped := c.dropped + DropAt(size, c.tail, c.next))
  }

  function CursorRun(size: nat, events: seq<CursorEvent>): Cursor {
    if events == [] then Cursor(0, 0, [], 0)
    else CursorNext(size, CursorRun(size, events[..|events| - 1]), events[|events| - 1])
  }

  ghost predicate CursorInv(c: Cursor) {
    && c.next <= c.tail + 1
    && (forall i, j | 0 <= i < j < |c.delivered| :: c.delivered[i] < c.delivered[j])
    && (forall i | 0 <= i < |c.delivered| :: 0 < c.delivered[i] < c.next)
    && (if c.delivered == [] then c.next == 0 && c.dropped == 0
        else c.delivered[|c.delivered| - 1] == c.next - 1
             && |c.delivered| - 1 + c.dropped == c.next - (c.delivered[0] + 1))
  }

  /** Cursor accounting over every interleaving of fills and fetches: delivered positions strictly
      increase, the cursor is never ahead of the newest message plus one, and after the first fetch
      the messages delivered and the messages reported dropped add up to the cursor's advance. */
  lemma {:induction false} CursorAccounting(size: nat, events: seq<CursorEvent>)
    ensures CursorInv(CursorRun(size, events))
  {
    if events != [] {
      CursorAccounting(size, events[..|events| - 1]);
      CursorStep(size, CursorRun(size, events[..|events| - 1]), events[|events| - 1]);
    }
  }

  lemma CursorStep(size: nat, c: Cursor, e: CursorEvent)
    requires CursorInv(c)
    ensures c.next <= c.tail + 1 && CursorInv(CursorNext(size, c, e))
  {
  }

  /** An unread message is delivered next, nothing skipped or reported dropped, exactly while the
      lag fits the ring (or only the newest message is unread). */
  lemma SkipExactlyOnOverrun(size: nat, events: seq<CursorEvent>)
    ensures var c := CursorRun(size, events);
            var c' := CursorNext(size, c, Fetched);
            0 < c.next <= c.tail ==>
              (c'.delivered == c.delivered + [c.next] && c'.dropped == c.dropped
               <==> c.tail + 1 - c.next <= size || c.next == c.tail)
  {
    var c := CursorRun(size, events);
    assert forall i: nat :: (c.delivered + [i])[|c.delivered|] == i;
  }

  /** Where a fetch lands, in every run: the first fetch of a channel that has messages delivers the newest one; the next
      unread message is delivered while the ring still holds it; when it no longer does, the newest is delivered
      and all unread ones before it are reported dropped; and nothing is delivered exactly when nothing was filled
      or everything filled was passed. */
  lemma FetchLands(size: nat, events: seq<CursorEvent>)
    ensures var c := CursorRun(size, events);
      var c' := CursorNext(size, c, Fetched);
      && (c' == c <==> c.tail == 0 || c.next == c.tail + 1)
      && (c.tail > 0 && c.delivered == [] ==> c' == Cursor(c.tail, c.tail + 1, [c.tail], 0))
      && (c.delivered != [] && c.next <= c.tail && c.tail - c.next < size ==>
            c' == Cursor(c.tail, c.next + 1, c.delivered + [c.next], c.dropped))
      && (c.delivered != [] && c.next <= c.tail && c.tail - c.next >= size ==>
            c' == Cursor(c.tail, c.tail + 1, c.delivered + [c.tail], c.dropped + (c.tail - c.next)))
  {
    CursorAccounting(size, events);
  }

  class DataVisitor<T> {
    const channel: ChannelBuffer<T>
    var nextMsgIndex: nat
    ghost var delivered: seq<nat>
    ghost var dropped: nat

    ghost function Abs(): Cursor
      reads this, channel.buffer
    {
      Cursor(channel.buffer.tail, nextMsgIndex, delivered, dropped)
    }

    ghost predicate Valid()
      reads this, channel.buffer, channel.buffer.buffer
    {
      channel.buffer.Valid() && CursorInv(Abs())
    }

    constructor (channel: ChannelBuffer<T>)
      requires channel.buffer.Valid()
      ensures Valid() && this.channel == channel && Abs() == Cursor(channel.buffer.tail, 0, [], 0)
    {
      this.channel := channel;
      nextMsgIndex, delivered, dropped := 0, [], 0;
    }

    method TryFetch() returns (m: Option<T>)
      requires Valid()
      modifies this
      ensures Valid() && Abs() == CursorNext(channel.buffer.capacity - 1, old(Abs()), Fetched)
      ensures m.Some? <==> |delivered| == |old(delivered)| + 1
      ensures var n, i, size := |channel.buffer.history|, old(nextMsgIndex), channel.buffer.capacity - 1;
        if n == 0 || i == n + 1 then m == None && nextMsgIndex == i && dropped == old(dropped)
        else if i == 0 || n - i >= size then
          // a first fetch, or the next unread message is no longer held
          && m == Some(channel.buffer.history[n - 1]) && nextMsgIndex == n + 1
          && dropped == old(dropped) + (if i == 0 then 0 else n - i)
        else
          m == Some(channel.buffer.history[i - 1]) && nextMsgIndex == i + 1 && dropped == old(dropped)
      ensures m.Some? ==> 0 < delivered[|delivered| - 1] <= |channel.buffer.history|
                          && m.value == channel.buffer.history[delivered[|delivered| - 1] - 1]
    {
      hide CacheBuffer.Valid, CursorInv;
      channel.buffer.Counters();
      CursorStep(channel.buffer.capacity - 1, Abs(), Fetched);
      var index, drop;
      m, index, drop := channel.Fetch(nextMsgIndex);
      if m.Some? {
        delivered, dropped := delivered + [index], dropped + drop;
        nextMsgIndex := index + 1;
      }
    }

    /** The dispatcher fills the visitor's buffer. */
    method OnFill(value: T)
      requires Valid() && this != (channel.buffer as object)
      modifies channel.buffer, channel.buffer.buffer
      ensures Valid() && Abs() == CursorNext(channel.buffer.capacity - 1, old(Abs()), Filled)
      ensures channel.buffer.history == old(channel.buffer.history) + [value]
    {
      channel.buffer.Fill(value);
    }
  }

  // -------------------------------------------------------------------- fusion

  /** A message on the primary channel, or on one of the others. */
  datatype Arrival<T> = Primary(m: T) | Other(channel: nat, m: T)

  /** The messages of one of the other channels, in order. */
  ghost function Sent<T>(log: seq<Arrival<T>>, channel: nat): seq<T> {
    if log == [] then [] else
      var last := log[|log| - 1];
      Sent(log[..|log| - 1], channel) + if last.Other? && last.channel == channel then [last.m] else []
  }

  ghost predicate AllSeen<T>(log: seq<Arrival<T>>, n: nat) {
    forall c: nat | c < n :: Sent(log, c) != []
  }

  ghost function Latest<T>(log: seq<Arrival<T>>, n: nat): seq<T>
    requires AllSeen(log, n)
  {
    seq(n, c requires 0 <= c < n => Sent(log, c)[|Sent(log, c)| - 1])
  }

  /** The fused stream of a history: what the code accumulates. */
  ghost function Fused<T>(log: seq<Arrival<T>>, n: nat): seq<(T, seq<T>)> {
    if log == [] then [] else
      var before, last := log[..|log| - 1], log[|log| - 1];
      Fused(before, n) + if last.Primary? && AllSeen(before, n) then [(last.m, Latest(before, n))] else []
  }

  /** A primary message that arrives after every other channel has sent something. */
  ghost predicate Eligible<T>(log: seq<Arrival<T>>, p: int, n: nat)
    requires 0 <= p < |log|
  {
    log[p].Primary? && AllSeen(log[..p], n)
  }

  ghost function EligibleCount<T>(log: seq<Arrival<T>>, end: nat, n: nat): nat
    requires end <= |log|
  {
    if end == 0 then 0 else EligibleCount(log, end - 1, n) + if Eligible(log, end - 1, n) then 1 else 0
  }

  lemma {:induction false} CountOfPrefix<T>(log: seq<Arrival<T>>, k: nat, end: nat, n: nat)
    requires end <= k <= |log|
    ensures EligibleCount(log[..k], end, n) == EligibleCount(log, end, n)
  {
    if end > 0 {
      CountOfPrefix(log, k, end - 1, n);
      assert log[..k][..end - 1] == log[..end - 1];
    }
  }

  lemma {:induction false} FusedLength<T>(log: seq<Arrival<T>>, n: nat)
    ensures |Fused(log, n)| == EligibleCount(log, |log|, n)
  {
    if log != [] {
      var k := |log| - 1;
      FusedLength(log[..k], n);
      CountOfPrefix(log, k, k, n);
    }
  }

  /** The history specification: the fused stream has one tuple for every eligible primary message,
      in primary order, and the tuple of the one at position p pairs it with the latest message each
      other channel had sent before p. */
  lemma {:induction false} FusedMeetsHistory<T>(log: seq<Arrival<T>>, n: nat, p: nat)
    requires p < |log| && Eligible(log, p, n)
    ensures |Fused(log, n)| == EligibleCount(log, |log|, n)
    ensures EligibleCount(log, p, n) < |Fused(log, n)|
    ensures Fused(log, n)[EligibleCount(log, p, n)] == (log[p].m, Latest(log[..p], n))
  {
    FusedLength(log, n);
    var k := |log| - 1;
    FusedLength(log[..k], n);
    CountOfPrefix(log, k, p, n);
    CountOfPrefix(log, k, k, n);
    if p < k {
      assert log[..k][..p] == log[..p];
      FusedMeetsHistory(log[..k], n, p);
    }
  }

  /** Latest means latest: the last message of the channel, with none behind it. */
  lemma {:induction false} LatestIsLast<T>(log: seq<Arrival<T>>, channel: nat) returns (p: nat)
    requires Sent(log, channel) != []
    ensures p < |log| && log[p] == Other(channel, Sent(log, channel)[|Sent(log, channel)| - 1])
    ensures forall q | p < q < |log| :: !(log[q].Other? && log[q].channel == channel)
  {
    p := |log| - 1;
    if !(log[p].Other? && log[p].channel == channel) {
      var k := p;
      p := LatestIsLast(log[..k], channel);
    }
  }

  class AllLatest<T> {
    const others: seq<ChannelBuffer<T>>
    const fusion: ChannelBuffer<(T, seq<T>)>
    /** Arrivals on all channels in the order their fills ran. */
    ghost var log: seq<Arrival<T>>

    ghost function Buffers(): set<CacheBuffer<T>> {
      set i | 0 <= i < |others| :: others[i].buffer
    }

    ghost function Arrays(): set<array<T>> {
      set i | 0 <= i < |others| :: others[i].buffer.buffer
    }

    ghost predicate Separate() {
      && (forall i, j | 0 <= i < j < |others| ::
            others[i].buffer != others[j].buffer && others[i].buffer.buffer != others[j].buffer.buffer)
      && (forall i | 0 <= i < |others| ::
            && others[i].buffer as object != fusion.buffer && others[i].buffer.buffer as object != fusion.buffer.buffer)
    }

    /** Ring i holds what its channel has sent. */
    ghost predicate RingOk(i: int)
      requires 0 <= i < |others|
      reads this`log, others[i].buffer, others[i].buffer.buffer
    {
      others[i].buffer.Valid() && others[i].buffer.history == Sent(log, i)
    }

    ghost predicate Valid()
      reads this, Buffers(), Arrays(), fusion.buffer, fusion.buffer.buffer
    {
      && Separate()
      && (forall i | 0 <= i < |others| :: RingOk(i))
      && fusion.buffer.Valid() && fusion.buffer.history == Fused(log, |others|)
    }

    /** The fused ring is as large as the primary channel's. */
    constructor (primaryCapacity: nat, others: seq<ChannelBuffer<T>>, initial: T)
      requires primaryCapacity >= 1
      requires forall i | 0 <= i < |others| :: others[i].buffer.Valid() && others[i].buffer.history == []
      requires forall i: nat, j: nat | i < j < |others| ::
                 others[i].buffer != others[j].buffer && others[i].buffer.buffer != others[j].buffer.buffer
      ensures Valid() && this.others == others && log == [] && fusion.buffer.capacity == primaryCapacity
    {
      this.others := others;
      var ring := new CacheBuffer<(T, seq<T>)>(primaryCapacity - 1, (initial, []));
      fusion := new ChannelBuffer(ring);
      log := [];
    }

    /** A fill of one of the other channels. */
    method FillOther(i: nat, m: T)
      requires Valid() && i < |others|
      modifies this`log, others[i].buffer, others[i].buffer.buffer
      ensures Valid() && log == old(log) + [Other(i, m)]
    {
      hide CacheBuffer.Valid;
      assert RingOk(i);
      others[i].buffer.Fill(m);
      log := log + [Other(i, m)];
      assert log[..|log| - 1] == old(log);
      forall k | 0 <= k < |others|
        ensures RingOk(k)
      {
        assert old(RingOk(k));
      }
      assert fusion.buffer.Valid();
    }

    /** A fill of the primary channel: the fusion callback runs instead of the ring. */
    method FillPrimary(m: T)
      requires Valid()
      modifies this`log, fusion.buffer, fusion.buffer.buffer
      ensures Valid() && log == old(log) + [Primary(m)]
    {
      hide CacheBuffer.Valid;
      var latest, all := CollectLatest();
      ghost var before := log;
      log := log + [Primary(m)];
      assert log[..|log| - 1] == before;
      if all {
        fusion.buffer.Fill((m, latest));
      }
      forall k | 0 <= k < |others|
        ensures RingOk(k)
      {
        assert old(RingOk(k));
      }
    }

    /** The newest message of every other channel, unless one has none. */
    method CollectLatest() returns (latest: seq<T>, all: bool)
      requires Valid()
      ensures all <==> AllSeen(log, |others|)
      ensures all ==> latest == Latest(log, |others|)
    {
      hide CacheBuffer.Valid;
      latest, all := [], true;
      for i := 0 to |others|
        invariant |latest| == i
        invariant forall c: nat | c < i :: Sent(log, c) != [] && latest[c] == Sent(log, c)[|Sent(log, c)| - 1]
      {
        assert RingOk(i);
        var v := others[i].Latest();
        if v.None? {
          return latest, false;
        }
        latest := latest + [v.value];
      }
    }

    /** Reading the fused stream is fetching from its ring. */
    method Fusion(index: nat) returns (m: Option<(T, seq<T>)>, newIndex: nat)
      requires Valid()
      ensures var at := FetchAt(fusion.buffer.capacity - 1, |Fused(log, |others|)|, index);
              if at.None? then m == None && newIndex == index
              else newIndex == at.value
                   && (if index > |Fused(log, |others|)| + 1
                       then m == Some(fusion.buffer.buffer[index % fusion.buffer.capacity])
                       else 0 < newIndex <= |Fused(log, |others|)| && m == Some(Fused(log, |others|)[newIndex - 1]))
    {
      var drop;
      m, newIndex, drop := fusion.Fetch(index);
    }
  }
}
