/**
 Insert-only lock-free hash map (cyber/base/atomic_hash_map.h): a table of sorted linked
 buckets, one atomic access per step, any number of threads.
 */
module AtomicHashMap {
  import Arith
  import opened Common

  /** value is a pointer: an index of the value heap. */
  datatype Entry = Entry(key: nat, value: nat, next: Link)

  datatype Job<V> = Set(key: nat, v: V) | Get(key: nat) | Has(key: nat)

  /** new_entry and new_value of Insert: allocated once, kept across retries. */
  datatype Spare = Spare(entry: Link, value: Link)

  datatype Pc<V> =
    | Idle
    | Find(job: Job<V>, prev: nat, spare: Spare)
    | Prepare(job: Job<V>, prev: nat, target: Link, spare: Spare)
    | CasNext(job: Job<V>, prev: nat, target: Link, node: nat, spareValue: Link)
    | LoadValue(job: Job<V>, node: nat, spare: Spare)
    | CasValue(job: Job<V>, node: nat, seen: nat, mine: nat, spareEntry: Link)

  /** entries[b] for b below the table size is the head of bucket b.  chains and abs are history:
      the linked entries of each bucket in order, and the map the table stands for. */
  datatype Memory<V> = Memory(
    bits: nat, entries: seq<Entry>, values: seq<V>, chains: seq<seq<nat>>, abs: map<nat, V>)

  datatype State<V> = State(mem: Memory<V>, pcs: seq<Pc<V>>)

  datatype Action<V> = Start(job: Job<V>) | Run

  function TableSize<V>(m: Memory<V>): nat {
    Arith.Pow2(m.bits)
  }

  /** key & mode_num_ */
  function Route(key: nat, bits: nat): (r: nat)
    ensures r < Arith.Pow2(bits)
  {
    Arith.MaskIsMod(key, bits);
    Arith.BitAnd(key, Arith.Pow2(bits) - 1)
  }

  function Init<V>(bits: nat, threads: nat): State<V> {
    var size := Arith.Pow2(bits);
    State(Memory(bits, seq(size, _ => Entry(0, 0, Null)), [], seq(size, b => [b]), map[]),
          seq(threads, _ => Idle))
  }

  function Key<V>(m: Memory<V>, n: nat): nat {
    if n < |m.entries| then m.entries[n].key else 0
  }

  predicate InMemory<V>(m: Memory<V>, n: nat) {
    n < |m.entries|
  }

  function Restart<V>(m: Memory<V>, job: Job<V>, spare: Spare): Pc<V> {
    Find(job, Route(job.key, m.bits), spare)
  }

  /** Where a traversal goes after loading target from prev.next, by comparing the immutable keys. */
  function AfterLoad<V>(m: Memory<V>, job: Job<V>, prev: nat, target: Link, spare: Spare): Pc<V> {
    if target.Null? || Key(m, target.node) > job.key then
      if job.Set? then Prepare(job, prev, target, spare) else Idle
    else if Key(m, target.node) == job.key then
      if job.Has? then Idle else LoadValue(job, target.node, spare)
    else Find(job, target.node, spare)
  }

  function Step<V>(s: State<V>, t: nat, a: Action<V>): State<V>
    requires t < |s.pcs|
  {
    var (mem, pc) :=
      match a
      case Start(job) => (s.mem, if s.pcs[t].Idle? then Restart(s.mem, job, Spare(Null, Null)) else s.pcs[t])
      case Run => Access(s.mem, s.pcs[t]);
    State(mem, s.pcs[t := pc])
  }

  /** One atomic access; the last alternative of each guard is never reached from Init. */
  function Access<V>(m: Memory<V>, pc: Pc<V>): (Memory<V>, Pc<V>) {
    match pc
    case Idle => (m, pc)
    case Find(job, prev, spare) =>
      if InMemory(m, prev) then (m, AfterLoad(m, job, prev, m.entries[prev].next, spare)) else (m, pc)
    case Prepare(job, prev, target, spare) =>
      if !job.Set? then (m, pc)
      else if spare.entry.Null? then
        (Allocate(m, job.key, job.v, target), CasNext(job, prev, target, |m.entries|, spare.value))
      else if InMemory(m, spare.entry.node) then
        (SetNext(m, spare.entry.node, target), CasNext(job, prev, target, spare.entry.node, spare.value))
      else (m, pc)
    case CasNext(job, prev, target, node, spareValue) =>
      if InMemory(m, prev) && m.entries[prev].next == target && job.Set? then
        (LinkIn(m, job.key, job.v, prev, node), Idle)
      else (m, Restart(m, job, Spare(At(node), spareValue)))
    case LoadValue(job, node, spare) =>
      if !InMemory(m, node) then (m, pc)
      else if !job.Set? then (m, Idle)
      else if spare.value.Null? then
        (m.(values := m.values + [job.v]), CasValue(job, node, m.entries[node].value, |m.values|, spare.entry))
      else (m, CasValue(job, node, m.entries[node].value, spare.value.node, spare.entry))
    case CasValue(job, node, seen, mine, spareEntry) =>
      if InMemory(m, node) && m.entries[node].value == seen && job.Set? then
        (Overwrite(m, job.key, job.v, node, mine), Idle)
      else (m, Restart(m, job, Spare(spareEntry, At(mine))))
  }

  function Allocate<V>(m: Memory<V>, key: nat, v: V, target: Link): Memory<V> {
    m.(values := m.values + [v], entries := m.entries + [Entry(key, |m.values|, target)])
  }

  function SetNext<V>(m: Memory<V>, n: nat, target: Link): Memory<V>
    requires InMemory(m, n)
  {
    m.(entries := m.entries[n := m.entries[n].(next := target)])
  }

  function LinkIn<V>(m: Memory<V>, key: nat, v: V, prev: nat, node: nat): Memory<V>
    requires InMemory(m, prev)
  {
    var b := Route(key, m.bits);
    SetNext(m, prev, At(node)).(
      chains := if b < |m.chains| then m.chains[b := InsertAfter(m.chains[b], prev, node)] else m.chains,
      abs := m.abs[key := v])
  }

  function Overwrite<V>(m: Memory<V>, key: nat, v: V, n: nat, pointer: nat): Memory<V>
    requires InMemory(m, n)
  {
    m.(entries := m.entries[n := m.entries[n].(value := pointer)], abs := m.abs[key := v])
  }

  /** The order of a list after node is linked behind prev. */
  function InsertAfter(c: seq<nat>, prev: nat, node: nat): seq<nat> {
    if c == [] then []
    else if c[0] == prev then [prev, node] + c[1..]
    else [c[0]] + InsertAfter(c[1..], prev, node)
  }

  ghost predicate Scheduled<V(!new)>(schedule: seq<(nat, Action<V>)>, threads: nat) {
    forall i | 0 <= i < |schedule| :: schedule[i].0 < threads
  }

  ghost function Exec<V(!new)>(s: State<V>, schedule: seq<(nat, Action<V>)>): (r: State<V>)
    requires Scheduled(schedule, |s.pcs|)
    ensures |r.pcs| == |s.pcs|
    decreases |schedule|
  {
    if schedule == [] then s else
      var k := |schedule| - 1;
      Step(Exec(s, schedule[..k]), schedule[k].0, schedule[k].1)
  }

  // ---------------------------------------------------------------- invariant

  /** The links run through c and then stop. */
  ghost predicate Links<V>(m: Memory<V>, c: seq<nat>) {
    && (forall i | 0 <= i < |c| :: c[i] < |m.entries|)
    && (forall i, j | 0 <= i < j < |c| && j == i + 1 :: m.entries[c[i]].next == At(c[j]))
    && (c != [] ==> m.entries[c[|c| - 1]].next == Null)
  }

  /** Behind the head, keys are strictly increasing: sorted and without duplicates. */
  ghost predicate SortedKeys<V>(m: Memory<V>, c: seq<nat>) {
    forall i, j | 1 <= i < j < |c| :: Key(m, c[i]) < Key(m, c[j])
  }

  ghost predicate RoutedTo<V>(m: Memory<V>, b: nat, c: seq<nat>) {
    forall i | 1 <= i < |c| :: c[i] >= TableSize(m) && Route(Key(m, c[i]), m.bits) == b
  }

  /** The list of bucket b, head included. */
  ghost predicate Bucket<V>(m: Memory<V>, b: nat, c: seq<nat>) {
    c != [] && c[0] == b && Links(m, c) && SortedKeys(m, c) && RoutedTo(m, b, c)
  }

  /** The entry stores what the abstract map says of its key. */
  ghost predicate Represents<V>(m: Memory<V>, n: nat) {
    && InMemory(m, n)
    && m.entries[n].value < |m.values|
    && Key(m, n) in m.abs && m.abs[Key(m, n)] == m.values[m.entries[n].value]
  }

  /** n is a linked entry of the key. */
  ghost predicate Linked<V>(m: Memory<V>, n: nat, key: nat)
    requires |m.chains| == TableSize(m)
  {
    n in m.chains[Route(key, m.bits)] && TableSize(m) <= n < |m.entries| && Key(m, n) == key
  }

  ghost predicate HasEntry<V>(m: Memory<V>, key: nat)
    requires |m.chains| == TableSize(m)
  {
    exists n: nat :: Linked(m, n, key)
  }

  ghost predicate Tables<V>(m: Memory<V>) {
    && |m.chains| == TableSize(m)
    && (forall b | 0 <= b < |m.chains| :: Bucket(m, b, m.chains[b]))
    && (forall b, i | 0 <= b < |m.chains| && 1 <= i < |m.chains[b]| :: Represents(m, m.chains[b][i]))
    && (forall k | k in m.abs :: HasEntry(m, k))
  }

  /** An entry allocated by a thread and not yet linked anywhere. */
  function PrivateEntry<V>(pc: Pc<V>): Link {
    match pc
    case Find(_, _, spare) => spare.entry
    case Prepare(_, _, _, spare) => spare.entry
    case CasNext(_, _, _, node, _) => At(node)
    case LoadValue(_, _, spare) => spare.entry
    case CasValue(_, _, _, _, e) => e
    case Idle => Null
  }

  ghost predicate IsPrivate<V>(m: Memory<V>, n: nat, job: Job<V>) {
    && TableSize(m) <= n < |m.entries|
    && (forall b | 0 <= b < |m.chains| :: n !in m.chains[b])
    && job.Set? && Key(m, n) == job.key
    && m.entries[n].value < |m.values| && m.values[m.entries[n].value] == job.v
  }

  /** prev is in the key's bucket, in front of where the key belongs. */
  ghost predicate InFront<V>(m: Memory<V>, prev: nat, key: nat)
    requires |m.chains| == TableSize(m)
  {
    var b := Route(key, m.bits);
    prev == b || (prev in m.chains[b] && TableSize(m) <= prev < |m.entries| && Key(m, prev) < key)
  }

  ghost predicate Beyond<V>(m: Memory<V>, target: Link, key: nat) {
    target.At? ==> InMemory(m, target.node) && Key(m, target.node) > key
  }

  ghost predicate SpareValueOk<V>(m: Memory<V>, l: Link, job: Job<V>) {
    l.At? ==> l.node < |m.values| && job.Set? && m.values[l.node] == job.v
  }

  ghost predicate LocalOk<V>(m: Memory<V>, pc: Pc<V>)
    requires |m.chains| == TableSize(m)
  {
    && (PrivateEntry(pc).At? ==> IsPrivate(m, PrivateEntry(pc).node, pc.job))
    && match pc
       case Idle => true
       case Find(job, prev, spare) => InFront(m, prev, job.key) && SpareValueOk(m, spare.value, job)
       case Prepare(job, prev, target, spare) =>
         job.Set? && InFront(m, prev, job.key) && Beyond(m, target, job.key) && SpareValueOk(m, spare.value, job)
       case CasNext(job, prev, target, node, v) =>
         && InFront(m, prev, job.key) && Beyond(m, target, job.key) && SpareValueOk(m, v, job)
         && m.entries[node].next == target
       case LoadValue(job, node, spare) =>
         !job.Has? && Linked(m, node, job.key) && SpareValueOk(m, spare.value, job)
       case CasValue(job, node, _, mine, _) =>
         job.Set? && Linked(m, node, job.key) && SpareValueOk(m, At(mine), job)
  }

  ghost predicate Exclusive<V>(pcs: seq<Pc<V>>) {
    forall t, u | 0 <= t < u < |pcs| && PrivateEntry(pcs[t]).At? :: PrivateEntry(pcs[t]) != PrivateEntry(pcs[u])
  }

  ghost predicate Inv<V>(s: State<V>) {
    && Tables(s.mem)
    && Exclusive(s.pcs)
    && (forall t | 0 <= t < |s.pcs| :: LocalOk(s.mem, s.pcs[t]))
  }

  lemma InitInv<V>(bits: nat, threads: nat)
    ensures Inv(Init<V>(bits, threads))
  {
    var m := Init<V>(bits, threads).mem;
    forall b | 0 <= b < |m.chains|
      ensures Bucket(m, b, m.chains[b])
    {
      assert m.chains[b] == [b];
    }
  }

  // ------------------------------------------------------------ preservation

  /** Growth of the memory: keys are immutable, lists only gain entries, values only gain. */
  ghost predicate Grows<V>(m: Memory<V>, m': Memory<V>) {
    && m'.bits == m.bits && |m'.chains| == |m.chains|
    && |m.entries| <= |m'.entries| && m.values <= m'.values
    && (forall n | 0 <= n < |m.entries| :: m'.entries[n].key == m.entries[n].key)
    && (forall b, n | 0 <= b < |m.chains| && n in m.chains[b] :: n in m'.chains[b])
  }

  /** A private entry of another thread is untouched. */
  ghost predicate Untouched<V>(m: Memory<V>, m': Memory<V>, l: Link)
  {
    l.At? && l.node < |m.entries| ==>
      && l.node < |m'.entries| && m'.entries[l.node] == m.entries[l.node]
      && (forall b | 0 <= b < |m'.chains| && l.node in m'.chains[b] :: b < |m.chains| && l.node in m.chains[b])
  }

  lemma LocalSurvives<V>(m: Memory<V>, m': Memory<V>, pc: Pc<V>)
    requires |m.chains| == TableSize(m) && Grows(m, m') && LocalOk(m, pc) && Untouched(m, m', PrivateEntry(pc))
    ensures |m'.chains| == TableSize(m') && LocalOk(m', pc)
  {
    if PrivateEntry(pc).At? {
      assert IsPrivate(m, PrivateEntry(pc).node, pc.job);
      assert IsPrivate(m', PrivateEntry(pc).node, pc.job);
    }
  }

  /** A list depends only on the links and keys of its own entries. */
  lemma BucketFrame<V>(m: Memory<V>, m': Memory<V>, b: nat, c: seq<nat>)
    requires Bucket(m, b, c) && m'.bits == m.bits && |m.entries| <= |m'.entries|
    requires forall i | 0 <= i < |c| :: c[i] < |m.entries| ==>
               m'.entries[c[i]].next == m.entries[c[i]].next && m'.entries[c[i]].key == m.entries[c[i]].key
    ensures Bucket(m', b, c)
  {
    forall i | 0 <= i < |c|
      ensures Key(m', c[i]) == Key(m, c[i]) && c[i] < |m'.entries| && m'.entries[c[i]].next == m.entries[c[i]].next
    {
      assert c[i] < |m.entries|;
    }
    assert Links(m', c);
    forall i, j | 1 <= i < j < |c|
      ensures Key(m', c[i]) < Key(m', c[j])
    {
      assert Key(m, c[i]) < Key(m, c[j]);
    }
    forall i | 1 <= i < |c|
      ensures c[i] >= TableSize(m') && Route(Key(m', c[i]), m'.bits) == b
    {
      assert c[i] >= TableSize(m) && Route(Key(m, c[i]), m.bits) == b;
    }
  }

  /** Changing nothing a list can see keeps the tables. */
  lemma TablesFrame<V>(m: Memory<V>, m': Memory<V>)
    requires Tables(m)
    requires m'.bits == m.bits && m'.chains == m.chains && m'.abs == m.abs
    requires m.values <= m'.values && |m.entries| <= |m'.entries|
    requires forall b, i | 0 <= b < |m.chains| && 0 <= i < |m.chains[b]| ::
               m.chains[b][i] < |m.entries| ==> m'.entries[m.chains[b][i]] == m.entries[m.chains[b][i]]
    ensures Tables(m')
  {
    hide Route, Bucket;
    forall b | 0 <= b < |m'.chains|
      ensures Bucket(m', b, m'.chains[b])
    {
      BucketFrame(m, m', b, m.chains[b]);
    }
    forall b, i | 0 <= b < |m'.chains| && 1 <= i < |m'.chains[b]|
      ensures Represents(m', m'.chains[b][i])
    {
      assert Represents(m, m.chains[b][i]);
    }
    forall k | k in m'.abs
      ensures HasEntry(m', k)
    {
      var n: nat :| Linked(m, n, k);
      LinkedFrame(m, m', n, k);
    }
  }

  lemma LinkedFrame<V>(m: Memory<V>, m': Memory<V>, n: nat, k: nat)
    requires |m.chains| == TableSize(m) && Linked(m, n, k) && m'.bits == m.bits && |m'.chains| == |m.chains|
    requires n in m'.chains[Route(k, m.bits)]
    requires n < |m'.entries| && m'.entries[n].key == m.entries[n].key
    ensures Linked(m', n, k) && HasEntry(m', k)
  {
    hide Route;
    assert Linked(m', n, k);
  }

  lemma {:induction false} InsertAfterIs(c: seq<nat>, prev: nat, node: nat, p: nat)
    requires p < |c| && c[p] == prev && forall i | 0 <= i < p :: c[i] != prev
    ensures InsertAfter(c, prev, node) == c[..p + 1] + [node] + c[p + 1..]
  {
    if p > 0 {
      InsertAfterIs(c[1..], prev, node, p - 1);
    }
  }

  /** Where prev stands in its bucket; all keys up to it are smaller than the one sought. */
  lemma PositionInFront<V>(m: Memory<V>, prev: nat, key: nat) returns (p: nat)
    requires Tables(m) && InFront(m, prev, key)
    ensures var c := m.chains[Route(key, m.bits)];
            p < |c| && c[p] == prev && InMemory(m, prev)
            && (forall i | 0 <= i < |c| && i != p :: c[i] != prev)
            && (forall i | 1 <= i <= p :: Key(m, c[i]) < key)
  {
    var b := Route(key, m.bits);
    var c := m.chains[b];
    assert Bucket(m, b, c);
    if prev == b { p := 0; } else { p :| 0 <= p < |c| && c[p] == prev; }
    forall i | 0 <= i < |c| && i != p
      ensures c[i] != prev
    {
      if 1 <= i < p { assert Key(m, c[i]) < Key(m, c[p]); } else if 1 <= p < i { assert Key(m, c[p]) < Key(m, c[i]); }
    }
    forall i | 1 <= i <= p
      ensures Key(m, c[i]) < key
    {
      if i < p { assert Key(m, c[i]) < Key(m, c[p]); }
    }
  }

  /** A traversal that stands in front of the key and sees nothing or a larger key behind it has
      established, at that load, that the key is absent. */
  lemma AbsentAtLoad<V>(m: Memory<V>, prev: nat, key: nat)
    requires Tables(m) && InFront(m, prev, key) && InMemory(m, prev) && Beyond(m, m.entries[prev].next, key)
    ensures key !in m.abs
    ensures forall n | n in m.chains[Route(key, m.bits)] && n >= TableSize(m) :: Key(m, n) != key
  {
    var b := Route(key, m.bits);
    var c := m.chains[b];
    assert Bucket(m, b, c);
    var p := PositionInFront(m, prev, key);
    forall i | 1 <= i < |c|
      ensures Key(m, c[i]) != key
    {
      if i > p + 1 { assert Key(m, c[p + 1]) < Key(m, c[i]); }
      if i > p { assert m.entries[c[p]].next == At(c[p + 1]); }
    }
    if HasEntry(m, key) { assert false; }
  }

  /** The bucket after linking. */
  lemma LinkInBucket<V>(m: Memory<V>, key: nat, v: V, prev: nat, node: nat, p: nat)
    requires Tables(m) && InFront(m, prev, key) && InMemory(m, prev)
    requires IsPrivate(m, node, Set(key, v))
    requires m.entries[node].next == m.entries[prev].next && Beyond(m, m.entries[prev].next, key)
    requires var c := m.chains[Route(key, m.bits)];
             p < |c| && c[p] == prev && (forall i | 0 <= i < |c| && i != p :: c[i] != prev)
             && (forall i | 1 <= i <= p :: Key(m, c[i]) < key)
    ensures var b := Route(key, m.bits);
            var c, c' := m.chains[b], InsertAfter(m.chains[b], prev, node);
            c' == c[..p + 1] + [node] + c[p + 1..] && Bucket(LinkIn(m, key, v, prev, node), b, c')
  {
    hide Route;
    var b := Route(key, m.bits);
    var c := m.chains[b];
    assert Bucket(m, b, c) && node !in c;
    InsertAfterIs(c, prev, node, p);
    var c' := c[..p + 1] + [node] + c[p + 1..];
    var m' := LinkIn(m, key, v, prev, node);
    InsertedBucket(m, m', b, c, prev, node, p, key);
  }

  lemma InsertedBucket<V>(m: Memory<V>, m': Memory<V>, b: nat, c: seq<nat>, prev: nat, node: nat, p: nat, key: nat)
    requires Bucket(m, b, c) && p < |c| && c[p] == prev && (forall i | 0 <= i < |c| && i != p :: c[i] != prev)
    requires forall i | 1 <= i <= p :: Key(m, c[i]) < key
    requires TableSize(m) <= node < |m.entries| && node !in c && Key(m, node) == key && Route(key, m.bits) == b
    requires m.entries[node].next == m.entries[prev].next && Beyond(m, m.entries[prev].next, key)
    requires m'.bits == m.bits && m'.entries == SetNext(m, prev, At(node)).entries
    ensures Bucket(m', b, c[..p + 1] + [node] + c[p + 1..])
  {
    hide Route, Bucket;
    var c' := c[..p + 1] + [node] + c[p + 1..];
    BucketParts(m, b, c);
    SameKeys(m, m', prev, node);
    assert p + 1 < |c| ==> Key(m, c[p + 1]) > key;
    InsertedSorted(m, c, node, p, key);
    assert SortedKeys(m', c');
    LinksAfterInsert(m, m', c, prev, node, p);
    assert forall i | 0 <= i < |c'| :: c'[i] == if i <= p then c[i] else if i == p + 1 then node else c[i - 1];
    assert RoutedTo(m', b, c');
    BucketOf(m', b, c');
  }

  lemma SameKeys<V>(m: Memory<V>, m': Memory<V>, prev: nat, node: nat)
    requires InMemory(m, prev) && m'.entries == SetNext(m, prev, At(node)).entries
    ensures forall n: nat :: Key(m', n) == Key(m, n)
  {
  }

  lemma BucketParts<V>(m: Memory<V>, b: nat, c: seq<nat>)
    requires Bucket(m, b, c)
    ensures c != [] && c[0] == b && Links(m, c) && SortedKeys(m, c) && RoutedTo(m, b, c)
  {
  }

  lemma BucketOf<V>(m: Memory<V>, b: nat, c: seq<nat>)
    requires c != [] && c[0] == b && Links(m, c) && SortedKeys(m, c) && RoutedTo(m, b, c)
    ensures Bucket(m, b, c)
  {
  }

  lemma InsertedSorted<V>(m: Memory<V>, c: seq<nat>, node: nat, p: nat, key: nat)
    requires p < |c| && Key(m, node) == key
    requires SortedKeys(m, c)
    requires forall i | 1 <= i <= p :: Key(m, c[i]) < key
    requires p + 1 < |c| ==> Key(m, c[p + 1]) > key
    ensures SortedKeys(m, c[..p + 1] + [node] + c[p + 1..])
  {
    var c' := c[..p + 1] + [node] + c[p + 1..];
    forall i, j | 1 <= i < j < |c'|
      ensures Key(m, c'[i]) < Key(m, c'[j])
    {
      assert c'[i] == if i <= p then c[i] else if i == p + 1 then node else c[i - 1];
      assert c'[j] == if j <= p then c[j] else if j == p + 1 then node else c[j - 1];
      assert j > p + 2 ==> Key(m, c[p + 1]) < Key(m, c[j - 1]);
    }
  }

  lemma LinksAfterInsert<V>(m: Memory<V>, m': Memory<V>, c: seq<nat>, prev: nat, node: nat, p: nat)
    requires InMemory(m, prev) && InMemory(m, node) && node !in c && p < |c| && c[p] == prev
    requires Links(m, c)
    requires forall i | 0 <= i < |c| && i != p :: c[i] != prev
    requires m.entries[node].next == m.entries[prev].next
    requires m'.entries == SetNext(m, prev, At(node)).entries
    ensures Links(m', c[..p + 1] + [node] + c[p + 1..])
  {
    var c' := c[..p + 1] + [node] + c[p + 1..];
    assert forall i | 0 <= i < |c'| :: c'[i] == if i <= p then c[i] else if i == p + 1 then node else c[i - 1];
    assert p + 1 < |c| ==> m.entries[c[p]].next == At(c[p + 1]);
    forall i, j | 0 <= i < j < |c'| && j == i + 1
      ensures m'.entries[c'[i]].next == At(c'[j])
    {
      if i < p { assert m.entries[c[i]].next == At(c[j]); }
      if i > p + 1 { assert m.entries[c[i - 1]].next == At(c[j - 1]); }
    }
  }

  /** The other lists do not contain prev. */
  lemma OtherBuckets<V>(m: Memory<V>, prev: nat, key: nat, b: nat)
    requires Tables(m) && InFront(m, prev, key) && b < |m.chains| && b != Route(key, m.bits)
    ensures prev !in m.chains[b]
  {
    hide Route;
    var p := PositionInFront(m, prev, key);
    assert Bucket(m, b, m.chains[b]) && Bucket(m, Route(key, m.bits), m.chains[Route(key, m.bits)]);
    if prev in m.chains[b] { assert false; }
  }

  /** Linked entries of other keys keep representing the map. */
  lemma LinkInRepresents<V>(m: Memory<V>, key: nat, v: V, prev: nat, node: nat, n: nat)
    requires Represents(m, n) && Key(m, n) != key && InMemory(m, prev)
    ensures Represents(LinkIn(m, key, v, prev, node), n)
  {
    hide Route;
  }

  lemma LinkInTables<V>(m: Memory<V>, key: nat, v: V, prev: nat, node: nat)
    requires Tables(m) && InFront(m, prev, key) && InMemory(m, prev)
    requires IsPrivate(m, node, Set(key, v))
    requires m.entries[node].next == m.entries[prev].next && Beyond(m, m.entries[prev].next, key)
    ensures Tables(LinkIn(m, key, v, prev, node)) && Grows(m, LinkIn(m, key, v, prev, node))
  {
    hide Route, InFront, Beyond, Bucket, Represents, IsPrivate;
    var b := Route(key, m.bits);
    var c := m.chains[b];
    var m' := LinkIn(m, key, v, prev, node);
    var p := PositionInFront(m, prev, key);
    LinkInBucket(m, key, v, prev, node, p);
    var c' := c[..p + 1] + [node] + c[p + 1..];
    assert m'.chains[b] == c';
    assert forall n :: n in c ==> n in c' by { assert c == c[..p + 1] + c[p + 1..]; }
    forall b' | 0 <= b' < |m'.chains|
      ensures Bucket(m', b', m'.chains[b'])
    {
      if b' != b {
        OtherBuckets(m, prev, key, b');
        BucketFrame(m, m', b', m.chains[b']);
      }
    }
    forall b', i | 0 <= b' < |m'.chains| && 1 <= i < |m'.chains[b']|
      ensures Represents(m', m'.chains[b'][i])
    {
      LinkInRepresentsAt(m, key, v, prev, node, p, b', i);
    }
    forall k | k in m'.abs
      ensures HasEntry(m', k)
    {
      if k == key {
        assert c'[p + 1] == node;
        NewEntryLinked(m, m', key, v, prev, node);
      } else {
        var n: nat :| Linked(m, n, k);
        LinkedFrame(m, m', n, k);
      }
    }
  }

  lemma NewEntryLinked<V>(m: Memory<V>, m': Memory<V>, key: nat, v: V, prev: nat, node: nat)
    requires |m.chains| == TableSize(m) && IsPrivate(m, node, Set(key, v)) && InMemory(m, prev)
    requires m' == LinkIn(m, key, v, prev, node) && node in m'.chains[Route(key, m.bits)]
    ensures HasEntry(m', key)
  {
    hide Route;
    assert Linked(m', node, key);
  }

  lemma LinkInRepresentsAt<V>(m: Memory<V>, key: nat, v: V, prev: nat, node: nat, p: nat, b: nat, i: nat)
    requires Tables(m) && InFront(m, prev, key) && InMemory(m, prev)
    requires IsPrivate(m, node, Set(key, v)) && Beyond(m, m.entries[prev].next, key)
    requires var c := m.chains[Route(key, m.bits)];
             p < |c| && InsertAfter(c, prev, node) == c[..p + 1] + [node] + c[p + 1..]
    requires var m' := LinkIn(m, key, v, prev, node); b < |m'.chains| && 1 <= i < |m'.chains[b]|
    ensures var m' := LinkIn(m, key, v, prev, node); Represents(m', m'.chains[b][i])
  {
    hide Route, InFront, Links, SortedKeys, HasEntry;
    var m' := LinkIn(m, key, v, prev, node);
    var r := Route(key, m.bits);
    AbsentAtLoad(m, prev, key);
    assert Bucket(m, b, m.chains[b]);
    var n := m'.chains[b][i];
    if n != node {
      var j := if b != r || i <= p then i else i - 1;
      assert m.chains[b][j] == n && j >= 1;
      assert Represents(m, m.chains[b][j]);
      assert n in m.chains[b];
      LinkInRepresents(m, key, v, prev, node, n);
    }
  }

  lemma OverwriteTables<V>(m: Memory<V>, key: nat, v: V, n: nat, pointer: nat)
    requires Tables(m) && Linked(m, n, key) && pointer < |m.values| && m.values[pointer] == v
    ensures Tables(Overwrite(m, key, v, n, pointer)) && Grows(m, Overwrite(m, key, v, n, pointer))
  {
    hide Route, Bucket;
    var m' := Overwrite(m, key, v, n, pointer);
    forall b | 0 <= b < |m'.chains|
      ensures Bucket(m', b, m'.chains[b])
    {
      BucketFrame(m, m', b, m.chains[b]);
    }
    forall b, i | 0 <= b < |m'.chains| && 1 <= i < |m'.chains[b]|
      ensures Represents(m', m'.chains[b][i])
    {
      assert Represents(m, m.chains[b][i]);
      if Key(m, m.chains[b][i]) == key { UniqueEntry(m, m.chains[b][i], n, b, i, key); }
    }
    forall k | k in m'.abs
      ensures HasEntry(m', k)
    {
      if k == key {
        LinkedFrame(m, m', n, k);
      } else {
        var x: nat :| Linked(m, x, k);
        LinkedFrame(m, m', x, k);
      }
    }
  }

  lemma UniqueEntry<V>(m: Memory<V>, x: nat, n: nat, b: nat, i: nat, key: nat)
    requires Tables(m) && Linked(m, n, key) && b < |m.chains| && 1 <= i < |m.chains[b]| && m.chains[b][i] == x
    requires Key(m, x) == key
    ensures x == n
  {
    hide Route;
    var c := m.chains[b];
    assert Bucket(m, b, c);
    var j :| 0 <= j < |c| && c[j] == n;
  }

  /** Assembling the invariant after thread t stepped to memory m and program counter pc. */
  lemma Reassemble<V>(s: State<V>, t: nat, m: Memory<V>, pc: Pc<V>)
    requires Inv(s) && t < |s.pcs| && Tables(m) && Grows(s.mem, m) && LocalOk(m, pc)
    requires forall u | 0 <= u < |s.pcs| && u != t :: Untouched(s.mem, m, PrivateEntry(s.pcs[u]))
    requires PrivateEntry(pc) in {Null, PrivateEntry(s.pcs[t]), At(|s.mem.entries|)}
    ensures Inv(State(m, s.pcs[t := pc]))
  {
    hide Bucket, Represents, HasEntry, LocalOk, Grows, Untouched;
    var pcs := s.pcs[t := pc];
    forall u | 0 <= u < |pcs|
      ensures LocalOk(m, pcs[u])
    {
      if u != t { LocalSurvives(s.mem, m, s.pcs[u]); }
    }
    forall u | 0 <= u < |pcs| && u != t && PrivateEntry(pc).At?
      ensures PrivateEntry(pcs[u]) != PrivateEntry(pc)
    {
      PrivateInMemory(s, u);
    }
    assert Exclusive(pcs);
  }

  lemma PrivateInMemory<V>(s: State<V>, u: nat)
    requires Inv(s) && u < |s.pcs|
    ensures PrivateEntry(s.pcs[u]).At? ==> PrivateEntry(s.pcs[u]).node < |s.mem.entries|
  {
    assert LocalOk(s.mem, s.pcs[u]);
  }

  lemma HeadsInMemory<V>(m: Memory<V>, prev: nat, key: nat)
    requires Tables(m) && InFront(m, prev, key)
    ensures InMemory(m, prev)
  {
    var p := PositionInFront(m, prev, key);
  }

  lemma TraversalStep<V>(m: Memory<V>, job: Job<V>, prev: nat, spare: Spare)
    requires Tables(m) && LocalOk(m, Find(job, prev, spare))
    ensures InMemory(m, prev) && LocalOk(m, AfterLoad(m, job, prev, m.entries[prev].next, spare))
  {
    hide Route, Links, SortedKeys, HasEntry, Represents;
    var b := Route(job.key, m.bits);
    var p := PositionInFront(m, prev, job.key);
    assert Bucket(m, b, m.chains[b]);
    LinkAt(m, b, m.chains[b], p);
    if p + 1 < |m.chains[b]| {
      assert m.chains[b][p + 1] in m.chains[b];
      assert TableSize(m) <= m.chains[b][p + 1] < |m.entries|;
    }
    assert PrivateEntry(Find(job, prev, spare)) == spare.entry;
    assert spare.entry.At? ==> IsPrivate(m, spare.entry.node, job);
    assert spare.entry.At? ==> job.Set?;
  }

  lemma GrowsSame<V>(m: Memory<V>)
    ensures Grows(m, m) && forall l: Link :: Untouched(m, m, l)
  {
  }

  /** Steps that leave the memory alone. */
  lemma LocalStepInv<V>(s: State<V>, t: nat, pc: Pc<V>)
    requires Inv(s) && t < |s.pcs| && LocalOk(s.mem, pc)
    requires PrivateEntry(pc).Null? || PrivateEntry(pc) == PrivateEntry(s.pcs[t])
    ensures Inv(State(s.mem, s.pcs[t := pc]))
  {
    hide Tables, LocalOk, Grows, Untouched;
    GrowsSame(s.mem);
    Reassemble(s, t, s.mem, pc);
  }

  lemma RestartOk<V>(m: Memory<V>, job: Job<V>, spare: Spare)
    requires |m.chains| == TableSize(m) && SpareValueOk(m, spare.value, job)
    requires spare.entry.At? ==> IsPrivate(m, spare.entry.node, job)
    ensures LocalOk(m, Restart(m, job, spare))
  {
    hide Route, IsPrivate;
  }

  lemma AllocateInv<V>(s: State<V>, t: nat)
    requires Inv(s) && t < |s.pcs| && s.pcs[t].Prepare? && s.pcs[t].spare.entry.Null?
    ensures Inv(Step(s, t, Run))
  {
    hide Route;
    var Prepare(job, prev, target, spare) := s.pcs[t];
    assert LocalOk(s.mem, s.pcs[t]);
    var m := Allocate(s.mem, job.key, job.v, target);
    var pc := CasNext(job, prev, target, |s.mem.entries|, spare.value);
    HeadsInMemory(s.mem, prev, job.key);
    AllocateTables(s.mem, job.key, job.v, target);
    assert InFront(m, prev, job.key);
    Reassemble(s, t, m, pc);
  }

  lemma AllocateTables<V>(m: Memory<V>, key: nat, v: V, target: Link)
    requires Tables(m)
    ensures var m' := Allocate(m, key, v, target);
            && Tables(m') && Grows(m, m') && IsPrivate(m', |m.entries|, Set(key, v))
            && (forall l: Link :: Untouched(m, m', l))
  {
    hide Route;
    var m' := Allocate(m, key, v, target);
    TablesFrame(m, m');
    HeadsExist(m);
    forall b | 0 <= b < |m.chains|
      ensures |m.entries| !in m.chains[b]
    {
      assert Bucket(m, b, m.chains[b]);
    }
  }

  lemma HeadsExist<V>(m: Memory<V>)
    requires Tables(m)
    ensures TableSize(m) <= |m.entries|
  {
    var b := TableSize(m) - 1;
    assert Bucket(m, b, m.chains[b]);
  }

  lemma StorePrivateInv<V>(s: State<V>, t: nat)
    requires Inv(s) && t < |s.pcs| && s.pcs[t].Prepare? && s.pcs[t].spare.entry.At?
    ensures Inv(Step(s, t, Run))
  {
    hide Route;
    var Prepare(job, prev, target, spare) := s.pcs[t];
    assert LocalOk(s.mem, s.pcs[t]);
    var n := spare.entry.node;
    assert PrivateEntry(s.pcs[t]) == At(n);
    var m := SetNext(s.mem, n, target);
    TablesFrame(s.mem, m);
    assert forall b, i | 0 <= b < |s.mem.chains| && 0 <= i < |s.mem.chains[b]| :: s.mem.chains[b][i] in s.mem.chains[b];
    forall u | 0 <= u < |s.pcs| && u != t
      ensures Untouched(s.mem, m, PrivateEntry(s.pcs[u]))
    {
      assert PrivateEntry(s.pcs[u]) != At(n);
    }
    Reassemble(s, t, m, CasNext(job, prev, target, n, spare.value));
  }

  lemma CasNextInv<V>(s: State<V>, t: nat)
    requires Inv(s) && t < |s.pcs| && s.pcs[t].CasNext?
    requires InMemory(s.mem, s.pcs[t].prev) && s.mem.entries[s.pcs[t].prev].next == s.pcs[t].target
    ensures Inv(Step(s, t, Run))
  {
    hide Route, Represents, HasEntry;
    var CasNext(job, prev, target, node, spareValue) := s.pcs[t];
    assert LocalOk(s.mem, s.pcs[t]);
    assert PrivateEntry(s.pcs[t]) == At(node);
    LinkInTables(s.mem, job.key, job.v, prev, node);
    var m := LinkIn(s.mem, job.key, job.v, prev, node);
    forall u | 0 <= u < |s.pcs| && u != t
      ensures Untouched(s.mem, m, PrivateEntry(s.pcs[u]))
    {
      OthersUntouched(s, t, u);
    }
    Reassemble(s, t, m, Idle);
  }

  lemma OthersUntouched<V>(s: State<V>, t: nat, u: nat)
    requires Inv(s) && t < |s.pcs| && u < |s.pcs| && u != t && s.pcs[t].CasNext?
    requires InMemory(s.mem, s.pcs[t].prev) && s.mem.entries[s.pcs[t].prev].next == s.pcs[t].target
    ensures s.pcs[t].job.Set?
            && Untouched(s.mem, LinkIn(s.mem, s.pcs[t].job.key, s.pcs[t].job.v, s.pcs[t].prev, s.pcs[t].node),
                         PrivateEntry(s.pcs[u]))
  {
    hide Route, Represents, HasEntry, Bucket;
    var CasNext(job, prev, target, node, spareValue) := s.pcs[t];
    var mem := s.mem;
    assert LocalOk(mem, s.pcs[t]) && LocalOk(mem, s.pcs[u]);
    assert PrivateEntry(s.pcs[t]) == At(node);
    var p := PositionInFront(mem, prev, job.key);
    var b := Route(job.key, mem.bits);
    InsertAfterIs(mem.chains[b], prev, node, p);
    var l := PrivateEntry(s.pcs[u]);
    if l.At? {
      assert l != At(node) && IsPrivate(mem, l.node, s.pcs[u].job);
      assert mem.chains[b][p] in mem.chains[b];
    }
  }

  lemma LoadValueInv<V>(s: State<V>, t: nat)
    requires Inv(s) && t < |s.pcs| && s.pcs[t].LoadValue? && s.pcs[t].job.Set? && s.pcs[t].spare.value.Null?
    ensures Inv(Step(s, t, Run))
  {
    hide Route, Bucket, HasEntry;
    var LoadValue(job, node, spare) := s.pcs[t];
    assert LocalOk(s.mem, s.pcs[t]);
    var m := s.mem.(values := s.mem.values + [job.v]);
    TablesFrame(s.mem, m);
    Reassemble(s, t, m, CasValue(job, node, m.entries[node].value, |s.mem.values|, spare.entry));
  }

  lemma CasValueInv<V>(s: State<V>, t: nat)
    requires Inv(s) && t < |s.pcs| && s.pcs[t].CasValue?
    requires InMemory(s.mem, s.pcs[t].node) && s.mem.entries[s.pcs[t].node].value == s.pcs[t].seen
    ensures Inv(Step(s, t, Run))
  {
    hide Route, Represents, HasEntry;
    var CasValue(job, node, seen, mine, spareEntry) := s.pcs[t];
    assert LocalOk(s.mem, s.pcs[t]);
    OverwriteTables(s.mem, job.key, job.v, node, mine);
    var m := Overwrite(s.mem, job.key, job.v, node, mine);
    forall u | 0 <= u < |s.pcs| && u != t
      ensures Untouched(s.mem, m, PrivateEntry(s.pcs[u]))
    {
      assert LocalOk(s.mem, s.pcs[u]);
    }
    Reassemble(s, t, m, Idle);
  }

  lemma StepInv<V>(s: State<V>, t: nat, a: Action<V>)
    requires Inv(s) && t < |s.pcs|
    ensures Inv(Step(s, t, a))
  {
    hide Route, Represents, HasEntry, Bucket;
    var pc, m := s.pcs[t], s.mem;
    assert LocalOk(m, pc);
    if a.Start? {
      RestartOk(m, a.job, Spare(Null, Null));
      LocalStepInv(s, t, if pc.Idle? then Restart(m, a.job, Spare(Null, Null)) else pc);
    } else {
      match pc
      case Idle => LocalStepInv(s, t, pc);
      case Find(job, prev, spare) =>
        TraversalStep(m, job, prev, spare);
        LocalStepInv(s, t, AfterLoad(m, job, prev, m.entries[prev].next, spare));
      case Prepare(_, _, _, spare) =>
        if spare.entry.Null? { AllocateInv(s, t); } else { StorePrivateInv(s, t); }
      case CasNext(job, prev, target, node, v) =>
        HeadsInMemory(m, prev, job.key);
        if m.entries[prev].next == target {
          CasNextInv(s, t);
        } else {
          RestartOk(m, job, Spare(At(node), v));
          LocalStepInv(s, t, Restart(m, job, Spare(At(node), v)));
        }
      case LoadValue(job, node, spare) =>
        if job.Set? && spare.value.Null? {
          LoadValueInv(s, t);
        } else {
          LocalStepInv(s, t, Access(m, pc).1);
        }
      case CasValue(job, node, seen, mine, e) =>
        if m.entries[node].value == seen {
          CasValueInv(s, t);
        } else {
          RestartOk(m, job, Spare(e, At(mine)));
          LocalStepInv(s, t, Restart(m, job, Spare(e, At(mine))));
        }
    }
  }

  lemma {:induction false} ExecInv<V(!new)>(s: State<V>, schedule: seq<(nat, Action<V>)>)
    requires Inv(s) && Scheduled(schedule, |s.pcs|)
    ensures Inv(Exec(s, schedule))
    decreases |schedule|
  {
    if schedule != [] {
      var k := |schedule| - 1;
      ExecInv(s, schedule[..k]);
      StepInv(Exec(s, schedule[..k]), schedule[k].0, schedule[k].1);
    }
  }

  // ---------------------------------------------------------- main theorems

  /** Operations of a plain map, with the answers they gave. */
  datatype Op<V> = Stored(key: nat, v: V) | Found(key: nat, v: V) | Present(key: nat) | Absent(key: nat)

  ghost predicate Legal<V>(m: map<nat, V>, op: Op<V>) {
    match op
    case Stored(_, _) => true
    case Found(k, v) => k in m && m[k] == v
    case Present(k) => k in m
    case Absent(k) => k !in m
  }

  ghost function Apply<V>(m: map<nat, V>, op: Op<V>): map<nat, V> {
    if op.Stored? then m[op.key := op.v] else m
  }

  /** The operation that takes effect in this step: a store at its successful exchange, a negative
      answer at the load of next that ends the traversal, a positive Has at the load that meets the
      key, a Get at its load of the value pointer. */
  function TakesEffect<V>(m: Memory<V>, pc: Pc<V>): seq<Op<V>> {
    match pc
    case Find(job, prev, _) =>
      if job.Set? || !InMemory(m, prev) then []
      else
        var target := m.entries[prev].next;
        if target.Null? || Key(m, target.node) > job.key then [Absent(job.key)]
        else if Key(m, target.node) == job.key && job.Has? then [Present(job.key)]
        else []
    case CasNext(job, prev, target, _, _) =>
      if InMemory(m, prev) && m.entries[prev].next == target && job.Set? then [Stored(job.key, job.v)] else []
    case LoadValue(job, node, _) =>
      if job.Get? && InMemory(m, node) && m.entries[node].value < |m.values| then
        [Found(job.key, m.values[m.entries[node].value])]
      else []
    case CasValue(job, node, seen, _, _) =>
      if InMemory(m, node) && m.entries[node].value == seen && job.Set? then [Stored(job.key, job.v)] else []
    case _ => []
  }

  function StepEffect<V>(s: State<V>, t: nat, a: Action<V>): seq<Op<V>>
    requires t < |s.pcs|
  {
    if a.Run? then TakesEffect(s.mem, s.pcs[t]) else []
  }

  lemma StepLinearizes<V>(s: State<V>, t: nat, a: Action<V>)
    requires Inv(s) && t < |s.pcs|
    ensures var ops, m' := StepEffect(s, t, a), Step(s, t, a).mem;
            if ops == [] then m'.abs == s.mem.abs
            else |ops| == 1 && Legal(s.mem.abs, ops[0]) && m'.abs == Apply(s.mem.abs, ops[0])
  {
    hide Route, HasEntry;
    var m, pc := s.mem, s.pcs[t];
    assert LocalOk(m, pc);
    if a.Run? && pc.Find? {
      HeadsInMemory(m, pc.prev, pc.job.key);
      TraversalStep(m, pc.job, pc.prev, pc.spare);
      var target := m.entries[pc.prev].next;
      if target.Null? || Key(m, target.node) > pc.job.key {
        TargetInMemory(m, pc.prev, pc.job.key);
        AbsentAtLoad(m, pc.prev, pc.job.key);
      } else if Key(m, target.node) == pc.job.key {
        NextIsLinked(m, pc.prev, pc.job.key);
        LinkedRepresents(m, target.node, pc.job.key);
      }
    } else if a.Run? && pc.LoadValue? {
      LinkedRepresents(m, pc.node, pc.job.key);
    }
  }

  lemma LinkAt<V>(m: Memory<V>, b: nat, c: seq<nat>, i: nat)
    requires Bucket(m, b, c) && i < |c|
    ensures c[i] < |m.entries| && m.entries[c[i]].next == if i + 1 < |c| then At(c[i + 1]) else Null
    ensures i + 1 < |c| ==> c[i + 1] < |m.entries|
  {
    hide Route, SortedKeys, RoutedTo;
    if i + 1 < |c| { assert m.entries[c[i]].next == At(c[i + 1]); }
  }

  lemma TargetInMemory<V>(m: Memory<V>, prev: nat, key: nat)
    requires Tables(m) && InFront(m, prev, key) && InMemory(m, prev)
    ensures m.entries[prev].next.At? ==> InMemory(m, m.entries[prev].next.node)
  {
    hide Route, Bucket;
    var p := PositionInFront(m, prev, key);
    var c := m.chains[Route(key, m.bits)];
    LinkAt(m, Route(key, m.bits), c, p);
  }

  lemma NextIsLinked<V>(m: Memory<V>, prev: nat, key: nat)
    requires Tables(m) && InFront(m, prev, key) && InMemory(m, prev)
    requires m.entries[prev].next.At? && Key(m, m.entries[prev].next.node) == key
    ensures Linked(m, m.entries[prev].next.node, key)
  {
    hide Route;
    var b := Route(key, m.bits);
    var p := PositionInFront(m, prev, key);
    assert Bucket(m, b, m.chains[b]);
    var c := m.chains[b];
    LinkAt(m, b, c, p);
    assert c[p + 1] in c;
  }

  lemma LinkedRepresents<V>(m: Memory<V>, n: nat, key: nat)
    requires Tables(m) && Linked(m, n, key)
    ensures Represents(m, n) && key in m.abs
  {
    hide Route;
    var b := Route(key, m.bits);
    assert Bucket(m, b, m.chains[b]);
    var i :| 0 <= i < |m.chains[b]| && m.chains[b][i] == n;
    assert Represents(m, m.chains[b][i]);
  }

  ghost function Linearized<V(!new)>(s: State<V>, schedule: seq<(nat, Action<V>)>): seq<Op<V>>
    requires Scheduled(schedule, |s.pcs|)
    decreases |schedule|
  {
    if schedule == [] then [] else
      var k := |schedule| - 1;
      Linearized(s, schedule[..k]) + StepEffect(Exec(s, schedule[..k]), schedule[k].0, schedule[k].1)
  }

  /** The plain map after a sequence of operations. */
  ghost function Replay<V>(ops: seq<Op<V>>): map<nat, V>
    decreases |ops|
  {
    if ops == [] then map[] else Apply(Replay(ops[..|ops| - 1]), ops[|ops| - 1])
  }

  ghost predicate AllLegal<V>(ops: seq<Op<V>>) {
    forall i | 0 <= i < |ops| :: Legal(Replay(ops[..i]), ops[i])
  }

  lemma AppendLegal<V>(ops: seq<Op<V>>, op: Op<V>)
    requires AllLegal(ops) && Legal(Replay(ops), op)
    ensures AllLegal(ops + [op]) && Replay(ops + [op]) == Apply(Replay(ops), op)
  {
    var all := ops + [op];
    assert all[..|ops|] == ops;
    forall i | 0 <= i < |all|
      ensures Legal(Replay(all[..i]), all[i])
    {
      if i < |ops| { assert all[..i] == ops[..i]; }
    }
  }

  /** Linearizability: replayed on a plain map, all answers of any schedule are right, and the
      final map is the one the linked entries represent. */
  lemma {:induction false} Linearizable<V(!new)>(bits: nat, threads: nat, schedule: seq<(nat, Action<V>)>)
    requires Scheduled(schedule, threads)
    ensures var s0 := Init<V>(bits, threads);
            var ops := Linearized(s0, schedule);
            AllLegal(ops) && Replay(ops) == Exec(s0, schedule).mem.abs
    decreases |schedule|
  {
    hide Inv, Step, StepEffect, Legal, Apply;
    var s0 := Init<V>(bits, threads);
    if schedule != [] {
      var k := |schedule| - 1;
      Linearizable<V>(bits, threads, schedule[..k]);
      InitInv<V>(bits, threads);
      ExecInv(s0, schedule[..k]);
      var s := Exec(s0, schedule[..k]);
      StepLinearizes(s, schedule[k].0, schedule[k].1);
      var before, ops := Linearized(s0, schedule[..k]), StepEffect(s, schedule[k].0, schedule[k].1);
      if ops == [] {
        assert before + ops == before;
      } else {
        assert ops == [ops[0]];
        AppendLegal(before, ops[0]);
      }
    }
  }

  /** In every reachable state all buckets are strictly sorted lists that together hold exactly
      the keys of one map, each key in the bucket its remainder selects. */
  lemma BucketsFormOneMap<V(!new)>(bits: nat, threads: nat, schedule: seq<(nat, Action<V>)>)
    requires Scheduled(schedule, threads)
    ensures var m := Exec(Init<V>(bits, threads), schedule).mem;
            && |m.chains| == Arith.Pow2(m.bits)
            && (forall b | 0 <= b < |m.chains| :: Links(m, m.chains[b]) && SortedKeys(m, m.chains[b]))
            && (forall b, i | 0 <= b < |m.chains| && 1 <= i < |m.chains[b]| ::
                  Key(m, m.chains[b][i]) % Arith.Pow2(m.bits) == b && Represents(m, m.chains[b][i]))
            && (forall k | k in m.abs :: HasEntry(m, k))
  {
    InitInv<V>(bits, threads);
    ExecInv(Init<V>(bits, threads), schedule);
    var m := Exec(Init<V>(bits, threads), schedule).mem;
    forall b | 0 <= b < |m.chains|
      ensures Links(m, m.chains[b]) && SortedKeys(m, m.chains[b])
    {
      assert Bucket(m, b, m.chains[b]);
    }
    forall b, i | 0 <= b < |m.chains| && 1 <= i < |m.chains[b]|
      ensures Key(m, m.chains[b][i]) % Arith.Pow2(m.bits) == b && Represents(m, m.chains[b][i])
    {
      assert Bucket(m, b, m.chains[b]);
      Arith.MaskIsMod(Key(m, m.chains[b][i]), m.bits);
    }
  }

  /** Keys are never lost. */
  lemma KeysOnlyGrow<V>(s: State<V>, t: nat, a: Action<V>)
    requires Inv(s) && t < |s.pcs|
    ensures s.mem.abs.Keys <= Step(s, t, a).mem.abs.Keys
  {
    StepLinearizes(s, t, a);
  }

  // ------------------------------------- each call takes effect exactly once, before it returns

  ghost predicate BelongsTo<V>(op: Op<V>, job: Job<V>) {
    match op
    case Stored(k, v) => job == Set(k, v)
    case Found(k, _) => job == Get(k)
    case Present(k) => job == Has(k)
    case Absent(k) => job == Get(k) || job == Has(k)
  }

  /** A running call returns in exactly the step in which it takes effect, once and as that very call; until then it
      stays the same call, and no other thread is touched. */
  lemma EffectExactlyAtReturn<V>(s: State<V>, t: nat, a: Action<V>)
    requires Inv(s) && t < |s.pcs| && !s.pcs[t].Idle?
    ensures var s', ops := Step(s, t, a), StepEffect(s, t, a);
      && |ops| <= 1 && (s'.pcs[t].Idle? <==> ops != [])
      && (!s'.pcs[t].Idle? ==> s'.pcs[t].job == s.pcs[t].job)
      && (ops != [] ==> BelongsTo(ops[0], s.pcs[t].job))
      && forall u | 0 <= u < |s.pcs| && u != t :: s'.pcs[u] == s.pcs[u]
  {
    hide Route, HasEntry, Represents;
    var m, pc := s.mem, s.pcs[t];
    assert LocalOk(m, pc);
    if pc.Find? {
      HeadsInMemory(m, pc.prev, pc.job.key);
    } else if pc.LoadValue? {
      LinkedRepresents(m, pc.node, pc.job.key);
      RepresentedValue(m, pc.node);
    }
  }

  lemma RepresentedValue<V>(m: Memory<V>, n: nat)
    requires Represents(m, n)
    ensures InMemory(m, n) && m.entries[n].value < |m.values|
  {
  }

  // ------------------------------------- which call a start begins, and what it answers alone

  /** An idle thread begins exactly the call it is asked for, and touches nothing else; a busy one is not disturbed. */
  lemma StartBegins<V>(s: State<V>, t: nat, job: Job<V>)
    requires t < |s.pcs|
    ensures var s' := Step(s, t, Start(job));
      && s'.mem == s.mem && |s'.pcs| == |s.pcs|
      && (forall u | 0 <= u < |s.pcs| && u != t :: s'.pcs[u] == s.pcs[u])
      && (if s.pcs[t].Idle? then !s'.pcs[t].Idle? && s'.pcs[t].job == job else s' == s)
  {
    hide Route;
    assert s.pcs[t := s.pcs[t]] == s.pcs;
  }

  /** What a plain map answers to a call. */
  function Answer<V>(m: map<nat, V>, job: Job<V>): Op<V> {
    match job
    case Set(k, v) => Stored(k, v)
    case Get(k) => if k in m then Found(k, m[k]) else Absent(k)
    case Has(k) => if k in m then Present(k) else Absent(k)
  }

  lemma AnswerIsForced<V>(m: map<nat, V>, job: Job<V>, op: Op<V>)
    requires Legal(m, op) && BelongsTo(op, job)
    ensures op == Answer(m, job)
  {
  }

  /** n uninterrupted accesses of one thread, and the operations that take effect meanwhile. */
  ghost function Alone<V>(s: State<V>, t: nat, n: nat): (r: State<V>)
    requires t < |s.pcs|
    ensures |r.pcs| == |s.pcs|
    decreases n
  {
    if n == 0 then s else Alone(Step(s, t, Run), t, n - 1)
  }

  ghost function AloneEffects<V>(s: State<V>, t: nat, n: nat): seq<Op<V>>
    requires t < |s.pcs|
    decreases n
  {
    if n == 0 then [] else StepEffect(s, t, Run) + AloneEffects(Step(s, t, Run), t, n - 1)
  }

  lemma {:induction false} IdleStays<V>(s: State<V>, t: nat, n: nat)
    requires t < |s.pcs| && s.pcs[t].Idle?
    ensures Alone(s, t, n) == s && AloneEffects(s, t, n) == []
    decreases n
  {
    if n > 0 {
      assert s.pcs[t := s.pcs[t]] == s.pcs;
      assert Step(s, t, Run) == s;
      IdleStays(s, t, n - 1);
    }
  }

  /** A call that has returned took effect once, with the answer of the plain map it started on. */
  lemma {:induction false} ReturnedAlone<V>(s: State<V>, t: nat, n: nat)
    requires Inv(s) && t < |s.pcs| && !s.pcs[t].Idle? && Alone(s, t, n).pcs[t].Idle?
    ensures AloneEffects(s, t, n) == [Answer(s.mem.abs, s.pcs[t].job)]
    ensures Alone(s, t, n).mem.abs == Apply(s.mem.abs, Answer(s.mem.abs, s.pcs[t].job))
    decreases n
  {
    hide Inv, Step, StepEffect, Legal, Apply, BelongsTo, Answer;
    if n > 0 {
      var s', ops := Step(s, t, Run), StepEffect(s, t, Run);
      StepInv(s, t, Run);
      StepLinearizes(s, t, Run);
      EffectExactlyAtReturn(s, t, Run);
      if s'.pcs[t].Idle? {
        IdleStays(s', t, n - 1);
        AnswerIsForced(s.mem.abs, s.pcs[t].job, ops[0]);
        assert ops == [ops[0]];
      } else {
        ReturnedAlone(s', t, n - 1);
        assert ops == [];
      }
    }
  }

  /** The last accesses of a Set that found its place: both exchanges see what they loaded. */
  lemma PreparedReturns<V>(s: State<V>, t: nat)
    requires Inv(s) && t < |s.pcs| && s.pcs[t].Prepare? && s.pcs[t].spare.entry.Null?
    requires InMemory(s.mem, s.pcs[t].prev) && s.mem.entries[s.pcs[t].prev].next == s.pcs[t].target
    ensures Alone(s, t, 2).pcs[t].Idle?
  {
    hide Route, InsertAfter, Bucket, Represents, HasEntry;
    assert LocalOk(s.mem, s.pcs[t]);
    var s1 := Step(s, t, Run);
    var s2 := Step(s1, t, Run);
    assert s2.pcs[t].Idle?;
    assert Alone(s2, t, 0) == s2;
    assert Alone(s1, t, 1) == s2;
  }

  lemma FoundReturns<V>(s: State<V>, t: nat)
    requires Inv(s) && t < |s.pcs| && s.pcs[t].LoadValue? && s.pcs[t].spare.value.Null?
    ensures Alone(s, t, 2).pcs[t].Idle?
  {
    hide Route, Bucket, Represents, HasEntry;
    assert LocalOk(s.mem, s.pcs[t]);
    var s1 := Step(s, t, Run);
    var s2 := Step(s1, t, Run);
    assert s2.pcs[t].Idle?;
    assert Alone(s2, t, 0) == s2;
    assert Alone(s1, t, 1) == s2;
  }

  ghost function ChainOf<V>(m: Memory<V>, key: nat): seq<nat>
    requires |m.chains| == TableSize(m)
  {
    m.chains[Route(key, m.bits)]
  }

  /** One step of a traversal goes to the next entry of the bucket, or stops there. */
  lemma FindStep<V>(s: State<V>, t: nat, p: nat)
    requires Inv(s) && t < |s.pcs| && s.pcs[t].Find?
    requires p < |ChainOf(s.mem, s.pcs[t].job.key)| && ChainOf(s.mem, s.pcs[t].job.key)[p] == s.pcs[t].prev
    ensures var s', c, prev := Step(s, t, Run), ChainOf(s.mem, s.pcs[t].job.key), s.pcs[t].prev;
      && InMemory(s.mem, prev) && s'.mem == s.mem && |s.mem.chains| == TableSize(s.mem) && |s'.pcs| == |s.pcs|
      && s'.pcs[t] == AfterLoad(s.mem, s.pcs[t].job, prev, s.mem.entries[prev].next, s.pcs[t].spare)
      && s.mem.entries[prev].next == if p + 1 < |c| then At(c[p + 1]) else Null
  {
    hide Route, Links, SortedKeys, RoutedTo, Represents, HasEntry;
    var b := Route(s.pcs[t].job.key, s.mem.bits);
    assert Bucket(s.mem, b, s.mem.chains[b]);
    LinkAt(s.mem, b, s.mem.chains[b], p);
  }

  /** A traversal that nobody disturbs reaches its place and returns. */
  lemma {:induction false} TraversalReturns<V>(s: State<V>, t: nat, p: nat) returns (n: nat)
    requires Inv(s) && t < |s.pcs| && s.pcs[t].Find? && s.pcs[t].spare == Spare(Null, Null)
    requires p < |ChainOf(s.mem, s.pcs[t].job.key)| && ChainOf(s.mem, s.pcs[t].job.key)[p] == s.pcs[t].prev
    ensures Alone(s, t, n).pcs[t].Idle?
    decreases |ChainOf(s.mem, s.pcs[t].job.key)| - p
  {
    hide Inv, Step, ChainOf, TableSize;
    FindStep(s, t, p);
    StepInv(s, t, Run);
    var s' := Step(s, t, Run);
    match s'.pcs[t]
    case Idle =>
      n := 1;
      assert Alone(s', t, 0) == s';
    case Find(_, _, _) =>
      var k := TraversalReturns(s', t, p + 1);
      n := k + 1;
    case Prepare(_, _, _, _) =>
      PreparedReturns(s', t);
      n := 3;
    case LoadValue(_, _, _) =>
      FoundReturns(s', t);
      n := 3;
  }

  /** Undisturbed, every call returns, took effect once, and gave the answer of the plain map: Set stores exactly its
      key and value, Get and Has answer for exactly their key and change nothing. */
  lemma SequentialCall<V>(s: State<V>, t: nat, job: Job<V>) returns (n: nat)
    requires Inv(s) && t < |s.pcs| && s.pcs[t].Idle?
    ensures var s0 := Step(s, t, Start(job));
      && Alone(s0, t, n).pcs[t].Idle?
      && AloneEffects(s0, t, n) == [Answer(s.mem.abs, job)]
      && Alone(s0, t, n).mem.abs == if job.Set? then s.mem.abs[job.key := job.v] else s.mem.abs
  {
    var s0 := Step(s, t, Start(job));
    StepInv(s, t, Start(job));
    var b := Route(job.key, s.mem.bits);
    assert Bucket(s.mem, b, s.mem.chains[b]);
    assert s0.mem == s.mem && s0.pcs[t] == Find(job, b, Spare(Null, Null));
    assert ChainOf(s.mem, job.key)[0] == b;
    hide Inv, Route, Tables, Bucket, ChainOf;
    n := TraversalReturns(s0, t, 0);
    ReturnedAlone(s0, t, n);
  }
}
