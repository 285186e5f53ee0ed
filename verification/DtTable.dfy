/** The table itself: BlDtGetString, with its growth, and the strings block of BlDtBuildBlob. */
module DtTable {
  import opened Lists
  import opened Buffers
  import opened DtSpec
  import opened DtStrings
  import opened DtParse
  import opened DtWriter
  import HeapSpec

  predicate Stored(text: map<Addr, Bytes>, e: Entry) {
    e.at in text && text[e.at] == e.text && CString(e.text)
  }

  ghost predicate AllStored(text: map<Addr, Bytes>, es: seq<Entry>) {
    forall i {:trigger Stored(text, es[i])} | 0 <= i < |es| :: Stored(text, es[i])
  }

  /** `e` is one of the entries. */
  ghost predicate HasEntry(es: seq<Entry>, e: Entry) {
    exists i | 0 <= i < |es| :: es[i] == e
  }

  // ----- walking the buckets -----

  /** The `Next` links of a chain. */
  function LinksOf(chain: seq<Entry>): (r: seq<Addr>)
    ensures |r| == |chain|
  {
    seq(|chain|, j requires 0 <= j < |chain| => At(Nodes(chain), j + 1))
  }

  /** The `Next` links of the entries of the first `n` buckets. */
  function FlatLinks(order: seq<Entry>, capacity: nat, n: nat): (r: seq<Addr>)
    ensures |r| == |Flat(order, capacity, n)|
  {
    if n == 0 then [] else FlatLinks(order, capacity, n - 1) + LinksOf(ChainFor(order, n - 1, capacity))
  }

  /** From position `p` on, memory still holds the `Next` links. */
  ghost predicate Follow(m: Memory, flat: seq<Entry>, nexts: seq<Addr>, p: nat) {
    |nexts| == |flat| && forall q {:trigger nexts[q]} | p <= q < |flat| :: Load(m, flat[q].at + NEXT) == nexts[q]
  }

  /** What following a chain from position `p` to its end at `end` finds. */
  function Pointer(flat: seq<Entry>, p: nat, end: nat): Addr
    requires end <= |flat|
  {
    if p < end then flat[p].at else 0
  }

  /** The positions from `start` to `end` are one chain. */
  ghost predicate Chunk(flat: seq<Entry>, nexts: seq<Addr>, start: nat, end: nat) {
    && start <= end <= |flat| == |nexts|
    && forall q {:trigger nexts[q]} | start <= q < end :: nexts[q] == Pointer(flat, q + 1, end)
  }

  lemma {:induction false} FlatPrefix(order: seq<Entry>, capacity: nat, b: nat, n: nat)
    requires b <= n
    ensures |Flat(order, capacity, b)| <= |Flat(order, capacity, n)|
    ensures Flat(order, capacity, n)[..|Flat(order, capacity, b)|] == Flat(order, capacity, b)
    ensures FlatLinks(order, capacity, n)[..|Flat(order, capacity, b)|] == FlatLinks(order, capacity, b)
  {
    if b < n {
      FlatPrefix(order, capacity, b, n - 1);
    }
  }

  lemma {:induction false} LastChunk(order: seq<Entry>, capacity: nat, n: nat, start: nat, end: nat)
    requires n > 0 && start == |Flat(order, capacity, n - 1)| && end == |Flat(order, capacity, n)|
    ensures Chunk(Flat(order, capacity, n), FlatLinks(order, capacity, n), start, end)
    ensures At(Nodes(ChainFor(order, n - 1, capacity)), 0) == Pointer(Flat(order, capacity, n), start, end)
  {
    var chain := ChainFor(order, n - 1, capacity);
    var flat, nexts := Flat(order, capacity, n), FlatLinks(order, capacity, n);
    forall q | start <= q < end ensures nexts[q] == Pointer(flat, q + 1, end) {
      var j := q - start + 1;
      assert nexts[q] == LinksOf(chain)[q - start] == At(Nodes(chain), j);
      assert q + 1 < end ==> flat[q + 1] == chain[j];
    }
  }

  lemma {:induction false} ChunkPrefix(flat: seq<Entry>, nexts: seq<Addr>, start: nat, end: nat, n: nat)
    requires start <= end <= n <= |flat| == |nexts| && Chunk(flat[..n], nexts[..n], start, end)
    ensures Chunk(flat, nexts, start, end) && Pointer(flat, start, end) == Pointer(flat[..n], start, end)
  {
    forall q | start <= q < end ensures nexts[q] == Pointer(flat, q + 1, end) {
      assert nexts[..n][q] == Pointer(flat[..n], q + 1, end);
    }
  }

  predicate HeadOk(table: seq<BlList>, order: seq<Entry>, b: nat)
    requires b < |table|
  {
    table[b].head == At(Nodes(ChainFor(order, b, |table|)), 0)
  }

  ghost predicate Heads(table: seq<BlList>, order: seq<Entry>) {
    forall b {:trigger HeadOk(table, order, b)} | 0 <= b < |table| :: HeadOk(table, order, b)
  }

  /** The chain of bucket `i`, as positions in the flattened table. */
  lemma {:induction false} BucketChunk(table: seq<BlList>, order: seq<Entry>, capacity: nat, i: nat, start: nat,
                                       flat: seq<Entry>, nexts: seq<Addr>)
    returns (end: nat)
    requires Heads(table, order) && i < capacity == |table| && start == |Flat(order, capacity, i)|
    requires flat == Flat(order, capacity, capacity) && nexts == FlatLinks(order, capacity, capacity)
    ensures end == |Flat(order, capacity, i + 1)|
    ensures Chunk(flat, nexts, start, end) && table[i].head == Pointer(flat, start, end)
  {
    assert HeadOk(table, order, i);
    end := |Flat(order, capacity, i + 1)|;
    FlatPrefix(order, capacity, i + 1, capacity);
    LastChunk(order, capacity, i + 1, start, end);
    ChunkPrefix(flat, nexts, start, end, end);
  }

  lemma {:induction false} BucketsFollow(m: Memory, table: seq<BlList>, order: seq<Entry>, n: nat)
    requires Buckets(m, table, order) && n <= |table|
    ensures Follow(m, Flat(order, |table|, n), FlatLinks(order, |table|, n), 0)
  {
    if n > 0 {
      BucketsFollow(m, table, order, n - 1);
      assert BucketOk(m, table, order, n - 1);
      var before, links := Flat(order, |table|, n - 1), FlatLinks(order, |table|, n - 1);
      var chain := ChainFor(order, n - 1, |table|);
      ChainFollow(m, table[n - 1], chain);
      FollowJoin(m, before, links, chain, LinksOf(chain));
    }
  }

  lemma {:induction false} ChainFollow(m: Memory, l: BlList, chain: seq<Entry>)
    requires IsList(m, l, Nodes(chain))
    ensures Follow(m, chain, LinksOf(chain), 0)
  {
    forall q | 0 <= q < |chain| ensures Load(m, chain[q].at + NEXT) == LinksOf(chain)[q] {
      assert Linked(m, Nodes(chain), q);
    }
  }

  lemma {:induction false} FollowJoin(m: Memory, es: seq<Entry>, ns: seq<Addr>, fs: seq<Entry>, ms: seq<Addr>)
    requires Follow(m, es, ns, 0) && Follow(m, fs, ms, 0)
    ensures Follow(m, es + fs, ns + ms, 0)
  {
    forall q | 0 <= q < |es + fs| ensures Load(m, (es + fs)[q].at + NEXT) == (ns + ms)[q] {
      if q < |es| {
        assert Load(m, es[q].at + NEXT) == ns[q];
      } else {
        assert Load(m, fs[q - |es|].at + NEXT) == ms[q - |es|];
      }
    }
  }

  /** Moving the entry at `p` leaves the links behind it alone. */
  lemma {:induction false} FollowFrame(m: Memory, m': Memory, flat: seq<Entry>, nexts: seq<Addr>, p: nat)
    requires AllApart(Nodes(flat)) && p < |flat| && Follow(m, flat, nexts, p)
    requires OnlyLinks(m, m', Nodes(flat[..p + 1]))
    ensures Follow(m', flat, nexts, p + 1)
  {
    var touched := Nodes(flat[..p + 1]);
    forall q | p + 1 <= q < |flat| ensures Load(m', flat[q].at + NEXT) == nexts[q] {
      forall j | 0 <= j < |touched|
        ensures flat[q].at + NEXT != touched[j] && flat[q].at + NEXT != touched[j] + NEXT
      {
        EntriesApart(flat, j, q);
      }
      assert Outside(flat[q].at + NEXT, touched);
    }
  }

  lemma {:induction false} PointerNull(flat: seq<Entry>, p: nat, end: nat)
    requires AllApart(Nodes(flat)) && end <= |flat|
    ensures Pointer(flat, p, end) == 0 <==> p >= end
  {
    assert p < end ==> NodeOk(Nodes(flat), p);
  }

  lemma {:induction false} TakeOne(es: seq<Entry>, p: nat)
    requires p < |es|
    ensures es[..p + 1] == es[..p] + [es[p]]
  {
  }

  lemma {:induction false} ChainStored(text: map<Addr, Bytes>, order: seq<Entry>, b: nat, capacity: nat)
    requires AllStored(text, order)
    ensures AllStored(text, ChainFor(order, b, capacity))
  {
    var chain := ChainFor(order, b, capacity);
    forall j | 0 <= j < |chain| ensures Stored(text, chain[j]) {
      var i := ChainIndex(order, b, capacity, j);
      assert Stored(text, order[i]);
    }
  }

  lemma {:induction false} ChainEntry(order: seq<Entry>, b: nat, capacity: nat, e: Entry)
    requires HasEntry(ChainFor(order, b, capacity), e)
    ensures HasEntry(order, e)
  {
    var j :| 0 <= j < |ChainFor(order, b, capacity)| && ChainFor(order, b, capacity)[j] == e;
    var i := ChainIndex(order, b, capacity, j);
  }

  // ----- the strings block -----

  function BlockOf(es: seq<Entry>): (r: Bytes)
    ensures |r| == TextSize(es)
  {
    if es == [] then [] else BlockOf(es[..|es| - 1]) + (es[|es| - 1].text + [0])
  }

  function OffsetIn(es: seq<Entry>, i: nat): nat
    requires i <= |es|
  {
    TextSize(es[..i])
  }

  /** The string of entry `i` is at its offset, with its NUL, and ends where the next one starts. */
  lemma {:induction false} BlockHolds(es: seq<Entry>, i: nat)
    requires i < |es|
    ensures OffsetIn(es, i) + |es[i].text| + 1 == OffsetIn(es, i + 1) <= |BlockOf(es)|
    ensures BlockOf(es)[OffsetIn(es, i)..OffsetIn(es, i + 1)] == es[i].text + [0]
  {
    var n := |es| - 1;
    assert es[..i + 1][..i] == es[..i] && es[..|es|] == es;
    if i < n {
      assert es[..n][..i] == es[..i] && es[..n][..i + 1] == es[..i + 1];
      BlockHolds(es[..n], i);
    }
  }

  lemma {:induction false} OffsetsAscend(es: seq<Entry>, i: nat, j: nat)
    requires i <= j <= |es|
    ensures OffsetIn(es, i) <= OffsetIn(es, j)
  {
    if i < j {
      OffsetsAscend(es, i, j - 1);
      assert es[..j][..j - 1] == es[..j - 1];
    }
  }

  predicate PlacedAt(identifier: map<Addr, nat>, es: seq<Entry>, i: nat)
    requires i < |es|
  {
    es[i].at in identifier && identifier[es[i].at] == OffsetIn(es, i)
  }

  /** The first `n` entries know where their strings are. */
  ghost predicate Placed(identifier: map<Addr, nat>, es: seq<Entry>, n: nat) {
    forall i {:trigger PlacedAt(identifier, es, i)} | 0 <= i < n && i < |es| :: PlacedAt(identifier, es, i)
  }

  lemma {:induction false} PlacedNext(identifier: map<Addr, nat>, es: seq<Entry>, n: nat)
    requires Placed(identifier, es, n) && n < |es| && AllApart(Nodes(es))
    ensures Placed(identifier[es[n].at := OffsetIn(es, n)], es, n + 1)
  {
    var identifier' := identifier[es[n].at := OffsetIn(es, n)];
    forall i | 0 <= i < n + 1 ensures PlacedAt(identifier', es, i) {
      if i < n {
        assert PlacedAt(identifier, es, i);
        EntriesApart(es, i, n);
      }
    }
  }

  lemma {:induction false} BlockNext(es: seq<Entry>, n: nat)
    requires n < |es|
    ensures BlockOf(es[..n + 1]) == BlockOf(es[..n]) + (es[n].text + [0])
    ensures OffsetIn(es, n + 1) == OffsetIn(es, n) + |es[n].text| + 1 <= TextSize(es)
  {
    assert es[..n + 1][..n] == es[..n];
    OffsetsAscend(es, n + 1, |es|);
    assert es[..|es|] == es;
  }

  predicate Capacity(c: nat) {
    c == 0 || (c >= 8 && HeapSpec.IsPow2(c))
  }

  predicate TextsDiffer(es: seq<Entry>, i: nat, j: nat)
    requires i < |es| && j < |es|
  {
    es[i].text != es[j].text
  }

  /** No string is interned twice. */
  ghost predicate NoTwins(es: seq<Entry>) {
    forall i, j {:trigger TextsDiffer(es, i, j)} | 0 <= i < j < |es| :: TextsDiffer(es, i, j)
  }

  lemma {:induction false} PermutedStored(text: map<Addr, Bytes>, es: seq<Entry>, fs: seq<Entry>)
    requires multiset(es) == multiset(fs) && AllStored(text, es)
    ensures AllStored(text, fs)
  {
    forall i | 0 <= i < |fs| ensures Stored(text, fs[i]) {
      var x := IndexIn(es, fs, i);
    }
  }

  lemma {:induction false} PermutedNoTwins(es: seq<Entry>, fs: seq<Entry>)
    requires multiset(es) == multiset(fs) && NoTwins(es) && AllApart(Nodes(es))
    ensures NoTwins(fs)
  {
    forall i, j | 0 <= i < j < |fs| ensures TextsDiffer(fs, i, j) {
      var x := IndexIn(es, fs, i);
      var y := IndexIn(es, fs, j);
      if x == y {
        CountAt(fs, i, j);
        OnceInApart(es, fs[i]);
      }
      assert TextsDiffer(es, if x < y then x else y, if x < y then y else x);
    }
  }

  lemma {:induction false} AppendedApart(es: seq<Entry>, e: Entry)
    requires AllApart(Nodes(es)) && CanInsert(Nodes(es), e.at)
    ensures AllApart(Nodes(es + [e]))
  {
    InsertedApart(Nodes(es), |es|, e.at);
    assert Nodes(es + [e]) == Inserted(Nodes(es), |es|, e.at);
  }

  lemma {:induction false} AppendedStored(text: map<Addr, Bytes>, es: seq<Entry>, e: Entry)
    requires AllStored(text, es) && CanInsert(Nodes(es), e.at) && CString(e.text)
    ensures AllStored(text[e.at := e.text], es + [e])
  {
    var fs, text' := es + [e], text[e.at := e.text];
    forall i | 0 <= i < |fs| ensures Stored(text', fs[i]) {
      if i < |es| {
        assert Stored(text, es[i]) && Apart(Nodes(es)[i], e.at);
      }
    }
  }

  lemma {:induction false} PermutedCan(es: seq<Entry>, fs: seq<Entry>, room: Addr)
    requires multiset(es) == multiset(fs) && CanInsert(Nodes(es), room)
    ensures CanInsert(Nodes(fs), room)
  {
    forall i | 0 <= i < |fs| ensures Apart(Nodes(fs)[i], room) {
      var x := IndexIn(es, fs, i);
      assert Apart(Nodes(es)[x], room);
    }
  }

  lemma {:induction false} AppendedNoTwins(es: seq<Entry>, e: Entry)
    requires NoTwins(es) && !Interned(es, e.text)
    ensures NoTwins(es + [e])
  {
    var fs := es + [e];
    forall i, j | 0 <= i < j < |fs| ensures TextsDiffer(fs, i, j) {
      if j < |es| {
        assert TextsDiffer(es, i, j);
      } else {
        assert !TextAt(es, i, e.text);
      }
    }
  }

  class StringTable {
    var links: Memory
    var text: map<Addr, Bytes>
    var identifier: map<Addr, nat>
    var table: array<BlList>
    var count: nat
    var capacity: nat
    var size: nat
    ghost var order: seq<Entry>

    /** The table holds the entries of `order`, each string once, and is at most three quarters full. */
    ghost predicate Valid()
      reads this, table
    {
      && Capacity(capacity) && table.Length == capacity
      && count == |order| <= capacity - capacity / 4 && size == TextSize(order)
      && AllApart(Nodes(order)) && AllStored(text, order) && NoTwins(order)
      && Buckets(links, table[..], order)
    }

    constructor ()
      ensures Valid() && order == [] && fresh(table)
    {
      links, text, identifier, table := map[], map[], map[], new BlList[0];
      count, capacity, size, order := 0, 0, 0, [];
    }

    /** BlDtHash and the mask. */
    method BucketOf(s: Bytes, size: nat) returns (b: nat)
      requires HeapSpec.IsPow2(size)
      ensures b == Bucket(s, size) < size
    {
      var hash: bv32, i := 0x811c9dc5, 0;
      while i < |s|
        invariant i <= |s| && hash == Fnv(s[..i])
      {
        assert s[..i + 1][..i] == s[..i];
        hash := FnvStep(hash, s[i]);
        i := i + 1;
      }
      assert s[..i] == s;
      LowBitsBound(hash as nat, size);
      b := LowBits(hash as nat, size);
    }

    /** Links an entry in front of its bucket. */
    method LinkEntry(t: array<BlList>, node: Addr, ghost moved: seq<Entry>, ghost e: Entry)
      requires HeapSpec.IsPow2(t.Length) && Buckets(links, t[..], moved) && AllApart(Nodes(moved + [e]))
      requires e.at == node && Stored(text, e)
      modifies `links, t
      ensures Buckets(links, t[..], moved + [e]) && OnlyLinks(old(links), links, Nodes(moved + [e]))
    {
      var b := BucketOf(text[node], t.Length);
      ghost var m, before := links, t[..];
      OwnBucket(moved, e, b, t.Length);
      assert BucketOk(m, before, moved, b);
      var l;
      links, l := InsertAfter(links, t[b], 0, node, Nodes(ChainFor(moved, b, t.Length)), 0);
      InsertKeepsBuckets(m, before, moved, e, b, links, l);
      t[b] := l;
      assert t[..] == before[b := l];
    }

    /** Looks for a string in its bucket. */
    method Lookup(s: Bytes) returns (entry: Addr)
      requires Valid() && count > 0
      ensures entry == 0 <==> !Interned(order, s)
      ensures entry != 0 ==> HasEntry(order, Entry(entry, s))
    {
      var b := BucketOf(s, capacity);
      ghost var chain := ChainFor(order, b, capacity);
      InternedInBucket(order, s, capacity);
      ChainStored(text, order, b, capacity);
      assert BucketOk(links, table[..], order, b);
      entry := Scan(table[b], s, chain);
      if entry != 0 {
        ChainEntry(order, b, capacity, Entry(entry, s));
      }
    }

    method Scan(list: BlList, s: Bytes, ghost chain: seq<Entry>) returns (entry: Addr)
      requires IsList(links, list, Nodes(chain)) && AllStored(text, chain)
      ensures entry == 0 <==> !Interned(chain, s)
      ensures entry != 0 ==> HasEntry(chain, Entry(entry, s))
    {
      ghost var j := 0;
      entry := list.head;
      while entry != 0
        invariant j <= |chain| && entry == At(Nodes(chain), j)
        invariant forall i {:trigger TextAt(chain, i, s)} | 0 <= i < j :: !TextAt(chain, i, s)
        decreases |chain| - j
      {
        assert Stored(text, chain[j]) && Linked(links, Nodes(chain), j);
        if text[entry] == s {
          assert TextAt(chain, j, s) && chain[j] == Entry(entry, s);
          return;
        }
        entry, j := Load(links, entry + NEXT), j + 1;
      }
      NullAtEnd(Nodes(chain), j);
    }

    /** Moves the entries of one old bucket to the new table. */
    method MoveBucket(t: array<BlList>, head: Addr, ghost flat: seq<Entry>, ghost nexts: seq<Addr>,
                      ghost start: nat, ghost end: nat)
      requires HeapSpec.IsPow2(t.Length) && AllApart(Nodes(flat)) && AllStored(text, flat)
      requires Chunk(flat, nexts, start, end) && Follow(links, flat, nexts, start)
      requires head == Pointer(flat, start, end) && Buckets(links, t[..], flat[..start])
      modifies `links, t
      ensures Buckets(links, t[..], flat[..end]) && Follow(links, flat, nexts, end)
    {
      var cur := head;
      ghost var p := start;
      PointerNull(flat, p, end);
      while cur != 0
        invariant start <= p <= end && cur == Pointer(flat, p, end)
        invariant Buckets(links, t[..], flat[..p]) && Follow(links, flat, nexts, p)
        decreases end - p
      {
        PointerNull(flat, p, end);
        cur := MoveNext(t, cur, flat, nexts, p, end);
        p := p + 1;
      }
      PointerNull(flat, p, end);
    }

    /** Moves one entry, and returns the one that came after it. */
    method MoveNext(t: array<BlList>, cur: Addr, ghost flat: seq<Entry>, ghost nexts: seq<Addr>,
                    ghost p: nat, ghost end: nat)
      returns (next: Addr)
      requires HeapSpec.IsPow2(t.Length) && AllApart(Nodes(flat)) && AllStored(text, flat)
      requires Follow(links, flat, nexts, p) && p < end <= |flat| && nexts[p] == Pointer(flat, p + 1, end)
      requires cur == flat[p].at && Buckets(links, t[..], flat[..p])
      modifies `links, t
      ensures next == Pointer(flat, p + 1, end)
      ensures Buckets(links, t[..], flat[..p + 1]) && Follow(links, flat, nexts, p + 1)
    {
      ghost var m := links;
      TakeOne(flat, p);
      ApartPrefix(flat, p + 1);
      assert Stored(text, flat[p]);
      next := Load(links, cur + NEXT);
      LinkEntry(t, cur, flat[..p], flat[p]);
      FollowFrame(m, links, flat, nexts, p);
    }

    /** Doubles the table. Every entry stays, in a bucket of the new table. */
    method Grow()
      requires Valid()
      modifies this
      ensures Valid() && fresh(table) && capacity == if old(capacity) == 0 then 8 else 2 * old(capacity)
      ensures multiset(order) == multiset(old(order))
      ensures count == old(count) && identifier == old(identifier)
    {
      var newCapacity := if capacity != 0 then capacity * 2 else 8;
      var newTable := new BlList[newCapacity](_ => EMPTY);
      ghost var flat := Flat(order, capacity, capacity);
      FlatFacts(text, order, capacity);
      PowerDoubles(capacity);
      EmptyBuckets(links, newTable[..]);
      BucketsFollow(links, table[..], order, capacity);
      BucketHeads(links, table[..], order);
      MoveAll(newTable, flat);
      table, capacity, order := newTable, newCapacity, flat;
    }

    method MoveAll(t: array<BlList>, ghost flat: seq<Entry>)
      requires capacity == table.Length && t != table && HeapSpec.IsPow2(t.Length)
      requires flat == Flat(order, capacity, capacity) && AllApart(Nodes(flat)) && AllStored(text, flat)
      requires Buckets(links, t[..], []) && Heads(table[..], order)
      requires Follow(links, flat, FlatLinks(order, capacity, capacity), 0)
      modifies `links, t
      ensures Buckets(links, t[..], flat)
    {
      ghost var nexts := FlatLinks(order, capacity, capacity);
      var i := 0;
      ghost var p := 0;
      assert flat[..0] == [];
      while i < capacity
        invariant i <= capacity && p == |Flat(order, capacity, i)| <= |flat|
        invariant Buckets(links, t[..], flat[..p]) && Follow(links, flat, nexts, p)
      {
        ghost var end := BucketChunk(table[..], order, capacity, i, p, flat, nexts);
        MoveBucket(t, table[i].head, flat, nexts, p, end);
        i, p := i + 1, end;
      }
      assert flat[..|flat|] == flat;
    }

    /** A new entry for a string that has none, in memory just allocated. */
    method AddEntry(s: Bytes, room: Addr)
      requires Valid() && count < capacity - capacity / 4
      requires CString(s) && !Interned(order, s) && CanInsert(Nodes(order), room)
      modifies this, table
      ensures Valid() && order == old(order) + [Entry(room, s)]
      ensures table == old(table) && capacity == old(capacity) && identifier == old(identifier)
    {
      ghost var e, es := Entry(room, s), order;
      AppendedApart(es, e);
      AppendedStored(text, es, e);
      AppendedNoTwins(es, e);
      TextSizeConcat(es, [e]);
      assert TextSize([e]) == |s| + 1;
      text := text[room := s];
      LinkEntry(table, room, es, e);
      count, size, order := count + 1, size + |s| + 1, es + [e];
    }

    /** BlDtGetString. Equal strings get the same entry, and no entry is ever lost or moved. */
    method GetString(s: Bytes, room: Addr) returns (entry: Addr)
      requires Valid() && CString(s) && CanInsert(Nodes(order), room)
      modifies this, table
      ensures Valid() && (table == old(table) || fresh(table)) && identifier == old(identifier)
      ensures HasEntry(order, Entry(entry, s))
      ensures Interned(old(order), s) ==> order == old(order)
      ensures !Interned(old(order), s) ==>
                entry == room && multiset(order) == multiset(old(order)) + multiset{Entry(room, s)}
    {
      if count > 0 {
        entry := Lookup(s);
        if entry != 0 {
          return;
        }
      }
      ghost var es := order;
      if count >= capacity - capacity / 4 {
        Grow();
        PermutedCan(es, order, room);
        if Interned(order, s) {
          PermutedInterned(order, es, s);
        }
      }
      ghost var before := order;
      AddEntry(s, room);
      assert order[|before|] == Entry(room, s);
      return room;
    }

    /** The loops of BlDtBuildBlob that lay out the strings block. `strings` is where it starts. */
    method WriteStrings(out: array<Byte>, strings: nat)
      requires Valid() && strings + size <= out.Length
      modifies `identifier, out
      ensures Valid() && Only(old(out[..]), out[..], strings, strings + size)
      ensures var flat := Flat(order, capacity, capacity);
              Occurs(out[..], strings, BlockOf(flat)) && Placed(identifier, flat, |flat|)
    {
      ghost var flat, before := Flat(order, capacity, capacity), out[..];
      FlatFacts(text, order, capacity);
      BucketsFollow(links, table[..], order, capacity);
      BucketHeads(links, table[..], order);
      WriteBuckets(out, strings, flat, before);
      assert flat[..|flat|] == flat;
    }

    method WriteBuckets(out: array<Byte>, strings: nat, ghost flat: seq<Entry>, ghost before: Bytes)
      requires capacity == table.Length && before == out[..]
      requires flat == Flat(order, capacity, capacity) && AllApart(Nodes(flat)) && AllStored(text, flat)
      requires TextSize(flat) == size && strings + size <= out.Length && Heads(table[..], order)
      requires Follow(links, flat, FlatLinks(order, capacity, capacity), 0)
      modifies `identifier, out
      ensures Laid(out[..], strings, before, flat, |flat|, size)
    {
      ghost var nexts := FlatLinks(order, capacity, capacity);
      var offset, i := 0, 0;
      ghost var p := 0;
      assert flat[..|flat|] == flat;
      while i < capacity
        invariant i <= capacity && p == |Flat(order, capacity, i)|
        invariant Laid(out[..], strings, before, flat, p, offset)
      {
        ghost var end := BucketChunk(table[..], order, capacity, i, p, flat, nexts);
        offset := WriteBucket(out, strings, offset, table[i].head, flat, nexts, p, end, before);
        i, p := i + 1, end;
      }
    }

    /** The first `p` strings are written and placed, and nothing else is touched. */
    ghost predicate Laid(out: Bytes, strings: nat, before: Bytes, flat: seq<Entry>, p: nat, offset: nat)
      reads `identifier, `size
    {
      && p <= |flat| && offset == OffsetIn(flat, p)
      && Occurs(out, strings, BlockOf(flat[..p])) && Placed(identifier, flat, p)
      && Only(before, out, strings, strings + size)
    }

    method WriteBucket(out: array<Byte>, strings: nat, offset: nat, head: Addr, ghost flat: seq<Entry>,
                       ghost nexts: seq<Addr>, ghost start: nat, ghost end: nat, ghost before: Bytes)
      returns (next: nat)
      requires AllApart(Nodes(flat)) && AllStored(text, flat)
      requires Chunk(flat, nexts, start, end) && Follow(links, flat, nexts, 0)
      requires TextSize(flat) == size && strings + size <= out.Length && head == Pointer(flat, start, end)
      requires Laid(out[..], strings, before, flat, start, offset)
      modifies `identifier, out
      ensures Laid(out[..], strings, before, flat, end, next)
    {
      var cur := head;
      ghost var p := start;
      next := offset;
      PointerNull(flat, p, end);
      while cur != 0
        invariant start <= p <= end && cur == Pointer(flat, p, end)
        invariant Laid(out[..], strings, before, flat, p, next)
        decreases end - p
      {
        PointerNull(flat, p, end);
        next := WriteOne(out, strings, next, cur, flat, p, before);
        assert nexts[p] == Pointer(flat, p + 1, end);
        cur := Load(links, cur + NEXT);
        p := p + 1;
      }
      PointerNull(flat, p, end);
    }

    method WriteOne(out: array<Byte>, strings: nat, offset: nat, cur: Addr,
                    ghost flat: seq<Entry>, ghost p: nat, ghost before: Bytes)
      returns (next: nat)
      requires p < |flat| && cur == flat[p].at && AllApart(Nodes(flat)) && AllStored(text, flat)
      requires TextSize(flat) == size && strings + size <= out.Length
      requires Laid(out[..], strings, before, flat, p, offset)
      modifies `identifier, out
      ensures Laid(out[..], strings, before, flat, p + 1, next)
    {
      assert Stored(text, flat[p]);
      ghost var earlier, mid := out[..], strings + offset;
      BlockNext(flat, p);
      PlacedNext(identifier, flat, p);
      var data := text[cur] + [0];
      next := offset + |data|;
      identifier := identifier[cur := offset];
      CopyMemory(out, strings + offset, data);
      Appended(earlier, out[..], strings, BlockOf(flat[..p]), data, mid, strings + next);
      OnlyWider(earlier, out[..], mid, strings + next, strings, strings + size);
      OnlyTrans(before, earlier, out[..], strings, strings + size);
    }
  }

  lemma {:induction false} PowerDoubles(c: nat)
    requires Capacity(c)
    ensures HeapSpec.IsPow2(8) && Capacity(8) && HeapSpec.IsPow2(if c != 0 then c * 2 else 8)
  {
    assert HeapSpec.IsPow2(2) && HeapSpec.IsPow2(4);
  }

  lemma {:induction false} EmptyBuckets(m: Memory, table: seq<BlList>)
    requires forall b | 0 <= b < |table| :: table[b] == EMPTY
    ensures Buckets(m, table, [])
  {
    forall b | 0 <= b < |table| ensures BucketOk(m, table, [], b) {
      assert Nodes(ChainFor([], b, |table|)) == [];
    }
  }

  lemma {:induction false} BucketHeads(m: Memory, table: seq<BlList>, order: seq<Entry>)
    requires Buckets(m, table, order)
    ensures Heads(table, order)
  {
    forall b | 0 <= b < |table| ensures HeadOk(table, order, b) {
      assert BucketOk(m, table, order, b);
    }
  }

  /** The flattened table is a permutation of the entries, and as good an order as theirs. */
  lemma {:induction false} FlatFacts(text: map<Addr, Bytes>, order: seq<Entry>, capacity: nat)
    requires Capacity(capacity) && |order| <= capacity
    requires AllApart(Nodes(order)) && AllStored(text, order) && NoTwins(order)
    ensures var flat := Flat(order, capacity, capacity);
            && multiset(flat) == multiset(order) && TextSize(flat) == TextSize(order) && |flat| == |order|
            && AllApart(Nodes(flat)) && AllStored(text, flat) && NoTwins(flat)
  {
    var flat := Flat(order, capacity, capacity);
    FlatPermutes(order, capacity);
    PermutedApart(order, flat);
    PermutedStored(text, order, flat);
    PermutedNoTwins(order, flat);
    assert |flat| == |multiset(flat)| && |order| == |multiset(order)|;
  }
}
