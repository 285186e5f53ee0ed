/** The interning table of bootloader/dt.c: what its buckets hold, whatever was inserted and however
    often the table grew. */
module DtStrings {
  import opened Lists
  import opened Buffers
  import opened DtSpec
  import HeapSpec

  /** `struct BlDtString`: where it is, and its text. */
  datatype Entry = Entry(at: Addr, text: Bytes)

  // ----- hashing -----

  function FnvStep(hash: bv32, c: Byte): bv32 {
    (hash ^ (c as bv32)) * 0x01000193
  }

  /** 32-bit FNV-1a. */
  function Fnv(s: Bytes): bv32 {
    if s == [] then 0x811c9dc5 else FnvStep(Fnv(s[..|s| - 1]), s[|s| - 1])
  }

  /** `h & (c - 1)` for a power of two `c`: the low bits of `h` where `c` has its zeros. */
  function LowBits(h: nat, c: nat): nat {
    if c <= 1 then 0 else h % 2 + 2 * LowBits(h / 2, c / 2)
  }

  lemma {:induction false} LowBitsBound(h: nat, c: nat)
    requires HeapSpec.IsPow2(c)
    ensures LowBits(h, c) < c
  {
    if c > 1 {
      LowBitsBound(h / 2, c / 2);
    }
  }

  /** Masking is reduction modulo the capacity. */
  lemma {:induction false} LowBitsIsMod(h: nat, c: nat) returns (q: nat)
    requires HeapSpec.IsPow2(c)
    ensures h == q * c + LowBits(h, c)
  {
    if c == 1 {
      q := h;
    } else {
      q := LowBitsIsMod(h / 2, c / 2);
      assert q * c == 2 * (q * (c / 2));
    }
  }

  function Bucket(s: Bytes, capacity: nat): nat {
    LowBits(Fnv(s) as nat, capacity)
  }

  // ----- the buckets -----

  function Nodes(es: seq<Entry>): (ns: seq<Addr>)
    ensures |ns| == |es|
  {
    seq(|es|, i requires 0 <= i < |es| => es[i].at)
  }

  /** The chain of bucket `b` after inserting `order` one by one, each at the front of its bucket. */
  function ChainFor(order: seq<Entry>, b: nat, capacity: nat): seq<Entry> {
    if order == [] then []
    else
      var last := order[|order| - 1];
      var rest := ChainFor(order[..|order| - 1], b, capacity);
      if Bucket(last.text, capacity) == b then [last] + rest else rest
  }

  ghost predicate BucketOk(m: Memory, table: seq<BlList>, order: seq<Entry>, b: nat)
    requires b < |table|
  {
    IsList(m, table[b], Nodes(ChainFor(order, b, |table|)))
  }

  /** Every bucket is the list of the entries that belong there. */
  ghost predicate Buckets(m: Memory, table: seq<BlList>, order: seq<Entry>) {
    forall b {:trigger BucketOk(m, table, order, b)} | 0 <= b < |table| :: BucketOk(m, table, order, b)
  }

  lemma {:induction false} ChainIndex(order: seq<Entry>, b: nat, capacity: nat, j: nat) returns (i: nat)
    requires j < |ChainFor(order, b, capacity)|
    ensures i < |order| && order[i] == ChainFor(order, b, capacity)[j] && Bucket(order[i].text, capacity) == b
  {
    var n := |order| - 1;
    if Bucket(order[n].text, capacity) != b {
      i := ChainIndex(order[..n], b, capacity, j);
    } else if j == 0 {
      i := n;
    } else {
      i := ChainIndex(order[..n], b, capacity, j - 1);
    }
  }

  lemma {:induction false} InChain(order: seq<Entry>, i: nat, capacity: nat) returns (j: nat)
    requires i < |order|
    ensures var chain := ChainFor(order, Bucket(order[i].text, capacity), capacity);
            j < |chain| && chain[j] == order[i]
  {
    var n := |order| - 1;
    if i == n {
      j := 0;
    } else {
      j := InChain(order[..n], i, capacity);
      if Bucket(order[n].text, capacity) == Bucket(order[i].text, capacity) {
        j := j + 1;
      }
    }
  }

  lemma {:induction false} ChainAppend(order: seq<Entry>, e: Entry, b: nat, capacity: nat)
    ensures ChainFor(order + [e], b, capacity) ==
            if Bucket(e.text, capacity) == b then [e] + ChainFor(order, b, capacity) else ChainFor(order, b, capacity)
  {
    assert (order + [e])[..|order|] == order;
  }

  predicate TextAt(es: seq<Entry>, i: nat, s: Bytes)
    requires i < |es|
  {
    es[i].text == s
  }

  ghost predicate Interned(es: seq<Entry>, s: Bytes) {
    exists i {:trigger TextAt(es, i, s)} | 0 <= i < |es| :: TextAt(es, i, s)
  }

  /** A string is interned exactly when its own bucket holds it. */
  lemma {:induction false} InternedInBucket(order: seq<Entry>, s: Bytes, capacity: nat)
    ensures Interned(order, s) <==> Interned(ChainFor(order, Bucket(s, capacity), capacity), s)
  {
    var chain := ChainFor(order, Bucket(s, capacity), capacity);
    if Interned(order, s) {
      var i :| 0 <= i < |order| && TextAt(order, i, s);
      var j := InChain(order, i, capacity);
      assert TextAt(chain, j, s);
    }
    if Interned(chain, s) {
      var j :| 0 <= j < |chain| && TextAt(chain, j, s);
      var i := ChainIndex(order, Bucket(s, capacity), capacity, j);
      assert TextAt(order, i, s);
    }
  }

  // ----- inserting at the front of a bucket -----

  lemma {:induction false} OtherBucket(m: Memory, m': Memory, table: seq<BlList>, order: seq<Entry>, e: Entry, b: nat, c: nat)
    requires AllApart(Nodes(order + [e])) && b < |table| && c < |table| && b != c
    requires BucketOk(m, table, order, c)
    requires OnlyLinks(m, m', Inserted(Nodes(ChainFor(order, b, |table|)), 0, e.at))
    ensures BucketOk(m', table, order, c)
  {
    var chain, other := ChainFor(order, b, |table|), ChainFor(order, c, |table|);
    var touched := Inserted(Nodes(chain), 0, e.at);
    forall i | 0 <= i < |other| ensures Outside(other[i].at, touched) && Outside(other[i].at + NEXT, touched) {
      var x := ChainIndex(order, c, |table|, i);
      forall j | 0 <= j < |touched| ensures Apart(other[i].at, touched[j]) || Apart(touched[j], other[i].at) {
        if j == 0 {
          EntriesApart(order + [e], x, |order|);
        } else {
          var y := ChainIndex(order, b, |table|, j - 1);
          EntriesApart(order + [e], x, y);
        }
      }
    }
    ListFrame(m, m', table[c], Nodes(other));
  }

  lemma {:induction false} EntriesApart(es: seq<Entry>, x: nat, y: nat)
    requires AllApart(Nodes(es)) && x < |es| && y < |es| && x != y
    ensures Apart(es[x].at, es[y].at)
  {
    assert Apart(Nodes(es)[if x < y then x else y], Nodes(es)[if x < y then y else x]);
  }

  lemma {:induction false} OwnBucket(order: seq<Entry>, e: Entry, b: nat, capacity: nat)
    requires AllApart(Nodes(order + [e]))
    ensures CanInsert(Nodes(ChainFor(order, b, capacity)), e.at)
  {
    var chain := ChainFor(order, b, capacity);
    assert NodeOk(Nodes(order + [e]), |order|);
    forall j | 0 <= j < |chain| ensures Apart(Nodes(chain)[j], e.at) {
      var x := ChainIndex(order, b, capacity, j);
      EntriesApart(order + [e], x, |order|);
    }
  }

  lemma {:induction false} ChainLinksOnly(m: Memory, m': Memory, order: seq<Entry>, e: Entry, b: nat, capacity: nat)
    requires OnlyLinks(m, m', Inserted(Nodes(ChainFor(order, b, capacity)), 0, e.at))
    ensures OnlyLinks(m, m', Nodes(order + [e]))
  {
    var touched := Inserted(Nodes(ChainFor(order, b, capacity)), 0, e.at);
    forall a | Outside(a, Nodes(order + [e])) ensures Outside(a, touched) {
      forall j | 0 <= j < |touched| ensures a != touched[j] && a != touched[j] + NEXT {
        if j == 0 {
          assert Nodes(order + [e])[|order|] == e.at;
        } else {
          var x := ChainIndex(order, b, capacity, j - 1);
          assert Nodes(order + [e])[x] == touched[j];
        }
      }
    }
  }

  lemma {:induction false} GrownBucket(m': Memory, l': BlList, order: seq<Entry>, e: Entry, b: nat, capacity: nat)
    requires b == Bucket(e.text, capacity)
    requires IsList(m', l', Inserted(Nodes(ChainFor(order, b, capacity)), 0, e.at))
    ensures IsList(m', l', Nodes(ChainFor(order + [e], b, capacity)))
  {
    ChainAppend(order, e, b, capacity);
    var chain := ChainFor(order, b, capacity);
    assert Nodes([e] + chain) == Inserted(Nodes(chain), 0, e.at);
  }

  /** Linking an entry in front of its bucket keeps every bucket exact. */
  lemma {:induction false} InsertKeepsBuckets(m: Memory, table: seq<BlList>, order: seq<Entry>, e: Entry, b: nat, m': Memory, l': BlList)
    requires Buckets(m, table, order) && AllApart(Nodes(order + [e])) && b < |table|
    requires b == Bucket(e.text, |table|)
    requires IsList(m', l', Inserted(Nodes(ChainFor(order, b, |table|)), 0, e.at))
    requires OnlyLinks(m, m', Inserted(Nodes(ChainFor(order, b, |table|)), 0, e.at))
    ensures Buckets(m', table[b := l'], order + [e])
    ensures OnlyLinks(m, m', Nodes(order + [e]))
  {
    var table' := table[b := l'];
    ChainLinksOnly(m, m', order, e, b, |table|);
    forall c | 0 <= c < |table| ensures BucketOk(m', table', order + [e], c) {
      if c == b {
        GrownBucket(m', l', order, e, b, |table|);
      } else {
        assert BucketOk(m, table, order, c);
        ChainAppend(order, e, c, |table|);
        OtherBucket(m, m', table, order, e, b, c);
      }
    }
  }

  // ----- growing -----

  /** The entries of the first `n` buckets, bucket by bucket. */
  function Flat(order: seq<Entry>, capacity: nat, n: nat): seq<Entry> {
    if n == 0 then [] else Flat(order, capacity, n - 1) + ChainFor(order, n - 1, capacity)
  }

  /** The bytes the strings take with their NULs. */
  function TextSize(es: seq<Entry>): nat {
    if es == [] then 0 else TextSize(es[..|es| - 1]) + |es[|es| - 1].text| + 1
  }

  lemma {:induction false} TextSizeConcat(a: seq<Entry>, b: seq<Entry>)
    ensures TextSize(a + b) == TextSize(a) + TextSize(b)
    decreases |b|
  {
    if b == [] {
      assert a + b == a;
    } else {
      assert (a + b)[..|a + b| - 1] == a + b[..|b| - 1];
      TextSizeConcat(a, b[..|b| - 1]);
    }
  }

  /** `more` holds what `es` holds and `added` besides. */
  ghost predicate Extends(es: seq<Entry>, more: seq<Entry>, added: seq<Entry>) {
    multiset(more) == multiset(es) + multiset(added) && TextSize(more) == TextSize(es) + TextSize(added)
  }

  lemma {:induction false} ExtendsThen(es: seq<Entry>, more: seq<Entry>, added: seq<Entry>, chain: seq<Entry>)
    requires Extends(es, more, added)
    ensures Extends(es + chain, more + chain, added)
  {
    TextSizeConcat(es, chain);
    TextSizeConcat(more, chain);
  }

  lemma {:induction false} ExtendsBy(es: seq<Entry>, more: seq<Entry>, e: Entry, chain: seq<Entry>)
    requires Extends(es, more, [])
    ensures Extends(es + chain, more + ([e] + chain), [e])
  {
    TextSizeConcat(es, chain);
    TextSizeConcat(more, [e] + chain);
    TextSizeConcat([e], chain);
  }

  /** What a new entry adds to the first `n` buckets. */
  function AddedTo(n: nat, e: Entry, capacity: nat): seq<Entry> {
    if Bucket(e.text, capacity) < n then [e] else []
  }

  lemma {:induction false} FlatStep(order: seq<Entry>, capacity: nat, n: nat, m: nat)
    requires n == m + 1
    ensures Flat(order, capacity, n) == Flat(order, capacity, m) + ChainFor(order, m, capacity)
  {
  }

  lemma {:induction false} FlatAppend(order: seq<Entry>, e: Entry, capacity: nat, n: nat)
    ensures Extends(Flat(order, capacity, n), Flat(order + [e], capacity, n), AddedTo(n, e, capacity))
  {
    if n > 0 {
      var m, more := n - 1, order + [e];
      FlatAppend(order, e, capacity, m);
      ChainAppend(order, e, m, capacity);
      FlatAppendOne(n, m, Flat(order, capacity, m), Flat(more, capacity, m), ChainFor(order, m, capacity),
                    ChainFor(more, m, capacity), e, capacity);
      FlatStep(order, capacity, n, m);
      FlatStep(more, capacity, n, m);
    }
  }

  lemma {:induction false} FlatAppendOne(n: nat, m: nat, es: seq<Entry>, more: seq<Entry>,
                                         chain: seq<Entry>, chain': seq<Entry>, e: Entry, capacity: nat)
    requires n == m + 1 && Extends(es, more, AddedTo(m, e, capacity))
    requires chain' == if Bucket(e.text, capacity) == m then [e] + chain else chain
    ensures Extends(es + chain, more + chain', AddedTo(n, e, capacity))
  {
    if Bucket(e.text, capacity) == m {
      ExtendsBy(es, more, e, chain);
    } else {
      ExtendsThen(es, more, AddedTo(m, e, capacity), chain);
    }
  }

  lemma {:induction false} FlatEmpty(capacity: nat, n: nat)
    ensures Flat([], capacity, n) == []
  {
    if n > 0 {
      FlatEmpty(capacity, n - 1);
    }
  }

  /** The buckets together hold every entry once. */
  lemma {:induction false} FlatPermutes(order: seq<Entry>, capacity: nat)
    requires HeapSpec.IsPow2(capacity) || order == []
    ensures multiset(Flat(order, capacity, capacity)) == multiset(order)
    ensures TextSize(Flat(order, capacity, capacity)) == TextSize(order)
    decreases |order|
  {
    if order == [] {
      FlatEmpty(capacity, capacity);
    } else {
      var n := |order| - 1;
      assert order == order[..n] + [order[n]];
      FlatPermutes(order[..n], capacity);
      LowBitsBound(Fnv(order[n].text) as nat, capacity);
      FlatAppend(order[..n], order[n], capacity, capacity);
      assert TextSize([order[n]]) == |order[n].text| + 1;
    }
  }

  lemma {:induction false} CountAt(es: seq<Entry>, x: nat, y: nat)
    requires x < y < |es| && es[x] == es[y]
    ensures multiset(es)[es[x]] >= 2
  {
    assert es == es[..y] + es[y..];
    assert es[..y][x] in multiset(es[..y]) && es[y..][0] in multiset(es[y..]);
  }

  lemma {:induction false} OnceInApart(es: seq<Entry>, e: Entry)
    requires AllApart(Nodes(es))
    ensures multiset(es)[e] <= 1
  {
    if es != [] {
      var n := |es| - 1;
      assert es == es[..n] + [es[n]];
      ApartPrefix(es, n);
      OnceInApart(es[..n], e);
      if e == es[n] && e in es[..n] {
        var x :| 0 <= x < n && es[..n][x] == e;
        EntriesApart(es, x, n);
      }
    }
  }

  lemma {:induction false} ApartPrefix(es: seq<Entry>, n: nat)
    requires AllApart(Nodes(es)) && n <= |es|
    ensures AllApart(Nodes(es[..n]))
  {
    var ns := Nodes(es[..n]);
    forall i | 0 <= i < n ensures NodeOk(ns, i) {
      assert NodeOk(Nodes(es), i);
    }
    forall i, j | 0 <= i < j < n ensures Apart(ns[i], ns[j]) {
      EntriesApart(es, i, j);
    }
  }

  /** Entries stay apart in any order. */
  lemma {:induction false} PermutedApart(es: seq<Entry>, fs: seq<Entry>)
    requires AllApart(Nodes(es)) && multiset(es) == multiset(fs)
    ensures AllApart(Nodes(fs))
  {
    var ns := Nodes(fs);
    forall i | 0 <= i < |fs| ensures NodeOk(ns, i) {
      var x := IndexIn(es, fs, i);
      assert NodeOk(Nodes(es), x);
    }
    forall i, j | 0 <= i < j < |fs| ensures Apart(ns[i], ns[j]) {
      var x := IndexIn(es, fs, i);
      var y := IndexIn(es, fs, j);
      if x == y {
        CountAt(fs, i, j);
        OnceInApart(es, fs[i]);
      }
      EntriesApart(es, x, y);
    }
  }

  lemma {:induction false} IndexIn(es: seq<Entry>, fs: seq<Entry>, i: nat) returns (x: nat)
    requires multiset(es) == multiset(fs) && i < |fs|
    ensures x < |es| && es[x] == fs[i]
  {
    assert fs[i] in multiset(fs);
    x :| 0 <= x < |es| && es[x] == fs[i];
  }

  lemma {:induction false} PermutedInterned(es: seq<Entry>, fs: seq<Entry>, s: Bytes)
    requires multiset(es) == multiset(fs) && Interned(es, s)
    ensures Interned(fs, s)
  {
    var i :| 0 <= i < |es| && TextAt(es, i, s);
    var x := IndexIn(fs, es, i);
    assert TextAt(fs, x, s);
  }
}
