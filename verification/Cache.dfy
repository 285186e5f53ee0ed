/** bootloader/partition.c: the block cache, reads through it and around it, and partition bounds. */
module Cache {
  import opened Lists
  import opened Buffers
  import opened CacheSpec

  const WRAP := 0x1_0000_0000_0000_0000

  // ----- metadata entries and their buffers -----

  /** The address of `BiBCacheMeta[i]`. */
  function MetaAt(i: nat): Addr {
    24 * i + 24
  }

  /** The buffer of the entry at `a`: entry `i` owns `BiBCacheData[i]`. */
  function PlaceOf(a: Addr): nat
    requires a >= 24
  {
    (a - 24) / 24 * 4096
  }

  predicate MetaOk(a: Addr, used: nat) {
    24 <= a <= 24 * used && a % 24 == 0
  }

  lemma {:induction false} MetaFacts(i: nat)
    ensures MetaOk(MetaAt(i), i + 1) && PlaceOf(MetaAt(i)) == i * 4096
  {
  }

  lemma {:induction false} MetasApart(a: Addr, b: Addr, used: nat)
    requires MetaOk(a, used) && MetaOk(b, used) && a != b && used <= COUNT
    ensures Apart(a, b) && PlaceOf(a) + BLOCK <= COUNT * BLOCK
    ensures PlaceOf(a) + BLOCK <= PlaceOf(b) || PlaceOf(b) + BLOCK <= PlaceOf(a)
  {
  }

  lemma {:induction false} PlaceBound(a: Addr, used: nat)
    requires MetaOk(a, used) && used <= COUNT
    ensures PlaceOf(a) + BLOCK <= COUNT * BLOCK
  {
  }

  // ----- bytes that agree with the disk -----

  predicate SameByte(out: Bytes, at: nat, disk: Bytes, pos: nat, x: nat)
    requires at <= x < |out|
  {
    pos + (x - at) < |disk| ==> out[x] == disk[pos + (x - at)]
  }

  /** The `n` bytes at `at` are those of the disk at `pos`, as far as the disk goes. */
  ghost predicate Shows(out: Bytes, at: nat, disk: Bytes, pos: nat, n: nat) {
    at + n <= |out| && forall x {:trigger SameByte(out, at, disk, pos, x)} | at <= x < at + n ::
      SameByte(out, at, disk, pos, x)
  }

  /** Inside the disk, that is plain equality. */
  lemma {:induction false} ShowsInside(out: Bytes, at: nat, disk: Bytes, pos: nat, n: nat)
    requires Shows(out, at, disk, pos, n) && pos + n <= |disk|
    ensures out[at..at + n] == disk[pos..pos + n]
  {
    var mine, theirs := out[at..at + n], disk[pos..pos + n];
    forall k | 0 <= k < n ensures mine[k] == theirs[k] {
      assert SameByte(out, at, disk, pos, at + k);
    }
  }

  lemma {:induction false} ShowsKept(out: Bytes, out': Bytes, at: nat, disk: Bytes, pos: nat, n: nat, lo: nat, hi: nat)
    requires Shows(out, at, disk, pos, n) && Only(out, out', lo, hi) && (at + n <= lo || hi <= at)
    ensures Shows(out', at, disk, pos, n)
  {
    forall x | at <= x < at + n ensures SameByte(out', at, disk, pos, x) {
      assert SameByte(out, at, disk, pos, x);
      assert x < lo ==> out'[..lo][x] == out[..lo][x];
      assert hi <= x ==> out'[hi..][x - hi] == out[hi..][x - hi];
    }
  }

  lemma {:induction false} ShowsJoin(out: Bytes, at: nat, disk: Bytes, pos: nat, n: nat, mid: nat, next: nat, m: nat, all: nat)
    requires Shows(out, at, disk, pos, n) && Shows(out, mid, disk, next, m)
    requires mid == at + n && next == pos + n && all == n + m
    ensures Shows(out, at, disk, pos, all)
  {
    forall x | at <= x < at + all ensures SameByte(out, at, disk, pos, x) {
      if x < mid {
        assert SameByte(out, at, disk, pos, x);
      } else {
        assert SameByte(out, mid, disk, next, x);
      }
    }
  }

  /** Copying part of a buffer that agrees with the disk. */
  lemma {:induction false} ShowsCopied(data: Bytes, place: nat, disk: Bytes, start: nat, offset: nat, n: nat,
                                       out: Bytes, at: nat, pos: nat)
    requires Shows(data, place, disk, start, BLOCK) && offset + n <= BLOCK && pos == start + offset
    requires Occurs(out, at, data[place + offset..place + offset + n])
    ensures Shows(out, at, disk, pos, n)
  {
    var s := data[place + offset..place + offset + n];
    forall x | at <= x < at + n ensures SameByte(out, at, disk, pos, x) {
      var k := x - at;
      assert out[at..at + n][k] == s[k];
      assert SameByte(data, place, disk, start, place + offset + k);
    }
  }

  lemma {:induction false} ShowsRead(disk: Bytes, out: Bytes, at: nat, pos: nat, end: nat, n: nat)
    requires pos <= end <= |disk| && (end == pos + n || (end == |disk| && end <= pos + n)) && at + n <= |out|
    requires Occurs(out, at, disk[pos..end])
    ensures Shows(out, at, disk, pos, n)
  {
    forall x | at <= x < at + n ensures SameByte(out, at, disk, pos, x) {
      var k := x - at;
      if pos + k < |disk| {
        assert out[at..at + (end - pos)][k] == disk[pos..end][k];
      }
    }
  }

  // ----- the cache -----

  function BlockAt(block: map<Addr, nat>, a: Addr): nat {
    if a in block then block[a] else 0
  }

  /** The cached blocks in list order. */
  function BlocksOf(block: map<Addr, nat>, order: seq<Addr>): (r: seq<nat>)
    ensures |r| == |order|
  {
    seq(|order|, j requires 0 <= j < |order| => BlockAt(block, order[j]))
  }

  /** An entry knows its own buffer, and the buffer agrees with the disk. */
  ghost predicate EntryOk(a: Addr, used: nat, block: map<Addr, nat>, place: map<Addr, nat>, data: Bytes, disk: Bytes) {
    && MetaOk(a, used) && a in block && a in place && place[a] == PlaceOf(a)
    && Shows(data, PlaceOf(a), disk, block[a] * 4096, BLOCK)
  }

  ghost predicate EntriesOk(order: seq<Addr>, used: nat, block: map<Addr, nat>, place: map<Addr, nat>,
                            data: Bytes, disk: Bytes) {
    forall j {:trigger EntryOk(order[j], used, block, place, data, disk)} | 0 <= j < |order| ::
      EntryOk(order[j], used, block, place, data, disk)
  }

  /** Filling the buffer of one entry leaves all others. */
  lemma {:induction false} EntriesKept(order: seq<Addr>, used: nat, used': nat, block: map<Addr, nat>, place: map<Addr, nat>,
                                       data: Bytes, disk: Bytes, a: Addr, b: nat, data': Bytes)
    requires EntriesOk(order, used, block, place, data, disk) && used <= used' <= COUNT
    requires MetaOk(a, used') && (forall j | 0 <= j < |order| :: order[j] != a)
    requires Only(data, data', PlaceOf(a), PlaceOf(a) + BLOCK)
    requires Shows(data', PlaceOf(a), disk, b * 4096, BLOCK)
    ensures EntriesOk([a] + order, used', block[a := b], place[a := PlaceOf(a)], data', disk)
    ensures BlocksOf(block[a := b], [a] + order) == [b] + BlocksOf(block, order)
  {
    var order', block', place' := [a] + order, block[a := b], place[a := PlaceOf(a)];
    forall j | 0 <= j < |order'| ensures EntryOk(order'[j], used', block', place', data', disk) {
      if j > 0 {
        var c := order[j - 1];
        assert EntryOk(c, used, block, place, data, disk);
        MetasApart(c, a, used');
        ShowsKept(data, data', PlaceOf(c), disk, block[c] * 4096, BLOCK, PlaceOf(a), PlaceOf(a) + BLOCK);
      }
    }
  }

  /** After removing an entry it can be linked in again. */
  lemma {:induction false} CanReturn(order: seq<Addr>, k: nat)
    requires AllApart(order) && k < |order|
    ensures CanInsert(Removed(order, k), order[k])
    ensures forall j | 0 <= j < |Removed(order, k)| :: Removed(order, k)[j] != order[k]
  {
    var r := Removed(order, k);
    assert NodeOk(order, k);
    forall j | 0 <= j < |r| ensures Apart(r[j], order[k]) {
      var x := if j < k then j else j + 1;
      assert x < k ==> Apart(order[x], order[k]);
      assert k < x ==> Apart(order[k], order[x]);
    }
  }

  lemma {:induction false} CanClaim(order: seq<Addr>, used: nat, block: map<Addr, nat>, place: map<Addr, nat>,
                                    data: Bytes, disk: Bytes)
    requires EntriesOk(order, used, block, place, data, disk) && used < COUNT
    ensures CanInsert(order, MetaAt(used))
    ensures forall j | 0 <= j < |order| :: order[j] != MetaAt(used)
  {
    MetaFacts(used);
    forall j | 0 <= j < |order| ensures Apart(order[j], MetaAt(used)) {
      assert EntryOk(order[j], used, block, place, data, disk);
      MetasApart(order[j], MetaAt(used), used + 1);
    }
  }

  lemma {:induction false} RemovedEntries(order: seq<Addr>, k: nat, used: nat, block: map<Addr, nat>, place: map<Addr, nat>,
                                          data: Bytes, disk: Bytes)
    requires EntriesOk(order, used, block, place, data, disk) && k < |order|
    ensures EntriesOk(Removed(order, k), used, block, place, data, disk)
    ensures BlocksOf(block, Removed(order, k)) == BlocksOf(block, order)[..k] + BlocksOf(block, order)[k + 1..]
  {
    var r := Removed(order, k);
    forall j | 0 <= j < |r| ensures EntryOk(r[j], used, block, place, data, disk) {
      assert EntryOk(order[if j < k then j else j + 1], used, block, place, data, disk);
    }
  }

  /** How much of a read one block serves. */
  function StepOf(position: nat, count: nat): (step: nat)
    requires count > 0
    ensures 0 < step <= count && position % 4096 + step <= 4096
  {
    var rest := 4096 - position % 4096;
    if rest < count then rest else count
  }

  /** The blocks that a cached read uses, in order. */
  function Touched(position: nat, count: nat): seq<nat>
    decreases count
  {
    if count == 0 then []
    else [position / 4096] + Touched(position + StepOf(position, count), count - StepOf(position, count))
  }

  /** Those are all blocks of which the read needs a byte, each once, in ascending order. */
  lemma {:induction false} TouchedBlocks(position: nat, count: nat, k: nat)
    ensures |Touched(position, count)| == if count == 0 then 0 else (position + count - 1) / 4096 - position / 4096 + 1
    ensures k < |Touched(position, count)| ==> Touched(position, count)[k] == position / 4096 + k
    decreases count
  {
    if count > 0 {
      var step := StepOf(position, count);
      var next, left := position + step, count - step;
      if k > 0 {
        TouchedBlocks(next, left, k - 1);
      } else {
        TouchedBlocks(next, left, 0);
      }
      assert left > 0 ==> next / 4096 == position / 4096 + 1;
      assert left == 0 ==> (position + count - 1) / 4096 == position / 4096;
    }
  }

  /** After `done` bytes, the history and what is still to be touched make up the whole read. */
  ghost predicate ReadSoFar(past: seq<nat>, history: seq<nat>, position: nat, count: nat, done: nat) {
    done <= count && history + Touched(position + done, count - done) == past + Touched(position, count)
  }

  lemma {:induction false} ReadOne(past: seq<nat>, history: seq<nat>, position: nat, count: nat, done: nat, step: nat)
    requires done < count && history != [] && step == StepOf(position + done, count - done)
    requires history[|history| - 1] == (position + done) / 4096
    requires ReadSoFar(past, history[..|history| - 1], position, count, done)
    ensures ReadSoFar(past, history, position, count, done + step)
  {
    var earlier, b := history[..|history| - 1], (position + done) / 4096;
    var rest := Touched(position + done + step, count - done - step);
    assert Touched(position + done, count - done) == [b] + rest;
    assert history + rest == earlier + ([b] + rest);
  }

  lemma {:induction false} ReadAll(past: seq<nat>, history: seq<nat>, position: nat, count: nat)
    requires ReadSoFar(past, history, position, count, count)
    ensures history == past + Touched(position, count)
  {
    assert Touched(position + count, 0) == [] && history + [] == history;
  }

  /** The read needs some byte of block `b`. */
  predicate Touches(position: nat, count: nat, b: nat) {
    position < b * 4096 + 4096 && b * 4096 < position + count
  }

  class BlockCache {
    const disk: Bytes
    const broken: set<nat>
    const data: array<Byte>
    var links: Memory
    var list: BlList
    var block: map<Addr, nat>
    var place: map<Addr, nat>
    var used: nat
    ghost var order: seq<Addr>
    ghost var history: seq<nat>

    /** The cached blocks are the most recently used ones, most recent first, and their buffers are
        distinct and agree with the disk. */
    ghost predicate Valid()
      reads this, data
    {
      && data.Length == COUNT * BLOCK && |disk| % 512 == 0
      && IsList(links, list, order) && |order| == used <= COUNT
      && EntriesOk(order, used, block, place, data[..], disk)
      && BlocksOf(block, order) == First(Recent(history), COUNT)
    }

    constructor (disk: Bytes, broken: set<nat>)
      requires |disk| % 512 == 0
      ensures Valid() && history == [] && this.disk == disk && this.broken == broken && fresh(data)
    {
      this.disk, this.broken := disk, broken;
      data := new Byte[COUNT * BLOCK];
      links, list, block, place, used := map[], EMPTY, map[], map[], 0;
      order, history := [], [];
    }

    /** BxReadFromDisk succeeds: the sectors exist and can be read. */
    predicate Readable(sector: nat, count: nat) {
      && sector + count < WRAP && sector <= |disk| / 512
      && forall s | sector <= s < sector + count && s < |disk| / 512 :: s !in broken
    }

    /** What a read needs in order not to crash: whole sectors around the cache, and a disk that can be read. */
    ghost predicate Served(position: nat, count: nat, bypassCache: bool) {
      && (bypassCache ==> position % 512 == 0 && count % 512 == 0)
      && position + count <= |disk| && broken == {} && |disk| / 512 + 8 < WRAP
    }

    /** BxReadFromDisk: reads up to the end of the disk. */
    method ReadSectors(out: array<Byte>, at: nat, sector: nat, count: nat) returns (ok: bool)
      requires at + count * 512 <= out.Length && |disk| % 512 == 0
      modifies out
      ensures ok == Readable(sector, count)
      ensures ok ==> Shows(out[..], at, disk, sector * 512, count * 512)
      ensures Only(old(out[..]), out[..], at, at + count * 512)
    {
      ok := Readable(sector, count);
      if !ok {
        return;
      }
      var end := if sector + count > |disk| / 512 then |disk| / 512 else sector + count;
      ghost var before := out[..];
      CopyMemory(out, at, disk[sector * 512..end * 512]);
      OnlyWider(before, out[..], at, at + (end - sector) * 512, at, at + count * 512);
      ShowsRead(disk, out[..], at, sector * 512, end * 512, count * 512);
    }

    /** Looks for a block in the list. */
    method Find(b: nat) returns (entry: Addr, ghost k: nat)
      requires Valid()
      ensures entry == 0 ==> !Within(BlocksOf(block, order), b)
      ensures entry != 0 ==> k < |order| && entry == order[k] && BlocksOf(block, order)[k] == b
    {
      entry, k := list.head, 0;
      while entry != 0
        invariant k <= |order| && entry == At(order, k)
        invariant forall j {:trigger IsAt(BlocksOf(block, order), j, b)} | 0 <= j < k ::
                    !IsAt(BlocksOf(block, order), j, b)
        decreases |order| - k
      {
        assert EntryOk(order[k], used, block, place, data[..], disk) && Linked(links, order, k);
        if block[entry] == b {
          return;
        }
        entry, k := Load(links, entry + NEXT), k + 1;
      }
      NullAtEnd(order, k);
    }

    /** A hit: the entry moves to the front. */
    method MoveToFront(entry: Addr, ghost k: nat)
      requires Valid() && k < |order| && entry == order[k]
      modifies this
      ensures Valid() && order == [entry] + Removed(old(order), k)
      ensures history == old(history) + [BlocksOf(old(block), old(order))[k]]
    {
      ghost var b, rest := BlocksOf(block, order)[k], Removed(order, k);
      ghost var front, later := [entry] + rest, history + [b];
      CanReturn(order, k);
      FrontEntries(order, k, used, block, place, data[..], disk);
      HitRecent(block, order, history, k, b, front, later);
      links, list := Remove(links, list, entry, order, k);
      links, list := InsertAfter(links, list, 0, entry, rest, 0);
      assert Inserted(rest, 0, entry) == front;
      order, history := front, later;
    }

    /** An entry for a block that is not cached: an unused one, or the one used least recently. */
    method Claim() returns (entry: Addr, ghost rest: seq<Addr>)
      requires Valid()
      modifies `links, `list, `used, `place
      ensures IsList(links, list, rest) && |rest| + 1 == used <= COUNT && CanInsert(rest, entry)
      ensures EntriesOk(rest, used, block, place, data[..], disk)
      ensures MetaOk(entry, used) && entry in place && place[entry] == PlaceOf(entry)
      ensures forall j | 0 <= j < |rest| :: rest[j] != entry
      ensures BlocksOf(block, rest) ==
              if |order| < COUNT then BlocksOf(block, order) else BlocksOf(block, order)[..COUNT - 1]
    {
      if used < COUNT {
        entry, rest := MetaAt(used), order;
        CanClaim(order, used, block, place, data[..], disk);
        ClaimedEntries(order, used, block, place, data[..], disk, entry);
        MetaFacts(used);
        place := place[entry := used * 4096];
        used := used + 1;
      } else {
        ghost var last := |order| - 1;
        entry, rest := list.tail, Removed(order, last);
        assert EntryOk(order[last], used, block, place, data[..], disk);
        CanReturn(order, last);
        RemovedEntries(order, last, used, block, place, data[..], disk);
        links, list := Remove(links, list, entry, order, last);
      }
    }

    /** Reads a block into a claimed entry and puts the entry in front. */
    method Fill(entry: Addr, b: nat, ghost rest: seq<Addr>) returns (crashed: bool)
      requires data.Length == COUNT * BLOCK && |disk| % 512 == 0
      requires IsList(links, list, rest) && |rest| + 1 == used <= COUNT && CanInsert(rest, entry)
      requires EntriesOk(rest, used, block, place, data[..], disk)
      requires MetaOk(entry, used) && entry in place && place[entry] == PlaceOf(entry)
      requires forall j | 0 <= j < |rest| :: rest[j] != entry
      requires [b] + BlocksOf(block, rest) == First(Recent(history + [b]), COUNT)
      modifies this, data
      ensures crashed <==> !Readable(b * 8, 8)
      ensures !crashed ==> Valid() && history == old(history) + [b] && order == [entry] + rest
    {
      PlaceBound(entry, used);
      ghost var before := data[..];
      var ok := ReadSectors(data, place[entry], b * 8, 8);
      if !ok {
        return true;
      }
      EntriesKept(rest, used, used, block, place, before, disk, entry, b, data[..]);
      assert place[entry := PlaceOf(entry)] == place;
      block := block[entry := b];
      links, list := InsertAfter(links, list, 0, entry, rest, 0);
      assert Inserted(rest, 0, entry) == [entry] + rest;
      order, history := [entry] + rest, history + [b];
      return false;
    }

    /** BiGetBCacheEntry: the place of a buffer that agrees with the block on disk. */
    method GetEntry(b: nat) returns (at: nat, crashed: bool)
      requires Valid()
      modifies this, data
      ensures crashed <==> !Within(old(BlocksOf(block, order)), b) && !Readable(b * 8, 8)
      ensures !crashed ==> Valid() && history == old(history) + [b]
      ensures !crashed ==> BlocksOf(block, order) == First(Recent(history), 16)
      ensures !crashed ==> at + BLOCK <= data.Length && Shows(data[..], at, disk, b * 4096, BLOCK)
    {
      var entry;
      ghost var k, rest;
      entry, k := Find(b);
      if entry != 0 {
        assert IsAt(BlocksOf(block, order), k, b);
        MoveToFront(entry, k);
        crashed := false;
      } else {
        RecentDifferent(history);
        UseMiss(Recent(history), COUNT, b);
        RecentNext(history, b);
        entry, rest := Claim();
        crashed := Fill(entry, b, rest);
        if crashed {
          return 0, true;
        }
      }
      assert EntryOk(order[0], used, block, place, data[..], disk);
      PlaceBound(entry, used);
      at := place[entry];
      Front(block, order, history, b);
    }

    /** The cached path of BiReadFromDisk, block by block. */
    method ReadCached(out: array<Byte>, at: nat, position: nat, count: nat) returns (crashed: bool)
      requires Valid() && out != data && at + count <= out.Length
      modifies this, data, out
      ensures crashed ==> exists b: nat {:trigger Touches(position, count, b)} :: Touches(position, count, b) && !Readable(b * 8, 8)
      ensures Only(old(out[..]), out[..], at, at + count)
      ensures !crashed ==> Valid() && history == old(history) + Touched(position, count)
      ensures !crashed ==> Shows(out[..], at, disk, position, count)
    {
      var done := 0;
      ghost var before, past := out[..], history;
      assert past + [] == past;
      while done < count
        invariant done <= count && Valid() && Only(before, out[..], at, at + count)
        invariant ReadSoFar(past, history, position, count, done)
        invariant Shows(out[..], at, disk, position, done)
        decreases count - done
      {
        var here, pos, step := at + done, position + done, 0;
        ghost var mid := out[..];
        step, crashed := ReadPart(out, here, pos, count - done);
        OnlyWider(mid, out[..], here, here + step, at, at + count);
        OnlyTrans(before, mid, out[..], at, at + count);
        if crashed {
          assert Touches(position, count, pos / 4096);
          return;
        }
        ShowsKept(mid, out[..], at, disk, position, done, here, here + step);
        ShowsJoin(out[..], at, disk, position, done, here, pos, step, done + step);
        ReadOne(past, history, position, count, done, step);
        done := done + step;
      }
      ReadAll(past, history, position, count);
      crashed := false;
    }

    /** One round of the loop: what one block holds of the rest. */
    method ReadPart(out: array<Byte>, at: nat, position: nat, count: nat) returns (step: nat, crashed: bool)
      requires Valid() && out != data && 0 < count && at + count <= out.Length
      modifies this, data, out
      ensures crashed ==> !Readable(position / 4096 * 8, 8) && out[..] == old(out[..])
      ensures step == StepOf(position, count) && Only(old(out[..]), out[..], at, at + step)
      ensures !crashed ==> Valid() && history == old(history) + [position / 4096]
      ensures !crashed ==> Shows(out[..], at, disk, position, step)
    {
      var b, offset := position / 4096, position % 4096;
      step := StepOf(position, count);
      ghost var before := out[..];
      var place;
      place, crashed := GetEntry(b);
      if !crashed {
        CopyMemory(out, at, data[place + offset..place + offset + step]);
        ShowsCopied(data[..], place, disk, b * 4096, offset, step, out[..], at, position);
      }
    }

    /** BiReadFromDisk. Around the cache, position and count must be whole sectors. */
    method ReadFromDisk(out: array<Byte>, at: nat, position: nat, count: nat, bypassCache: bool) returns (crashed: bool)
      requires Valid() && out != data && at + count <= out.Length
      modifies this, data, out
      ensures Only(old(out[..]), out[..], at, at + count)
      ensures bypassCache && (position % 512 != 0 || count % 512 != 0) ==> crashed
      ensures crashed ==> !Served(position, count, bypassCache)
      ensures !crashed ==> Valid() && Shows(out[..], at, disk, position, count)
      ensures !crashed ==> history == old(history) + if bypassCache then [] else Touched(position, count)
    {
      if bypassCache {
        if position % 512 != 0 || count % 512 != 0 {
          return true;
        }
        var ok := ReadSectors(out, at, position / 512, count / 512);
        crashed := !ok;
      } else {
        crashed := ReadCached(out, at, position, count);
        if crashed {
          ghost var b: nat :| Touches(position, count, b) && !Readable(b * 8, 8);
          assert position + count <= |disk| ==> b * 8 <= |disk| / 512;
        }
      }
    }
  }

  lemma {:induction false} RecentNext(h: seq<nat>, b: nat)
    ensures Recent(h + [b]) == Touch(Recent(h), b)
  {
    assert (h + [b])[..|h|] == h;
  }

  /** A hit moves the block to the front, in the list and among the recent ones. */
  lemma {:induction false} HitRecent(block: map<Addr, nat>, order: seq<Addr>, history: seq<nat>, k: nat, b: nat,
                                     front: seq<Addr>, later: seq<nat>)
    requires k < |order| && BlocksOf(block, order) == First(Recent(history), COUNT) && b == BlocksOf(block, order)[k]
    requires BlocksOf(block, front) == [b] + BlocksOf(block, order)[..k] + BlocksOf(block, order)[k + 1..]
    requires later == history + [b]
    ensures BlocksOf(block, front) == First(Recent(later), COUNT)
  {
    RecentDifferent(history);
    UseHit(Recent(history), COUNT, k);
    RecentNext(history, b);
  }

  lemma {:induction false} FrontEntries(order: seq<Addr>, k: nat, used: nat, block: map<Addr, nat>, place: map<Addr, nat>,
                                        data: Bytes, disk: Bytes)
    requires EntriesOk(order, used, block, place, data, disk) && k < |order|
    ensures EntriesOk([order[k]] + Removed(order, k), used, block, place, data, disk)
    ensures var bs := BlocksOf(block, order);
            BlocksOf(block, [order[k]] + Removed(order, k)) == [bs[k]] + bs[..k] + bs[k + 1..]
  {
    var r := [order[k]] + Removed(order, k);
    forall j | 0 <= j < |r| ensures EntryOk(r[j], used, block, place, data, disk) {
      assert EntryOk(order[if j == 0 then k else if j <= k then j - 1 else j], used, block, place, data, disk);
    }
  }

  lemma {:induction false} ClaimedEntries(order: seq<Addr>, used: nat, block: map<Addr, nat>, place: map<Addr, nat>,
                                          data: Bytes, disk: Bytes, a: Addr)
    requires EntriesOk(order, used, block, place, data, disk) && forall j | 0 <= j < |order| :: order[j] != a
    requires a == MetaAt(used)
    ensures EntriesOk(order, used + 1, block, place[a := used * 4096], data, disk)
  {
    var place' := place[a := used * 4096];
    forall j | 0 <= j < |order| ensures EntryOk(order[j], used + 1, block, place', data, disk) {
      assert EntryOk(order[j], used, block, place, data, disk);
    }
  }

  /** The block used last is in front. */
  lemma {:induction false} Front(block: map<Addr, nat>, order: seq<Addr>, history: seq<nat>, b: nat)
    requires order != [] && history != [] && history[|history| - 1] == b
    requires BlocksOf(block, order) == First(Recent(history), COUNT)
    ensures BlockAt(block, order[0]) == b
  {
    assert BlocksOf(block, order)[0] == BlockAt(block, order[0]);
  }

  lemma {:induction false} WholeSectors(start: nat, position: nat, where: nat)
    requires start % 512 == 0 && where == start + position
    ensures where % 512 == position % 512
  {
  }

  lemma {:induction false} SliceOfSlice(disk: Bytes, start: nat, size: nat, position: nat, count: nat, where: nat)
    requires start + size <= |disk| && position + count <= size && where == start + position
    ensures disk[start..start + size][position..position + count] == disk[where..where + count]
  {
    var a, b := disk[start..start + size], disk[where..where + count];
    forall k | 0 <= k < count ensures a[position..position + count][k] == b[k] {
      assert a[position + k] == disk[start + (position + k)];
    }
  }

  /** `struct BlPartition`: a window of the disk. */
  class Partition {
    const cache: BlockCache
    const start: nat
    const size: nat

    ghost predicate Valid()
      reads cache, cache.data
    {
      cache.Valid() && start + size <= |cache.disk| && start + size < WRAP && start % 512 == 0
    }

    /** Every sector of the disk can be read, and sector numbers do not wrap. */
    ghost predicate Healthy() {
      cache.broken == {} && |cache.disk| / 512 + 8 < WRAP
    }

    /** The bytes of the partition. */
    ghost function Contents(): (r: Bytes)
      requires start + size <= |cache.disk|
      ensures |r| == size
    {
      cache.disk[start..start + size]
    }

    constructor (cache: BlockCache, start: nat, size: nat)
      requires cache.Valid() && start + size <= |cache.disk| && start + size < WRAP && start % 512 == 0
      ensures Valid() && this.cache == cache && this.start == start && this.size == size
    {
      this.cache, this.start, this.size := cache, start, size;
    }

    /** BlReadFromPartition: crashes beyond the bounds, even where the end wraps around 64 bits. */
    method Read(out: array<Byte>, at: nat, position: nat, count: nat, bypassCache: bool) returns (crashed: bool)
      requires Valid() && out != cache.data && at + count <= out.Length
      requires position < WRAP && count < 0x1_0000_0000
      modifies cache, cache.data, out
      ensures Only(old(out[..]), out[..], at, at + count)
      ensures position + count > size ==> crashed
      ensures crashed ==> position + count > size || !Healthy() || (bypassCache && (position % 512 != 0 || count % 512 != 0))
      ensures bypassCache && (position % 512 != 0 || count % 512 != 0) ==> crashed
      ensures !crashed ==> Valid() && position + count <= size && Occurs(out[..], at, Contents()[position..position + count])
      ensures !crashed && bypassCache ==> cache.history == old(cache.history)
    {
      var end := if position + count < WRAP then position + count else position + count - WRAP;
      if end < position || end > size {
        return true;
      }
      var where := start + position;
      WholeSectors(start, position, where);
      crashed := cache.ReadFromDisk(out, at, where, count, bypassCache);
      if !crashed {
        ShowsInside(out[..], at, cache.disk, where, count);
        SliceOfSlice(cache.disk, start, size, position, count, where);
      }
    }
  }

  /** Where both paths succeed, reading through the cache and around it deliver the same bytes. */
  lemma {:induction false} PathsAgree(disk: Bytes, cached: Bytes, direct: Bytes, at: nat, position: nat, count: nat)
    requires Shows(cached, at, disk, position, count) && Shows(direct, at, disk, position, count)
    requires position + count <= |disk|
    ensures cached[at..at + count] == direct[at..at + count]
  {
    ShowsInside(cached, at, disk, position, count);
    ShowsInside(direct, at, disk, position, count);
  }
}
