/** Every run of legal heap requests keeps the heap invariant. */
module HeapSafety {
  import opened Basics
  import opened Lists
  import opened HeapSpec

  // ----- counting over concatenations -----

  lemma {:induction false} HitsConcat(xs: seq<Range>, ys: seq<Range>, a: Addr)
    ensures Hits(xs + ys, a) == Hits(xs, a) + Hits(ys, a)
  {
    if xs == [] {
      assert xs + ys == ys;
    } else {
      assert (xs + ys)[1..] == xs[1..] + ys;
      HitsConcat(xs[1..], ys, a);
    }
  }

  lemma {:induction false} CarvedHitsConcat(xs: seq<Carved>, ys: seq<Carved>, a: Addr)
    ensures CarvedHits(xs + ys, a) == CarvedHits(xs, a) + CarvedHits(ys, a)
  {
    if xs == [] {
      assert xs + ys == ys;
    } else {
      assert (xs + ys)[1..] == xs[1..] + ys;
      CarvedHitsConcat(xs[1..], ys, a);
    }
  }

  lemma {:induction false} Associates<T>(a: seq<T>, b: seq<T>, c: seq<T>)
    ensures (a + b) + c == a + (b + c)
  {
  }

  lemma {:induction false} FreeBasesStep(rs: seq<Range>, rest: seq<Range>)
    requires rs != [] && rest == rs[1..]
    ensures FreeBases(rs) == (if rs[0].free then [rs[0].base] else []) + FreeBases(rest)
  {
  }

  lemma {:induction false} FreeBasesConcat(xs: seq<Range>, ys: seq<Range>)
    ensures FreeBases(xs + ys) == FreeBases(xs) + FreeBases(ys)
  {
    var zs := xs + ys;
    if xs == [] {
      assert zs == ys;
    } else {
      var rest, more := xs[1..], zs[1..];
      assert zs[0] == xs[0] && more == rest + ys;
      FreeBasesConcat(rest, ys);
      FreeBasesStep(xs, rest);
      FreeBasesStep(zs, more);
      Associates(if xs[0].free then [xs[0].base] else [], FreeBases(rest), FreeBases(ys));
    }
  }

  lemma {:induction false} SpliceHits(rs: seq<Range>, p: nat, q: nat, mid: seq<Range>, a: Addr)
    requires p <= q <= |rs|
    ensures Hits(Splice(rs, p, q, mid), a) + Hits(rs[p..q], a) == Hits(rs, a) + Hits(mid, a)
  {
    HitsConcat(rs[..p] + mid, rs[q..], a);
    HitsConcat(rs[..p], mid, a);
    HitsConcat(rs[..p] + rs[p..q], rs[q..], a);
    HitsConcat(rs[..p], rs[p..q], a);
    assert rs == rs[..p] + rs[p..q] + rs[q..];
  }

  lemma {:induction false} ThreeParts(a: seq<Range>, b: seq<Range>, c: seq<Range>, whole: seq<Range>)
    requires whole == a + b + c
    ensures multiset(FreeBases(whole)) == multiset(FreeBases(a)) + multiset(FreeBases(b)) + multiset(FreeBases(c))
  {
    FreeBasesConcat(a + b, c);
    FreeBasesConcat(a, b);
    BasesOfThree(FreeBases(a), FreeBases(b), FreeBases(c), FreeBases(whole));
  }

  lemma {:induction false} BasesOfThree(a: seq<Addr>, b: seq<Addr>, c: seq<Addr>, whole: seq<Addr>)
    requires whole == (a + b) + c
    ensures multiset(whole) == multiset(a) + multiset(b) + multiset(c)
  {
  }

  lemma {:induction false} SpliceFree(rs: seq<Range>, p: nat, q: nat, mid: seq<Range>)
    requires p <= q <= |rs|
    ensures multiset(FreeBases(Splice(rs, p, q, mid))) + multiset(FreeBases(rs[p..q]))
         == multiset(FreeBases(rs)) + multiset(FreeBases(mid))
  {
    var a, b, c := rs[..p], rs[p..q], rs[q..];
    assert rs == a + b + c;
    ThreeParts(a, mid, c, Splice(rs, p, q, mid));
    ThreeParts(a, b, c, rs);
  }

  /** Replacing a stretch of the chain by a chain that fits between its neighbours gives a chain. */
  lemma {:induction false} ChainSplice(rs: seq<Range>, p: nat, q: nat, mid: seq<Range>)
    requires Chain(rs) && p <= q <= |rs| && Chain(mid)
    requires p > 0 ==> forall i | 0 <= i < |mid| :: Before(rs[p - 1], mid[i])
    requires q < |rs| ==> forall i | 0 <= i < |mid| :: Before(mid[i], rs[q])
    ensures Chain(Splice(rs, p, q, mid))
  {
    var r := Splice(rs, p, q, mid);
    var e := p + |mid|;
    forall i | 0 <= i < |r| ensures RangeOk(r[i]) {
      assert r[i] == if i < p then rs[i] else if i < e then mid[i - p] else rs[i - e + q];
    }
    forall i, j | 0 <= i < j < |r| ensures Before(r[i], r[j]) {
      BeforeSplice(rs, p, q, mid, i, j);
    }
  }

  lemma {:induction false} BeforeSplice(rs: seq<Range>, p: nat, q: nat, mid: seq<Range>, i: nat, j: nat)
    requires Chain(rs) && p <= q <= |rs| && Chain(mid)
    requires p > 0 ==> forall i | 0 <= i < |mid| :: Before(rs[p - 1], mid[i])
    requires q < |rs| ==> forall i | 0 <= i < |mid| :: Before(mid[i], rs[q])
    requires i < j < |Splice(rs, p, q, mid)|
    ensures Before(Splice(rs, p, q, mid)[i], Splice(rs, p, q, mid)[j])
  {
    var r := Splice(rs, p, q, mid);
    var e := p + |mid|;
    assert r[i] == if i < p then rs[i] else if i < e then mid[i - p] else rs[i - e + q];
    assert r[j] == if j < p then rs[j] else if j < e then mid[j - p] else rs[j - e + q];
    if i < p <= j < e {
      assert i == p - 1 || (Before(rs[i], rs[p - 1]) && RangeOk(rs[p - 1]));
    } else if p <= i < e <= j {
      assert j == e || (Before(rs[q], rs[j - e + q]) && RangeOk(rs[q]));
    }
  }

  lemma {:induction false} IndexOfChain(rs: seq<Range>, k: nat)
    requires Chain(rs) && k < |rs|
    ensures IndexOf(rs, rs[k].base) == k
  {
    forall i | 0 <= i < k ensures rs[i].base != rs[k].base {
      assert Before(rs[i], rs[k]) && RangeOk(rs[i]);
    }
  }

  /** Whatever is on the free list is the header of a free range. */
  lemma {:induction false} FreeBaseIsFree(rs: seq<Range>, a: Addr)
    requires Chain(rs) && a in FreeBases(rs)
    ensures IndexOf(rs, a) < |rs| && rs[IndexOf(rs, a)].free
  {
    if rs[0].free && rs[0].base == a {
    } else {
      assert Chain(rs[1..]);
      FreeBaseIsFree(rs[1..], a);
      var k := IndexOf(rs[1..], a);
      assert rs[1..][k] == rs[k + 1];
      IndexOfChain(rs, k + 1);
    }
  }

  lemma {:induction false} FreeIsFreeBase(rs: seq<Range>, k: nat)
    requires k < |rs| && rs[k].free
    ensures rs[k].base in FreeBases(rs)
  {
    if k > 0 {
      FreeIsFreeBase(rs[1..], k - 1);
    }
  }

  // ----- placing a request -----

  lemma {:induction false} ProductMod(q: nat, y: nat)
    requires y > 0
    ensures (y * q) % y == 0
  {
    QuotientIs(y * q, y, q, 0);
  }

  lemma {:induction false} AlignDownFacts(x: nat, y: nat)
    requires IsPow2(y)
    ensures AlignedTo(AlignDown(x, y), y) && AlignDown(x, y) <= x < AlignDown(x, y) + y
  {
    if y > 1 {
      AlignDownFacts(x / 2, y / 2);
    }
  }

  lemma {:induction false} AlignedToFour(x: nat, y: nat)
    requires IsPow2(y) && y >= 4 && AlignedTo(x, y)
    ensures Aligned(x)
  {
    assert AlignedTo(x / 2, y / 2);
  }

  /** Clear low bits are divisibility. */
  lemma {:induction false} AlignedToIsMultiple(x: nat, y: nat)
    requires IsPow2(y) && AlignedTo(x, y)
    ensures x % y == 0
  {
    if y > 1 {
      AlignedToIsMultiple(x / 2, y / 2);
      DoubledMultiple(x / 2, y / 2);
    }
  }

  lemma {:induction false} DoubledMultiple(x: nat, y: nat)
    requires y > 0 && x % y == 0
    ensures (2 * x) % (2 * y) == 0
  {
    var q := x / y;
    assert x == y * q;
    assert 2 * x == (2 * y) * q;
    ProductMod(q, 2 * y);
  }

  lemma {:induction false} AlignDownSmall(x: nat, y: nat)
    requires IsPow2(y) && x < y
    ensures AlignDown(x, y) == 0
  {
    if y > 1 {
      AlignDownSmall(x / 2, y / 2);
    }
  }

  /** BL_ALIGN_UP either rounds up or wraps all the way to zero. */
  lemma {:induction false} AlignUpFacts(x: nat, y: nat)
    requires IsPow2(y) && y < WORD32 && x < WORD32
    ensures AlignUp(x, y) == 0 || (x <= AlignUp(x, y) < x + y && AlignedTo(AlignUp(x, y), y))
    ensures AlignUp(x, y) < WORD32
  {
    var z := W32(x + y - 1);
    if x + y - 1 < WORD32 {
      AlignDownFacts(z, y);
    } else {
      assert z == x + y - 1 - WORD32;
      AlignDownSmall(z, y);
    }
  }

  /** What makes a placement in the range `r` sound, with at least one byte to spare behind it. */
  predicate Placed(r: Range, f: Fit) {
    && f.Fit? && r.base <= f.allocBase && f.allocBase + ALIGNMENT <= f.allocEnd < r.end
    && Aligned(f.allocBase) && Aligned(f.allocEnd)
  }

  /** The size of a request after BL_ALIGN_UP, small enough for the sums of the loop. */
  predicate NeedOk(need: nat) {
    Aligned(need) && 0 < need <= WORD32 - 28
  }

  lemma {:induction false} FitAtSound(r: Range, valueBase: Addr, need: nat, permanent: bool)
    requires RangeOk(r) && NeedOk(need)
    requires valueBase == 0 || r.base + HeadExtra(permanent) <= valueBase < WORD32
    requires Aligned(valueBase)
    requires FitAt(r, valueBase, need, HeadExtra(permanent)).Fit?
    ensures var f := FitAt(r, valueBase, need, HeadExtra(permanent));
            && Placed(r, f) && f.valueBase == valueBase == f.allocBase + HeadExtra(permanent)
            && f.allocEnd == f.valueBase + need && valueBase != 0
  {
  }

  /** The unchecked 32-bit sums of the allocation loop are harmless: a range is taken only when the
      aligned block really lies inside it. */
  lemma {:induction false} TryFitSound(r: Range, need: nat, alignment: nat, permanent: bool)
    requires RangeOk(r) && NeedOk(need) && AlignmentOk(alignment) && alignment >= ALIGNMENT
    requires TryFit(r, need, alignment, HeadExtra(permanent)).Fit?
    ensures var f := TryFit(r, need, alignment, HeadExtra(permanent));
            && Placed(r, f) && f.valueBase == f.allocBase + HeadExtra(permanent)
            && f.allocEnd == f.valueBase + need && AlignedTo(f.valueBase, alignment)
  {
    var x := r.base + HeadExtra(permanent);
    assert W32(x) == x;
    AlignUpFacts(x, alignment);
    if AlignUp(x, alignment) != 0 {
      AlignedToFour(AlignUp(x, alignment), alignment);
    }
    FitAtSound(r, AlignUp(x, alignment), need, permanent);
  }

  // ----- every operation replaces a stretch of the chain -----

  lemma {:induction false} MultisetCancel(x: multiset<Addr>, y: multiset<Addr>, b: multiset<Addr>)
    requires x + b == y + b
    ensures x == y
  {
    assert x == (x + b) - b;
    assert y == (y + b) - b;
  }

  function Owned(donated: set<Addr>, a: Addr): nat {
    if a in donated then 1 else 0
  }

  ghost predicate FitsBetween(rs: seq<Range>, p: nat, q: nat, mid: seq<Range>)
    requires p <= q <= |rs|
  {
    && (p > 0 ==> forall i | 0 <= i < |mid| :: Before(rs[p - 1], mid[i]))
    && (q < |rs| ==> forall i | 0 <= i < |mid| :: Before(mid[i], rs[q]))
  }

  /** The pieces account for the bytes of the stretch they replace and for newly donated ones. */
  ghost predicate Accounted(s: State, p: nat, q: nat, mid: seq<Range>, cut: seq<Carved>, donated: set<Addr>)
    requires p <= q <= |s.ranges|
  {
    forall a: Addr :: Hits(mid, a) + CarvedHits(cut, a) + Owned(s.donated, a)
                   == Hits(s.ranges[p..q], a) + Owned(donated, a)
  }

  lemma {:induction false} SpliceConserves(s: State, p: nat, q: nat, mid: seq<Range>, s': State, cut: seq<Carved>)
    requires Conserved(s) && p <= q <= |s.ranges|
    requires s'.ranges == Splice(s.ranges, p, q, mid) && s'.carved == s.carved + cut
    requires Accounted(s, p, q, mid, cut, s'.donated)
    ensures Conserved(s')
  {
    forall a: Addr
      ensures Hits(s'.ranges, a) + CarvedHits(s'.carved, a) == (if a in s'.donated then 1 else 0)
    {
      SpliceHits(s.ranges, p, q, mid, a);
      CarvedHitsConcat(s.carved, cut, a);
      assert Hits(s.ranges, a) + CarvedHits(s.carved, a) == Owned(s.donated, a);
      assert Hits(mid, a) + CarvedHits(cut, a) + Owned(s.donated, a)
          == Hits(s.ranges[p..q], a) + Owned(s'.donated, a);
    }
  }

  lemma {:induction false} SpliceInv(s: State, p: nat, q: nat, mid: seq<Range>, s': State, cut: seq<Carved>)
    requires Inv(s) && p <= q <= |s.ranges|
    requires s'.ranges == Splice(s.ranges, p, q, mid) && s'.carved == s.carved + cut
    requires Chain(mid) && FitsBetween(s.ranges, p, q, mid)
    requires multiset(s'.free) + multiset(FreeBases(s.ranges[p..q]))
          == multiset(s.free) + multiset(FreeBases(mid))
    requires forall i | 0 <= i < |cut| :: CarvedOk(cut[i])
    requires Accounted(s, p, q, mid, cut, s'.donated)
    ensures Inv(s')
  {
    ChainSplice(s.ranges, p, q, mid);
    SpliceFree(s.ranges, p, q, mid);
    MultisetCancel(multiset(s'.free), multiset(FreeBases(s'.ranges)), multiset(FreeBases(s.ranges[p..q])));
    SpliceConserves(s, p, q, mid, s', cut);
  }

  lemma {:induction false} HitsOne(r: Range, a: Addr)
    ensures Hits([r], a) == Hit(r.base, r.end, a)
  {
  }

  lemma {:induction false} OneRange(rs: seq<Range>, k: nat)
    requires k < |rs|
    ensures rs[k..k + 1] == [rs[k]]
  {
  }

  // ----- allocation -----

  lemma {:induction false} CutHits(r: Range, f: Fit, permanent: bool, a: Addr)
    requires RangeOk(r) && Placed(r, f)
    ensures Hits(Pieces(r, f, permanent), a) + CarvedHits(NewCarved(r, f, permanent), a)
         == Hit(r.base, r.end, a)
  {
    HitsConcat(Front(r, f) + Block(r, f, permanent), Back(r, f), a);
    HitsConcat(Front(r, f), Block(r, f, permanent), a);
    CarvedHitsConcat(if 0 < f.allocBase - r.base < HEADER then [Carved(r.base, f.allocBase, true)] else [],
                     if permanent then [Carved(f.allocBase, BlockEnd(r, f), false)] else [], a);
  }

  lemma {:induction false} CutChain(r: Range, f: Fit, permanent: bool)
    requires RangeOk(r) && r.free && Placed(r, f) && (!permanent ==> f.allocBase + HEADER <= f.allocEnd)
    ensures Chain(Pieces(r, f, permanent))
  {
  }

  lemma {:induction false} CutFits(rs: seq<Range>, k: nat, f: Fit, permanent: bool)
    requires Chain(rs) && k < |rs| && rs[k].free && Placed(rs[k], f)
    ensures FitsBetween(rs, k, k + 1, Pieces(rs[k], f, permanent))
  {
    assert k > 0 ==> Before(rs[k - 1], rs[k]);
    assert k + 1 < |rs| ==> Before(rs[k], rs[k + 1]);
  }

  lemma {:induction false} OneFreeBase(r: Range)
    ensures FreeBases([r]) == if r.free then [r.base] else []
  {
  }

  lemma {:induction false} CutFreeBases(r: Range, f: Fit, permanent: bool)
    requires f.Fit?
    ensures FreeBases(Pieces(r, f, permanent)) == FreeBases(Front(r, f)) + FreeBases(Back(r, f))
  {
    FreeBasesConcat(Front(r, f) + Block(r, f, permanent), Back(r, f));
    FreeBasesConcat(Front(r, f), Block(r, f, permanent));
    OneFreeBase(Range(f.allocBase, BlockEnd(r, f), false));
  }

  lemma {:induction false} ReplaceOne(xs: seq<Addr>, j: nat, ys: seq<Addr>, zs: seq<Addr>)
    requires j < |xs|
    ensures multiset(xs[..j] + ys + zs + xs[j + 1..]) + multiset{xs[j]} == multiset(xs) + multiset(ys + zs)
  {
    assert xs == xs[..j] + [xs[j]] + xs[j + 1..];
  }

  lemma {:induction false} CutFree(s: State, k: nat, j: nat, f: Fit, permanent: bool)
    requires k < |s.ranges| && j < |s.free| && f.Fit?
    requires s.ranges[k].free && s.free[j] == s.ranges[k].base
    ensures multiset(Cut(s, k, j, f, permanent).free) + multiset(FreeBases([s.ranges[k]]))
         == multiset(s.free) + multiset(FreeBases(Pieces(s.ranges[k], f, permanent)))
  {
    var r := s.ranges[k];
    CutFreeBases(r, f, permanent);
    OneFreeBase(r);
    ReplaceOne(s.free, j, FreeBases(Front(r, f)), FreeBases(Back(r, f)));
  }

  lemma {:induction false} CutAccounts(s: State, k: nat, next: nat, f: Fit, permanent: bool, mid: seq<Range>,
                                       carved: seq<Carved>)
    requires k < |s.ranges| && next == k + 1 && RangeOk(s.ranges[k]) && Placed(s.ranges[k], f)
    requires !permanent ==> f.allocBase + HEADER <= f.allocEnd
    requires mid == Pieces(s.ranges[k], f, permanent) && carved == NewCarved(s.ranges[k], f, permanent)
    ensures Accounted(s, k, next, mid, carved, s.donated)
  {
    OneRange(s.ranges, k);
    forall a: Addr ensures Hits(mid, a) + CarvedHits(carved, a) == Hits(s.ranges[k..next], a) {
      CutHits(s.ranges[k], f, permanent, a);
      HitsOne(s.ranges[k], a);
    }
  }

  lemma {:induction false} CutInv(s: State, k: nat, j: nat, f: Fit, permanent: bool)
    requires Inv(s) && k < |s.ranges| && j < |s.free|
    requires s.ranges[k].free && s.free[j] == s.ranges[k].base
    requires Placed(s.ranges[k], f) && (!permanent ==> f.allocBase + HEADER <= f.allocEnd)
    ensures Inv(Cut(s, k, j, f, permanent))
  {
    var r := s.ranges[k];
    var mid := Pieces(r, f, permanent);
    OneRange(s.ranges, k);
    CutChain(r, f, permanent);
    CutFits(s.ranges, k, f, permanent);
    CutFree(s, k, j, f, permanent);
    CutAccounts(s, k, k + 1, f, permanent, mid, NewCarved(r, f, permanent));
    SpliceInv(s, k, k + 1, mid, Cut(s, k, j, f, permanent), NewCarved(r, f, permanent));
  }

  // ----- freeing -----

  lemma {:induction false} TwoRanges(rs: seq<Range>, p: nat)
    requires p + 2 <= |rs|
    ensures rs[p..p + 2] == [rs[p]] + [rs[p + 1]]
  {
  }

  lemma {:induction false} ThreeRanges(rs: seq<Range>, p: nat)
    requires p + 3 <= |rs|
    ensures rs[p..p + 3] == [rs[p]] + [rs[p + 1]] + [rs[p + 2]]
  {
  }

  lemma {:induction false} HitsThree(x: Range, y: Range, z: Range, a: Addr)
    ensures Hits([x] + [y] + [z], a) == Hit(x.base, x.end, a) + Hit(y.base, y.end, a) + Hit(z.base, z.end, a)
    ensures Hits([x] + [y], a) == Hit(x.base, x.end, a) + Hit(y.base, y.end, a)
  {
    HitsConcat([x] + [y], [z], a);
    HitsConcat([x], [y], a);
  }

  lemma {:induction false} MergedHits(rs: seq<Range>, k: nat, a: Addr)
    requires Chain(rs) && k < |rs|
    ensures Hits([Merged(rs, k)], a) == Hits(rs[MergeStart(rs, k)..MergeEnd(rs, k)], a)
  {
    assert RangeOk(rs[k]) && RangeOk(rs[MergeStart(rs, k)]) && RangeOk(rs[MergeEnd(rs, k) - 1]);
    var p, q := MergeStart(rs, k), MergeEnd(rs, k);
    if q == p + 1 {
      OneRange(rs, p);
    } else if q == p + 2 {
      TwoRanges(rs, p);
      HitsThree(rs[p], rs[p + 1], rs[p], a);
    } else {
      ThreeRanges(rs, p);
      HitsThree(rs[p], rs[p + 1], rs[p + 2], a);
    }
  }

  lemma {:induction false} MergedFits(rs: seq<Range>, k: nat)
    requires Chain(rs) && k < |rs|
    ensures RangeOk(Merged(rs, k)) && FitsBetween(rs, MergeStart(rs, k), MergeEnd(rs, k), [Merged(rs, k)])
  {
    var p, q := MergeStart(rs, k), MergeEnd(rs, k);
    assert p > 0 ==> Before(rs[p - 1], rs[p]);
    assert q < |rs| ==> Before(rs[q - 1], rs[q]);
    assert p < k ==> Before(rs[p], rs[k]);
    assert k < q - 1 ==> Before(rs[k], rs[q - 1]);
    assert RangeOk(rs[p]) && RangeOk(rs[k]) && RangeOk(rs[q - 1]);
  }

  /** The free ranges among those a freed block merges with. */
  function MergedBases(rs: seq<Range>, k: nat): multiset<Addr>
    requires k < |rs|
  {
    (if MergesPrev(rs, k) then multiset{rs[k - 1].base} else multiset{}) +
    (if MergesNext(rs, k) then multiset{rs[k + 1].base} else multiset{})
  }

  lemma {:induction false} MergedBasesAre(rs: seq<Range>, k: nat)
    requires k < |rs| && !rs[k].free
    ensures multiset(FreeBases(rs[MergeStart(rs, k)..MergeEnd(rs, k)])) == MergedBases(rs, k)
  {
    var p, q := MergeStart(rs, k), MergeEnd(rs, k);
    FreeBasesAround(rs, p, k, q);
    OneFreeBase(rs[p]);
    OneFreeBase(rs[q - 1]);
    assert FreeBases([]) == [];
  }

  lemma {:induction false} FreeBasesAround(rs: seq<Range>, p: nat, k: nat, q: nat)
    requires p <= k < q <= |rs| && !rs[k].free && k <= p + 1 && q <= k + 2
    ensures FreeBases(rs[p..q]) == FreeBases(rs[p..k]) + FreeBases(rs[k + 1..q])
    ensures rs[p..k] == (if p < k then [rs[p]] else []) && rs[k + 1..q] == (if k + 1 < q then [rs[q - 1]] else [])
  {
    assert rs[p..q] == rs[p..k] + [rs[k]] + rs[k + 1..q];
    FreeBasesConcat(rs[p..k] + [rs[k]], rs[k + 1..q]);
    FreeBasesConcat(rs[p..k], [rs[k]]);
    OneFreeBase(rs[k]);
  }

  lemma {:induction false} MergedFree(s: State, k: nat)
    requires Inv(s) && k < |s.ranges| && !s.ranges[k].free
    ensures multiset(FreeRange(s, k).free) + MergedBases(s.ranges, k)
         == multiset(s.free) + multiset{s.ranges[MergeStart(s.ranges, k)].base}
  {
    var rs := s.ranges;
    if MergesNext(rs, k) {
      WithoutFree(s, k + 1);
    }
  }

  lemma {:induction false} FreeRangeInv(s: State, k: nat)
    requires Inv(s) && k < |s.ranges| && !s.ranges[k].free
    ensures Inv(FreeRange(s, k))
  {
    var p, q := MergeStart(s.ranges, k), MergeEnd(s.ranges, k);
    var mid := [Merged(s.ranges, k)];
    MergedFits(s.ranges, k);
    MergedFree(s, k);
    MergedBasesAre(s.ranges, k);
    OneFreeBase(Merged(s.ranges, k));
    assert Accounted(s, p, q, mid, [], s.donated) by {
      forall a: Addr ensures Hits(mid, a) == Hits(s.ranges[p..q], a) {
        MergedHits(s.ranges, k, a);
      }
    }
    SpliceInv(s, p, q, mid, FreeRange(s, k), []);
  }

  // ----- resizing in place -----

  lemma {:induction false} WithoutFree(s: State, k: nat)
    requires Inv(s) && k < |s.ranges| && s.ranges[k].free
    ensures multiset(Without(s.free, s.ranges[k].base)) + multiset{s.ranges[k].base} == multiset(s.free)
  {
    FreeIsFreeBase(s.ranges, k);
    assert s.ranges[k].base in multiset(s.free);
    WithoutCount(s.free, s.ranges[k].base);
  }

  /** The block and the free range behind it, before growing to `newEnd`. */
  ghost predicate CanGrow(r: Range, next: Range, newEnd: Addr) {
    && RangeOk(r) && RangeOk(next) && !r.free && next.free && r.end == next.base
    && Aligned(newEnd) && r.end < newEnd <= next.end
  }

  lemma {:induction false} GrowHits(r: Range, next: Range, newEnd: Addr, a: Addr)
    requires CanGrow(r, next, newEnd)
    ensures Hits([Grown(r, next, newEnd)] + Rest(next, newEnd), a) == Hits([r] + [next], a)
  {
    HitsConcat([Grown(r, next, newEnd)], Rest(next, newEnd), a);
    HitsConcat([r], [next], a);
  }

  lemma {:induction false} GrowChain(r: Range, next: Range, newEnd: Addr)
    requires CanGrow(r, next, newEnd)
    ensures Chain([Grown(r, next, newEnd)] + Rest(next, newEnd))
  {
  }

  lemma {:induction false} GrowFits(rs: seq<Range>, k: nat, newEnd: Addr)
    requires Chain(rs) && k + 1 < |rs| && CanGrow(rs[k], rs[k + 1], newEnd)
    ensures FitsBetween(rs, k, k + 2, [Grown(rs[k], rs[k + 1], newEnd)] + Rest(rs[k + 1], newEnd))
  {
    assert k > 0 ==> Before(rs[k - 1], rs[k]);
    assert k + 2 < |rs| ==> Before(rs[k + 1], rs[k + 2]);
  }

  lemma {:induction false} GrowFree(r: Range, next: Range, newEnd: Addr)
    requires CanGrow(r, next, newEnd)
    ensures FreeBases([Grown(r, next, newEnd)] + Rest(next, newEnd)) == FreeBases(Rest(next, newEnd))
    ensures FreeBases([r] + [next]) == [next.base]
  {
    FreeBasesConcat([Grown(r, next, newEnd)], Rest(next, newEnd));
    FreeBasesConcat([r], [next]);
    OneFreeBase(Grown(r, next, newEnd));
    OneFreeBase(r);
    OneFreeBase(next);
  }

  lemma {:induction false} GrowInv(s: State, k: nat, newEnd: Addr)
    requires Inv(s) && k + 1 < |s.ranges| && CanGrow(s.ranges[k], s.ranges[k + 1], newEnd)
    ensures Inv(Grow(s, k, newEnd))
  {
    var r, next := s.ranges[k], s.ranges[k + 1];
    var mid := [Grown(r, next, newEnd)] + Rest(next, newEnd);
    WithoutFree(s, k + 1);
    TwoRanges(s.ranges, k);
    GrowChain(r, next, newEnd);
    GrowFits(s.ranges, k, newEnd);
    GrowFree(r, next, newEnd);
    assert Accounted(s, k, k + 2, mid, [], s.donated) by {
      forall a: Addr ensures Hits(mid, a) == Hits(s.ranges[k..k + 2], a) {
        GrowHits(r, next, newEnd, a);
      }
    }
    SpliceInv(s, k, k + 2, mid, Grow(s, k, newEnd), []);
  }

  /** A new end beyond the free range, wrapped or not, leaves a malformed range in the list. */
  lemma {:induction false} GrowTooFar(s: State, k: nat, newEnd: nat)
    requires Chain(s.ranges) && k + 1 < |s.ranges|
    requires s.ranges[k + 1].end < newEnd < WORD32 + s.ranges[k].base
    ensures !Inv(Grow(s, k, W32(newEnd)))
  {
    var r, next := s.ranges[k], s.ranges[k + 1];
    assert RangeOk(next) && RangeOk(r) && Before(r, next);
    var end := W32(newEnd);
    var rs := Grow(s, k, end).ranges;
    assert Rest(next, end) != [];
    assert rs[k] == r.(end := end) && rs[k + 1] == Range(end, next.end, true);
    assert !RangeOk(rs[k]) || !RangeOk(rs[k + 1]);
  }

  lemma {:induction false} GrowEnough(s: State, k: nat, newEnd: nat)
    requires Inv(s) && k < |s.ranges| && !s.ranges[k].free && MergesNext(s.ranges, k)
    requires Aligned(newEnd) && s.ranges[k].end < newEnd <= s.ranges[k + 1].end
    ensures Inv(Grow(s, k, W32(newEnd)))
  {
    assert RangeOk(s.ranges[k]) && RangeOk(s.ranges[k + 1]);
    assert W32(newEnd) == newEnd;
    GrowInv(s, k, newEnd);
  }

  /** Growing in place is right exactly when the free range behind the block is large enough. */
  lemma {:induction false} GrowExact(s: State, k: nat, newEnd: nat)
    requires Inv(s) && k < |s.ranges| && !s.ranges[k].free && MergesNext(s.ranges, k)
    requires Aligned(newEnd) && s.ranges[k].end < newEnd < WORD32 + s.ranges[k].base
    ensures Inv(Grow(s, k, W32(newEnd))) <==> newEnd <= s.ranges[k + 1].end
  {
    if newEnd <= s.ranges[k + 1].end {
      GrowEnough(s, k, newEnd);
    } else {
      GrowTooFar(s, k, newEnd);
    }
  }

  /** Shrinking in place is right exactly when less than a header is given up, so nothing changes. */
  lemma {:induction false} ShrinkExact(s: State, k: nat, extra: nat)
    requires Inv(s) && k < |s.ranges| && !s.ranges[k].free && extra <= s.ranges[k].end
    ensures Inv(Shrink(s, k, extra)) <==> extra < HEADER
  {
    var s' := Shrink(s, k, extra);
    if extra >= HEADER {
      assert s'.ranges[k + 1] == Range(s.ranges[k].end, s.ranges[k].end, true);
      assert !RangeOk(s'.ranges[k + 1]);
    }
  }

  // ----- donating memory -----

  lemma {:induction false} NoHits(rs: seq<Range>, a: Addr)
    requires forall i | 0 <= i < |rs| :: !(rs[i].base <= a < rs[i].end)
    ensures Hits(rs, a) == 0
  {
    if rs != [] {
      NoHits(rs[1..], a);
    }
  }

  /** The piece lies between its neighbours and merges with exactly the free ones it touches. */
  ghost predicate LiesAt(s: State, p: nat, base: Addr, end: Addr, mergePrev: bool, mergeNext: bool) {
    && p <= |s.ranges|
    && 0 < base < end < WORD32 && Aligned(base) && Aligned(end)
    && (p > 0 ==> s.ranges[p - 1].end <= base)
    && (p < |s.ranges| ==> end <= s.ranges[p].base)
    && (mergePrev <==> p > 0 && s.ranges[p - 1].free && s.ranges[p - 1].end == base)
    && (mergeNext <==> p < |s.ranges| && s.ranges[p].free && s.ranges[p].base == end)
  }

  ghost predicate CanDonate(s: State, p: nat, base: Addr, end: Addr, mergePrev: bool, mergeNext: bool) {
    LiesAt(s, p, base, end, mergePrev, mergeNext) && (mergePrev || mergeNext || end - base >= HEADER)
  }

  lemma {:induction false} DonateHits(s: State, p: nat, base: Addr, end: Addr, mergePrev: bool, mergeNext: bool, a: Addr)
    requires Chain(s.ranges) && CanDonate(s, p, base, end, mergePrev, mergeNext)
    ensures Hits([DonatedRange(s.ranges, p, base, end, mergePrev, mergeNext)], a) ==
            Hits(s.ranges[DonateStart(p, mergePrev)..DonateEnd(p, mergeNext)], a) + Hit(base, end, a)
  {
    var rs := s.ranges;
    assert p > 0 ==> RangeOk(rs[p - 1]);
    assert p < |rs| ==> RangeOk(rs[p]);
    if mergePrev && mergeNext {
      TwoRanges(rs, p - 1);
      HitsThree(rs[p - 1], rs[p], rs[p], a);
    } else if mergePrev {
      OneRange(rs, p - 1);
    } else if mergeNext {
      OneRange(rs, p);
    } else {
      assert rs[p..p] == [];
    }
  }

  lemma {:induction false} DonateFits(s: State, p: nat, base: Addr, end: Addr, mergePrev: bool, mergeNext: bool)
    requires Chain(s.ranges) && CanDonate(s, p, base, end, mergePrev, mergeNext)
    ensures RangeOk(DonatedRange(s.ranges, p, base, end, mergePrev, mergeNext))
    ensures FitsBetween(s.ranges, DonateStart(p, mergePrev), DonateEnd(p, mergeNext),
                        [DonatedRange(s.ranges, p, base, end, mergePrev, mergeNext)])
  {
    var rs := s.ranges;
    assert mergePrev && p > 1 ==> Before(rs[p - 2], rs[p - 1]);
    assert mergeNext && p + 1 < |rs| ==> Before(rs[p], rs[p + 1]);
    assert p > 0 ==> RangeOk(rs[p - 1]);
    assert p < |rs| ==> RangeOk(rs[p]);
  }

  /** The free ranges a donated piece merges with. */
  function DonateBases(rs: seq<Range>, p: nat, mergePrev: bool, mergeNext: bool): multiset<Addr>
    requires p <= |rs| && (mergePrev ==> p > 0) && (mergeNext ==> p < |rs|)
  {
    (if mergePrev then multiset{rs[p - 1].base} else multiset{}) +
    (if mergeNext then multiset{rs[p].base} else multiset{})
  }

  lemma {:induction false} PairBases(a: Range, b: Range)
    requires a.free && b.free
    ensures multiset(FreeBases([a, b])) == multiset{a.base} + multiset{b.base}
  {
    assert [a, b][1..] == [b];
    OneFreeBase(b);
    assert FreeBases([a, b]) == [a.base] + [b.base];
  }

  lemma {:induction false} SingleBase(a: Range)
    requires a.free
    ensures multiset(FreeBases([a])) == multiset{a.base}
  {
    OneFreeBase(a);
  }

  lemma {:induction false} DonateBasesAre(rs: seq<Range>, p: nat, mergePrev: bool, mergeNext: bool)
    requires p <= |rs| && (mergePrev ==> p > 0 && rs[p - 1].free) && (mergeNext ==> p < |rs| && rs[p].free)
    ensures multiset(FreeBases(rs[DonateStart(p, mergePrev)..DonateEnd(p, mergeNext)]))
         == DonateBases(rs, p, mergePrev, mergeNext)
  {
    var merged := rs[DonateStart(p, mergePrev)..DonateEnd(p, mergeNext)];
    if mergePrev && mergeNext {
      assert merged == [rs[p - 1], rs[p]];
      PairBases(rs[p - 1], rs[p]);
    } else if mergePrev {
      assert merged == [rs[p - 1]];
      SingleBase(rs[p - 1]);
    } else if mergeNext {
      assert merged == [rs[p]];
      SingleBase(rs[p]);
    } else {
      assert merged == [];
    }
  }

  lemma {:induction false} DonateFree(s: State, p: nat, base: Addr, end: Addr, mergePrev: bool, mergeNext: bool)
    requires Inv(s) && CanDonate(s, p, base, end, mergePrev, mergeNext)
    ensures multiset(Donate(s, p, base, end, mergePrev, mergeNext).free)
          + DonateBases(s.ranges, p, mergePrev, mergeNext)
         == multiset(s.free)
          + multiset{DonatedRange(s.ranges, p, base, end, mergePrev, mergeNext).base}
  {
    if mergeNext {
      WithoutFree(s, p);
    }
  }

  lemma {:induction false} DonatedIsNew(s: State, p: nat, base: Addr, end: Addr, mergePrev: bool, mergeNext: bool, a: Addr)
    requires Inv(s) && CanDonate(s, p, base, end, mergePrev, mergeNext)
    requires base <= a < end && CarvedHits(s.carved, a) == 0
    ensures a !in s.donated
  {
    var rs := s.ranges;
    forall i | 0 <= i < |rs| ensures !(rs[i].base <= a < rs[i].end) {
      assert i < p - 1 ==> Before(rs[i], rs[p - 1]) && RangeOk(rs[p - 1]);
      assert i > p ==> Before(rs[p], rs[i]) && RangeOk(rs[p]);
    }
    NoHits(rs, a);
  }

  lemma {:induction false} DonateAccounts(s: State, p: nat, base: Addr, end: Addr, mergePrev: bool, mergeNext: bool)
    requires Inv(s) && CanDonate(s, p, base, end, mergePrev, mergeNext)
    requires forall a | base <= a < end :: CarvedHits(s.carved, a) == 0
    ensures Accounted(s, DonateStart(p, mergePrev), DonateEnd(p, mergeNext),
                      [DonatedRange(s.ranges, p, base, end, mergePrev, mergeNext)], [],
                      s.donated + Region(base, end))
  {
    var d := DonatedRange(s.ranges, p, base, end, mergePrev, mergeNext);
    var before := s.ranges[DonateStart(p, mergePrev)..DonateEnd(p, mergeNext)];
    forall a: Addr
      ensures Hits([d], a) + Owned(s.donated, a) == Hits(before, a) + Owned(s.donated + Region(base, end), a)
    {
      DonateHits(s, p, base, end, mergePrev, mergeNext, a);
      if base <= a < end {
        DonatedIsNew(s, p, base, end, mergePrev, mergeNext, a);
      }
    }
  }

  lemma {:induction false} DonateInv(s: State, p: nat, base: Addr, end: Addr, mergePrev: bool, mergeNext: bool)
    requires Inv(s) && CanDonate(s, p, base, end, mergePrev, mergeNext)
    requires forall a | base <= a < end :: CarvedHits(s.carved, a) == 0
    ensures Inv(Donate(s, p, base, end, mergePrev, mergeNext))
  {
    var d := DonatedRange(s.ranges, p, base, end, mergePrev, mergeNext);
    DonateFits(s, p, base, end, mergePrev, mergeNext);
    DonateFree(s, p, base, end, mergePrev, mergeNext);
    DonateBasesAre(s.ranges, p, mergePrev, mergeNext);
    OneFreeBase(d);
    DonateAccounts(s, p, base, end, mergePrev, mergeNext);
    SpliceInv(s, DonateStart(p, mergePrev), DonateEnd(p, mergeNext), [d],
              Donate(s, p, base, end, mergePrev, mergeNext), []);
  }

  lemma {:induction false} DonateOrDropInv(s: State, p: nat, base: Addr, end: Addr, mergePrev: bool, mergeNext: bool)
    requires Inv(s) && LiesAt(s, p, base, end, mergePrev, mergeNext)
    requires forall a | base <= a < end :: CarvedHits(s.carved, a) == 0
    ensures Inv(Donate(s, p, base, end, mergePrev, mergeNext))
  {
    if CanDonate(s, p, base, end, mergePrev, mergeNext) {
      DonateInv(s, p, base, end, mergePrev, mergeNext);
    }
  }
}
