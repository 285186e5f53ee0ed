/** What the block cache of bootloader/partition.c should hold after any history of accesses. */
module CacheSpec {
  const COUNT := 16
  const BLOCK := 4096

  /** The sequence without its first occurrence of `b`. */
  function Drop(r: seq<nat>, b: nat): seq<nat> {
    if r == [] then []
    else if r[0] == b then r[1..]
    else [r[0]] + Drop(r[1..], b)
  }

  /** `b` was used just now. */
  function Touch(r: seq<nat>, b: nat): seq<nat> {
    [b] + Drop(r, b)
  }

  /** The distinct blocks of a history of accesses, most recently used first. */
  function Recent(h: seq<nat>): seq<nat> {
    if h == [] then [] else Touch(Recent(h[..|h| - 1]), h[|h| - 1])
  }

  function First(r: seq<nat>, n: nat): seq<nat> {
    if |r| <= n then r else r[..n]
  }

  predicate Different(r: seq<nat>, i: nat, j: nat)
    requires i < |r| && j < |r|
  {
    r[i] != r[j]
  }

  ghost predicate AllDifferent(r: seq<nat>) {
    forall i, j {:trigger Different(r, i, j)} | 0 <= i < j < |r| :: Different(r, i, j)
  }

  predicate IsAt(r: seq<nat>, i: nat, b: nat)
    requires i < |r|
  {
    r[i] == b
  }

  ghost predicate Within(r: seq<nat>, b: nat) {
    exists i {:trigger IsAt(r, i, b)} | 0 <= i < |r| :: IsAt(r, i, b)
  }

  // ----- dropping -----

  lemma {:induction false} DropAt(r: seq<nat>, k: nat)
    requires AllDifferent(r) && k < |r|
    ensures Drop(r, r[k]) == r[..k] + r[k + 1..]
  {
    if k > 0 {
      var s, m := r[1..], k - 1;
      assert Different(r, 0, k);
      TailDifferent(r);
      DropAt(s, m);
      assert s[m] == r[k];
      HeadBack(r, s, k, m);
    }
  }

  lemma {:induction false} HeadBack(r: seq<nat>, s: seq<nat>, k: nat, m: nat)
    requires k < |r| && k == m + 1 && s == r[1..]
    ensures [r[0]] + (s[..m] + s[m + 1..]) == r[..k] + r[k + 1..]
  {
  }

  lemma {:induction false} TailDifferent(r: seq<nat>)
    requires AllDifferent(r) && r != []
    ensures AllDifferent(r[1..])
  {
    forall i, j | 0 <= i < j < |r[1..]| ensures Different(r[1..], i, j) {
      assert Different(r, i + 1, j + 1);
    }
  }

  lemma {:induction false} DropNothing(r: seq<nat>, b: nat)
    requires !Within(r, b)
    ensures Drop(r, b) == r
  {
    if r != [] {
      assert !IsAt(r, 0, b);
      forall i | 0 <= i < |r| - 1 ensures !IsAt(r[1..], i, b) {
        assert !IsAt(r, i + 1, b);
      }
      DropNothing(r[1..], b);
    }
  }

  lemma {:induction false} TouchDifferent(r: seq<nat>, b: nat)
    requires AllDifferent(r)
    ensures AllDifferent(Touch(r, b))
  {
    var t := Touch(r, b);
    if Within(r, b) {
      var k :| 0 <= k < |r| && IsAt(r, k, b);
      DropAt(r, k);
      forall i, j | 0 <= i < j < |t| ensures Different(t, i, j) {
        var i', j' := if i <= k then i - 1 else i, if j <= k then j - 1 else j;
        assert t[j] == r[j'];
        if i == 0 {
          assert j' < k ==> Different(r, j', k);
          assert k < j' ==> Different(r, k, j');
        } else {
          assert t[i] == r[i'] && Different(r, i', j');
        }
      }
    } else {
      DropNothing(r, b);
      forall i, j | 0 <= i < j < |t| ensures Different(t, i, j) {
        assert i > 0 ==> Different(r, i - 1, j - 1);
        assert !IsAt(r, j - 1, b);
      }
    }
  }

  /** No block is listed twice. */
  lemma {:induction false} RecentDifferent(h: seq<nat>)
    ensures AllDifferent(Recent(h))
  {
    if h != [] {
      RecentDifferent(h[..|h| - 1]);
      TouchDifferent(Recent(h[..|h| - 1]), h[|h| - 1]);
    }
  }

  // ----- what the cache does when a block is used -----

  /** A hit moves the block to the front; a miss puts it there and drops the last one of a full cache. */
  lemma {:induction false} UseHit(r: seq<nat>, n: nat, k: nat)
    requires AllDifferent(r) && k < |First(r, n)|
    ensures First(Touch(r, r[k]), n) == [r[k]] + First(r, n)[..k] + First(r, n)[k + 1..]
  {
    DropAt(r, k);
    if |r| <= n {
      assert First(r, n) == r;
    } else {
      FrontKeeps(r, n, k, Drop(r, r[k]));
    }
  }

  lemma {:induction false} FrontKeeps(r: seq<nat>, n: nat, k: nat, d: seq<nat>)
    requires k < n < |r| && d == r[..k] + r[k + 1..]
    ensures ([r[k]] + d)[..n] == [r[k]] + r[..n][..k] + r[..n][k + 1..]
  {
    assert ([r[k]] + d)[..n] == [r[k]] + d[..n - 1];
    assert d[..n - 1] == r[..k] + r[k + 1..n];
  }

  lemma {:induction false} UseMiss(r: seq<nat>, n: nat, b: nat)
    requires AllDifferent(r) && n > 0 && !Within(First(r, n), b)
    ensures First(Touch(r, b), n) == [b] + if |r| < n then r else r[..n - 1]
  {
    if Within(r, b) {
      var k :| 0 <= k < |r| && IsAt(r, k, b);
      assert k >= n by {
        if k < n {
          assert IsAt(First(r, n), k, b);
        }
      }
      DropAt(r, k);
    } else {
      DropNothing(r, b);
    }
  }

  // ----- the same list, said by the times of use -----

  /** One more than the position of the last use of `b`, or 0 if it was never used. */
  function LastUse(h: seq<nat>, b: nat): (t: nat)
    ensures t <= |h|
  {
    if h == [] then 0 else if h[|h| - 1] == b then |h| else LastUse(h[..|h| - 1], b)
  }

  lemma {:induction false} DropWithin(r: seq<nat>, b: nat, i: nat) returns (k: nat)
    requires AllDifferent(r) && i < |Drop(r, b)|
    ensures i <= k < |r| && k <= i + 1 && Drop(r, b)[i] == r[k] && r[k] != b
    ensures i < k ==> Within(r[..k], b)
  {
    if Within(r, b) {
      var m :| 0 <= m < |r| && IsAt(r, m, b);
      DropAt(r, m);
      k := if i < m then i else i + 1;
      assert k < m ==> Different(r, k, m);
      assert m < k ==> Different(r, m, k);
      if m < k {
        assert IsAt(r[..k], m, b);
      }
    } else {
      DropNothing(r, b);
      assert !IsAt(r, i, b);
      k := i;
    }
  }

  /** The list is exactly the used blocks, ordered by when each was last used. */
  lemma {:induction false} RecentByLastUse(h: seq<nat>)
    ensures forall b: nat :: Within(Recent(h), b) <==> LastUse(h, b) > 0
    ensures forall i, j | 0 <= i < j < |Recent(h)| :: LastUse(h, Recent(h)[i]) > LastUse(h, Recent(h)[j])
  {
    if h != [] {
      var n := |h| - 1;
      var r, b := Recent(h[..n]), h[n];
      RecentByLastUse(h[..n]);
      RecentDifferent(h[..n]);
      forall c: nat ensures Within(Touch(r, b), c) <==> LastUse(h, c) > 0 {
        TouchWithin(r, b, c);
      }
      forall i, j | 0 <= i < j < |Touch(r, b)| ensures LastUse(h, Touch(r, b)[i]) > LastUse(h, Touch(r, b)[j]) {
        TouchOrder(h, r, i, j);
      }
    } else {
      forall b: nat ensures !Within(Recent(h), b) {
      }
    }
  }

  lemma {:induction false} WithinFront(x: nat, s: seq<nat>, c: nat)
    ensures Within([x] + s, c) <==> x == c || Within(s, c)
  {
    var t := [x] + s;
    if Within(t, c) && x != c {
      var i :| 0 <= i < |t| && IsAt(t, i, c);
      var k := i - 1;
      assert IsAt(s, k, c);
    }
    if x == c {
      assert IsAt(t, 0, c);
    } else if Within(s, c) {
      var k :| 0 <= k < |s| && IsAt(s, k, c);
      var i := k + 1;
      assert IsAt(t, i, c);
    }
  }

  lemma {:induction false} OthersDrop(r: seq<nat>, b: nat, c: nat)
    requires c != b
    ensures Within(Drop(r, b), c) <==> Within(r, c)
  {
    if r != [] {
      var rest := r[1..];
      assert r == [r[0]] + rest;
      WithinFront(r[0], rest, c);
      if r[0] != b {
        OthersDrop(rest, b, c);
        WithinFront(r[0], Drop(rest, b), c);
      }
    }
  }

  lemma {:induction false} TouchWithin(r: seq<nat>, b: nat, c: nat)
    ensures Within(Touch(r, b), c) <==> c == b || Within(r, c)
  {
    WithinFront(b, Drop(r, b), c);
    if c != b {
      OthersDrop(r, b, c);
    }
  }

  lemma {:induction false} TouchOrder(h: seq<nat>, r: seq<nat>, i: nat, j: nat)
    requires h != [] && AllDifferent(r)
    requires forall i, j | 0 <= i < j < |r| :: LastUse(h[..|h| - 1], r[i]) > LastUse(h[..|h| - 1], r[j])
    requires i < j < |Touch(r, h[|h| - 1])|
    ensures LastUse(h, Touch(r, h[|h| - 1])[i]) > LastUse(h, Touch(r, h[|h| - 1])[j])
  {
    var b := h[|h| - 1];
    var y := DropWithin(r, b, j - 1);
    if i > 0 {
      var x := DropWithin(r, b, i - 1);
      DropMonotone(r, b, i - 1, j - 1, x, y);
    }
  }

  lemma {:induction false} DropMonotone(r: seq<nat>, b: nat, i: nat, j: nat, x: nat, y: nat)
    requires AllDifferent(r) && i < j < |Drop(r, b)| && x < |r| && y < |r|
    requires i <= x <= i + 1 && j <= y <= j + 1 && Drop(r, b)[i] == r[x] && Drop(r, b)[j] == r[y]
    ensures x < y
  {
    TouchDifferent(r, b);
    assert Different(Touch(r, b), i + 1, j + 1);
  }
}
