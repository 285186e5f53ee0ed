/** Bytes, where they are in a buffer, and copying them into one. */
module Buffers {
  type Byte = b: nat | b < 256
  type Bytes = seq<Byte>

  function Zeros(n: nat): (r: Bytes)
    ensures |r| == n
  {
    seq(n, _ => 0)
  }

  predicate Occurs(b: Bytes, pos: nat, s: Bytes) {
    pos + |s| <= |b| && b[pos..pos + |s|] == s
  }

  lemma {:induction false} OccursSplit(b: Bytes, pos: nat, s: Bytes, t: Bytes)
    requires Occurs(b, pos, s + t)
    ensures Occurs(b, pos, s) && Occurs(b, pos + |s|, t)
  {
    assert b[pos..pos + |s|] == (s + t)[..|s|];
    assert b[pos + |s|..pos + |s| + |t|] == (s + t)[|s|..];
  }

  lemma {:induction false} OccursSplitAt(b: Bytes, pos: nat, s: Bytes, t: Bytes, mid: nat)
    requires Occurs(b, pos, s + t) && mid == pos + |s|
    ensures Occurs(b, pos, s) && Occurs(b, mid, t)
  {
    OccursSplit(b, pos, s, t);
  }

  /** Outside the bytes from `lo` up to `hi` nothing changed. */
  ghost predicate Only(before: Bytes, after: Bytes, lo: nat, hi: nat) {
    |after| == |before| && lo <= hi <= |before| && after[..lo] == before[..lo] && after[hi..] == before[hi..]
  }

  lemma {:induction false} OnlyElsewhere(before: Bytes, after: Bytes, lo: nat, hi: nat, pos: nat, s: Bytes)
    requires Only(before, after, lo, hi) && Occurs(before, pos, s) && (pos + |s| <= lo || hi <= pos)
    ensures Occurs(after, pos, s)
  {
    forall k | 0 <= k < |s| ensures after[pos + k] == s[k] {
      assert before[pos..pos + |s|][k] == s[k];
      if pos + |s| <= lo {
        assert after[..lo][pos + k] == before[..lo][pos + k];
      } else {
        assert after[hi..][pos + k - hi] == before[hi..][pos + k - hi];
      }
    }
  }

  lemma {:induction false} OnlyTrans(a: Bytes, b: Bytes, c: Bytes, lo: nat, hi: nat)
    requires Only(a, b, lo, hi) && Only(b, c, lo, hi)
    ensures Only(a, c, lo, hi)
  {
  }

  lemma {:induction false} OnlyWider(a: Bytes, b: Bytes, lo: nat, hi: nat, lo': nat, hi': nat)
    requires Only(a, b, lo, hi) && lo' <= lo && hi <= hi' <= |a|
    ensures Only(a, b, lo', hi')
  {
    assert a[..lo'] == a[..lo][..lo'] && b[..lo'] == b[..lo][..lo'];
    assert a[hi'..] == a[hi..][hi' - hi..] && b[hi'..] == b[hi..][hi' - hi..];
  }

  lemma {:induction false} OccursJoin(b: Bytes, pos: nat, s: Bytes, t: Bytes, mid: nat)
    requires Occurs(b, pos, s) && mid == pos + |s| && Occurs(b, mid, t)
    ensures Occurs(b, pos, s + t)
  {
    assert b[pos..mid + |t|] == b[pos..mid] + b[mid..mid + |t|];
  }

  /** Appending to what is already written. */
  lemma {:induction false} Appended(before: Bytes, after: Bytes, pos: nat, s: Bytes, t: Bytes, mid: nat, hi: nat)
    requires Occurs(before, pos, s) && mid == pos + |s| && Only(before, after, mid, hi) && Occurs(after, mid, t)
    ensures Occurs(after, pos, s + t)
  {
    OnlyElsewhere(before, after, mid, hi, pos, s);
    OccursJoin(after, pos, s, t, mid);
  }

  /** BlCopyMemory */
  method CopyMemory(out: array<Byte>, at: nat, data: Bytes)
    requires at + |data| <= out.Length
    modifies out
    ensures Occurs(out[..], at, data) && Only(old(out[..]), out[..], at, at + |data|)
  {
    var i := 0;
    while i < |data|
      invariant i <= |data|
      invariant forall k | 0 <= k < i :: out[at + k] == data[k]
      invariant forall k | 0 <= k < out.Length && !(at <= k < at + i) :: out[k] == old(out[k])
    {
      out[at + i] := data[i];
      i := i + 1;
    }
    assert out[at..at + |data|] == data;
  }
}
