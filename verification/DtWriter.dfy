/** Writing into the blob: the byte copies of bootloader/dt.c, and what they leave in place. */
module DtWriter {
  import opened Buffers
  import opened DtSpec

  /** `done` is written at `structure`, and nothing outside the `size` bytes from there was touched since
      the blob was `before`. */
  ghost predicate Emitted(out: Bytes, before: Bytes, structure: nat, size: nat, done: Bytes, offset: nat) {
    && structure + size <= |out| && offset == |done| <= size
    && Occurs(out, structure, done) && Only(before, out, structure, structure + size)
  }

  lemma {:induction false} EmittedMore(out: Bytes, out': Bytes, before: Bytes, structure: nat, size: nat, done: Bytes,
                                       offset: nat, s: Bytes, next: nat, lo: nat, hi: nat)
    requires Emitted(out, before, structure, size, done, offset) && next == offset + |s| <= size
    requires lo == structure + offset && hi == structure + next && Only(out, out', lo, hi) && Occurs(out', lo, s)
    ensures Emitted(out', before, structure, size, done + s, next)
  {
    Appended(out, out', structure, done, s, lo, hi);
    OnlyWider(out, out', lo, hi, structure, structure + size);
    OnlyTrans(before, out, out', structure, structure + size);
  }

  /** Copies `data` to the end of what is emitted. */
  method Append(out: array<Byte>, structure: nat, size: nat, offset: nat, data: Bytes,
                ghost done: Bytes, ghost before: Bytes)
    requires Emitted(out[..], before, structure, size, done, offset) && offset + |data| <= size
    modifies out
    ensures Emitted(out[..], before, structure, size, done + data, offset + |data|)
  {
    ghost var earlier := out[..];
    CopyMemory(out, structure + offset, data);
    EmittedMore(earlier, out[..], before, structure, size, done, offset, data, offset + |data|,
                structure + offset, structure + offset + |data|);
  }

  /** BlDtAddToken: a big-endian word at the offset, which moves on. `size` is BlDtStructureSize: the
      bound on the offset is the assertion in the code. */
  method AddToken(out: array<Byte>, structure: nat, size: nat, offset: nat, token: nat,
                  ghost done: Bytes, ghost before: Bytes)
    returns (next: nat)
    requires Emitted(out[..], before, structure, size, done, offset) && offset + 4 <= size
    modifies out
    ensures next == offset + 4 && Emitted(out[..], before, structure, size, done + BE32(token), next)
  {
    Append(out, structure, size, offset, BE32(token), done, before);
    next := offset + 4;
  }

  /** BlDtAddDataAndAlign: the data, then zeros up to a word boundary. */
  method AddDataAndAlign(out: array<Byte>, structure: nat, size: nat, offset: nat, data: Bytes,
                         ghost done: Bytes, ghost before: Bytes)
    returns (next: nat)
    requires Emitted(out[..], before, structure, size, done, offset) && offset + Up4(|data|) <= size
    modifies out
    ensures next == offset + Up4(|data|) && Emitted(out[..], before, structure, size, done + Padded(data), next)
  {
    var padding := Zeros(Up4(|data|) - |data|);
    Append(out, structure, size, offset, data, done, before);
    Append(out, structure, size, offset + |data|, padding, done + data, before);
    next := offset + Up4(|data|);
    assert done + data + padding == done + Padded(data);
  }
}
