/** Byte-addressed user memory and patches of it. */
module Memory {
  import opened Bytes

  /** User addresses on x86-64 lie below 2^47. */
  const USER_END: int := 0x8000_0000_0000

  ghost predicate BelowUserEnd(m: map<int, Byte>) {
    forall a | a in m :: 0 <= a < USER_END
  }

  /** The mapped bytes of a process. */
  type Mem = m: map<int, Byte> | BelowUserEnd(m)
    witness map[]

  /** All of [at, at + n) is mapped. */
  ghost predicate Mapped(m: map<int, Byte>, at: int, n: int) {
    forall a | at <= a < at + n :: a in m
  }

  /** Whether the eight bytes at `at` are mapped: what one ptrace word access needs. */
  predicate WordMapped(m: Mem, at: int)
    ensures WordMapped(m, at) <==> Mapped(m, at, 8)
  {
    && at in m && at + 1 in m && at + 2 in m && at + 3 in m
    && at + 4 in m && at + 5 in m && at + 6 in m && at + 7 in m
  }

  /** Store bs at address at. Unmapped bytes stay unmapped. */
  function Patch(m: Mem, at: int, bs: seq<Byte>): (r: Mem)
    ensures r.Keys == m.Keys
    ensures forall a | a in m :: r[a] == if at <= a < at + |bs| then bs[a - at] else m[a]
  {
    map a | a in m :: if at <= a < at + |bs| then bs[a - at] else m[a]
  }

  function Slice(m: Mem, at: int, n: nat): (s: seq<Byte>)
    requires Mapped(m, at, n)
    ensures |s| == n
    ensures forall i | 0 <= i < n :: s[i] == m[at + i]
  {
    seq(n, i requires 0 <= i < n && Mapped(m, at, n) => m[at + i])
  }

  lemma PatchNothing(m: Mem, at: int)
    ensures Patch(m, at, []) == m
  {
  }

  /** Two adjacent patches are one. */
  lemma PatchAppend(m: Mem, at: int, x: seq<Byte>, y: seq<Byte>)
    ensures Patch(Patch(m, at, x), at + |x|, y) == Patch(m, at, x + y)
  {
  }

  lemma SliceOfPatch(m: Mem, at: int, bs: seq<Byte>)
    requires Mapped(m, at, |bs|)
    ensures Slice(Patch(m, at, bs), at, |bs|) == bs
  {
  }
}
