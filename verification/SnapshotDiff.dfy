/**
  The byte diff a wrapped call is recorded by: one one-byte copy per position
  where the snapshot taken before differs from the one taken after.
 */
module SnapshotDiff {
  import opened Bytes
  import opened Memory
  import opened Format

  /** The entries for the first n positions, in address order. */
  function Diff(base: U64, before: seq<Byte>, after: seq<Byte>, n: nat): seq<Copy>
    requires n <= |before| == |after|
  {
    if n == 0 then []
    else if before[n - 1] == after[n - 1] then Diff(base, before, after, n - 1)
    else Diff(base, before, after, n - 1) + [Copy(0, ToU64(base + n - 1), [after[n - 1]])]
  }

  /** The positions below n where the snapshots differ. */
  function Differing(before: seq<Byte>, after: seq<Byte>, n: nat): set<nat>
    requires n <= |before| == |after|
  {
    set i: nat | i < n && before[i] != after[i]
  }

  /** How far the loop gets when only `room` allocations succeed: the first position it cannot record. */
  function Reached(before: seq<Byte>, after: seq<Byte>, room: nat, n: nat): nat
    requires n <= |before| == |after|
  {
    if n == 0 then 0
    else
      var m := Reached(before, after, room, n - 1);
      if m < n - 1 then m
      else if before[n - 1] != after[n - 1] && |Differing(before, after, n - 1)| >= room then n - 1
      else n
  }

  /** The copies post_wrap_syscall adds when `room` allocations succeed. */
  function Recorded(base: U64, before: seq<Byte>, after: seq<Byte>, room: nat): seq<Copy>
    requires |before| == |after|
  {
    ReachedBound(before, after, room, |before|);
    Diff(base, before, after, Reached(before, after, room, |before|))
  }

  lemma {:induction false} ReachedBound(before: seq<Byte>, after: seq<Byte>, room: nat, n: nat)
    requires n <= |before| == |after|
    ensures Reached(before, after, room, n) <= n
  {
    if n > 0 {
      ReachedBound(before, after, room, n - 1);
    }
  }

  lemma DifferingStep(before: seq<Byte>, after: seq<Byte>, n: nat)
    requires 0 < n <= |before| == |after|
    ensures Differing(before, after, n) ==
            Differing(before, after, n - 1) + (if before[n - 1] != after[n - 1] then {n - 1} else {})
    ensures |Differing(before, after, n)| ==
            |Differing(before, after, n - 1)| + (if before[n - 1] != after[n - 1] then 1 else 0)
  {
    assert Differing(before, after, n) ==
           Differing(before, after, n - 1) + (if before[n - 1] != after[n - 1] then {n - 1} else {});
  }

  /** Room for all the differing positions lets the loop finish; less stops it at a differing position. */
  lemma {:induction false} ReachedMeaning(before: seq<Byte>, after: seq<Byte>, room: nat, n: nat)
    requires n <= |before| == |after|
    ensures var m := Reached(before, after, room, n);
            && m <= n
            && (m == n <==> |Differing(before, after, n)| <= room)
            && (m < n ==> before[m] != after[m] && |Differing(before, after, m)| == room)
            && |Differing(before, after, m)| <= room
  {
    if n > 0 {
      ReachedMeaning(before, after, room, n - 1);
      DifferingStep(before, after, n);
    }
  }

  lemma {:induction false} DifferingGrows(before: seq<Byte>, after: seq<Byte>, k: nat, n: nat)
    requires k <= n <= |before| == |after|
    ensures |Differing(before, after, k)| <= |Differing(before, after, n)|
  {
    if k < n {
      DifferingStep(before, after, n);
      DifferingGrows(before, after, k, n - 1);
    }
  }

  /** The loop gets beyond a differing position exactly when fewer than `room` positions before it differ. */
  lemma ReachedBeyondIff(before: seq<Byte>, after: seq<Byte>, room: nat, n: nat, k: nat)
    requires k < n <= |before| == |after| && before[k] != after[k]
    ensures k < Reached(before, after, room, n) <==> |Differing(before, after, k)| < room
  {
    hide Reached, Differing;
    ReachedMeaning(before, after, room, n);
    var m := Reached(before, after, room, n);
    if k < m {
      DifferingStep(before, after, k + 1);
      DifferingGrows(before, after, k + 1, m);
    } else {
      DifferingGrows(before, after, m, k);
    }
  }

  /** Once an allocation failed the loop is over. */
  lemma {:induction false} ReachedStops(before: seq<Byte>, after: seq<Byte>, room: nat, k: nat, n: nat)
    requires k <= n <= |before| == |after| && Reached(before, after, room, k) < k
    ensures Reached(before, after, room, n) == Reached(before, after, room, k)
  {
    if k < n {
      ReachedStops(before, after, room, k, n - 1);
    }
  }

  /** The loop stands at position i with `used` entries recorded and none refused. */
  ghost predicate RecordedUpTo(before: seq<Byte>, after: seq<Byte>, room: nat, i: nat, used: nat)
    requires i <= |before| == |after|
  {
    used == |Differing(before, after, i)| <= room && Reached(before, after, room, i) == i
  }

  lemma RecordingStarts(base: U64, before: seq<Byte>, after: seq<Byte>, room: nat)
    requires |before| == |after|
    ensures RecordedUpTo(before, after, room, 0, 0) && Diff(base, before, after, 0) == []
  {
    assert Differing(before, after, 0) == {};
  }

  /** One round of the loop at position i. */
  lemma RecordingRound(base: U64, before: seq<Byte>, after: seq<Byte>, room: nat, i: nat, used: nat)
    requires i < |before| == |after| && RecordedUpTo(before, after, room, i, used)
    ensures used <= room
    ensures before[i] == after[i] ==>
              && RecordedUpTo(before, after, room, i + 1, used)
              && Diff(base, before, after, i + 1) == Diff(base, before, after, i)
    ensures before[i] != after[i] && used < room ==>
              && RecordedUpTo(before, after, room, i + 1, used + 1)
              && Diff(base, before, after, i + 1) == Diff(base, before, after, i)
                   + [Copy(0, ToU64(base + i), [after[i]])]
    ensures before[i] != after[i] && used == room ==>
              Recorded(base, before, after, room) == Diff(base, before, after, i)
  {
    DifferingStep(before, after, i + 1);
    if before[i] != after[i] && used == room {
      ReachedStops(before, after, room, i + 1, |before|);
    }
  }

  lemma RecordingEnds(base: U64, before: seq<Byte>, after: seq<Byte>, room: nat, used: nat)
    requires |before| == |after| && RecordedUpTo(before, after, room, |before|, used)
    ensures Recorded(base, before, after, room) == Diff(base, before, after, |before|)
  {
  }

  /** Entry c is one byte that differs, with its new value and no source. */
  predicate IsChange(c: Copy, base: int, before: seq<Byte>, after: seq<Byte>, n: nat)
    requires n <= |before| == |after|
  {
    && base <= c.to < base + n && c.bytes == [after[c.to - base]] && before[c.to - base] != after[c.to - base]
    && c.from == 0
  }

  /** The entries are changes at strictly increasing addresses. */
  ghost predicate AreChanges(d: seq<Copy>, base: int, before: seq<Byte>, after: seq<Byte>, n: nat)
    requires n <= |before| == |after|
  {
    && (forall k | 0 <= k < |d| :: IsChange(d[k], base, before, after, n))
    && (forall j, k | 0 <= j < k < |d| :: d[j].to < d[k].to)
  }

  lemma OneMoreChange(d: seq<Copy>, base: int, before: seq<Byte>, after: seq<Byte>, n: nat, c: Copy)
    requires 0 < n <= |before| == |after| && AreChanges(d, base, before, after, n - 1)
    ensures AreChanges(d, base, before, after, n)
    ensures IsChange(c, base, before, after, n) && c.to == base + n - 1 ==>
              AreChanges(d + [c], base, before, after, n)
  {
    assert forall k | 0 <= k < |d| :: IsChange(d[k], base, before, after, n - 1);
  }

  /**
    The diff is minimal and ordered: one entry per differing position, each one
    byte long, at strictly increasing addresses inside the region.
   */
  lemma {:induction false} DiffIsMinimal(base: U64, before: seq<Byte>, after: seq<Byte>, n: nat)
    requires n <= |before| == |after| && base + |before| <= USER_END
    ensures var d := Diff(base, before, after, n);
            |d| == |Differing(before, after, n)| && AreChanges(d, base, before, after, n)
  {
    hide Differing, AreChanges, ToU64;
    if n == 0 {
      NothingDiffers(base, before, after);
    } else {
      DiffIsMinimal(base, before, after, n - 1);
      DifferingStep(before, after, n);
      WordItself(base + n - 1);
      OneMoreChange(Diff(base, before, after, n - 1), base, before, after, n, Copy(0, base + n - 1, [after[n - 1]]));
    }
  }

  lemma NothingDiffers(base: int, before: seq<Byte>, after: seq<Byte>)
    requires |before| == |after|
    ensures |Differing(before, after, 0)| == 0 && AreChanges([], base, before, after, 0)
  {
    assert Differing(before, after, 0) == {};
  }

  lemma WordItself(a: int)
    requires 0 <= a < USER_END
    ensures ToU64(a) == a
  {
  }

  lemma ApplyOneMore(m: Mem, d: seq<Copy>, c: Copy)
    ensures ApplyCopies(m, d + [c]) == Patch(ApplyCopies(m, d), c.to, c.bytes)
  {
    hide Patch;
    ApplyCopiesAppend(m, d, [c]);
    assert [c][1..] == [];
  }

  /** Position n - 1 adds its byte when it differs and nothing otherwise. */
  lemma DiffStepAt(m: Mem, base: U64, before: seq<Byte>, after: seq<Byte>, n: nat, a: int)
    requires 0 < n <= |before| == |after| && a in m && base + |before| <= USER_END
    ensures ApplyCopies(m, Diff(base, before, after, n))[a] ==
            if a == base + n - 1 && before[n - 1] != after[n - 1] then after[n - 1]
            else ApplyCopies(m, Diff(base, before, after, n - 1))[a]
  {
    hide ApplyCopies;
    if before[n - 1] != after[n - 1] {
      ApplyOneMore(m, Diff(base, before, after, n - 1), Copy(0, base + n - 1, [after[n - 1]]));
    }
  }

  /** Applying the diff of the first n bytes changes exactly the differing ones, to their new values. */
  lemma {:induction false} DiffApplied(m: Mem, base: U64, before: seq<Byte>, after: seq<Byte>, n: nat, a: int)
    requires n <= |before| == |after| && a in m
    requires |before| > 0 ==> base + |before| <= USER_END
    ensures var r := ApplyCopies(m, Diff(base, before, after, n))[a];
            if base <= a < base + n && before[a - base] != after[a - base] then r == after[a - base] else r == m[a]
  {
    if n > 0 {
      hide Diff, ApplyCopies;
      DiffApplied(m, base, before, after, n - 1, a);
      DiffStepAt(m, base, before, after, n, a);
    }
  }

  /**
    The recorded diff turns the old snapshot into the new one; if an allocation
    fails at position i it does so for the first i bytes and leaves the others.
   */
  lemma RecordedIsExactPatch(m: Mem, base: U64, before: seq<Byte>, after: seq<Byte>, room: nat)
    requires |before| == |after| && Mapped(m, base, |before|) && Slice(m, base, |before|) == before
    ensures var i := Reached(before, after, room, |before|);
            && i <= |before|
            && (i == |before| <==> |Differing(before, after, |before|)| <= room)
            && (i < |before| ==> before[i] != after[i])
            && ApplyCopies(m, Recorded(base, before, after, room)) == Patch(m, base, after[..i])
  {
    ReachedMeaning(before, after, room, |before|);
    var i := Reached(before, after, room, |before|);
    hide *;
    forall a | a in m
      ensures ApplyCopies(m, Diff(base, before, after, i))[a] == Patch(m, base, after[..i])[a]
    {
      DiffIsPatchAt(m, base, before, after, i, a);
    }
  }

  lemma DiffIsPatchAt(m: Mem, base: U64, before: seq<Byte>, after: seq<Byte>, n: nat, a: int)
    requires n <= |before| == |after| && a in m
    requires Mapped(m, base, |before|) && Slice(m, base, |before|) == before
    ensures ApplyCopies(m, Diff(base, before, after, n))[a] == Patch(m, base, after[..n])[a]
  {
    hide Diff, ApplyCopies, Patch, Slice;
    MappedRegionBelowEnd(m, base, |before|);
    DiffApplied(m, base, before, after, n, a);
    hide Mapped;
    if base <= a < base + n {
      SliceAt(m, base, |before|, a);
      assert after[..n][a - base] == after[a - base];
    }
  }

  lemma SliceAt(m: Mem, base: int, n: nat, a: int)
    requires Mapped(m, base, n) && base <= a < base + n
    ensures a in m && Slice(m, base, n)[a - base] == m[a]
  {
    assert Slice(m, base, n)[a - base] == m[base + (a - base)];
  }

  lemma MappedRegionBelowEnd(m: Mem, base: int, n: nat)
    requires Mapped(m, base, n)
    ensures n > 0 ==> base + n <= USER_END
  {
    if n > 0 {
      assert base + n - 1 in m;
    }
  }
}
