/**
 * `time_enumerator`, `step` and `slice`: walking an interval in fixed steps of `n`
 * seconds and cutting it into sub-intervals. Steps are positive integers.
 */
module Stepping {
  import opened TimeInterval

  /** `count` as computed before the loop: whole steps in the span plus one, less one when
      the end is excluded and falls exactly on a step. Ruby's floor `div` and `%` agree
      with Dafny's Euclidean ones because `n > 0`. */
  function StepCount(iv: Interval, n: int): (count: int)
    requires n > 0
  {
    var count := Duration(iv) / n + 1;
    if iv.excl && Duration(iv) % n == 0 then count - 1 else count
  }

  /** The `k`-th candidate instant, `begin + k*n`. */
  function At(iv: Interval, n: int, k: int): (t: int)
  {
    iv.b + k * n
  }

  /** The closed form of what the enumerator yields: `begin` always, then further
      candidates up to `count` elements in all. */
  function Steps(iv: Interval, n: int): (ts: seq<int>)
    requires n > 0
    ensures |ts| >= 1 && ts[0] == iv.b
    ensures forall k :: 0 <= k < |ts| ==> ts[k] == At(iv, n, k)
  {
    seq(Max(StepCount(iv, n), 1), k => At(iv, n, k))
  }

  /** `time_enumerator` (and `step`, which hands back its output): yield `begin`, then
      add the step to the last yielded instant `count - 1` times. */
  method TimeEnumerator(iv: Interval, n: int) returns (ts: seq<int>)
    requires n > 0
    ensures ts == Steps(iv, n)
  {
    var count := Duration(iv) / n + 1;
    if iv.excl && Duration(iv) % n == 0 {
      count := count - 1;
    }
    var last := iv.b;
    ts := [last];
    var i := 0;
    while i < count - 1
      invariant 0 <= i <= Max(count - 1, 0)
      invariant |ts| == i + 1 && last == ts[i]
      invariant forall k :: 0 <= k < |ts| ==> ts[k] == At(iv, n, k)
    {
      last := last + n;
      ts := ts + [last];
      i := i + 1;
    }
  }

  lemma MulMonotone(i: int, j: int, n: int)
    requires i <= j && n > 0
    ensures i * n <= j * n
  {
    assert j * n - i * n == (j - i) * n;
  }

  lemma AtNext(iv: Interval, n: int, k: int)
    ensures At(iv, n, k + 1) == At(iv, n, k) + n
  {
    assert (k + 1) * n == k * n + n;
  }

  /** The last element of `Steps` is covered and the next candidate is not. */
  lemma StepsBoundary(iv: Interval, n: int)
    requires n > 0 && NonEmpty(iv)
    ensures CoversInstant(iv, At(iv, n, |Steps(iv, n)| - 1))
    ensures !CoversInstant(iv, At(iv, n, |Steps(iv, n)|))
  {
    var d := Duration(iv);
    var q, r := d / n, d % n;
    assert d == q * n + r && 0 <= r < n;
    if q < 0 {
      MulMonotone(q, -1, n);
    }
    var len := |Steps(iv, n)|;
    if iv.excl && r == 0 {
      assert len == q;
      AtNext(iv, n, q - 1);
      assert At(iv, n, q) == iv.e;
    } else {
      assert len == q + 1;
      AtNext(iv, n, q);
      assert At(iv, n, q) == iv.e - r;
    }
  }

  /** For a span holding instants, the enumerator yields exactly the candidates
      `begin + k*n` that the span covers: the count arithmetic agrees with stopping at
      the first uncovered candidate. */
  lemma StepsAreCoveredCandidates(iv: Interval, n: int)
    requires n > 0 && NonEmpty(iv)
    ensures forall k :: 0 <= k ==> (k < |Steps(iv, n)| <==> CoversInstant(iv, At(iv, n, k)))
  {
    var len := |Steps(iv, n)|;
    StepsBoundary(iv, n);
    forall k | 0 <= k
      ensures k < len <==> CoversInstant(iv, At(iv, n, k))
    {
      MulMonotone(0, k, n);
      if k < len {
        MulMonotone(k, len - 1, n);
      } else {
        MulMonotone(len, k, n);
      }
    }
  }

  /** A span holding no instant still yields its begin, which it does not cover
      (`[t, t)` yields `t`; so does a reversed span). */
  lemma StepsOfEmpty(iv: Interval, n: int)
    requires n > 0 && !NonEmpty(iv)
    ensures Steps(iv, n) == [iv.b]
    ensures !CoversInstant(iv, iv.b)
  {
    var d := Duration(iv);
    var q, r := d / n, d % n;
    assert d == q * n + r && 0 <= r < n;
    if q >= 0 && d < 0 {
      MulMonotone(0, q, n);
    }
    assert StepCount(iv, n) <= 1;
  }

  /** The specs' hour stepped by twenty minutes: four instants when the end is included,
      three when it is excluded. */
  lemma StepsHourByTwentyMinutes(t: int)
    ensures Steps(Interval(t - 3600, t, false), 1200) == [t - 3600, t - 2400, t - 1200, t]
    ensures Steps(Interval(t - 3600, t, true), 1200) == [t - 3600, t - 2400, t - 1200]
  {
    assert StepCount(Interval(t - 3600, t, false), 1200) == 4;
    assert StepCount(Interval(t - 3600, t, true), 1200) == 3;
  }

  /** The sub-interval that `slice` builds at the stepped instant `t`: it ends at `t + n`
      or at the interval's end, whichever comes first. */
  function Piece(iv: Interval, n: int, t: int, inclusive: bool): (p: Interval)
    ensures p.b == t && p.e <= t + n && p.e <= iv.e && (p.e == t + n || p.e == iv.e)
    ensures p.excl <==> !inclusive
  {
    Interval(t, Min(t + n, iv.e), !inclusive)
  }

  /** When `slice` makes the piece at `t` include its end, as written: when `t` is the
      included end itself, or a whole step from `t` passes the end. */
  function PieceInclusive(iv: Interval, n: int, t: int): (r: bool)
    ensures n > 0 ==> (r <==> t + n > iv.e)
  {
    (iv.e == t && !iv.excl) || t + n > iv.e
  }

  /** `slice`: one piece per instant the enumerator yields. */
  function Slice(iv: Interval, n: int): (s: seq<Interval>)
    requires n > 0
    ensures |s| == |Steps(iv, n)|
  {
    var ts := Steps(iv, n);
    seq(|ts|, k requires 0 <= k < |ts| => Piece(iv, n, ts[k], PieceInclusive(iv, n, ts[k])))
  }

  /** Every stepped instant but the last is followed by a covered candidate, so its piece
      is a full step and excludes its end. */
  lemma InnerStep(iv: Interval, n: int, k: int)
    requires n > 0 && NonEmpty(iv) && 0 <= k < |Steps(iv, n)| - 1
    ensures At(iv, n, k) + n <= iv.e && At(iv, n, k) + n == At(iv, n, k + 1)
  {
    StepsAreCoveredCandidates(iv, n);
    AtNext(iv, n, k);
  }

  /** The last stepped instant is a step or less from the end. */
  lemma LastStep(iv: Interval, n: int)
    requires n > 0 && NonEmpty(iv)
    ensures At(iv, n, |Steps(iv, n)| - 1) + n >= iv.e
  {
    StepsBoundary(iv, n);
    AtNext(iv, n, |Steps(iv, n)| - 1);
    MulMonotone(0, |Steps(iv, n)|, n);
  }

  /** The pieces tile the span: the first starts at `begin`, each but the last is a full
      step that excludes its end and meets the next piece's begin, and the last ends at `end`. */
  lemma SliceTiles(iv: Interval, n: int)
    requires n > 0 && NonEmpty(iv)
    ensures var s := Slice(iv, n);
      && s[0].b == iv.b
      && s[|s| - 1].e == iv.e
      && forall k :: 0 <= k < |s| - 1 ==> s[k].excl && s[k].e == s[k].b + n && s[k].e == s[k + 1].b
  {
    var s := Slice(iv, n);
    LastStep(iv, n);
    forall k | 0 <= k < |s| - 1
      ensures s[k].excl && s[k].e == s[k].b + n && s[k].e == s[k + 1].b
    {
      InnerStep(iv, n, k);
    }
  }

  /** Every instant of the span lies in some piece, and every instant of a piece lies in
      the closure of the span. */
  lemma SliceCoversInterval(iv: Interval, n: int)
    requires n > 0 && NonEmpty(iv)
    ensures var s := Slice(iv, n);
      forall x :: CoversInstant(iv, x) ==> exists k :: 0 <= k < |s| && CoversInstant(s[k], x)
    ensures var s := Slice(iv, n);
      forall k, x :: 0 <= k < |s| && CoversInstant(s[k], x) ==> CoversInstant(Closure(iv), x)
  {
    var s := Slice(iv, n);
    StepsAreCoveredCandidates(iv, n);
    forall x | CoversInstant(iv, x)
      ensures exists k :: 0 <= k < |s| && CoversInstant(s[k], x)
    {
      var k := (x - iv.b) / n;
      assert x - iv.b == k * n + (x - iv.b) % n;
      assert At(iv, n, k) <= x < At(iv, n, k) + n;
      assert CoversInstant(iv, At(iv, n, k));
      assert CoversInstant(s[k], x);
    }
    forall k, x | 0 <= k < |s| && CoversInstant(s[k], x)
      ensures CoversInstant(Closure(iv), x)
    {
      MulMonotone(0, k, n);
    }
  }

  /** No instant lies in two pieces. */
  lemma SlicesDisjoint(iv: Interval, n: int)
    requires n > 0 && NonEmpty(iv)
    ensures var s := Slice(iv, n);
      forall j, k, x :: 0 <= j < k < |s| && CoversInstant(s[j], x) ==> !CoversInstant(s[k], x)
  {
    var s := Slice(iv, n);
    forall j, k, x | 0 <= j < k < |s| && CoversInstant(s[j], x)
      ensures !CoversInstant(s[k], x)
    {
      InnerStep(iv, n, j);
      MulMonotone(j + 1, k, n);
    }
  }

  /** As written, when the span excludes its end and the step does not divide its length,
      the last piece includes that end: it covers an instant the span does not. */
  lemma SliceLastOvershoots(iv: Interval, n: int)
    requires n > 0 && NonEmpty(iv) && iv.excl && Duration(iv) % n != 0
    ensures var s := Slice(iv, n);
      && !s[|s| - 1].excl
      && s[|s| - 1].e == iv.e
      && CoversInstant(s[|s| - 1], iv.e)
      && !CoversInstant(iv, iv.e)
  {
    var d := Duration(iv);
    var q, r := d / n, d % n;
    assert d == q * n + r && 0 <= r < n;
    if q < 0 {
      MulMonotone(q, -1, n);
    }
    assert |Steps(iv, n)| == q + 1;
    assert At(iv, n, q) == iv.e - r;
  }

  /** `[0, 10)` cut into steps of 3 ends with the closed piece `[9, 10]`. */
  lemma SliceOvershootExample()
    ensures Slice(Interval(0, 10, true), 3)
      == [Interval(0, 3, true), Interval(3, 6, true), Interval(6, 9, true), Interval(9, 10, false)]
  {
    var iv := Interval(0, 10, true);
    assert Duration(iv) == 10;
    assert StepCount(iv, 3) == 4;
    assert Max(StepCount(iv, 3), 1) == 4;
    assert Steps(iv, 3) == [0, 3, 6, 9];
  }


  /** The evidently intended end flag: a piece includes its end only when the span does
      and the step reaches past that end. */
  function PieceInclusiveIntended(iv: Interval, n: int, t: int): (r: bool)
    ensures r ==> PieceInclusive(iv, n, t)
    ensures n > 0 ==> (r <==> PieceInclusive(iv, n, t) && !iv.excl)
  {
    !iv.excl && t + n > iv.e
  }

  /** `slice` with the intended end flag on the last piece. */
  function SliceIntended(iv: Interval, n: int): (s: seq<Interval>)
    requires n > 0
    ensures |s| == |Steps(iv, n)|
  {
    var ts := Steps(iv, n);
    seq(|ts|, k requires 0 <= k < |ts| => Piece(iv, n, ts[k], PieceInclusiveIntended(iv, n, ts[k])))
  }

  /** With the intended flag the pieces together hold exactly the instants of the span. */
  lemma SliceIntendedCoversExactly(iv: Interval, n: int)
    requires n > 0 && NonEmpty(iv)
    ensures var s := SliceIntended(iv, n);
      forall x :: CoversInstant(iv, x) <==> exists k :: 0 <= k < |s| && CoversInstant(s[k], x)
  {
    var s := SliceIntended(iv, n);
    forall x | CoversInstant(iv, x)
      ensures exists k :: 0 <= k < |s| && CoversInstant(s[k], x)
    {
      var k := (x - iv.b) / n;
      assert x - iv.b == k * n + (x - iv.b) % n;
      assert At(iv, n, k) <= x < At(iv, n, k) + n;
      StepsAreCoveredCandidates(iv, n);
      assert CoversInstant(iv, At(iv, n, k));
      assert CoversInstant(s[k], x);
    }
    forall k, x | 0 <= k < |s| && CoversInstant(s[k], x)
      ensures CoversInstant(iv, x)
    {
      MulMonotone(0, k, n);
    }
  }

  /** With the intended flag, as with the written one, no instant lies in two pieces. */
  lemma SliceIntendedDisjoint(iv: Interval, n: int)
    requires n > 0 && NonEmpty(iv)
    ensures var s := SliceIntended(iv, n);
      forall j, k, x :: 0 <= j < k < |s| && CoversInstant(s[j], x) ==> !CoversInstant(s[k], x)
  {
    var s := SliceIntended(iv, n);
    forall j, k, x | 0 <= j < k < |s| && CoversInstant(s[j], x)
      ensures !CoversInstant(s[k], x)
    {
      InnerStep(iv, n, j);
      MulMonotone(j + 1, k, n);
    }
  }

  /** The two flags give the same pieces exactly when the span includes its end, or holds
      instants and the step divides its length. */
  lemma SliceAgreesWithIntended(iv: Interval, n: int)
    requires n > 0
    ensures Slice(iv, n) == SliceIntended(iv, n) <==> !iv.excl || (iv.b < iv.e && Duration(iv) % n == 0)
  {
    var s, u := Slice(iv, n), SliceIntended(iv, n);
    var ts := Steps(iv, n);
    if !iv.excl {
      assert forall k :: 0 <= k < |s| ==> s[k] == u[k];
    } else if iv.b < iv.e && Duration(iv) % n == 0 {
      forall k | 0 <= k < |s|
        ensures s[k] == u[k]
      {
        if k < |s| - 1 {
          InnerStep(iv, n, k);
        } else {
          StepsBoundary(iv, n);
          AtNext(iv, n, k);
        }
      }
    } else if iv.b < iv.e {
      SliceLastOvershoots(iv, n);
      assert s[|s| - 1] != u[|s| - 1];
    } else {
      StepsOfEmpty(iv, n);
      assert s[0] != u[0];
    }
  }
}
