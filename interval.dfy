/**
 * Timerage::TimeInterval as a value: a begin instant, an end instant and a flag saying
 * whether the end instant itself belongs to the span. Instants are integers (seconds).
 * This module holds the relations (cover?, overlap?, adjacent_to?, ==, <=>), the
 * duration and the concatenation `+`.
 */
module TimeInterval {
  import opened Results

  /** A span from `b` to `e`; when `excl` holds, `e` is not part of it. As with Ruby's
      Range, nothing requires `b <= e`: a reversed span is accepted and holds no instant. */
  datatype Interval = Interval(b: int, e: int, excl: bool)

  /** The right-hand side of `==` and `<=>`: a value exposing begin, end and
      exclude_end?, or one that lacks them. */
  datatype Operand = Rangeish(iv: Interval) | Unrangeish

  function Min(x: int, y: int): (m: int)
    ensures m <= x && m <= y && (m == x || m == y)
  {
    if x <= y then x else y
  }

  function Max(x: int, y: int): (m: int)
    ensures x <= m && y <= m && (m == x || m == y)
  {
    if x <= y then y else x
  }

  /** `duration`: the number of seconds from begin to end. */
  function Duration(iv: Interval): (d: int)
  {
    iv.e - iv.b
  }

  /** `cover?` for an instant (the Range behaviour the class falls back to). */
  function CoversInstant(iv: Interval, t: int): (r: bool)
    ensures r ==> iv.b <= t <= iv.e
    ensures iv.b <= t < iv.e ==> r
    ensures t == iv.e ==> (r <==> iv.b <= t && !iv.excl)
  {
    iv.b <= t && (t < iv.e || (t == iv.e && !iv.excl))
  }

  /** The span holds at least one instant. */
  predicate NonEmpty(iv: Interval) {
    iv.b < iv.e || (iv.b == iv.e && !iv.excl)
  }

  /** The closed span with the same bounds. */
  function Closure(iv: Interval): (c: Interval)
    ensures c.b == iv.b && c.e == iv.e && !c.excl
    ensures forall t :: CoversInstant(iv, t) ==> CoversInstant(c, t)
  {
    iv.(excl := false)
  }

  lemma NonEmptyIffSomeInstant(iv: Interval)
    ensures NonEmpty(iv) <==> exists t :: CoversInstant(iv, t)
  {
    if NonEmpty(iv) {
      assert CoversInstant(iv, iv.b);
    }
  }

  /** What the specs check of an instant cover: both ends, the midpoint, and the
      instants just outside. */
  lemma CoversInstantAtBoundaries(iv: Interval)
    requires iv.b < iv.e
    ensures CoversInstant(iv, iv.b) && CoversInstant(iv, (iv.b + iv.e) / 2)
    ensures CoversInstant(iv, iv.e) <==> !iv.excl
    ensures !CoversInstant(iv, iv.e + 1) && !CoversInstant(iv, iv.b - 1)
  {
  }

  /** `cover?` for an interval argument, one branch per combination of end flags. */
  function CoversInterval(s: Interval, o: Interval): (r: bool)
    ensures r ==> s.b <= o.b && o.e <= s.e
    ensures r && s.excl && !o.excl ==> o.e < s.e
    ensures r ==> forall t :: CoversInstant(o, t) ==> CoversInstant(s, t)
    ensures NonEmpty(o) ==>
      (r <==> s.b <= o.b && (o.e < s.e || (o.e == s.e && !(s.excl && !o.excl))))
  {
    s.b <= o.b &&
    (if s.excl && o.excl then s.e > o.b && s.b < o.e && o.e <= s.e
     else if s.excl then s.e > o.b && s.b <= o.e && o.e < s.e
     else if o.excl then s.e >= o.b && s.b < o.e && o.e <= s.e
     else s.e >= o.b && s.b <= o.e && o.e <= s.e)
  }

  /** An interval covers itself exactly when it holds an instant: `[t, t]` does, `[t, t)` does not. */
  lemma CoversItselfIffNonEmpty(a: Interval)
    ensures CoversInterval(a, a) <==> NonEmpty(a)
    ensures CoversInterval(Interval(a.b, a.b, false), Interval(a.b, a.b, false))
    ensures !CoversInterval(Interval(a.b, a.b, true), Interval(a.b, a.b, true))
  {
  }

  /** `overlap?`: six alternatives, two of them guarded against a shared excluded end. */
  function Overlaps(s: Interval, o: Interval): (r: bool)
    ensures CoversInterval(s, o) || CoversInterval(o, s) ==> r
  {
    || CoversInterval(s, o)
    || CoversInterval(o, s)
    || CoversInstant(s, o.b)
    || CoversInstant(o, s.b)
    || (CoversInstant(s, o.e) && (!o.excl || o.e != s.b))
    || (CoversInstant(o, s.e) && (!s.excl || o.b != s.e))
  }

  lemma OverlapsSymmetric(a: Interval, b: Interval)
    ensures Overlaps(a, b) == Overlaps(b, a)
  {
  }

  /** For spans that hold instants, `overlap?` means exactly that they share an instant. */
  lemma OverlapsIffSharedInstant(a: Interval, b: Interval)
    requires NonEmpty(a) && NonEmpty(b)
    ensures Overlaps(a, b) <==> exists t :: CoversInstant(a, t) && CoversInstant(b, t)
  {
    if Overlaps(a, b) {
      if CoversInterval(a, b) || CoversInstant(a, b.b) {
        assert CoversInstant(a, b.b) && CoversInstant(b, b.b);
      } else if CoversInterval(b, a) || CoversInstant(b, a.b) {
        assert CoversInstant(a, a.b) && CoversInstant(b, a.b);
      } else {
        // for spans holding instants, the two end-guarded alternatives imply one of the first four
        assert false;
      }
    }
    if exists t :: CoversInstant(a, t) && CoversInstant(b, t) {
      var t :| CoversInstant(a, t) && CoversInstant(b, t);
      if a.b <= b.b {
        assert CoversInstant(a, b.b);
      } else {
        assert CoversInstant(b, a.b);
      }
    }
  }

  /** Spans that touch at one instant overlap only when the earlier one includes it:
      `[0,10)` and `[10,20)` do not, `[0,10]` and `[10,20)` do. */
  lemma OverlapsAtSharedBoundary(a: Interval, b: Interval)
    requires NonEmpty(a) && NonEmpty(b) && a.e == b.b
    ensures Overlaps(a, b) <==> !a.excl
  {
    OverlapsIffSharedInstant(a, b);
    if !a.excl {
      assert CoversInstant(a, a.e) && CoversInstant(b, a.e);
    }
  }

  /** A span holding no instant can still overlap: `[10, 10)` overlaps `[10, 20)`, since the
      second covers the first's begin, though the two share no instant. So the link to shared
      instants above needs both spans non-empty. */
  lemma OverlapsEmptySpan()
    ensures Overlaps(Interval(10, 10, true), Interval(10, 20, true))
    ensures forall t :: !(CoversInstant(Interval(10, 10, true), t) && CoversInstant(Interval(10, 20, true), t))
  {
  }

  /** `adjacent_to?`: one span starts where the other ends; end flags are not consulted. */
  function AdjacentTo(s: Interval, o: Interval): (r: bool)
    ensures r && s.b <= s.e && o.b <= o.e ==>
      forall t :: CoversInstant(Closure(s), t) && CoversInstant(Closure(o), t) ==>
        (t == s.e && t == o.b) || (t == s.b && t == o.e)
  {
    o.b == s.e || o.e == s.b
  }

  lemma AdjacentToSymmetric(a: Interval, b: Interval)
    ensures AdjacentTo(a, b) <==> AdjacentTo(b, a)
  {
  }

  /** The ArgumentError raised by `+`. */
  datatype ConcatError = NotAdjacent

  /** `+`: the span from the earlier begin to the later end. It is built with Range's
      default end flag, so it always includes its end, whatever the operands' flags. */
  function Concat(s: Interval, o: Interval): (r: Result<Interval, ConcatError>)
    ensures r.Ok? <==> AdjacentTo(s, o)
    ensures r.Err? ==> r.error == NotAdjacent
    ensures r.Ok? ==> !r.value.excl
    ensures r.Ok? ==> forall t :: CoversInstant(s, t) || CoversInstant(o, t) ==> CoversInstant(r.value, t)
  {
    if !AdjacentTo(s, o) then Err(NotAdjacent)
    else Ok(Interval(Min(s.b, o.b), Max(s.e, o.e), false))
  }

  lemma ConcatCommutes(a: Interval, b: Interval)
    ensures Concat(a, b) == Concat(b, a)
  {
  }

  /** For ordered adjacent operands, `a + b` holds exactly the instants of the closures
      of `a` and `b`: the shared boundary and the outer end are always included. */
  lemma ConcatIsUnionOfClosures(a: Interval, b: Interval)
    requires a.b <= a.e && b.b <= b.e && AdjacentTo(a, b)
    ensures Concat(a, b).Ok?
    ensures forall t :: CoversInstant(Concat(a, b).value, t) <==>
                          CoversInstant(Closure(a), t) || CoversInstant(Closure(b), t)
  {
    var r := Concat(a, b).value;
    forall t | CoversInstant(r, t)
      ensures CoversInstant(Closure(a), t) || CoversInstant(Closure(b), t)
    {
      if b.b == a.e {
        if t > a.e {
          assert CoversInstant(Closure(b), t);
        }
      } else {
        if t > b.e {
          assert CoversInstant(Closure(a), t);
        }
      }
    }
  }

  /** Joining ordered adjacent spans adds their durations. */
  lemma ConcatDuration(a: Interval, b: Interval)
    requires a.b <= a.e && b.b <= b.e && AdjacentTo(a, b)
    ensures Concat(a, b).Ok? && Duration(Concat(a, b).value) == Duration(a) + Duration(b)
  {
  }

  /** Two half-open hours joined give a closed span. */
  lemma ConcatOfHalfOpen()
    ensures Concat(Interval(0, 10, true), Interval(10, 20, true)) == Ok(Interval(0, 20, false))
    ensures Concat(Interval(0, 10, true), Interval(11, 20, true)) == Err(NotAdjacent)
  {
  }

  /** `==`: the same begin, end and end flag; false, not an error, for a value lacking them. */
  function Equals(s: Interval, other: Operand): (r: bool)
    ensures r <==> other == Rangeish(s)
  {
    match other
    case Rangeish(o) => s.b == o.b && s.e == o.e && s.excl == o.excl
    case Unrangeish => false
  }

  /** `<=>`: against an interval, the ordering of the begins alone; against anything
      else, Object's `<=>`, which gives nil because the two are not `==`. */
  function Compare(s: Interval, other: Operand): (r: Option<int>)
    ensures r.Some? <==> other.Rangeish?
    ensures other.Rangeish? ==>
      && (r == Some(-1) <==> s.b < other.iv.b)
      && (r == Some(0) <==> s.b == other.iv.b)
      && (r == Some(1) <==> s.b > other.iv.b)
  {
    match other
    case Rangeish(o) => Some(if s.b < o.b then -1 else if s.b == o.b then 0 else 1)
    case Unrangeish => None
  }

  lemma CompareAntisymmetric(a: Interval, b: Interval)
    ensures Compare(a, Rangeish(b)).value == -Compare(b, Rangeish(a)).value
  {
  }

  lemma EqualsImpliesCompareZero(a: Interval, other: Operand)
    requires Equals(a, other)
    ensures Compare(a, other) == Some(0)
  {
  }

  /** `<=>` does not agree with `==`: spans with one begin compare as 0 whatever their ends. */
  lemma CompareIgnoresEnd(a: Interval, b: Interval)
    requires a.b == b.b
    ensures Compare(a, Rangeish(b)) == Some(0)
    ensures Equals(a, Rangeish(b)) <==> a.e == b.e && a.excl == b.excl
  {
  }
}
