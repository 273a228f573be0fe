# Timerage time intervals, modelled in Dafny

This project models `Timerage::TimeInterval`, a Ruby value type for a span of time. A
span has a begin instant, an end instant and a flag that says whether the end instant
belongs to it. The model covers:

- the relations: `cover?` of an instant or of an interval, `overlap?`, `adjacent_to?`,
  `==` and `<=>`;
- `duration` and the concatenation `+`;
- the stepping engine (`time_enumerator`, which `step` hands back) and `slice`, which cuts
  the span into pieces one step long;
- the text form: the start/end form of ISO 8601:2004 section 4.4 (`<start>/<end>`),
  through `iso8601` and the parser `TimeInterval.iso8601`.

Instants are integer seconds and steps are positive integers. The instant codec is a pair
of function parameters: an encoder `int -> string` and a decoder `string -> Option<int>`.

Files, one module each:

- `results.dfy` (`Results`): `Option` and `Result`.
- `interval.dfy` (`TimeInterval`): the `Interval` datatype, the relations, `Duration` and `Concat`.
- `stepping.dfy` (`Stepping`): the count arithmetic, the closed form `Steps`, the
  `TimeEnumerator` method with its accumulating loop, and `Slice`.
- `iso8601.dfy` (`Iso8601`): `Format`, Ruby's `split("/")`, and `Parse`.

`TimeEnumerator` is imperative, like the source: it adds the step to the last yielded
instant in a loop. It is proved equal to the closed form `begin + k*n`, and the lemmas
about stepping and slicing are stated over that closed form.

Behaviour of the code worth knowing:

- `+` yields an interval that includes its end. `Range.new` defaults `exclude_end` to false.
- The parser splits on every `/`, not only the first. Ruby drops empty trailing fields.
  Two fields give an interval that includes its end. A third field, being truthy, makes
  the end excluded.
- `step` always yields `begin` first, even when the span holds no instant.
  For example, `[t, t)` yields `t`.
- `slice` of `[t, t)` gives the single piece `[t, t]`, not an empty sequence.
- `overlap?` is the six-way disjunction of the code. For spans that hold instants, it is
  proved to mean "they share an instant".
- A span holding no instant can still overlap another: `[10, 10)` overlaps `[10, 20)`,
  because the second covers the first's begin, though the two share no instant.
- `==` is defined twice in the class, identically. It is modelled once.

## Model

| member | source | states |
|---|---|---|
| `TimeInterval.Duration` | lib/timerage/time_interval.rb:19-21 | `end - begin`, the source expression itself; its meaning is carried by `ConcatDuration` |
| `TimeInterval.CoversInstant` | lib/timerage/time_interval.rb:69-70 | a covered instant lies within `[begin, end]`; every instant in `[begin, end)` is covered; the end itself is covered iff it is included |
| `TimeInterval.Closure` | lib/timerage/time_interval.rb:56 | the same bounds with the end included, covering every instant the span covers |
| `TimeInterval.NonEmptyIffSomeInstant` | lib/timerage/time_interval.rb:69-70 | a span holds an instant exactly when its begin is below its end, or equal to an included end |
| `TimeInterval.CoversInstantAtBoundaries` | spec/timerage/time_interval_spec.rb:22-43 | for `begin < end`: begin and midpoint are covered; the end is covered iff it is included; the instants just outside are not |
| `TimeInterval.CoversInterval` | lib/timerage/time_interval.rb:74-86 | covering implies `begin <= other.begin` and `other.end <= end`, strictly when self excludes its end and other includes its end; every instant of other is then covered by self; for a non-empty other, these bound conditions are also sufficient |
| `TimeInterval.CoversItselfIffNonEmpty` | lib/timerage/time_interval.rb:74-86 | an interval covers itself iff it holds an instant: `[t,t]` does, `[t,t)` does not |
| `TimeInterval.Overlaps` | lib/timerage/time_interval.rb:89-96 | covering in either direction implies overlapping |
| `TimeInterval.OverlapsSymmetric` | lib/timerage/time_interval.rb:89-96 | `a.overlap?(b) == b.overlap?(a)` |
| `TimeInterval.OverlapsIffSharedInstant` | lib/timerage/time_interval.rb:89-96 | for non-empty spans, overlapping holds iff some instant is covered by both |
| `TimeInterval.OverlapsAtSharedBoundary` | lib/timerage/time_interval.rb:94-95 | spans touching at `a.end == b.begin` overlap iff `a` includes its end |
| `TimeInterval.OverlapsEmptySpan` | lib/timerage/time_interval.rb:93 | `[10,10)` overlaps `[10,20)` although no instant is covered by both |
| `TimeInterval.AdjacentTo` | lib/timerage/time_interval.rb:65-67 | for ordered adjacent spans, the only instant the two closed forms can share is the boundary where one ends and the other begins |
| `TimeInterval.AdjacentToSymmetric` | lib/timerage/time_interval.rb:65-67 | adjacency does not depend on operand order |
| `TimeInterval.Concat` | lib/timerage/time_interval.rb:53-57 | fails with NotAdjacent iff the operands are not adjacent; otherwise the result includes its end and covers every instant of both operands |
| `TimeInterval.ConcatCommutes` | lib/timerage/time_interval.rb:53-57 | `a + b == b + a`, in success and in failure |
| `TimeInterval.ConcatIsUnionOfClosures` | lib/timerage/time_interval.rb:56 | for ordered adjacent operands, the result covers exactly the instants of the two operands' closed forms |
| `TimeInterval.ConcatDuration` | lib/timerage/time_interval.rb:19-21 | for ordered adjacent operands, the duration of `a + b` is the sum of their durations |
| `TimeInterval.ConcatOfHalfOpen` | lib/timerage/time_interval.rb:53-57 | `[0,10) + [10,20)` is the closed `[0,20]`; `[0,10) + [11,20)` fails |
| `TimeInterval.Equals` | lib/timerage/time_interval.rb:39-46 | equal iff the other value exposes the same begin, end and end flag; false for a value lacking them |
| `TimeInterval.Compare` | lib/timerage/time_interval.rb:98-102 | against an interval, -1, 0 or 1 as begin is below, equal to or above the other begin; no result against a non-interval |
| `TimeInterval.CompareAntisymmetric` | lib/timerage/time_interval.rb:98-102 | swapping the operands negates the comparison |
| `TimeInterval.EqualsImpliesCompareZero` | lib/timerage/time_interval.rb:104-111 | equal intervals compare as 0 |
| `TimeInterval.CompareIgnoresEnd` | lib/timerage/time_interval.rb:101 | equal begins compare as 0, while `==` still distinguishes the ends and flags |
| `Stepping.StepCount` | lib/timerage/time_interval.rb:131-132 | the source's count expression itself; its meaning is carried by `StepsBoundary` and `StepsAreCoveredCandidates` |
| `Stepping.Steps` | lib/timerage/time_interval.rb:136 | the enumeration is never empty and starts at `begin` |
| `Stepping.TimeEnumerator` | lib/timerage/time_interval.rb:130-142 | the accumulating loop yields exactly the closed form: `max(count, 1)` elements, the k-th being `begin + k*n` |
| `Stepping.StepsBoundary` | lib/timerage/time_interval.rb:131-133 | for a non-empty span, the last element is covered and the next candidate is not |
| `Stepping.StepsAreCoveredCandidates` | lib/timerage/time_interval.rb:130-142 | for a non-empty span, candidate `begin + k*n` (k >= 0) is yielded iff the span covers it |
| `Stepping.StepsOfEmpty` | lib/timerage/time_interval.rb:136 | a span holding no instant still yields exactly `[begin]`, which it does not cover |
| `Stepping.StepsHourByTwentyMinutes` | spec/timerage/time_interval_spec.rb:30-46 | an hour stepped by 1200 s gives 4 instants when the end is included and 3 when it is excluded |
| `Stepping.Piece` | lib/timerage/time_interval.rb:34-36 | a piece begins at its instant, ends one step later or at the span's end, whichever is earlier, and excludes its end iff it is not inclusive |
| `Stepping.PieceInclusive` | lib/timerage/time_interval.rb:35 | for a positive step, a piece includes its end iff a whole step from its begin passes the span's end |
| `Stepping.Slice` | lib/timerage/time_interval.rb:31-37 | one piece per stepped instant |
| `Stepping.SliceTiles` | lib/timerage/time_interval.rb:31-37 | the first piece begins at `begin` and the last ends at `end`; every other piece is a full step, excludes its end and meets the next piece |
| `Stepping.SliceCoversInterval` | lib/timerage/time_interval.rb:31-37 | every instant of the span lies in some piece; every instant of a piece lies in the span's closed form |
| `Stepping.SlicesDisjoint` | lib/timerage/time_interval.rb:31-37 | no instant lies in two pieces |
| `Stepping.SliceLastOvershoots` | lib/timerage/time_interval.rb:35 | when the span excludes its end and the step does not divide its length, the last piece includes that end, which the span does not cover |
| `Stepping.SliceOvershootExample` | lib/timerage/time_interval.rb:31-37 | `[0,10)` in steps of 3 gives `[0,3)`, `[3,6)`, `[6,9)` and the closed `[9,10]` |
| `Stepping.PieceInclusiveIntended` | lib/timerage/time_interval.rb:35 | the corrected flag: for a positive step, a piece includes its end iff the written flag holds and the span includes its end |
| `Stepping.SliceIntended` | lib/timerage/time_interval.rb:35 | with the corrected end flag there is still one piece per stepped instant |
| `Stepping.SliceIntendedCoversExactly` | lib/timerage/time_interval.rb:31-37 | with the corrected end flag, the pieces together hold exactly the span's instants |
| `Stepping.SliceIntendedDisjoint` | lib/timerage/time_interval.rb:31-37 | with the corrected end flag, no instant lies in two pieces |
| `Stepping.SliceAgreesWithIntended` | lib/timerage/time_interval.rb:35 | the written and corrected slices coincide iff the span includes its end, or is non-empty and the step divides its length |
| `Iso8601.Format` | lib/timerage/time_interval.rb:61-63 | when neither encoded bound holds a `/`, the text splits into exactly the two encoded bounds |
| `Iso8601.SplitAll` | lib/timerage/time_interval.rb:154 | at least one field, no field holds a `/`, and joining the fields with `/` gives back the text |
| `Iso8601.DropTrailingEmpty` | lib/timerage/time_interval.rb:154 | keeps a prefix of the fields, drops only empty fields, and leaves no empty last field |
| `Iso8601.Fields` | lib/timerage/time_interval.rb:154 | Ruby's `split("/")`: no field holds a `/`, the last field is not empty, the empty text has no fields, and a non-empty text without `/` is one field |
| `Iso8601.DecodeAll` | lib/timerage/time_interval.rb:154 | succeeds iff every field decodes, and then gives each field's instant in order |
| `Iso8601.Parse` | lib/timerage/time_interval.rb:153-158 | succeeds iff there are two or three fields and all decode; bounds come from the first two fields; the end is excluded iff there is a third field; an error carries the original text |
| `Iso8601.SplitWithoutSolidus` | lib/timerage/time_interval.rb:154 | a text without `/` is a single field |
| `Iso8601.SplitAfterField` | lib/timerage/time_interval.rb:154 | splitting a first field free of `/`, a `/` and a rest gives that field followed by the rest's fields |
| `Iso8601.SplitJoin` | lib/timerage/time_interval.rb:154 | splitting undoes joining fields free of `/` |
| `Iso8601.ParseNeedsSolidus` | lib/timerage/time_interval.rb:156-157 | a bare instant, or the empty text, is rejected as an invalid interval |
| `Iso8601.ParseTwoFields` | lib/timerage/time_interval.rb:153-158 | two decodable fields around one `/` give the end-including interval between their instants |
| `Iso8601.FormatParseRoundTrip` | lib/timerage/time_interval.rb:61-63 | with an instant codec that round-trips and writes no `/`, parsing the formatted text keeps both bounds and always includes the end; so it gives back the original interval iff that included its end |

## Left out

- Calendar-aware arithmetic: Ruby `Time`/`Date` and ActiveSupport durations (time zones, daylight saving, leap days) are external. Instants are integer seconds and a step is a positive integer. The accumulating loop is kept as the source has it.
- Fractional seconds: `Time - Time` is a Float in Ruby, so `duration`, `div` and `%` see floats there. The model uses integers.
- Non-positive steps: a zero step divides by zero, and a negative step makes floor and Euclidean division differ. `n > 0` is a precondition of the stepping functions.
- The instant text codec (`Time#iso8601`, `Time.iso8601`) is not part of this model. It is the function parameters `enc` and `dec`, and so are the precision arguments `iso8601` forwards.
- `initialize` is the datatype constructor. Copying a range-like argument is the identity on `Interval`. `Range.new`'s error for incomparable bounds cannot arise with integer instants.
- The `DelegateClass(Range)` delegation and `to_time` (an alias of `begin`) are Ruby plumbing.
- `rangeish?` duck typing is replaced by types: `cover?` becomes two functions, one per argument kind, and `==` and `<=>` take an `Operand`.
- `step`'s choice between running a block and returning a lazy enumerator: both give the sequence `TimeEnumerator` returns.
- `<=>` against a non-interval falls back to Object's `<=>`. That gives nil here, because the values are not `==`. It is modelled as `None`.
- `Stepping.Slice`: its own contract gives only the piece count; what the pieces are is stated by the lemmas beside it.
- lib/timerage.rb is a `refine Range` wrapper that forwards to the class. It has no logic of its own.

## Findings

| source | as written | input that shows it | evidently intended | confidence | as-written member | corrected member |
|---|---|---|---|---|---|---|
| lib/timerage/time_interval.rb:35 | a piece includes its end whenever a whole step from its begin passes the interval's end, even when the interval excludes its end | `[0, 10)` with step 3: the last piece is `[9, 10]`, which covers 10 | a piece includes its end only when the interval does, so that the pieces partition the interval | medium; not executed | Stepping.SliceLastOvershoots | Stepping.SliceIntendedCoversExactly |

The corrected slice is `Stepping.SliceIntended`. Nothing else in the model depends on
slicing, so the finding touches only these slice members.
`Stepping.SliceAgreesWithIntended` says exactly when the two versions differ.
