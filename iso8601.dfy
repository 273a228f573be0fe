/**
 * The text form of an interval: the start/end form of an ISO 8601 time interval
 * (ISO 8601:2004, section 4.4), two instants joined by a solidus. The single-instant
 * codec is not part of this model: the encoder and decoder are parameters.
 */
module Iso8601 {
  import opened Results
  import opened TimeInterval

  /** The ArgumentError raised by the parser; it carries the text it was given. */
  datatype ParseError = InvalidInterval(text: string)

  /** `iso8601`: each bound written by the instant encoder, joined by a solidus. The
      encoder stands for `Time#iso8601` with whatever precision arguments were passed. */
  function Format(iv: Interval, enc: int -> string): (text: string)
    ensures '/' !in enc(iv.b) && '/' !in enc(iv.e) ==> SplitAll(text) == [enc(iv.b), enc(iv.e)]
  {
    if '/' !in enc(iv.b) && '/' !in enc(iv.e) then
      SplitJoin([enc(iv.b), enc(iv.e)]);
      assert Join([enc(iv.b), enc(iv.e)]) == enc(iv.b) + "/" + enc(iv.e);
      enc(iv.b) + "/" + enc(iv.e)
    else
      enc(iv.b) + "/" + enc(iv.e)
  }

  /** The fields joined back with solidi. */
  function Join(parts: seq<string>): (s: string)
    requires |parts| >= 1
    ensures parts[0] <= s
    ensures |parts| >= 2 ==> |parts[0]| < |s| && s[|parts[0]|] == '/'
  {
    if |parts| == 1 then parts[0] else parts[0] + "/" + Join(parts[1..])
  }

  /** Every field between solidi, empty ones included. */
  function SplitAll(s: string): (parts: seq<string>)
    ensures |parts| >= 1
    ensures forall i :: 0 <= i < |parts| ==> '/' !in parts[i]
    ensures Join(parts) == s
  {
    if s == [] then [""]
    else if s[0] == '/' then
      var rest := SplitAll(s[1..]);
      assert ([""] + rest)[1..] == rest;
      [""] + rest
    else
      var rest := SplitAll(s[1..]);
      assert ([[s[0]] + rest[0]] + rest[1..])[1..] == rest[1..];
      [[s[0]] + rest[0]] + rest[1..]
  }

  /** Ruby's `split` leaves out the empty fields at the end. */
  function DropTrailingEmpty(parts: seq<string>): (r: seq<string>)
    ensures r <= parts
    ensures r == [] || r[|r| - 1] != ""
    ensures forall i :: |r| <= i < |parts| ==> parts[i] == ""
  {
    if parts == [] then []
    else if parts[|parts| - 1] == "" then DropTrailingEmpty(parts[..|parts| - 1])
    else parts
  }

  /** `str.split("/")`. */
  function Fields(s: string): (fields: seq<string>)
    ensures forall i :: 0 <= i < |fields| ==> '/' !in fields[i]
    ensures fields == [] || fields[|fields| - 1] != ""
    ensures s == "" ==> fields == []
    ensures '/' !in s && s != "" ==> fields == [s]
  {
    DropTrailingEmpty(SplitAll(s))
  }

  /** Every field through the instant decoder; no result if any field fails to decode. */
  function DecodeAll(parts: seq<string>, dec: string -> Option<int>): (r: Option<seq<int>>)
    ensures r.Some? ==> |r.value| == |parts| && forall i :: 0 <= i < |parts| ==> dec(parts[i]) == Some(r.value[i])
    ensures r.None? ==> exists i :: 0 <= i < |parts| && dec(parts[i]).None?
  {
    if parts == [] then Some([])
    else
      match dec(parts[0])
      case None => None
      case Some(t) =>
        match DecodeAll(parts[1..], dec)
        case None =>
          assert forall i :: 0 <= i < |parts| - 1 ==> parts[1..][i] == parts[i + 1];
          None
        case Some(ts) => Some([t] + ts)
  }

  /** `TimeInterval.iso8601`: the decoded fields are handed to the constructor. Two give
      Range's default end flag (the end is included); a third, being a truthy value, makes
      the end excluded; any other number, or a field that does not decode, is an error. */
  function Parse(s: string, dec: string -> Option<int>): (r: Result<Interval, ParseError>)
    ensures r.Err? ==> r.error == InvalidInterval(s)
    ensures r.Ok? <==> 2 <= |Fields(s)| <= 3 && forall i :: 0 <= i < |Fields(s)| ==> dec(Fields(s)[i]).Some?
    ensures r.Ok? ==>
      && dec(Fields(s)[0]) == Some(r.value.b)
      && dec(Fields(s)[1]) == Some(r.value.e)
      && (r.value.excl <==> |Fields(s)| == 3)
  {
    match DecodeAll(Fields(s), dec)
    case None => Err(InvalidInterval(s))
    case Some(ts) =>
      if |ts| == 2 then Ok(Interval(ts[0], ts[1], false))
      else if |ts| == 3 then Ok(Interval(ts[0], ts[1], true))
      else Err(InvalidInterval(s))
  }

  /** A text without a solidus is a single field. */
  lemma SplitWithoutSolidus(s: string)
    requires '/' !in s
    ensures SplitAll(s) == [s]
  {
  }

  /** Splitting right after a first field that holds no solidus. */
  lemma {:induction false} SplitAfterField(x: string, y: string)
    requires '/' !in x
    ensures SplitAll(x + "/" + y) == [x] + SplitAll(y)
  {
    if x == [] {
      assert x + "/" + y == "/" + y;
      assert ("/" + y)[1..] == y;
    } else {
      assert (x + "/" + y)[1..] == x[1..] + "/" + y;
      SplitAfterField(x[1..], y);
      assert [x[0]] + x[1..] == x;
    }
  }

  /** Splitting undoes joining fields that hold no solidus. */
  lemma {:induction false} SplitJoin(parts: seq<string>)
    requires |parts| >= 1
    requires forall i :: 0 <= i < |parts| ==> '/' !in parts[i]
    ensures SplitAll(Join(parts)) == parts
  {
    if |parts| == 1 {
      SplitWithoutSolidus(parts[0]);
    } else {
      SplitJoin(parts[1..]);
      SplitAfterField(parts[0], Join(parts[1..]));
    }
  }

  /** A bare instant (or the empty text) is not an interval. */
  lemma ParseNeedsSolidus(s: string, dec: string -> Option<int>)
    requires '/' !in s
    ensures Parse(s, dec) == Err(InvalidInterval(s))
  {
    SplitWithoutSolidus(s);
  }

  /** Two solidus-free fields, the second not empty, that both decode give the
      end-including interval between the decoded instants. */
  lemma ParseTwoFields(x: string, y: string, dec: string -> Option<int>, b: int, e: int)
    requires '/' !in x && '/' !in y && y != ""
    requires dec(x) == Some(b) && dec(y) == Some(e)
    ensures Parse(x + "/" + y, dec) == Ok(Interval(b, e, false))
  {
    SplitJoin([x, y]);
    assert Join([x, y]) == x + "/" + y;
  }

  /** Formatting then parsing keeps both bounds but always yields an end-including
      interval, given an instant codec that round-trips and writes no solidus. */
  lemma FormatParseRoundTrip(iv: Interval, enc: int -> string, dec: string -> Option<int>)
    requires '/' !in enc(iv.b) && '/' !in enc(iv.e) && enc(iv.e) != ""
    requires dec(enc(iv.b)) == Some(iv.b) && dec(enc(iv.e)) == Some(iv.e)
    ensures Parse(Format(iv, enc), dec) == Ok(Interval(iv.b, iv.e, false))
    ensures Parse(Format(iv, enc), dec) == Ok(iv) <==> !iv.excl
  {
    ParseTwoFields(enc(iv.b), enc(iv.e), dec, iv.b, iv.e);
  }
}
