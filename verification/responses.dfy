/**
 * Validation of the board's answers to a post (`post`) and to the light
 * check (`_check`).
 *
 * A post must be answered by a 302 redirect whose non-empty `location`
 * header carries the new shout's counter in the `fresh` field of its query
 * string. The light check's `x-last-shout` header must hold a number.
 */
module Responses {
  import opened Wrappers
  import opened JsNumbers
  import opened Records

  function CheckResponse(header: Option<string>): (r: Result<int, Error>)
    ensures r.Failure? <==> header.None? || ParseInt(header.value).None?
    ensures r.Failure? ==> r.error == InvalidCheckValue(header)
    ensures r.Success? ==> ParseInt(header.value) == Some(r.value)
  {
    match header
    case None => Failure(InvalidCheckValue(header))
    case Some(h) =>
      match ParseInt(h)
      case None => Failure(InvalidCheckValue(header))
      case Some(n) => Success(n)
  }

  /** Position of the first `c` in `s`, or `|s|` when there is none. */
  function IndexOf(s: string, c: char): (i: nat)
    ensures i <= |s|
    ensures forall k :: 0 <= k < i ==> s[k] != c
    ensures i < |s| ==> s[i] == c
  {
    if |s| == 0 then 0
    else if s[0] == c then 0
    else 1 + IndexOf(s[1..], c)
  }

  /**
   * The query string of a URL: what follows the first `?` that comes before
   * any `#`. A URL without such a `?` has no query.
   */
  function QueryOf(location: string): (q: Option<string>)
    ensures q.None? <==> IndexOf(location, '#') <= IndexOf(location, '?')
    ensures q.Some? ==> q.value == location[IndexOf(location, '?') + 1..IndexOf(location, '#')]
  {
    var beforeHash := location[..IndexOf(location, '#')];
    var j := IndexOf(beforeHash, '?');
    if j == |beforeHash| then None else Some(beforeHash[j + 1..])
  }

  /** The pieces of `s` between occurrences of `sep`, in order. */
  function SplitOn(s: string, sep: char): (parts: seq<string>)
    ensures |parts| > 0
    ensures forall k :: 0 <= k < |parts| ==> sep !in parts[k]
    decreases |s|
  {
    var i := IndexOf(s, sep);
    if i == |s| then [s] else [s[..i]] + SplitOn(s[i + 1..], sep)
  }

  /** The pieces joined back together with `sep` between neighbours. */
  function JoinWith(parts: seq<string>, sep: char): string
    requires |parts| > 0
  {
    if |parts| == 1 then parts[0] else parts[0] + [sep] + JoinWith(parts[1..], sep)
  }

  /** Splitting loses nothing: joining the pieces with the separator restores the query. */
  lemma {:induction false} SplitJoin(s: string, sep: char)
    ensures JoinWith(SplitOn(s, sep), sep) == s
    decreases |s|
  {
    var i := IndexOf(s, sep);
    if i < |s| {
      var rest := SplitOn(s[i + 1..], sep);
      assert SplitOn(s, sep) == [s[..i]] + rest;
      assert ([s[..i]] + rest)[1..] == rest;
      assert JoinWith([s[..i]] + rest, sep) == s[..i] + [sep] + JoinWith(rest, sep);
      SplitJoin(s[i + 1..], sep);
      assert s == s[..i] + [sep] + s[i + 1..];
    }
  }

  /** The name of a `name=value` field; a field without `=` is all name. */
  function FieldKey(field: string): string {
    field[..IndexOf(field, '=')]
  }

  /** The value of a `name=value` field: everything after the first `=`, or empty when there is none. */
  function FieldValue(field: string): string {
    var e := IndexOf(field, '=');
    if e == |field| then "" else field[e + 1..]
  }

  /** Index of the first field named `key`. */
  function FirstField(fields: seq<string>, key: string): (r: Option<nat>)
    ensures r.Some? ==> r.value < |fields| && FieldKey(fields[r.value]) == key
    ensures r.Some? ==> forall k :: 0 <= k < r.value ==> FieldKey(fields[k]) != key
    ensures r.None? ==> forall k :: 0 <= k < |fields| ==> FieldKey(fields[k]) != key
  {
    if |fields| == 0 then None
    else if FieldKey(fields[0]) == key then Some(0)
    else match FirstField(fields[1..], key)
      case None => None
      case Some(i) => Some(i + 1)
  }

  /**
   * The `fresh` value of a redirect target. When the field is repeated, the
   * query parser yields a list whose text form begins with the first value
   * followed by a comma, and `parseInt` reads the same number from it as from
   * the first value alone, so only the first occurrence matters.
   */
  function FreshValue(location: string): (r: Option<string>)
    ensures QueryOf(location).None? ==> r.None?
    ensures QueryOf(location).Some? ==>
      var fields := SplitOn(QueryOf(location).value, '&');
      && (r.None? <==> forall k :: 0 <= k < |fields| ==> FieldKey(fields[k]) != "fresh")
      && (r.Some? ==>
            exists k :: 0 <= k < |fields| && FieldKey(fields[k]) == "fresh" && r.value == FieldValue(fields[k])
              && forall j :: 0 <= j < k ==> FieldKey(fields[j]) != "fresh")
  {
    match QueryOf(location)
    case None => None
    case Some(q) =>
      var fields := SplitOn(q, '&');
      match FirstField(fields, "fresh")
      case None => None
      case Some(i) =>
        assert SplitOn(QueryOf(location).value, '&') == fields;
        assert FieldKey(fields[i]) == "fresh";
        Some(FieldValue(fields[i]))
  }

  function PostResponse(status: int, location: Option<string>): (r: Result<int, Error>)
    ensures r == Failure(InvalidResponse) <==> status != 302 || location.None? || |location.value| == 0
    ensures r == Failure(InvalidPostShoutId) <==>
      status == 302 && location.Some? && |location.value| > 0
      && (FreshValue(location.value).None? || ParseInt(FreshValue(location.value).value).None?)
    ensures r.Success? ==> ParseInt(FreshValue(location.value).value) == Some(r.value)
    ensures r.Failure? ==> r.error == InvalidResponse || r.error == InvalidPostShoutId
    ensures (status == 302 && location.Some? && |location.value| > 0
             && FreshValue(location.value).Some? && ParseInt(FreshValue(location.value).value).Some?)
      ==> r == Success(ParseInt(FreshValue(location.value).value).value)
  {
    if status != 302 || location.None? || |location.value| == 0 then Failure(InvalidResponse)
    else match FreshValue(location.value)
      case None => Failure(InvalidPostShoutId)
      case Some(v) =>
        match ParseInt(v)
        case None => Failure(InvalidPostShoutId)
        case Some(n) => Success(n)
  }

  lemma {:induction false} IndexOfAbsent(s: string, c: char)
    requires c !in s
    ensures IndexOf(s, c) == |s|
  {
    if |s| > 0 {
      IndexOfAbsent(s[1..], c);
    }
  }

  lemma IndexOfAfter(a: string, c: char, b: string)
    requires c !in a
    ensures IndexOf(a + [c] + b, c) == |a|
  {
    var s := a + [c] + b;
    assert forall k :: 0 <= k < |a| ==> s[k] == a[k];
    assert s[|a|] == c;
  }

  /** The query of a target without `#` is everything after the path's `?`. */
  lemma QueryAfterPath(path: string, query: string)
    requires '?' !in path && '#' !in path && '#' !in query
    ensures QueryOf(path + "?" + query) == Some(query)
  {
    var location := path + "?" + query;
    assert location == path + ['?'] + query;
    IndexOfAfter(path, '?', query);
    assert '#' !in location by {
      assert forall k :: 0 <= k < |location| ==> location[k] == '?' || location[k] in path || location[k] in query;
    }
    IndexOfAbsent(location, '#');
    assert |location| == |path| + 1 + |query|;
    assert forall k :: 0 <= k < |query| ==> location[|path| + 1 + k] == query[k];
    assert location[|path| + 1..|location|] == query;
  }

  /** The first `&`-separated field of `field + more` is `field` when `more` is empty or starts a new field. */
  lemma FirstPiece(field: string, more: string)
    requires '&' !in field
    requires |more| == 0 || more[0] == '&'
    ensures SplitOn(field + more, '&')[0] == field
  {
    if |more| == 0 {
      assert field + more == field;
      IndexOfAbsent(field, '&');
    } else {
      assert field + more == field + ['&'] + more[1..];
      IndexOfAfter(field, '&', more[1..]);
    }
  }

  /** A `fresh=` field holding a numeral names `fresh` and carries the numeral. */
  lemma FreshField(numeral: string)
    requires '=' !in numeral
    ensures FieldKey("fresh=" + numeral) == "fresh"
    ensures FieldValue("fresh=" + numeral) == numeral
  {
    assert "fresh=" + numeral == "fresh" + ['='] + numeral;
    IndexOfAfter("fresh", '=', numeral);
  }

  /** The `fresh` value of `path?fresh=<numeral><more>` is the numeral. */
  lemma FreshOfTarget(path: string, numeral: string, more: string)
    requires '?' !in path && '#' !in path
    requires '#' !in more
    requires |more| == 0 || more[0] == '&'
    requires '&' !in numeral && '#' !in numeral && '=' !in numeral
    ensures FreshValue(path + "?fresh=" + numeral + more) == Some(numeral)
  {
    var field := "fresh=" + numeral;
    var query := field + more;
    assert path + "?fresh=" + numeral + more == path + "?" + query;
    assert '&' !in "fresh=" && '#' !in "fresh=";
    assert '&' !in field && '#' !in field;
    assert '#' !in query;
    QueryAfterPath(path, query);
    FirstPiece(field, more);
    FreshField(numeral);
  }

  /** A numeral in the `fresh` field of a redirect target is what a successful post reports. */
  lemma PostRoundTrip(path: string, id: int, more: string)
    requires '?' !in path && '#' !in path
    requires '#' !in more
    requires |more| == 0 || more[0] == '&'
    ensures PostResponse(302, Some(path + "?fresh=" + FormatInt(id) + more)) == Success(id)
  {
    var numeral := FormatInt(id);
    NumeralHasNoSeparators(id);
    FreshOfTarget(path, numeral, more);
    ParseFormatInt(id, "");
    assert numeral + "" == numeral;
  }

  lemma NumeralHasNoSeparators(id: int)
    ensures '&' !in FormatInt(id) && '#' !in FormatInt(id) && '=' !in FormatInt(id)
  {
    var f := FormatInt(id);
    var digits := FormatNat(if id < 0 then -id else id);
    assert forall k :: 0 <= k < |digits| ==> IsDigit(digits[k]);
    assert id < 0 ==> f == "-" + digits;
  }
}
