/**
 * The request-parameter parsers of the utilities package: an integer query
 * parameter, a UUID path parameter and an ISO calendar date.  Go's out-pointer
 * `dest` is an input value plus the value it holds afterwards.
 */
module Parse {
  import opened Wrappers
  import Strconv
  import Uuids
  import Dates

  /** A decoded URL query: every key with its values in order of appearance. */
  type Query = map<string, seq<string>>

  /** `url.Values.Get`: the first value of the key, or "" when it has none. */
  function QueryGet(q: Query, key: string): string
  {
    if key in q && |q[key]| > 0 then q[key][0] else ""
  }

  /** What a parser leaves behind: the value of `*dest` after the call, and the error. */
  datatype Outcome<T> = Outcome(dest: T, err: Option<string>)

  /** `ParseQueryParamInt`. */
  function ParseQueryParamInt(q: Query, dest: int, paramName: string, required: bool): (r: Outcome<int>)
    ensures var param := QueryGet(q, paramName);
      && (r.err.None? <==> (param == "" && !required) || Strconv.IsDecimalInt64(param))
      && (r.err.None? && param != "" ==> r.dest == Strconv.DecimalValue(param))
      && (param == "" || r.err.Some? ==> r.dest == dest)
      && (param == "" && required ==> r.err == Some("query param " + paramName + " is required"))
      && (param != "" && r.err.Some? ==> r.err == Some("invalid value '" + param + "': expected an integer"))
  {
    var param := QueryGet(q, paramName);
    Strconv.AtoiSpec(param);
    if param == "" then
      if required then Outcome(dest, Some("query param " + paramName + " is required"))
      else Outcome(dest, None)
    else
      var parsed := Strconv.Atoi(param);
      if parsed.err != Strconv.NoError then
        Outcome(dest, Some("invalid value '" + param + "': expected an integer"))
      else Outcome(parsed.value, None)
  }

  /** `ParseUUID`: a required UUID path parameter. */
  function ParseUUID(str: string, paramName: string): (r: Result<Uuids.Uuid, string>)
    ensures str == "" ==> r == Err("path parameter " + paramName + " is required")
    ensures str != "" && r.Err? ==> r == Err("invalid path parameter " + paramName + ": expected a valid UUID")
    ensures r.Ok? <==> str != "" && Uuids.Parse(str).Some?
    ensures r.Ok? ==> |str| == 36 && Uuids.Parse(str) == Some(r.value)
  {
    if str == "" then Err("path parameter " + paramName + " is required")
    else
      match Uuids.Parse(str)
      case None => Err("invalid path parameter " + paramName + ": expected a valid UUID")
      case Some(u) => Ok(u)
  }

  /** A canonical lower-case UUID is accepted, and the value prints back as the input. */
  lemma ParseUUIDLowerCase(str: string, paramName: string)
    requires Uuids.Parse(str).Some?
    requires forall i :: 0 <= i < |str| && i !in {8, 13, 18, 23} ==> Uuids.IsLowerHex(str[i])
    ensures ParseUUID(str, paramName).Ok?
    ensures Uuids.String(ParseUUID(str, paramName).value) == str
  {
    Uuids.StringParse(str);
  }

  /** Every printed UUID is accepted as that UUID. */
  lemma ParseUUIDString(u: Uuids.Uuid, paramName: string)
    ensures ParseUUID(Uuids.String(u), paramName) == Ok(u)
  {
    Uuids.ParseString(u);
  }

  /** `ParseIsoDate`: on success `*dest` holds the date, and formatting it with the same layout
      reproduces the input exactly; on failure `*dest` is untouched. */
  function ParseIsoDate(dateStr: string, dest: Dates.Date): (r: Outcome<Dates.Date>)
    ensures r.err.None? <==> Dates.Parse(dateStr).Ok?
    ensures r.err.None? ==> Dates.Valid(r.dest) && Dates.Format(r.dest) == dateStr
    ensures r.err.Some? ==> r.dest == dest
    ensures r.err.Some? ==> r.err == Some("invalid date format: expected YYYY-MM-DD, got " + dateStr)
  {
    match Dates.Parse(dateStr)
    case Err(_) => Outcome(dest, Some("invalid date format: expected YYYY-MM-DD, got " + dateStr))
    case Ok(d) =>
      Dates.FormatParse(dateStr);
      Outcome(d, None)
  }

  /** The concrete cases of the parsers' unit tests: "age=25" gives 25. */
  lemma QueryParamValidExample()
    ensures ParseQueryParamInt(map["age" := ["25"]], 0, "age", true) == Outcome(25, None)
  {
    var q: Query := map["age" := ["25"]];
    assert QueryGet(q, "age") == "25";
    assert Strconv.SplitSign("25") == (false, "25");
    assert Strconv.DigitsValue("25") == 25 by {
      assert "25"[..1] == "2";
    }
    assert Strconv.IsDecimalInt64("25");
  }

  /** A missing optional parameter is no error and leaves `dest` alone; a missing required one
      is an error. */
  lemma QueryParamMissingExamples(dest: int)
    ensures ParseQueryParamInt(map[], dest, "age", false) == Outcome(dest, None)
    ensures ParseQueryParamInt(map[], dest, "age", true).err.Some?
  {
    assert QueryGet(map[], "age") == "";
  }

  /** "age=abc" is refused and `dest` is left alone. */
  lemma QueryParamInvalidExample(dest: int)
    ensures ParseQueryParamInt(map["age" := ["abc"]], dest, "age", true) ==
      Outcome(dest, Some("invalid value 'abc': expected an integer"))
  {
    var q: Query := map["age" := ["abc"]];
    assert QueryGet(q, "age") == "abc";
    assert !Strconv.IsDecimalInt64("abc") by {
      assert Strconv.SplitSign("abc") == (false, "abc");
      assert !Strconv.IsDigit("abc"[0]);
    }
    assert "invalid value '" + "abc" + "': expected an integer" == "invalid value 'abc': expected an integer";
  }

  lemma UuidExamples()
    ensures ParseUUID("", "id") == Err("path parameter id is required")
    ensures ParseUUID("not-a-uuid", "id") == Err("invalid path parameter id: expected a valid UUID")
  {
    assert "path parameter " + "id" + " is required" == "path parameter id is required";
    assert "invalid path parameter " + "id" + ": expected a valid UUID"
      == "invalid path parameter id: expected a valid UUID";
  }

  lemma IsoDateExamples(dest: Dates.Date)
    ensures ParseIsoDate("2023-10-27", dest) == Outcome(Dates.Date(2023, 10, 27), None)
    ensures ParseIsoDate("27-10-2023", dest).dest == dest
    ensures ParseIsoDate("27-10-2023", dest).err.Some?
    ensures ParseIsoDate("2023-13-45", dest).dest == dest
    ensures ParseIsoDate("2023-13-45", dest).err.Some?
  {
    assert Dates.Shaped("2023-10-27");
    assert Dates.Shaped("2023-13-45");
    assert !Dates.Shaped("27-10-2023") by {
      assert "27-10-2023"[4] != '-';
    }
  }
}
