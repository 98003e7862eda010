/**
 * The readers of request parameters in cmd/api/helpers.go: the id in the
 * URL path and the string, comma-separated and integer values of the query
 * string, with their defaults.
 */
module RequestParams {
  import opened Wrappers
  import opened Text
  import opened Validation

  /** url.Values: every key of the query string with all the values given for it. */
  type Query = map<string, seq<string>>

  const MSG_INVALID_ID: string := "invalid id parameter"
  const MSG_NOT_INTEGER: string := "must be an integer value"

  /** url.Values.Get: the first value given for `key`, or "" when there is none. */
  function QueryGet(qs: Query, key: string): string {
    if key in qs && |qs[key]| > 0 then qs[key][0] else ""
  }

  /**
   * readIDParam: the "id" path parameter as a base-10 int64 of at least 1;
   * anything else yields 0 and an error.
   */
  function ReadIDParam(param: string): (r: (int, Option<string>))
    ensures r.1.Some? ==> r == (0, Some(MSG_INVALID_ID))
  {
    match ParseInt(param, 64)
    case None => (0, Some(MSG_INVALID_ID))
    case Some(id) => if id < 1 then (0, Some(MSG_INVALID_ID)) else (id, None)
  }

  /** The id is read exactly when the parameter is a decimal int64 of at least 1, and then it is that number. */
  lemma ReadIDParamAccepts(param: string)
    ensures ReadIDParam(param).1.None? <==> ParseInt(param, 64).Some? && ParseInt(param, 64).value >= 1
    ensures ReadIDParam(param).1.None? ==> ReadIDParam(param).0 == ParseInt(param, 64).value
  {
  }

  /** The path /v1/news/<id> that the API writes for a stored item reads back as that id. */
  lemma ReadIDParamOfFormatInt(id: int)
    requires 1 <= id < INT64_CUTOFF
    ensures ReadIDParam(FormatInt(id)) == (id, None)
  {
    ParseIntOfFormatInt(id, 64);
  }

  /** readString: the query value, or the default when it is empty or missing. */
  function ReadString(qs: Query, key: string, defaultValue: string): (s: string)
    ensures s == defaultValue <== QueryGet(qs, key) == ""
    ensures QueryGet(qs, key) != "" ==> s == QueryGet(qs, key)
  {
    var s := QueryGet(qs, key);
    if s == "" then defaultValue else s
  }

  /** readCSV: the query value split at every comma, or the default when it is empty or missing. */
  function ReadCSV(qs: Query, key: string, defaultValue: seq<string>): seq<string> {
    var csv := QueryGet(qs, key);
    if csv == "" then defaultValue else Split(csv, ',')
  }

  /**
   * A non-empty value is cut into pieces that hold no comma and join back
   * into the value, one more piece than there are commas, empty pieces kept.
   */
  lemma ReadCSVPieces(qs: Query, key: string, defaultValue: seq<string>)
    ensures QueryGet(qs, key) == "" ==> ReadCSV(qs, key, defaultValue) == defaultValue
    ensures QueryGet(qs, key) != "" ==>
      var pieces := ReadCSV(qs, key, defaultValue);
      && Join(pieces, ',') == QueryGet(qs, key)
      && (forall p :: p in pieces ==> ',' !in p)
      && |pieces| == Count(QueryGet(qs, key), ',') + 1
  {
    var csv := QueryGet(qs, key);
    if csv != "" {
      JoinOfSplit(csv, ',');
      SplitPiecesFree(csv, ',');
      SplitLength(csv, ',');
    }
  }

  /** A list written with commas between comma-free entries reads back as that list. */
  lemma ReadCSVOfJoin(qs: Query, key: string, defaultValue: seq<string>, values: seq<string>)
    requires |values| >= 1 && forall p :: p in values ==> ',' !in p
    requires QueryGet(qs, key) == Join(values, ',') && Join(values, ',') != ""
    ensures ReadCSV(qs, key, defaultValue) == values
  {
    SplitOfJoin(values, ',');
  }

  /** The query value is missing, empty or a decimal int. */
  predicate IntParamOk(qs: Query, key: string) {
    QueryGet(qs, key) == "" || ParseInt(QueryGet(qs, key), 64).Some?
  }

  /** The integer readInt yields: the parsed value, or the default when there is none. */
  function IntParam(qs: Query, key: string, defaultValue: int): int {
    var s := QueryGet(qs, key);
    if s != "" && ParseInt(s, 64).Some? then ParseInt(s, 64).value else defaultValue
  }

  /**
   * readInt: the query value as a decimal int (64 bits wide), or the default
   * when it is empty or missing; a value that is not an integer records
   * "must be an integer value" under `key` and also yields the default.
   */
  method ReadInt(qs: Query, key: string, defaultValue: int, v: Validator) returns (i: int)
    modifies v
    ensures i == IntParam(qs, key, defaultValue)
    ensures v.errors == Record(old(v.errors), Rule(IntParamOk(qs, key), key, MSG_NOT_INTEGER))
    ensures QueryGet(qs, key) == "" ==> i == defaultValue && v.errors == old(v.errors)
    ensures QueryGet(qs, key) != "" && ParseInt(QueryGet(qs, key), 64).None? ==>
      i == defaultValue && v.errors == Record(old(v.errors), Rule(false, key, MSG_NOT_INTEGER))
    ensures QueryGet(qs, key) != "" && ParseInt(QueryGet(qs, key), 64).Some? ==>
      i == ParseInt(QueryGet(qs, key), 64).value && v.errors == old(v.errors)
  {
    var s := QueryGet(qs, key);
    if s == "" {
      return defaultValue;
    }
    var parsed := ParseInt(s, 64);
    if parsed.None? {
      v.AddError(key, MSG_NOT_INTEGER);
      return defaultValue;
    }
    i := parsed.value;
  }
}
