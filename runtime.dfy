/**
 * The JSON codec of the Runtime type (internal/data/database/runtime.go): a
 * 32-bit count of minutes written as the JSON string "<n> mins".
 */
module RuntimeCodec {
  import opened Wrappers
  import opened Text

  /** Go's int32, the underlying type of Runtime. */
  type Runtime = x: int | -INT32_CUTOFF <= x < INT32_CUTOFF

  datatype RuntimeError = InvalidRuntimeFormat

  /** Printable ASCII other than the quote and the backslash: what strconv.Quote copies unchanged. */
  predicate Plain(c: char) {
    ' ' <= c <= '~' && c != '"' && c != '\\'
  }

  /** strconv.Quote on text that needs no escape sequence. */
  function Quote(s: string): string
    requires forall i :: 0 <= i < |s| ==> Plain(s[i])
  {
    "\"" + s + "\""
  }

  /** Drops carriage returns, as Go does inside a back-quoted string. */
  function DropCR(s: string): (r: string)
    ensures '\r' !in r
  {
    if s == [] then [] else (if s[0] == '\r' then [] else [s[0]]) + DropCR(s[1..])
  }

  /**
   * strconv.Unquote for the forms without escape sequences: a double-quoted
   * string holding no quote, backslash or newline, and a back-quoted string
   * holding no back quote. Single-quoted rune literals yield None; their one
   * character could never pass the runtime format check anyway.
   */
  function Unquote(s: string): (r: Option<string>)
    ensures r.Some? ==> |s| >= 2 && (s[0] == '"' || s[0] == '`') && s[|s| - 1] == s[0]
  {
    if |s| < 2 || s[0] != s[|s| - 1] then None
    else
      var inner := s[1..|s| - 1];
      if s[0] == '"' then
        if '"' in inner || '\\' in inner || '\n' in inner then None else Some(inner)
      else if s[0] == '`' then
        if '`' in inner then None else Some(DropCR(inner))
      else None
  }

  lemma UnquoteOfQuote(s: string)
    requires forall i :: 0 <= i < |s| ==> Plain(s[i])
    ensures Unquote(Quote(s)) == Some(s)
  {
    var q := Quote(s);
    assert q[1..|q| - 1] == s;
  }

  /** Runtime.MarshalJSON: the quoted text "<n> mins"; it never fails. */
  function MarshalJSON(r: Runtime): (json: string)
    ensures |json| >= 7 && json[0] == '"' && json[|json| - 1] == '"'
    ensures json[1..|json| - 1] == FormatInt(r) + " mins"
  {
    FormatIntPlain(r);
    Quote(FormatInt(r) + " mins")
  }

  lemma FormatIntPlain(n: int)
    ensures forall i :: 0 <= i < |FormatInt(n) + " mins"| ==> Plain((FormatInt(n) + " mins")[i])
  {
  }

  /**
   * Runtime.UnmarshalJSON, with the receiver passed in and its new value returned
   * beside the error: the JSON text must unquote, split on " " into exactly two
   * parts, the second "mins", the first a base-10 int32. On any error the
   * receiver keeps its value.
   */
  function UnmarshalJSON(receiver: Runtime, json: string): (r: (Runtime, Option<RuntimeError>))
    ensures r.1.Some? ==> r.0 == receiver
    ensures Unquote(json).None? ==> r.1 == Some(InvalidRuntimeFormat)
  {
    match Unquote(json)
    case None => (receiver, Some(InvalidRuntimeFormat))
    case Some(text) =>
      var parts := Split(text, ' ');
      if |parts| != 2 || parts[1] != "mins" then (receiver, Some(InvalidRuntimeFormat))
      else
        match ParseInt(parts[0], 32)
        case None => (receiver, Some(InvalidRuntimeFormat))
        case Some(i) => (i, None)
  }

  /**
   * What UnmarshalJSON accepts, stated without Split: the unquoted text is a
   * space-free number followed by " mins", and the number fits in 32 bits.
   */
  lemma UnmarshalAccepts(receiver: Runtime, json: string, number: string, v: Runtime)
    requires Unquote(json) == Some(number + " mins")
    requires ' ' !in number
    requires ParseInt(number, 32) == Some(v)
    ensures UnmarshalJSON(receiver, json) == (v, None)
  {
    assert number + " mins" == Join([number, "mins"], ' ');
    SplitOfJoin([number, "mins"], ' ');
  }

  /** Conversely, every accepted input has that shape. */
  lemma UnmarshalOnlyAccepts(receiver: Runtime, json: string)
    requires UnmarshalJSON(receiver, json).1.None?
    ensures exists number ::
      && Unquote(json) == Some(number + " mins") && ' ' !in number
      && ParseInt(number, 32) == Some(UnmarshalJSON(receiver, json).0)
  {
    var text := Unquote(json).value;
    var parts := Split(text, ' ');
    assert |parts| == 2 && parts[1] == "mins";
    JoinOfSplit(text, ' ');
    SplitPiecesFree(text, ' ');
    var number := parts[0];
    assert number in parts;
    assert parts[1..] == ["mins"];
    assert text == number + " mins";
    assert ParseInt(number, 32) == Some(UnmarshalJSON(receiver, json).0);
  }

  /** Unmarshalling what MarshalJSON wrote gives the value back, whatever the receiver held. */
  lemma RoundTrip(receiver: Runtime, r: Runtime)
    ensures UnmarshalJSON(receiver, MarshalJSON(r)) == (r, None)
  {
    FormatIntPlain(r);
    UnquoteOfQuote(FormatInt(r) + " mins");
    ParseIntOfFormatInt(r, 32);
    var s := FormatInt(r);
    assert ' ' !in s;
    UnmarshalAccepts(receiver, MarshalJSON(r), s, r);
  }

  /** The text must hold exactly one space: "5  mins" or "mins" is refused. */
  lemma RejectsUnlessOneSpace(receiver: Runtime, json: string, text: string)
    requires Unquote(json) == Some(text)
    requires Count(text, ' ') != 1
    ensures UnmarshalJSON(receiver, json) == (receiver, Some(InvalidRuntimeFormat))
  {
    SplitLength(text, ' ');
  }

  /** The unit after the space must be spelled "mins": "5 min" is refused. */
  lemma RejectsWrongUnit(receiver: Runtime, json: string, number: string, unit: string)
    requires Unquote(json) == Some(number + " " + unit)
    requires ' ' !in number && ' ' !in unit && unit != "mins"
    ensures UnmarshalJSON(receiver, json) == (receiver, Some(InvalidRuntimeFormat))
  {
    assert number + " " + unit == Join([number, unit], ' ');
    SplitOfJoin([number, unit], ' ');
  }
}
