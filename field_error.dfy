/** Field errors: one per configuration leaf that failed to resolve, and their rendering. */
module FieldErrors {
  import opened Wrappers
  import Strings

  const ErrorPrefix: string := "error found with field '"

  /** A leaf that failed: `field` identifies it, `errorMessage` says why. */
  datatype FieldError = FieldError(field: string, errorMessage: string)
  {
    /** The text of the error: the field quoted after a fixed prefix, then the message.
        `ParseErrorText` reads it back. */
    function Error(): (r: string)
      ensures |r| == |ErrorPrefix| + |field| + 3 + |errorMessage|
      ensures r[..|ErrorPrefix|] == ErrorPrefix
      ensures r[|ErrorPrefix|..|ErrorPrefix| + |field|] == field
      ensures r[|ErrorPrefix| + |field|..|ErrorPrefix| + |field| + 3] == "': "
      ensures r[|r| - |errorMessage|..] == errorMessage
    {
      ErrorPrefix + field + "': " + errorMessage
    }
  }

  /** First position of `c` in `s`, or `|s|` when it does not occur. */
  function IndexOf(s: string, c: char): (k: nat)
    ensures k <= |s| && c !in s[..k]
    ensures k < |s| ==> s[k] == c
  {
    if s == [] then 0
    else if s[0] == c then 0
    else
      var k := IndexOf(s[1..], c) + 1;
      assert s[..k] == [s[0]] + s[1..][..k - 1];
      k
  }

  /** Reads a field error back from the text `FieldError.Error` produces. */
  function ParseErrorText(s: string): Option<FieldError> {
    if |s| < |ErrorPrefix| || s[..|ErrorPrefix|] != ErrorPrefix then None
    else
      var rest := s[|ErrorPrefix|..];
      var k := IndexOf(rest, '\'');
      if k + 3 <= |rest| && rest[k..k + 3] == "': " then Some(FieldError(rest[..k], rest[k + 3..]))
      else None
  }

  /** The error text determines the error, as long as the field name holds no quote. */
  lemma ErrorTextRoundTrip(e: FieldError)
    requires '\'' !in e.field
    ensures ParseErrorText(e.Error()) == Some(e)
  {
    var s := e.Error();
    var rest := s[|ErrorPrefix|..];
    assert rest == e.field + "': " + e.errorMessage;
    assert rest[..|e.field|] == e.field;
    assert rest[|e.field|] == '\'';
    var k := IndexOf(rest, '\'');
    assert forall j | 0 <= j < |e.field| :: rest[j] == e.field[j] && rest[j] != '\'';
    assert rest[..|e.field| + 1][|e.field|] == '\'';
  }

  /** One line of the combined report: `<field> - '<message>'`. */
  function Line(e: FieldError): (r: string)
    ensures |r| == |e.field| + 4 + |e.errorMessage| + 1
    ensures r[..|e.field|] == e.field && r[|e.field|..|e.field| + 4] == " - '"
    ensures r[|e.field| + 4..|r| - 1] == e.errorMessage && r[|r| - 1] == '\''
  {
    e.field + " - '" + e.errorMessage + "'"
  }

  /** The report lines of a list of errors, in list order. */
  function Lines(fieldErrors: seq<FieldError>): (r: seq<string>)
    ensures |r| == |fieldErrors|
    ensures forall i | 0 <= i < |r| :: r[i] == Line(fieldErrors[i])
  {
    seq(|fieldErrors|, i requires 0 <= i < |fieldErrors| => Line(fieldErrors[i]))
  }

  /** The combined report: one line per error, joined by newlines, no trailing newline.
      It is empty exactly when there are no errors. */
  function FieldErrorsText(fieldErrors: seq<FieldError>): (r: string)
    ensures r == "" <==> fieldErrors == []
  {
    var lines := Lines(fieldErrors);
    assert lines != [] ==> |Strings.Join(lines, "\n")| >= |lines[0]| >= 5;
    Strings.Join(lines, "\n")
  }

  /** Builds the report line by line, as the loop over the slice does. */
  method FieldErrorsToString(fieldErrors: seq<FieldError>) returns (s: string)
    ensures s == FieldErrorsText(fieldErrors)
  {
    var combined: seq<string> := [];
    for i := 0 to |fieldErrors|
      invariant combined == Lines(fieldErrors[..i])
    {
      combined := combined + [Line(fieldErrors[i])];
    }
    assert fieldErrors[..|fieldErrors|] == fieldErrors;
    s := Strings.Join(combined, "\n");
  }

  /** Splitting the report at newlines gives back one line per error, in order, as long as
      no field or message holds a newline itself. */
  lemma ReportLines(fieldErrors: seq<FieldError>)
    requires fieldErrors != []
    requires forall i | 0 <= i < |fieldErrors| ::
      '\n' !in fieldErrors[i].field && '\n' !in fieldErrors[i].errorMessage
    ensures Strings.Split(FieldErrorsText(fieldErrors), '\n') == Lines(fieldErrors)
  {
    var lines := Lines(fieldErrors);
    forall i | 0 <= i < |lines| ensures '\n' !in lines[i] {
      var e := fieldErrors[i];
      assert lines[i] == e.field + " - '" + e.errorMessage + "'";
    }
    Strings.SplitJoin(lines, '\n');
  }

  /** A nil-able field error made from an error value: nil exactly when the error is nil. */
  function ToFieldError(field: string, err: Option<string>): (r: Option<FieldError>)
    ensures r.None? <==> err.None?
    ensures r.Some? ==> r.value.field == field && r.value.errorMessage == err.value
  {
    match err
    case None => None
    case Some(message) => Some(FieldError(field, message))
  }

  /** Appends a nil-able error: the list is unchanged for nil, otherwise it gains the error
      as its last element and keeps its earlier elements. */
  function AppendFieldError(fieldErrors: seq<FieldError>, fieldError: Option<FieldError>): (r: seq<FieldError>)
    ensures fieldError.None? ==> r == fieldErrors
    ensures fieldError.Some? ==> |r| == |fieldErrors| + 1 && r[..|fieldErrors|] == fieldErrors
                                 && r[|fieldErrors|] == fieldError.value
  {
    if fieldError.Some? then fieldErrors + [fieldError.value] else fieldErrors
  }
}
