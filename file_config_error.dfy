/** The error a parse returns when one or more leaves failed to resolve. */
module FileConfigErrors {
  import opened Wrappers
  import opened FieldErrors
  import opened FileConfigurations
  import Strings

  const CountPrefix: string := "found "
  const ParsingWords: string := " error(s) while parsing "

  datatype FileConfigError = FileConfigError(configFile: string, fileFormat: FileFormat, fieldErrors: seq<FieldError>)
  {
    /** The first line of the message: the number of errors, the format's name and the file. */
    function Header(): (r: string)
      ensures |r| >= |CountPrefix| && r[..|CountPrefix|] == CountPrefix
      ensures var d := Strings.NatToString(|fieldErrors|);
              |r| >= |CountPrefix| + |d| + |ParsingWords|
              && r[|CountPrefix|..|CountPrefix| + |d|] == d
              && r[|CountPrefix| + |d|..|CountPrefix| + |d| + |ParsingWords|] == ParsingWords
      ensures var tail := " config file(" + configFile + "):";
              |r| >= |tail| && r[|r| - |tail|..] == tail
      ensures var name := FileFormatToString(fileFormat);
              var at := |r| - |configFile| - 15 - |name|;
              at >= 0 && r[at..at + |name|] == name
    ensures |r| == |CountPrefix| + |Strings.NatToString(|fieldErrors|)| + |ParsingWords|
                   + |FileFormatToString(fileFormat)| + 15 + |configFile|
    {
      var d := Strings.NatToString(|fieldErrors|);
      var name := FileFormatToString(fileFormat);
      var tail := " config file(" + configFile + "):";
      Strings.Concat5(CountPrefix, d, ParsingWords, name, tail);
      CountPrefix + d + ParsingWords + name + tail
    }

    /** The message: the header line, then the combined report of the field errors. */
    function Error(): (r: string)
      ensures |r| > |Header()| && r[..|Header()|] == Header()
      ensures |r| >= |CountPrefix| && r[..|CountPrefix|] == CountPrefix
      ensures var body := "\n" + FieldErrorsText(fieldErrors);
              |r| > |body| && r[|r| - |body|..] == body
    ensures |r| == |Header()| + 1 + |FieldErrorsText(fieldErrors)|
    {
      Header() + "\n" + FieldErrorsText(fieldErrors)
    }
  }

  /** The error count a message reports: the number written after its leading "found ". */
  function ReportedCount(message: string): Option<nat> {
    if |message| < |CountPrefix| || message[..|CountPrefix|] != CountPrefix then None
    else
      var digits := Strings.LeadingDigits(message[|CountPrefix|..]);
      if digits == [] then None else Some(Strings.DecimalValue(digits))
  }

  /** The count in the message is the number of field errors carried. */
  lemma {:induction false} ReportedCountIsLength(e: FileConfigError)
    ensures ReportedCount(e.Error()) == Some(|e.fieldErrors|)
  {
    var h := e.Header();
    var m := e.Error();
    var d := Strings.NatToString(|e.fieldErrors|);
    var at := |CountPrefix| + |d|;
    assert m[|CountPrefix|..at] == h[|CountPrefix|..at] == d by {
      assert m[..|h|] == h;
      assert m[|CountPrefix|..at] == m[..|h|][|CountPrefix|..at];
    }
    assert m[at] == h[at] == ParsingWords[0];
    Strings.LeadingDigitsAt(m, |CountPrefix|, d);
    Strings.DecimalRoundTrip(|e.fieldErrors|);
  }

  /** The header holds no newline when the file name holds none. */
  lemma HeaderIsOneLine(e: FileConfigError)
    requires '\n' !in e.configFile
    ensures '\n' !in e.Header()
  {
    var digits := Strings.NatToString(|e.fieldErrors|);
    assert '\n' !in digits by {
      assert forall i | 0 <= i < |digits| :: Strings.IsDigit(digits[i]);
    }
    var name := FileFormatToString(e.fileFormat);
    assert '\n' !in name;
    var tail := " config file(" + e.configFile + "):";
    assert '\n' !in tail;
    Strings.NotInConcat5('\n', CountPrefix, digits, ParsingWords, name, tail);
  }

  /** Read line by line, the message is its header followed by one line per field error,
      in order, provided no name, path, field or message holds a newline. */
  lemma {:induction false} MessageLines(e: FileConfigError)
    requires e.fieldErrors != []
    requires '\n' !in e.configFile
    requires forall i | 0 <= i < |e.fieldErrors| ::
      '\n' !in e.fieldErrors[i].field && '\n' !in e.fieldErrors[i].errorMessage
    ensures Strings.Split(e.Error(), '\n') == [e.Header()] + Lines(e.fieldErrors)
  {
    var h := e.Header();
    var body := FieldErrorsText(e.fieldErrors);
    HeaderIsOneLine(e);
    assert e.Error() == h + ("\n" + body);
    Strings.SplitPrefix(h, "\n" + body, '\n');
    assert ("\n" + body)[1..] == body;
    ReportLines(e.fieldErrors);
    assert h + [] == h;
  }
}
