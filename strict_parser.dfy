/**
  The strict parser (`StrictConfigFileParser`). The file is decoded straight into the
  configuration struct, whose leaves must all be strings; the walk then resolves each of
  them into a second, strictly typed struct. Its walk is a copy of the loose parser's walk
  and is proved here against the same specification, `Reconciliation.Reconcile`.
 */
module StrictParser {
  import opened Wrappers
  import opened FieldErrors
  import opened Shapes
  import opened FileConfigurations
  import opened Oracles
  import opened Reconciliation
  import opened Sequences

  /** `setOutputConfigValue`: resolves the string at `index` of the configuration struct
      into the strict field at `index`, as `ResolveLeaf` says. */
  method SetOutputConfigValue(input: seq<Field>, output: array<Field>, index: nat, loader: Loader)
    returns (fieldError: Option<FieldError>)
    requires index < |input| && index < output.Length
    requires input[index].value.StringValue? && Fillable(output[index].value)
    modifies output
    ensures var r := ResolveLeaf(input[index].name, input[index].value.s, old(output[index].value), loader);
            fieldError == r.error && output[..] == old(output[..])[index := Field(old(output[index].name), r.value)]
  {
    var raw := input[index].value.s;
    var field := output[index];
    if field.value.StringValue? {
      var loaded := loader.loadStringFromEnv(raw);
      if loaded.err.Some? {
        return Some(LeafError(input[index].name, raw, loaded.err.value));
      }
      output[index] := Field(field.name, StringValue(loaded.value));
    } else {
      var loaded := loader.loadIntFromEnv(raw);
      if loaded.err.Some? {
        return Some(LeafError(input[index].name, raw, loaded.err.value));
      }
      output[index] := Field(field.name, IntValue(field.value.kind, Wrap(field.value.kind, loaded.value)));
    }
    return None;
  }

  /** `extractEnv`: fills the strict struct from the configuration struct in place, field
      by field, and returns the errors collected; `Reconcile` says what both are. */
  method ExtractEnv(input: seq<Field>, output: array<Field>, loader: Loader)
    returns (fieldErrors: seq<FieldError>)
    requires Compatible(input, output[..])
    modifies output
    ensures Reconcile(input, old(output[..]), loader) == Completed(output[..], fieldErrors)
    decreases input
  {
    ghost var original := output[..];
    fieldErrors := [];
    for i := 0 to |input|
      invariant forall j | i <= j < output.Length :: output[j] == original[j]
      invariant Walk(input[..i], original[..i], loader) == Completed(output[..i], fieldErrors)
    {
      CompatibleAt(input, original, i);
      ghost var before := output[..];
      if input[i].value.StringValue? {
        var err := SetOutputConfigValue(input, output, i, loader);
        fieldErrors := AppendFieldError(fieldErrors, err);
      } else {
        var target := output[i].value.fields;
        var nested := new Field[|target|](k requires 0 <= k < |target| => target[k]);
        assert nested[..] == target;
        var nestedErrors := ExtractEnv(input[i].value.fields, nested, loader);
        output[i] := Field(output[i].name, StructValue(nested[..]));
        fieldErrors := fieldErrors + nestedErrors;
      }
      assert output[..] == before[i := output[i]];
      PrefixBeforeUpdate(before, i, output[i]);
      WalkSnoc(input[..i], original[..i], input[i], original[i], loader);
      TakeSnoc(input, i);
      TakeSnoc(original, i);
      TakeSnoc(output[..], i);
    }
    TakeAll(input);
    TakeAll(original);
    TakeAll(output[..]);
  }

  /** The two structs a strict parse changes: the configuration struct the file is decoded
      into, and the strict struct. */
  datatype StrictState = StrictState(input: seq<Field>, strict: seq<Field>)

  /** What a strict `ParseConfig` does to both structs and what it returns. */
  function Parse(fileName: string, fileFormat: FileFormat, input: seq<Field>, strict: seq<Field>,
                 loader: Loader, fs: FileSystem): (r: Parsed<StrictState>)
    ensures r.ParsePanicked? ==> fs.statError.None? && fileFormat in {YAML, PROPERTY}
    ensures r.Returned? && r.err.Some? && !r.err.value.ConfigFailed? ==> r.state == StrictState(input, strict)
    ensures r.Returned? && r.err.Some? && r.err.value.ConfigFailed? ==>
              r.err.value.configError.configFile == fileName && r.err.value.configError.fileFormat == fileFormat
              && r.err.value.configError.fieldErrors != []
  {
    if fs.statError.Some? then Returned(StrictState(input, strict), Some(StatFailed(fs.statError.value)))
    else if fileFormat == YAML then
      match fs.readFile
      case Failure(e) => Returned(StrictState(input, strict), Some(ReadFailed(e)))
      case Success(bytes) =>
        match fs.yamlUnmarshal(bytes)
        case Failure(e) => Returned(StrictState(input, strict), Some(UnmarshalFailed(e)))
        case Success(doc) => ReconcileInto(fileName, YAML, Fill(input, doc, []), strict, loader)
    else if fileFormat == JSON then Returned(StrictState(input, strict), Some(JsonNotImplemented))
    else if fileFormat == PROPERTY then
      match fs.tomlDecodeFile
      case Failure(e) => Returned(StrictState(input, strict), Some(DecodeFailed(e)))
      case Success(doc) => ReconcileInto(fileName, PROPERTY, Fill(input, doc, []), strict, loader)
    else Returned(StrictState(input, strict), Some(UnrecognizedFormat))
  }

  function ReconcileInto(fileName: string, fileFormat: FileFormat, decoded: seq<Field>, strict: seq<Field>, loader: Loader): (r: Parsed<StrictState>)
    ensures r.ParsePanicked? <==> !Compatible(decoded, strict)
    ensures r.Returned? ==> r.state.input == decoded
    ensures r.Returned? && r.err.Some? ==>
              r.err.value.ConfigFailed? && r.err.value.configError.configFile == fileName
              && r.err.value.configError.fileFormat == fileFormat && r.err.value.configError.fieldErrors != []
  {
    PanicsIffIncompatible(decoded, strict, loader);
    match Reconcile(decoded, strict, loader)
    case Panicked(p) => ParsePanicked(p)
    case Completed(filled, errs) => Returned(StrictState(decoded, filled), Conclude(fileName, fileFormat, errs))
  }

  /** A file-level failure returns before either struct is touched. */
  lemma FileFailuresFirst(fileName: string, fileFormat: FileFormat, input: seq<Field>, strict: seq<Field>, loader: Loader, fs: FileSystem)
    ensures var untouched := StrictState(input, strict);
      && (fs.statError.Some? ==> Parse(fileName, fileFormat, input, strict, loader, fs) == Returned(untouched, Some(StatFailed(fs.statError.value))))
      && (fs.statError.None? && fileFormat == JSON ==> Parse(fileName, fileFormat, input, strict, loader, fs) == Returned(untouched, Some(JsonNotImplemented)))
      && (fs.statError.None? && fileFormat !in {YAML, JSON, PROPERTY} ==> Parse(fileName, fileFormat, input, strict, loader, fs) == Returned(untouched, Some(UnrecognizedFormat)))
      && (fs.statError.None? && fileFormat == YAML && fs.readFile.Failure? ==> Parse(fileName, fileFormat, input, strict, loader, fs) == Returned(untouched, Some(ReadFailed(fs.readFile.error))))
      && (fs.statError.None? && fileFormat == PROPERTY && fs.tomlDecodeFile.Failure? ==> Parse(fileName, fileFormat, input, strict, loader, fs) == Returned(untouched, Some(DecodeFailed(fs.tomlDecodeFile.error))))
  {
  }

  /** Once the file is decoded, whether the strict parse panics depends only on the two
      structs and not on the file: it panics exactly when they are not compatible. When it
      returns, the configuration struct holds the decoded file, the strict struct keeps its
      shape, and the parse fails exactly when some leaf failed, with at most one error per
      leaf. */
  lemma DecodedParse(fileName: string, fileFormat: FileFormat, input: seq<Field>, strict: seq<Field>,
                     loader: Loader, fs: FileSystem, doc: Document)
    requires fs.statError.None? && fileFormat in {YAML, PROPERTY}
    requires fileFormat == YAML ==> fs.readFile.Success? && fs.yamlUnmarshal(fs.readFile.value) == Success(doc)
    requires fileFormat == PROPERTY ==> fs.tomlDecodeFile == Success(doc)
    ensures var p := Parse(fileName, fileFormat, input, strict, loader, fs);
      && (p.ParsePanicked? <==> !Compatible(input, strict))
      && (p.Returned? ==>
            && p.state.input == Fill(input, doc, [])
            && SameShape(strict, p.state.strict)
            && var errs := Reconcile(Fill(input, doc, []), strict, loader).errors;
               && |errs| <= |LeafValues(input)|
               && p.err == Conclude(fileName, fileFormat, errs))
  {
    var decoded := Fill(input, doc, []);
    CompatibleByShape(input, decoded, strict);
    PanicsIffIncompatible(decoded, strict, loader);
    if Compatible(input, strict) {
      ReconcileKeepsShape(decoded, strict, loader);
      ErrorCountBound(decoded, strict, loader);
      LeafCountByShape(input, decoded);
    }
  }

  /** `ParseConfig`: checks the file, dispatches on the format, decodes the file into the
      configuration struct and fills the strict struct from it, both in place; returns the
      strict struct when no leaf failed. The two structs are distinct objects. */
  method ParseConfig(cf: FileConfiguration, strictConfig: array<Field>, fs: FileSystem)
    returns (r: Result<array<Field>, ParseError>)
    requires cf.fileInputConfiguration != strictConfig
    requires Parse(cf.fileName, cf.fileFormat, cf.fileInputConfiguration[..], strictConfig[..], cf.environmentLoader, fs).Returned?
    modifies cf.fileInputConfiguration, strictConfig
    ensures var p := Parse(cf.fileName, cf.fileFormat, old(cf.fileInputConfiguration[..]), old(strictConfig[..]), cf.environmentLoader, fs);
            && cf.fileInputConfiguration[..] == p.state.input
            && strictConfig[..] == p.state.strict
            && r == Returning(strictConfig, p.err)
  {
    if fs.statError.Some? {
      return Failure(StatFailed(fs.statError.value));
    }
    if cf.fileFormat == YAML {
      if fs.readFile.Failure? {
        return Failure(ReadFailed(fs.readFile.error));
      }
      var decoded := fs.yamlUnmarshal(fs.readFile.value);
      if decoded.Failure? {
        return Failure(UnmarshalFailed(decoded.error));
      }
      DecodeInto(cf.fileInputConfiguration, decoded.value);
      r := Finish(cf, strictConfig, YAML);
    } else if cf.fileFormat == JSON {
      r := Failure(JsonNotImplemented);
    } else if cf.fileFormat == PROPERTY {
      if fs.tomlDecodeFile.Failure? {
        return Failure(DecodeFailed(fs.tomlDecodeFile.error));
      }
      DecodeInto(cf.fileInputConfiguration, fs.tomlDecodeFile.value);
      r := Finish(cf, strictConfig, PROPERTY);
    } else {
      r := Failure(UnrecognizedFormat);
    }
  }

  /** The end of both file parsers: fill the strict struct, then report the errors or
      return the strict struct. */
  method Finish(cf: FileConfiguration, strictConfig: array<Field>, fileFormat: FileFormat)
    returns (r: Result<array<Field>, ParseError>)
    requires cf.fileInputConfiguration != strictConfig
    requires ReconcileInto(cf.fileName, fileFormat, cf.fileInputConfiguration[..], strictConfig[..], cf.environmentLoader).Returned?
    modifies strictConfig
    ensures var p := ReconcileInto(cf.fileName, fileFormat, cf.fileInputConfiguration[..], old(strictConfig[..]), cf.environmentLoader);
            && cf.fileInputConfiguration[..] == p.state.input
            && strictConfig[..] == p.state.strict
            && r == Returning(strictConfig, p.err)
  {
    PanicsIffIncompatible(cf.fileInputConfiguration[..], strictConfig[..], cf.environmentLoader);
    var fieldErrors := ExtractEnv(cf.fileInputConfiguration[..], strictConfig, cf.environmentLoader);
    if |fieldErrors| > 0 {
      return Failure(ConfigFailed(FileConfigErrors.FileConfigError(cf.fileName, fileFormat, fieldErrors)));
    }
    return Success(strictConfig);
  }
}
