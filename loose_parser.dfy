/**
  The loose parser (`ConfigFileParserImpl`). It builds an all-string mirror of the
  configuration struct, decodes the file into the mirror, then reconciles the mirror into
  the configuration struct in place.
 */
module LooseParser {
  import opened Wrappers
  import opened FieldErrors
  import opened Shapes
  import opened FileConfigurations
  import opened Oracles
  import opened Reconciliation
  import opened Sequences

  /** A field of the mirror: a struct is mirrored field by field, anything else becomes an
      empty string under the same name. */
  function MirrorField(f: Field): (r: Field)
    ensures r.name == f.name
    ensures r.value.StructValue? <==> f.value.StructValue?
    ensures r.value.StructValue? ==> |r.value.fields| == |f.value.fields|
    ensures !r.value.StructValue? ==> r.value == StringValue("")
    decreases f
  {
    match f.value
    case StructValue(fs) => Field(f.name, StructValue(StringMirror(fs)))
    case _ => Field(f.name, StringValue(""))
  }

  /** The all-string mirror of a struct: one mirrored field per field, in order. */
  function StringMirror(fields: seq<Field>): (r: seq<Field>)
    ensures |r| == |fields|
    ensures forall i | 0 <= i < |fields| :: r[i] == MirrorField(fields[i])
    decreases fields
  {
    seq(|fields|, i requires 0 <= i < |fields| => MirrorField(fields[i]))
  }

  /** Builds the mirror field by field, recursing into nested structs. */
  method ConvertToStringConfig(fields: seq<Field>) returns (mirror: seq<Field>)
    ensures mirror == StringMirror(fields)
    decreases fields
  {
    mirror := [];
    for i := 0 to |fields|
      invariant mirror == StringMirror(fields[..i])
    {
      var f := fields[i];
      if f.value.StructValue? {
        var inner := ConvertToStringConfig(f.value.fields);
        mirror := mirror + [Field(f.name, StructValue(inner))];
      } else {
        mirror := mirror + [Field(f.name, StringValue(""))];
      }
    }
    assert fields[..|fields|] == fields;
  }

  /** The destination leaves the loose pass supports: strings and integers, in nested
      structs to any depth. */
  predicate OutputSupported(fields: seq<Field>)
    decreases fields
  {
    forall i | 0 <= i < |fields| ::
      match fields[i].value
      case StructValue(fs) => OutputSupported(fs)
      case OtherValue(_) => false
      case _ => true
  }

  /** The mirror has the configuration's field count and names at every level and only
      strings at its leaves, so it meets the walk's field-count check; the walk accepts it
      exactly when every leaf of the configuration is a string or an integer. */
  lemma {:induction false} MirrorCompatible(fields: seq<Field>)
    ensures Compatible(StringMirror(fields), fields) <==> OutputSupported(fields)
    decreases fields
  {
    var m := StringMirror(fields);
    forall i | 0 <= i < |fields| ensures FieldCompatible(m[i], fields[i]) <==>
      match fields[i].value
      case StructValue(fs) => OutputSupported(fs)
      case OtherValue(_) => false
      case _ => true
    {
      if fields[i].value.StructValue? {
        MirrorCompatible(fields[i].value.fields);
      }
    }
  }

  /** Decoding a file into the mirror does not change that: the loose pass panics exactly
      when the configuration holds a leaf that is neither a string nor an integer. */
  lemma DecodedMirrorCompatible(fields: seq<Field>, doc: Document)
    ensures Compatible(Fill(StringMirror(fields), doc, []), fields) <==> OutputSupported(fields)
  {
    MirrorCompatible(fields);
    CompatibleByShape(StringMirror(fields), Fill(StringMirror(fields), doc, []), fields);
  }

  /** `setValueForString`: on success the field takes the loaded string; on failure it is
      left as it was and the loader's error is returned. */
  method SetValueForString(input: string, output: array<Field>, index: nat, loader: Loader) returns (err: Option<string>)
    requires index < output.Length && output[index].value.StringValue?
    modifies output
    ensures err == loader.loadStringFromEnv(input).err
    ensures err.Some? ==> output[..] == old(output[..])
    ensures err.None? ==> output[..] == old(output[..])[index := Field(old(output[index].name), StringValue(loader.loadStringFromEnv(input).value))]
  {
    var loaded := loader.loadStringFromEnv(input);
    if loaded.err.Some? {
      return loaded.err;
    }
    output[index] := Field(output[index].name, StringValue(loaded.value));
    return None;
  }

  /** `setValueForInt`: on success the field takes the loaded integer, truncated to the
      field's width; on failure it is left as it was and the loader's error is returned. */
  method SetValueForInt(input: string, output: array<Field>, index: nat, loader: Loader) returns (err: Option<string>)
    requires index < output.Length && output[index].value.IntValue?
    modifies output
    ensures err == loader.loadIntFromEnv(input).err
    ensures err.Some? ==> output[..] == old(output[..])
    ensures err.None? ==>
      var k := old(output[index].value.kind);
      output[..] == old(output[..])[index := Field(old(output[index].name), IntValue(k, Wrap(k, loader.loadIntFromEnv(input).value)))]
  {
    var loaded := loader.loadIntFromEnv(input);
    if loaded.err.Some? {
      return loaded.err;
    }
    var k := output[index].value.kind;
    output[index] := Field(output[index].name, IntValue(k, Wrap(k, loaded.value)));
    return None;
  }

  /** `setSingularConfigValue`: resolves the source string at `index` into the destination
      field at `index`, as `ResolveLeaf` says, and returns the leaf's error, if any. */
  method SetSingularConfigValue(input: seq<Field>, output: array<Field>, index: nat, loader: Loader)
    returns (fieldError: Option<FieldError>)
    requires index < |input| && index < output.Length
    requires input[index].value.StringValue? && Fillable(output[index].value)
    modifies output
    ensures var r := ResolveLeaf(input[index].name, input[index].value.s, old(output[index].value), loader);
            fieldError == r.error && output[..] == old(output[..])[index := Field(old(output[index].name), r.value)]
  {
    var raw := input[index].value.s;
    var err: Option<string>;
    if output[index].value.StringValue? {
      err := SetValueForString(raw, output, index, loader);
    } else {
      err := SetValueForInt(raw, output, index, loader);
    }
    if err.Some? {
      return Some(LeafError(input[index].name, raw, err.value));
    }
    return None;
  }

  /** `setConfigurationValues`: fills `output` from `input` in place, field by field, and
      returns the errors the walk collects; `Reconcile` says what both are. */
  method SetConfigurationValues(input: seq<Field>, output: array<Field>, loader: Loader)
    returns (fieldErrors: seq<FieldError>)
    requires Compatible(input, output[..])
    modifies output
    ensures Reconcile(input, old(output[..]), loader) == Completed(output[..], fieldErrors)
    decreases input
  {
    ghost var original := output[..];
    fieldErrors := [];
    for i := 0 to |input|
      invariant forall j | i <= j < output.Length :: output[j] == original[j]
      invariant Walk(input[..i], original[..i], loader) == Completed(output[..i], fieldErrors)
    {
      CompatibleAt(input, original, i);
      ghost var before := output[..];
      if input[i].value.StringValue? {
        var fieldError := SetSingularConfigValue(input, output, i, loader);
        fieldErrors := AppendFieldError(fieldErrors, fieldError);
      } else {
        var target := output[i].value.fields;
        var nested := new Field[|target|](k requires 0 <= k < |target| => target[k]);
        assert nested[..] == target;
        var nestedErrors := SetConfigurationValues(input[i].value.fields, nested, loader);
        output[i] := Field(output[i].name, StructValue(nested[..]));
        fieldErrors := fieldErrors + nestedErrors;
      }
      assert output[..] == before[i := output[i]];
      PrefixBeforeUpdate(before, i, output[i]);
      WalkSnoc(input[..i], original[..i], input[i], original[i], loader);
      TakeSnoc(input, i);
      TakeSnoc(original, i);
      TakeSnoc(output[..], i);
    }
    TakeAll(input);
    TakeAll(original);
    TakeAll(output[..]);
  }

  /** What a loose `ParseConfig` does to the configuration struct and what it returns. */
  function Parse(fileName: string, fileFormat: FileFormat, input: seq<Field>, loader: Loader, fs: FileSystem): (r: Parsed<seq<Field>>)
    ensures r.ParsePanicked? ==> fs.statError.None? && fileFormat in {YAML, PROPERTY}
    ensures r.Returned? && r.err.Some? && !r.err.value.ConfigFailed? ==> r.state == input
    ensures r.Returned? && r.err.Some? && r.err.value.ConfigFailed? ==>
              r.err.value.configError.configFile == fileName && r.err.value.configError.fileFormat == fileFormat
              && r.err.value.configError.fieldErrors != []
  {
    if fs.statError.Some? then Returned(input, Some(StatFailed(fs.statError.value)))
    else if fileFormat == YAML then ParseYaml(fileName, input, loader, fs)
    else if fileFormat == JSON then Returned(input, Some(JsonNotImplemented))
    else if fileFormat == PROPERTY then ParseProperties(fileName, input, loader, fs)
    else Returned(input, Some(UnrecognizedFormat))
  }

  /** `parseYamlFile`: read the file, decode it into the mirror, reconcile. */
  function ParseYaml(fileName: string, input: seq<Field>, loader: Loader, fs: FileSystem): (r: Parsed<seq<Field>>)
    ensures r.ParsePanicked? ==> fs.readFile.Success?
    ensures r.Returned? && r.err.Some? ==> r.err.value.ReadFailed? || r.err.value.UnmarshalFailed? || r.err.value.ConfigFailed?
    ensures r.Returned? && r.err.Some? && !r.err.value.ConfigFailed? ==> r.state == input
  {
    match fs.readFile
    case Failure(e) => Returned(input, Some(ReadFailed(e)))
    case Success(bytes) =>
      match fs.yamlUnmarshal(bytes)
      case Failure(e) => Returned(input, Some(UnmarshalFailed(e)))
      case Success(doc) => ReconcileInto(fileName, YAML, Fill(StringMirror(input), doc, []), input, loader)
  }

  /** `parsePropertiesFile`: decode the file into the mirror, reconcile. */
  function ParseProperties(fileName: string, input: seq<Field>, loader: Loader, fs: FileSystem): (r: Parsed<seq<Field>>)
    ensures r.ParsePanicked? ==> fs.tomlDecodeFile.Success?
    ensures r.Returned? && r.err.Some? ==> r.err.value.DecodeFailed? || r.err.value.ConfigFailed?
    ensures r.Returned? && r.err.Some? && r.err.value.DecodeFailed? ==> r.state == input
  {
    match fs.tomlDecodeFile
    case Failure(e) => Returned(input, Some(DecodeFailed(e)))
    case Success(doc) => ReconcileInto(fileName, PROPERTY, Fill(StringMirror(input), doc, []), input, loader)
  }

  function ReconcileInto(fileName: string, fileFormat: FileFormat, mirror: seq<Field>, input: seq<Field>, loader: Loader): (r: Parsed<seq<Field>>)
    ensures r.ParsePanicked? <==> !Compatible(mirror, input)
    ensures r.Returned? && r.err.Some? ==>
              r.err.value.ConfigFailed? && r.err.value.configError.configFile == fileName
              && r.err.value.configError.fileFormat == fileFormat && r.err.value.configError.fieldErrors != []
  {
    PanicsIffIncompatible(mirror, input, loader);
    match Reconcile(mirror, input, loader)
    case Panicked(p) => ParsePanicked(p)
    case Completed(filled, errs) => Returned(filled, Conclude(fileName, fileFormat, errs))
  }

  /** A file-level failure returns before the configuration is touched: a missing file
      before anything else, then JSON and unknown formats, then read and decode errors. */
  lemma FileFailuresFirst(fileName: string, fileFormat: FileFormat, input: seq<Field>, loader: Loader, fs: FileSystem)
    ensures fs.statError.Some? ==> Parse(fileName, fileFormat, input, loader, fs) == Returned(input, Some(StatFailed(fs.statError.value)))
    ensures fs.statError.None? && fileFormat == JSON ==> Parse(fileName, fileFormat, input, loader, fs) == Returned(input, Some(JsonNotImplemented))
    ensures fs.statError.None? && fileFormat !in {YAML, JSON, PROPERTY} ==> Parse(fileName, fileFormat, input, loader, fs) == Returned(input, Some(UnrecognizedFormat))
    ensures fs.statError.None? && fileFormat == YAML && fs.readFile.Failure? ==> Parse(fileName, fileFormat, input, loader, fs) == Returned(input, Some(ReadFailed(fs.readFile.error)))
    ensures fs.statError.None? && fileFormat == PROPERTY && fs.tomlDecodeFile.Failure? ==> Parse(fileName, fileFormat, input, loader, fs) == Returned(input, Some(DecodeFailed(fs.tomlDecodeFile.error)))
  {
  }

  /** Once a YAML or property file is decoded, the loose parse panics exactly when the
      configuration has a leaf that is neither a string nor an integer; otherwise it keeps
      the configuration's shape and fails exactly when some leaf failed, with at most one
      error per leaf, under the file's name and format. */
  lemma DecodedParse(fileName: string, fileFormat: FileFormat, input: seq<Field>, loader: Loader, fs: FileSystem, doc: Document)
    requires fs.statError.None? && fileFormat in {YAML, PROPERTY}
    requires fileFormat == YAML ==> fs.readFile.Success? && fs.yamlUnmarshal(fs.readFile.value) == Success(doc)
    requires fileFormat == PROPERTY ==> fs.tomlDecodeFile == Success(doc)
    ensures var p := Parse(fileName, fileFormat, input, loader, fs);
      && (p.ParsePanicked? <==> !OutputSupported(input))
      && (p.Returned? ==>
            && SameShape(input, p.state)
            && var errs := Reconcile(Fill(StringMirror(input), doc, []), input, loader).errors;
               && |errs| <= |LeafValues(input)|
               && p.err == Conclude(fileName, fileFormat, errs))
  {
    var mirror := Fill(StringMirror(input), doc, []);
    DecodedMirrorCompatible(input, doc);
    PanicsIffIncompatible(mirror, input, loader);
    if OutputSupported(input) {
      ReconcileKeepsShape(mirror, input, loader);
      ErrorCountBound(mirror, input, loader);
      LeafCountByShape(StringMirror(input), mirror);
      MirrorLeafCount(input);
    }
  }

  /** The mirror has exactly the configuration's leaves. */
  lemma {:induction false} MirrorLeafCount(fields: seq<Field>)
    ensures |LeafValues(StringMirror(fields))| == |LeafValues(fields)|
    decreases fields
  {
    if fields != [] {
      assert StringMirror(fields)[1..] == StringMirror(fields[1..]);
      MirrorLeafCount(fields[1..]);
      if fields[0].value.StructValue? {
        MirrorLeafCount(fields[0].value.fields);
      }
    }
  }

  /** `ParseConfig`: checks the file, dispatches on the format, and reconciles the decoded
      mirror into the configuration struct in place; returns that struct when no leaf
      failed. A parse that would panic is outside what this method models. */
  method ParseConfig(cf: FileConfiguration, fs: FileSystem) returns (r: Result<array<Field>, ParseError>)
    requires Parse(cf.fileName, cf.fileFormat, cf.fileInputConfiguration[..], cf.environmentLoader, fs).Returned?
    modifies cf.fileInputConfiguration
    ensures var p := Parse(cf.fileName, cf.fileFormat, old(cf.fileInputConfiguration[..]), cf.environmentLoader, fs);
            cf.fileInputConfiguration[..] == p.state && r == Returning(cf.fileInputConfiguration, p.err)
  {
    if fs.statError.Some? {
      return Failure(StatFailed(fs.statError.value));
    }
    if cf.fileFormat == YAML {
      r := ParseYamlFile(cf, fs);
    } else if cf.fileFormat == JSON {
      r := Failure(JsonNotImplemented);
    } else if cf.fileFormat == PROPERTY {
      r := ParsePropertiesFile(cf, fs);
    } else {
      r := Failure(UnrecognizedFormat);
    }
  }

  method ParseYamlFile(cf: FileConfiguration, fs: FileSystem) returns (r: Result<array<Field>, ParseError>)
    requires ParseYaml(cf.fileName, cf.fileInputConfiguration[..], cf.environmentLoader, fs).Returned?
    modifies cf.fileInputConfiguration
    ensures var p := ParseYaml(cf.fileName, old(cf.fileInputConfiguration[..]), cf.environmentLoader, fs);
            cf.fileInputConfiguration[..] == p.state && r == Returning(cf.fileInputConfiguration, p.err)
  {
    if fs.readFile.Failure? {
      return Failure(ReadFailed(fs.readFile.error));
    }
    var stringConfig := ConvertToStringConfig(cf.fileInputConfiguration[..]);
    var decoded := fs.yamlUnmarshal(fs.readFile.value);
    if decoded.Failure? {
      return Failure(UnmarshalFailed(decoded.error));
    }
    r := Finish(cf, YAML, Fill(stringConfig, decoded.value, []));
  }

  method ParsePropertiesFile(cf: FileConfiguration, fs: FileSystem) returns (r: Result<array<Field>, ParseError>)
    requires ParseProperties(cf.fileName, cf.fileInputConfiguration[..], cf.environmentLoader, fs).Returned?
    modifies cf.fileInputConfiguration
    ensures var p := ParseProperties(cf.fileName, old(cf.fileInputConfiguration[..]), cf.environmentLoader, fs);
            cf.fileInputConfiguration[..] == p.state && r == Returning(cf.fileInputConfiguration, p.err)
  {
    var stringConfig := ConvertToStringConfig(cf.fileInputConfiguration[..]);
    if fs.tomlDecodeFile.Failure? {
      return Failure(DecodeFailed(fs.tomlDecodeFile.error));
    }
    r := Finish(cf, PROPERTY, Fill(stringConfig, fs.tomlDecodeFile.value, []));
  }

  /** The end of both file parsers: reconcile, then report the errors or return the struct. */
  method Finish(cf: FileConfiguration, fileFormat: FileFormat, stringConfig: seq<Field>) returns (r: Result<array<Field>, ParseError>)
    requires ReconcileInto(cf.fileName, fileFormat, stringConfig, cf.fileInputConfiguration[..], cf.environmentLoader).Returned?
    modifies cf.fileInputConfiguration
    ensures var p := ReconcileInto(cf.fileName, fileFormat, stringConfig, old(cf.fileInputConfiguration[..]), cf.environmentLoader);
            cf.fileInputConfiguration[..] == p.state && r == Returning(cf.fileInputConfiguration, p.err)
  {
    PanicsIffIncompatible(stringConfig, cf.fileInputConfiguration[..], cf.environmentLoader);
    var fieldErrors := SetConfigurationValues(stringConfig, cf.fileInputConfiguration, cf.environmentLoader);
    if |fieldErrors| > 0 {
      return Failure(ConfigFailed(FileConfigErrors.FileConfigError(cf.fileName, fileFormat, fieldErrors)));
    }
    return Success(cf.fileInputConfiguration);
  }
}
