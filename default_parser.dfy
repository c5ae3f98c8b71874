/**
  The default parser (`DefaultConfigFileParser`). The file is decoded straight into the
  configuration struct, and every string leaf is then replaced, in place, by what the
  environment loader makes of it. There is one struct only, no field-count check and no
  integer support; unlike the other two parsers, a leaf whose load failed still takes the
  value the loader returned alongside its error.
 */
module DefaultParser {
  import opened Wrappers
  import opened FieldErrors
  import opened Shapes
  import opened FileConfigurations
  import opened Oracles
  import Reconciliation
  import opened Sequences

  /** A string leaf takes the loader's value whether or not the load failed; a failed load
      is reported against the text the leaf held before. */
  function LoadLeaf(name: string, raw: string, loader: Loader): (r: Outcome<Field>)
    ensures r.Completed?
    ensures r.value == Field(name, StringValue(loader.loadStringFromEnv(raw).value))
    ensures r.errors == if loader.loadStringFromEnv(raw).err.Some?
                        then [Reconciliation.LeafError(name, raw, loader.loadStringFromEnv(raw).err.value)] else []
    ensures |r.errors| <= 1 && (r.errors == [] <==> loader.loadStringFromEnv(raw).err.None?)
  {
    var l := loader.loadStringFromEnv(raw);
    Completed(Field(name, StringValue(l.value)), if l.err.Some? then [Reconciliation.LeafError(name, raw, l.err.value)] else [])
  }

  /** One field of the in-place pass. */
  function ResolveField(f: Field, loader: Loader): (r: Outcome<Field>)
    ensures r.Completed? ==> r.value.name == f.name
    ensures r.Completed? && f.value.StringValue? ==> |r.errors| <= 1
    decreases f, 1
  {
    match f.value
    case StringValue(raw) => LoadLeaf(f.name, raw, loader)
    case StructValue(inner) =>
      (match Resolve(inner, loader)
       case Completed(fs, es) => Completed(Field(f.name, StructValue(fs)), es)
       case Panicked(p) => Panicked(p))
    case _ => Panicked(InputNotStringOrStruct)
  }

  /** The fields in index order; the first panic wins, errors are concatenated in order. */
  function Resolve(fields: seq<Field>, loader: Loader): Outcome<seq<Field>>
    decreases fields, 0
  {
    if fields == [] then Completed([], [])
    else
      match ResolveField(fields[0], loader)
      case Panicked(p) => Panicked(p)
      case Completed(f, e) =>
        match Resolve(fields[1..], loader)
        case Panicked(p) => Panicked(p)
        case Completed(fs, es) => Completed([f] + fs, e + es)
  }

  /** The structs the pass accepts: strings and nested structs only. */
  predicate StringsAndStructs(fields: seq<Field>)
    decreases fields
  {
    forall i | 0 <= i < |fields| :: FieldStringsAndStructs(fields[i])
  }

  predicate FieldStringsAndStructs(f: Field)
    decreases f
  {
    match f.value
    case StringValue(_) => true
    case StructValue(inner) => StringsAndStructs(inner)
    case _ => false
  }

  /** The pass panics exactly when the struct holds a leaf that is not a string. */
  lemma {:induction false} PanicsIffNotStrings(fields: seq<Field>, loader: Loader)
    ensures Resolve(fields, loader).Panicked? <==> !StringsAndStructs(fields)
    decreases fields, 0
  {
    if fields != [] {
      FieldPanicsIffNotStrings(fields[0], loader);
      PanicsIffNotStrings(fields[1..], loader);
      assert StringsAndStructs(fields) <==> FieldStringsAndStructs(fields[0]) && StringsAndStructs(fields[1..]) by {
        assert forall i | 1 <= i < |fields| :: fields[i] == fields[1..][i - 1];
      }
    }
  }

  lemma {:induction false} FieldPanicsIffNotStrings(f: Field, loader: Loader)
    ensures ResolveField(f, loader).Panicked? <==> !FieldStringsAndStructs(f)
    decreases f, 1
  {
    if f.value.StructValue? {
      PanicsIffNotStrings(f.value.fields, loader);
    }
  }

  /** Decoding keeps the shape, so it cannot make a struct acceptable or unacceptable. */
  lemma {:induction false} StringsAndStructsByShape(a: seq<Field>, b: seq<Field>)
    requires SameShape(a, b)
    ensures StringsAndStructs(a) <==> StringsAndStructs(b)
    decreases a
  {
    forall i | 0 <= i < |a| ensures FieldStringsAndStructs(a[i]) <==> FieldStringsAndStructs(b[i]) {
      assert SameFieldShape(a[i], b[i]);
      if a[i].value.StructValue? {
        StringsAndStructsByShape(a[i].value.fields, b[i].value.fields);
      }
    }
  }

  /** Resolving a field followed by a list. */
  lemma ResolveCons(f: Field, rest: seq<Field>, loader: Loader)
    requires ResolveField(f, loader).Completed? && Resolve(rest, loader).Completed?
    ensures Resolve([f] + rest, loader)
         == Completed([ResolveField(f, loader).value] + Resolve(rest, loader).value,
                      ResolveField(f, loader).errors + Resolve(rest, loader).errors)
  {
    var x := [f] + rest;
    assert x[0] == f && x[1..] == rest;
  }

  /** Resolving two field lists one after the other is resolving their concatenation. */
  lemma {:induction false} ResolveAppend(a: seq<Field>, b: seq<Field>, loader: Loader)
    requires Resolve(a, loader).Completed? && Resolve(b, loader).Completed?
    ensures Resolve(a + b, loader)
         == Completed(Resolve(a, loader).value + Resolve(b, loader).value,
                      Resolve(a, loader).errors + Resolve(b, loader).errors)
    decreases a
  {
    if a == [] {
      assert a + b == b;
      assert [] + Resolve(b, loader).value == Resolve(b, loader).value;
      assert [] + Resolve(b, loader).errors == Resolve(b, loader).errors;
    } else {
      ResolveTail(a, loader);
      ResolveAppend(a[1..], b, loader);
      ResolveAppendStep(a, b, loader);
    }
  }

  /** A list that resolves has a first field and a tail that resolve. */
  lemma ResolveTail(a: seq<Field>, loader: Loader)
    requires a != [] && Resolve(a, loader).Completed?
    ensures ResolveField(a[0], loader).Completed? && Resolve(a[1..], loader).Completed?
    ensures Resolve(a, loader)
         == Completed([ResolveField(a[0], loader).value] + Resolve(a[1..], loader).value,
                      ResolveField(a[0], loader).errors + Resolve(a[1..], loader).errors)
  {
  }

  /** The inductive step of `ResolveAppend`: putting the first field back in front. */
  lemma ResolveAppendStep(a: seq<Field>, b: seq<Field>, loader: Loader)
    requires a != [] && ResolveField(a[0], loader).Completed?
    requires Resolve(a[1..], loader).Completed? && Resolve(b, loader).Completed?
    requires Resolve(a[1..] + b, loader)
          == Completed(Resolve(a[1..], loader).value + Resolve(b, loader).value,
                       Resolve(a[1..], loader).errors + Resolve(b, loader).errors)
    ensures Resolve(a + b, loader)
         == Completed(([ResolveField(a[0], loader).value] + Resolve(a[1..], loader).value) + Resolve(b, loader).value,
                      (ResolveField(a[0], loader).errors + Resolve(a[1..], loader).errors) + Resolve(b, loader).errors)
  {
    var h := ResolveField(a[0], loader);
    var t := Resolve(a[1..], loader);
    var rb := Resolve(b, loader);
    SplitFirst(a, b);
    ResolveCons(a[0], a[1..] + b, loader);
    Assoc([h.value], t.value, rb.value);
    Assoc(h.errors, t.errors, rb.errors);
  }

  /** One step of the in-place pass: resolving one more field extends the resolved prefix. */
  lemma ExtendPrefix(original: seq<Field>, before: seq<Field>, i: nat, resolved: Field,
                     errs: seq<FieldError>, delta: seq<FieldError>, loader: Loader)
    requires i < |original| && i < |before|
    requires Resolve(original[..i], loader) == Completed(before[..i], errs)
    requires ResolveField(original[i], loader) == Completed(resolved, delta)
    ensures Resolve(original[..i + 1], loader) == Completed(before[i := resolved][..i + 1], errs + delta)
  {
    PrefixBeforeUpdate(before, i, resolved);
    ResolveSnoc(original[..i], original[i], loader);
    TakeSnoc(original, i);
    TakeSnoc(before[i := resolved], i);
  }

  lemma ResolveSnoc(fields: seq<Field>, f: Field, loader: Loader)
    requires Resolve(fields, loader).Completed? && ResolveField(f, loader).Completed?
    ensures Resolve(fields + [f], loader)
         == Completed(Resolve(fields, loader).value + [ResolveField(f, loader).value],
                      Resolve(fields, loader).errors + ResolveField(f, loader).errors)
  {
    var g := ResolveField(f, loader);
    assert [f][1..] == [];
    assert Resolve([f], loader) == Completed([g.value] + [], g.errors + []);
    assert [g.value] + [] == [g.value] && g.errors + [] == g.errors;
    ResolveAppend(fields, [f], loader);
  }

  /** The leaf fields of a struct, in pre-order, each under its own name. */
  function LeafFields(fields: seq<Field>): seq<Field>
    decreases fields, 0
  {
    if fields == [] then [] else FieldLeafFields(fields[0]) + LeafFields(fields[1..])
  }

  function FieldLeafFields(f: Field): seq<Field>
    decreases f, 1
  {
    match f.value
    case StructValue(inner) => LeafFields(inner)
    case _ => [f]
  }

  /** Nesting does not matter to the pass: resolving a struct gives the errors, and the
      leaves, of resolving its leaves as one flat list, in pre-order. */
  lemma {:induction false} ResolveFlattens(fields: seq<Field>, loader: Loader)
    requires StringsAndStructs(fields)
    ensures Resolve(fields, loader).Completed? && Resolve(LeafFields(fields), loader).Completed?
    ensures Resolve(fields, loader).errors == Resolve(LeafFields(fields), loader).errors
    ensures LeafFields(Resolve(fields, loader).value) == Resolve(LeafFields(fields), loader).value
    decreases fields, 0
  {
    PanicsIffNotStrings(fields, loader);
    if fields == [] {
      assert LeafFields([]) == [];
    } else {
      var rest := fields[1..];
      assert StringsAndStructs(rest) by {
        assert forall i | 0 <= i < |rest| :: rest[i] == fields[i + 1];
      }
      assert FieldStringsAndStructs(fields[0]);
      FieldResolveFlattens(fields[0], loader);
      ResolveFlattens(rest, loader);
      ResolveAppend(FieldLeafFields(fields[0]), LeafFields(rest), loader);
      var h := ResolveField(fields[0], loader);
      var t := Resolve(rest, loader);
      assert Resolve(fields, loader).value == [h.value] + t.value;
      assert ([h.value] + t.value)[0] == h.value && ([h.value] + t.value)[1..] == t.value;
    }
  }

  lemma {:induction false} FieldResolveFlattens(f: Field, loader: Loader)
    requires FieldStringsAndStructs(f)
    ensures ResolveField(f, loader).Completed? && Resolve(FieldLeafFields(f), loader).Completed?
    ensures ResolveField(f, loader).errors == Resolve(FieldLeafFields(f), loader).errors
    ensures FieldLeafFields(ResolveField(f, loader).value) == Resolve(FieldLeafFields(f), loader).value
    decreases f, 1
  {
    if f.value.StructValue? {
      ResolveFlattens(f.value.fields, loader);
    } else {
      var g := ResolveField(f, loader);
      assert [f][1..] == [];
      assert Resolve([f], loader) == Completed([g.value] + [], g.errors + []);
      assert [g.value] + [] == [g.value] && g.errors + [] == g.errors;
    }
  }

  /** What the pass does to a flat list of strings: every field, failed or not, takes the
      loader's value; the failed ones, and only they, are reported, in order. */
  lemma {:induction false} FlatResolve(leaves: seq<Field>, loader: Loader)
    requires forall i | 0 <= i < |leaves| :: leaves[i].value.StringValue?
    ensures var r := Resolve(leaves, loader);
      && r.Completed?
      && |r.value| == |leaves|
      && (forall i | 0 <= i < |leaves| ::
            r.value[i] == Field(leaves[i].name, StringValue(loader.loadStringFromEnv(leaves[i].value.s).value)))
      && |r.errors| <= |leaves|
      && (r.errors == [] <==> forall i | 0 <= i < |leaves| :: loader.loadStringFromEnv(leaves[i].value.s).err.None?)
    decreases leaves
  {
    if leaves != [] {
      var rest := leaves[1..];
      FlatResolve(rest, loader);
      var t := Resolve(rest, loader);
      var h := ResolveField(leaves[0], loader);
      ConsFirst(leaves);
      ResolveCons(leaves[0], rest, loader);
      var r := Resolve(leaves, loader);
      forall i | 1 <= i < |leaves| ensures r.value[i] == t.value[i - 1] && leaves[i] == rest[i - 1] {
      }
    }
  }

  /** `extractEnv`: replaces every string leaf of the struct, in place, by the loader's
      value for it and returns the errors of the failed loads; `Resolve` says what both are. */
  method ExtractEnv(config: array<Field>, loader: Loader) returns (fieldErrors: seq<FieldError>)
    requires StringsAndStructs(config[..])
    modifies config
    ensures Resolve(old(config[..]), loader) == Completed(config[..], fieldErrors)
    decreases config[..]
  {
    ghost var original := config[..];
    fieldErrors := [];
    for i := 0 to config.Length
      invariant forall j | i <= j < config.Length :: config[j] == original[j]
      invariant Resolve(original[..i], loader) == Completed(config[..i], fieldErrors)
    {
      var field := config[i];
      assert FieldStringsAndStructs(field);
      ghost var before := config[..];
      ghost var errsBefore := fieldErrors;
      ghost var delta: seq<FieldError>;
      FieldPanicsIffNotStrings(field, loader);
      var resolved: Field;
      if field.value.StringValue? {
        var raw := field.value.s;
        var loaded := loader.loadStringFromEnv(raw);
        delta := LoadLeaf(field.name, raw, loader).errors;
        if loaded.err.Some? {
          fieldErrors := AppendFieldError(fieldErrors, Some(Reconciliation.LeafError(field.name, raw, loaded.err.value)));
        } else {
          assert delta == [];
        }
        assert fieldErrors == errsBefore + delta;
        resolved := Field(field.name, StringValue(loaded.value));
      } else {
        var inner := field.value.fields;
        var nested := new Field[|inner|](k requires 0 <= k < |inner| => inner[k]);
        assert nested[..] == inner;
        var err := ExtractEnv(nested, loader);
        resolved := Field(field.name, StructValue(nested[..]));
        delta := err;
        fieldErrors := fieldErrors + err;
      }
      assert ResolveField(field, loader) == Completed(resolved, delta);
      config[i] := resolved;
      assert config[..] == before[i := resolved];
      ExtendPrefix(original, before, i, resolved, errsBefore, delta, loader);
      TakeSnoc(original, i);
      TakeSnoc(config[..], i);
    }
    TakeAll(original);
    TakeAll(config[..]);
  }


  /** What a default `ParseConfig` does to the configuration struct and what it returns. */
  function Parse(fileName: string, fileFormat: FileFormat, input: seq<Field>, loader: Loader, fs: FileSystem): (r: Parsed<seq<Field>>)
    ensures r.ParsePanicked? ==> fs.statError.None? && fileFormat in {YAML, PROPERTY}
    ensures r.Returned? && r.err.Some? && !r.err.value.ConfigFailed? ==> r.state == input
    ensures r.Returned? && r.err.Some? && r.err.value.ConfigFailed? ==>
              r.err.value.configError.configFile == fileName && r.err.value.configError.fileFormat == fileFormat
              && r.err.value.configError.fieldErrors != []
  {
    if fs.statError.Some? then Returned(input, Some(StatFailed(fs.statError.value)))
    else if fileFormat == YAML then
      match fs.readFile
      case Failure(e) => Returned(input, Some(ReadFailed(e)))
      case Success(bytes) =>
        match fs.yamlUnmarshal(bytes)
        case Failure(e) => Returned(input, Some(UnmarshalFailed(e)))
        case Success(doc) => ResolveInto(fileName, YAML, Fill(input, doc, []), loader)
    else if fileFormat == JSON then Returned(input, Some(JsonNotImplemented))
    else if fileFormat == PROPERTY then
      match fs.tomlDecodeFile
      case Failure(e) => Returned(input, Some(DecodeFailed(e)))
      case Success(doc) => ResolveInto(fileName, PROPERTY, Fill(input, doc, []), loader)
    else Returned(input, Some(UnrecognizedFormat))
  }

  function ResolveInto(fileName: string, fileFormat: FileFormat, decoded: seq<Field>, loader: Loader): (r: Parsed<seq<Field>>)
    ensures r.ParsePanicked? <==> !StringsAndStructs(decoded)
    ensures r.Returned? && r.err.Some? ==>
              r.err.value.ConfigFailed? && r.err.value.configError.configFile == fileName
              && r.err.value.configError.fileFormat == fileFormat && r.err.value.configError.fieldErrors != []
  {
    PanicsIffNotStrings(decoded, loader);
    match Resolve(decoded, loader)
    case Panicked(p) => ParsePanicked(p)
    case Completed(resolved, errs) => Returned(resolved, Conclude(fileName, fileFormat, errs))
  }

  /** A file-level failure returns before the struct is touched. */
  lemma FileFailuresFirst(fileName: string, fileFormat: FileFormat, input: seq<Field>, loader: Loader, fs: FileSystem)
    ensures fs.statError.Some? ==> Parse(fileName, fileFormat, input, loader, fs) == Returned(input, Some(StatFailed(fs.statError.value)))
    ensures fs.statError.None? && fileFormat == JSON ==> Parse(fileName, fileFormat, input, loader, fs) == Returned(input, Some(JsonNotImplemented))
    ensures fs.statError.None? && fileFormat !in {YAML, JSON, PROPERTY} ==> Parse(fileName, fileFormat, input, loader, fs) == Returned(input, Some(UnrecognizedFormat))
    ensures fs.statError.None? && fileFormat == YAML && fs.readFile.Failure? ==> Parse(fileName, fileFormat, input, loader, fs) == Returned(input, Some(ReadFailed(fs.readFile.error)))
    ensures fs.statError.None? && fileFormat == PROPERTY && fs.tomlDecodeFile.Failure? ==> Parse(fileName, fileFormat, input, loader, fs) == Returned(input, Some(DecodeFailed(fs.tomlDecodeFile.error)))
  {
  }

  /** Once the file is decoded, the default parse panics exactly when the struct holds a
      leaf that is not a string, whatever the file says. When it returns, the struct keeps
      its shape, every leaf holds the loader's value for the decoded text, and the parse
      fails exactly when some load failed, with one error per failed leaf. */
  lemma DecodedParse(fileName: string, fileFormat: FileFormat, input: seq<Field>, loader: Loader, fs: FileSystem, doc: Document)
    requires fs.statError.None? && fileFormat in {YAML, PROPERTY}
    requires fileFormat == YAML ==> fs.readFile.Success? && fs.yamlUnmarshal(fs.readFile.value) == Success(doc)
    requires fileFormat == PROPERTY ==> fs.tomlDecodeFile == Success(doc)
    ensures var p := Parse(fileName, fileFormat, input, loader, fs);
      && (p.ParsePanicked? <==> !StringsAndStructs(input))
      && (p.Returned? ==>
            var leaves := LeafFields(Fill(input, doc, []));
            && SameShape(input, p.state)
            && |LeafFields(p.state)| == |leaves|
            && (forall i | 0 <= i < |leaves| ::
                  && leaves[i].value.StringValue?
                  && LeafFields(p.state)[i] == Field(leaves[i].name, StringValue(loader.loadStringFromEnv(leaves[i].value.s).value)))
            && (p.err.None? <==> forall i | 0 <= i < |leaves| && leaves[i].value.StringValue? ::
                                   loader.loadStringFromEnv(leaves[i].value.s).err.None?))
  {
    var decoded := Fill(input, doc, []);
    StringsAndStructsByShape(input, decoded);
    PanicsIffNotStrings(decoded, loader);
    if StringsAndStructs(input) {
      KeepsShape(decoded, loader);
      SameShapeTrans(input, decoded, Resolve(decoded, loader).value);
      ResolveFlattens(decoded, loader);
      LeavesAreStrings(decoded);
      FlatResolve(LeafFields(decoded), loader);
    }
  }

  /** Every leaf of an accepted struct is a string. */
  lemma {:induction false} LeavesAreStrings(fields: seq<Field>)
    requires StringsAndStructs(fields)
    ensures forall i | 0 <= i < |LeafFields(fields)| :: LeafFields(fields)[i].value.StringValue?
    decreases fields
  {
    if fields != [] {
      var rest := fields[1..];
      assert StringsAndStructs(rest) by {
        assert forall i | 0 <= i < |rest| :: rest[i] == fields[i + 1];
      }
      LeavesAreStrings(rest);
      assert FieldStringsAndStructs(fields[0]);
      if fields[0].value.StructValue? {
        LeavesAreStrings(fields[0].value.fields);
      }
      var a: seq<Field> := FieldLeafFields(fields[0]);
      var b: seq<Field> := LeafFields(rest);
      if fields[0].value.StructValue? {
        assert a == LeafFields(fields[0].value.fields);
      } else {
        assert fields[0].value.StringValue? && a == [fields[0]];
      }
      assert LeafFields(fields) == a + b;
      forall i | 0 <= i < |a + b| ensures (a + b)[i].value.StringValue? {
        if i >= |a| {
          assert (a + b)[i] == b[i - |a|];
        }
      }
    }
  }

  /** The pass keeps the struct's shape. */
  lemma {:induction false} KeepsShape(fields: seq<Field>, loader: Loader)
    requires StringsAndStructs(fields)
    ensures Resolve(fields, loader).Completed?
    ensures SameShape(fields, Resolve(fields, loader).value)
    decreases fields, 0
  {
    PanicsIffNotStrings(fields, loader);
    if fields != [] {
      var rest := fields[1..];
      assert StringsAndStructs(rest) by {
        assert forall i | 0 <= i < |rest| :: rest[i] == fields[i + 1];
      }
      assert FieldStringsAndStructs(fields[0]);
      FieldKeepsShape(fields[0], loader);
      KeepsShape(rest, loader);
      ResolveTail(fields, loader);
      ConsFirst(fields);
      SameShapeCons(fields[0], ResolveField(fields[0], loader).value, rest, Resolve(rest, loader).value);
    }
  }

  lemma {:induction false} FieldKeepsShape(f: Field, loader: Loader)
    requires FieldStringsAndStructs(f)
    ensures ResolveField(f, loader).Completed?
    ensures SameFieldShape(f, ResolveField(f, loader).value)
    decreases f, 1
  {
    if f.value.StructValue? {
      KeepsShape(f.value.fields, loader);
    }
  }

  /** Sameness of shape is transitive. */
  lemma {:induction false} SameShapeTrans(a: seq<Field>, b: seq<Field>, c: seq<Field>)
    requires SameShape(a, b) && SameShape(b, c)
    ensures SameShape(a, c)
    decreases a
  {
    forall i | 0 <= i < |a| ensures SameFieldShape(a[i], c[i]) {
      assert SameFieldShape(a[i], b[i]) && SameFieldShape(b[i], c[i]);
      if a[i].value.StructValue? {
        SameShapeTrans(a[i].value.fields, b[i].value.fields, c[i].value.fields);
      }
    }
  }

  /** `ParseConfig`: checks the file, dispatches on the format, decodes the file into the
      configuration struct and resolves its leaves, both in place; returns the struct when
      no load failed. */
  method ParseConfig(cf: FileConfiguration, fs: FileSystem) returns (r: Result<array<Field>, ParseError>)
    requires Parse(cf.fileName, cf.fileFormat, cf.fileInputConfiguration[..], cf.environmentLoader, fs).Returned?
    modifies cf.fileInputConfiguration
    ensures var p := Parse(cf.fileName, cf.fileFormat, old(cf.fileInputConfiguration[..]), cf.environmentLoader, fs);
            cf.fileInputConfiguration[..] == p.state && r == Returning(cf.fileInputConfiguration, p.err)
  {
    if fs.statError.Some? {
      return Failure(StatFailed(fs.statError.value));
    }
    if cf.fileFormat == YAML {
      if fs.readFile.Failure? {
        return Failure(ReadFailed(fs.readFile.error));
      }
      var decoded := fs.yamlUnmarshal(fs.readFile.value);
      if decoded.Failure? {
        return Failure(UnmarshalFailed(decoded.error));
      }
      DecodeInto(cf.fileInputConfiguration, decoded.value);
      r := Finish(cf, YAML);
    } else if cf.fileFormat == JSON {
      r := Failure(JsonNotImplemented);
    } else if cf.fileFormat == PROPERTY {
      if fs.tomlDecodeFile.Failure? {
        return Failure(DecodeFailed(fs.tomlDecodeFile.error));
      }
      DecodeInto(cf.fileInputConfiguration, fs.tomlDecodeFile.value);
      r := Finish(cf, PROPERTY);
    } else {
      r := Failure(UnrecognizedFormat);
    }
  }

  /** The end of both file parsers: resolve the leaves, then report the errors or return
      the struct. */
  method Finish(cf: FileConfiguration, fileFormat: FileFormat) returns (r: Result<array<Field>, ParseError>)
    requires ResolveInto(cf.fileName, fileFormat, cf.fileInputConfiguration[..], cf.environmentLoader).Returned?
    modifies cf.fileInputConfiguration
    ensures var p := ResolveInto(cf.fileName, fileFormat, old(cf.fileInputConfiguration[..]), cf.environmentLoader);
            cf.fileInputConfiguration[..] == p.state && r == Returning(cf.fileInputConfiguration, p.err)
  {
    PanicsIffNotStrings(cf.fileInputConfiguration[..], cf.environmentLoader);
    var fieldErrors := ExtractEnv(cf.fileInputConfiguration, cf.environmentLoader);
    if |fieldErrors| > 0 {
      return Failure(ConfigFailed(FileConfigErrors.FileConfigError(cf.fileName, fileFormat, fieldErrors)));
    }
    return Success(cf.fileInputConfiguration);
  }
}
