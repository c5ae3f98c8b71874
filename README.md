# goconfig, modelled in Dafny

goconfig reads a YAML or TOML ("property") configuration file into a Go struct. It then
passes every string leaf of that struct through an environment loader, which expands
placeholders. Each leaf that fails to load becomes a field error. A parse with at least
one field error fails with a `FileConfigError` that lists every field error in the order
the leaves were visited.

The library has three parsers, and each carries its own copy of the walk:

- **Loose** (`ConfigFileParserImpl`): builds an all-string mirror of the configuration struct, decodes the file into the mirror, then walks the mirror and the configuration in step. String and integer leaves of the configuration are filled in place.
- **Strict** (`StrictConfigFileParser`): decodes the file into the configuration struct, whose leaves are all strings, then walks it in step with a second, typed struct.
- **Default** (`DefaultConfigFileParser`): decodes the file into the configuration struct and overwrites each of its string leaves in place with what the loader returns.

The model has these parts:

- **Structs as trees.** Go reflection is replaced by an explicit tree. `Shapes.Value` is a string, a sized integer, a nested struct, or a field of any other type. `Shapes.Field` is a name and a value.
- **Environment loader.** `Shapes.Loader` is two caller-supplied functions. Each returns Go's pair of a value and an optional error.
- **Panics.** A structural mismatch, which panics in Go, is the explicit outcome `Panicked`. It is kept apart from field errors.
- **Specifications.** Each pass is specified by a total function:
  - `Reconciliation.Reconcile` for the loose and strict passes, which are the same algorithm;
  - `DefaultParser.Resolve` for the default pass.
- **In-place methods.** The methods that change a struct in place work on an `array<Field>`, as the Go code writes through a pointer. Each is proved to leave exactly the state the specification function computes, with the errors it computes.
- **Properties.** The lemmas prove the properties of the specifications: when a walk panics, which shape it keeps, which values the leaves receive, and in which order errors are reported.

The loose `setConfigurationValues` and the strict `extractEnv` are proved against the same function, `Reconcile`. This shows that the two copies behave identically.

The file system and the two decoders are inputs of the model (`Oracles.FileSystem`). A decoded file is a map from a field's path to its text. Decoding overwrites the string leaves the file mentions and keeps the struct's shape.

Two behaviours of the code are worth noting:

- **Failed load.** What a failed load does to the destination leaf differs between the parsers. In the loose and strict parsers the leaf is left untouched, because the loader's error returns before the field is written. In the default parser the leaf takes whatever value the loader returned alongside its error, because the write comes after the error branch.
- **Integers in the default parser.** These are not supported: an integer leaf panics like any other non-string leaf.

## Model

| member | source | states |
|---|---|---|
| FieldErrors.FieldError.Error | field.error.go:20-22 | the message is `error found with field '`, then the field, then `': `, then the error message, at exactly those positions |
| FieldErrors.ErrorTextRoundTrip | field.error.go:20-22 | when the field holds no quote, the field and the message can be read back out of the text |
| FieldErrors.Line | field.error.go:28-29 | a line is the field, then ` - '`, then the message, then a closing quote, at exactly those positions; `Lines` and `ReportLines` build on it |
| FieldErrors.Lines | field.error.go:27-30 | one line per field error, in list order, each `<field> - '<message>'` |
| FieldErrors.FieldErrorsText | field.error.go:25-32 | the combined report is empty exactly when there are no field errors |
| FieldErrors.FieldErrorsToString | field.error.go:25-32 | the loop that collects the lines and joins them returns the combined report |
| FieldErrors.ReportLines | field.error.go:25-32 | for a non-empty list whose fields and messages hold no newline, splitting the report at newlines gives back the lines in order: a newline joins each pair and none trails |
| Strings.SplitJoin | field.error.go:31 | splitting text that was joined with a separator char returns the parts, if no part holds that char |
| FieldErrors.ToFieldError | field.error.go:35-43 | nil exactly when the error is nil; otherwise the field and the error's text |
| FieldErrors.AppendFieldError | field.error.go:46-51 | nil leaves the list as it was; a field error is appended as the last element and the earlier elements are kept |
| FileConfigurations.FileFormatToString | file.configuration.go:20-30 | the fallback name "Unknown file format" is returned exactly for values other than YAML, JSON and PROPERTY |
| FileConfigurations.FormatNameRoundTrip | file.configuration.go:20-30 | YAML, JSON and PROPERTY have distinct names from which they can be recovered; an unknown value's name identifies no format |
| FileConfigurations.NewFileConfiguration | file.configuration.go:32-42 | the four arguments are stored unchanged |
| FileConfigErrors.FileConfigError.Header | file.config.error.go:19-22 | the first line is `found `, then the decimal count of field errors, then ` error(s) while parsing `, then the format's name, then ` config file(<file>):`, each at its exact position, and nothing else: the length is the sum of the parts |
| FileConfigErrors.FileConfigError.Error | file.config.error.go:17-24 | the message is exactly the header, a newline, and the combined report of the field errors: it starts with the header, ends with the newline and the report, and its length is the sum of the three |
| FileConfigErrors.ReportedCountIsLength | file.config.error.go:19-20 | the number read after `found ` is the number of field errors carried |
| Strings.DecimalRoundTrip | file.config.error.go:19-20 | the decimal rendering of a count reads back as that count |
| FileConfigErrors.MessageLines | file.config.error.go:19-23 | for a non-empty list, a file name without a newline, and fields and messages without newlines, the message read line by line is the header followed by one line per field error, in order |
| Strings.TrimSpace | config.file.parser.impl.go:209 | the trimmed text is a slice of the text with only white space before and after it; it is empty exactly when the text is all white space, and otherwise no white space is left at either end |
| Reconciliation.FieldErrorMessage | config.file.parser.impl.go:208-213 | "field is empty" when the raw value is blank, otherwise the loader's message verbatim; the copies at strict.config.file.parser.impl.go:177-182 and default.config.file.parer.go:118-123 are the same |
| Reconciliation.LeafError | config.file.parser.impl.go:171-176 | the error's field is the leaf's name, `: ` and the raw text, at exactly those positions; its message is "field is empty" for a blank raw text and the loader's message otherwise; the strict (strict.config.file.parser.impl.go:153-156, 162-165) and default (default.config.file.parer.go:98-101) copies build the same error |
| Shapes.Wrap | config.file.parser.impl.go:203 | writing an integer into a sized field keeps it when it fits; otherwise it gives the value in range that is congruent modulo the field's width |
| Reconciliation.ResolveLeaf | config.file.parser.impl.go:155-206 | a successful load writes the loaded string, or the loaded integer truncated to the field's width, and reports nothing; a failed load leaves the leaf as it was and reports one error named `<field>: <raw>`; so there is an error exactly when the load fails, and the leaf keeps its kind |
| Reconciliation.ReconcileField | config.file.parser.impl.go:139-150 | a field that completes keeps the destination's name, and a string source adds at most one error; when it panics, which shape it keeps and where its errors go are stated by `PanicsIffIncompatible`, `ReconcileKeepsShape` and `ErrorsInPreOrder` |
| Reconciliation.Reconcile | config.file.parser.impl.go:126-153 | different field counts always panic, before any field is visited; a walk that completes has one field per destination field; `PanicsIffIncompatible`, `ReconcileKeepsShape`, `ErrorsInPreOrder`, `LeavesInPreOrder` and `ErrorCountBound` state the rest |
| Reconciliation.Walk | config.file.parser.impl.go:138-152 | a walk that completes has one field per destination field; `WalkSnoc` states how each further field extends the result and the errors |
| Reconciliation.PanicsIffIncompatible | config.file.parser.impl.go:126-153 | the walk panics, rather than returning any error list, exactly when field counts differ at some level or a leaf pair is unsupported |
| Reconciliation.ReconcileKeepsShape | config.file.parser.impl.go:138-152 | a walk that does not panic keeps the destination's names, kinds and widths at every level |
| Reconciliation.ErrorsInPreOrder | config.file.parser.impl.go:138-152 | the errors are those of the leaves taken in pre-order: a nested struct's errors come after earlier siblings' and before later siblings' |
| Reconciliation.LeavesInPreOrder | config.file.parser.impl.go:138-152 | the destination's leaves, in pre-order, are each leaf's own result |
| Reconciliation.SlotErrorsBound | config.file.parser.impl.go:140-142 | each leaf contributes at most one error, and none exactly when every leaf loads |
| Reconciliation.ErrorCountBound | config.file.parser.impl.go:138-152 | a walk reports no more errors than the source has leaves |
| Reconciliation.CompatibleByShape | config.file.parser.impl.go:85-89 | two sources of the same shape are accepted by the same destinations, so decoding a file cannot cause or prevent a panic |
| Reconciliation.WalkSnoc | config.file.parser.impl.go:138-152 | visiting one more field appends its result and puts its errors after the earlier ones |
| LooseParser.StringMirror | config.file.parser.impl.go:48-72 | the mirror has one field per field, under the same name: a struct for a struct, `""` for anything else |
| LooseParser.ConvertToStringConfig | config.file.parser.impl.go:48-72 | the loop with recursion builds exactly the mirror |
| LooseParser.MirrorCompatible | config.file.parser.impl.go:48-72 | the loose walk accepts the mirror of a configuration, without panicking, exactly when every leaf of the configuration is a string or an integer |
| LooseParser.MirrorLeafCount | config.file.parser.impl.go:48-72 | the mirror has exactly as many leaves as the configuration |
| LooseParser.DecodedMirrorCompatible | config.file.parser.impl.go:85-89 | after decoding, the loose walk panics exactly when the configuration has a leaf that is neither a string nor an integer |
| LooseParser.SetValueForString | config.file.parser.impl.go:180-192 | returns the loader's error; on success only the field at the index is changed, to the loaded string; on error nothing is changed |
| LooseParser.SetValueForInt | config.file.parser.impl.go:194-206 | returns the loader's error; on success only the field at the index is changed, to the loaded integer truncated to its width; on error nothing is changed |
| LooseParser.SetSingularConfigValue | config.file.parser.impl.go:155-178 | changes only the field at the index, as `ResolveLeaf` says, and returns that leaf's error |
| LooseParser.SetConfigurationValues | config.file.parser.impl.go:126-153 | the new struct and the returned errors are exactly the result of `Reconcile` on the old struct |
| LooseParser.FileFailuresFirst | config.file.parser.impl.go:30-46 | stat error first, then JSON "not implemented", then "unrecognized file format", then read or decode failures, each before the configuration is touched |
| LooseParser.MirrorField | config.file.parser.impl.go:57-68 | a mirrored field keeps the name; it is a struct exactly when the field is one, with as many fields; anything else becomes `""` |
| LooseParser.DecodedParse | config.file.parser.impl.go:73-124 | once decoded, the parse panics exactly for unsupported leaves; otherwise the shape is kept, at most one error per leaf, and the result is a `FileConfigError` with the file's name, format and exactly those errors, or none |
| LooseParser.ParseConfig | config.file.parser.impl.go:30-46 | the struct and the returned value or error are those of `Parse` |
| LooseParser.Parse | config.file.parser.impl.go:30-46 | a panic needs an existing YAML or property file; a returned error other than a config failure leaves the struct as it was; a config failure carries the file's name, the format and a non-empty error list; `FileFailuresFirst` and `DecodedParse` state the order of the failures and the decoded case |
| LooseParser.ParseYaml | config.file.parser.impl.go:73-100 | a panic needs a file that was read; the only errors are a read error, an unmarshal error or a config failure; the first two leave the struct as it was |
| LooseParser.ParseProperties | config.file.parser.impl.go:102-124 | a panic needs a file that was decoded; the only errors are a decode error, which leaves the struct as it was, or a config failure |
| LooseParser.ReconcileInto | config.file.parser.impl.go:89-98 | the walk from the decoded mirror panics exactly when the mirror and the struct are not compatible; any error it returns is a config failure with the file's name, the format and a non-empty error list |
| LooseParser.ParseYamlFile | config.file.parser.impl.go:73-100 | read, then mirror, then decode into the mirror, then walk, with the wrapped read and decode errors |
| LooseParser.ParsePropertiesFile | config.file.parser.impl.go:102-124 | mirror, then decode into the mirror, then walk; the decode error is returned as it is |
| LooseParser.Finish | config.file.parser.impl.go:89-98 | any field error fails with a `FileConfigError`; none returns the configuration struct |
| Oracles.ParseError.Error | config.file.parser.impl.go:31-87 | a stat or TOML decode error is the underlying text; a read error is `failed to read configuration file: ` and an unmarshal error `failed to unmarshal configuration file: `, each followed by the underlying text; JSON gives `JSON parser not implemented yet`, an unknown format `unrecognized file format`; a config failure's text is the `FileConfigError` message |
| Oracles.Conclude | config.file.parser.impl.go:91-98 | no error exactly when the list is empty; otherwise a `FileConfigError` with the file's name, the format and exactly those errors |
| Oracles.Fill | config.file.parser.impl.go:85 | decoding keeps the struct's names, kinds and widths at every level |
| Oracles.DecodeInto | default.config.file.parer.go:52 | decoding in place leaves exactly the decoded struct |
| StrictParser.SetOutputConfigValue | strict.config.file.parser.impl.go:147-175 | changes only the strict field at the index, as `ResolveLeaf` says (written only on success), and returns that leaf's error |
| StrictParser.ExtractEnv | strict.config.file.parser.impl.go:116-145 | the new strict struct and the returned errors are exactly the result of `Reconcile`, the same specification as the loose pass |
| StrictParser.FileFailuresFirst | strict.config.file.parser.impl.go:58-73 | stat error first, then JSON, then unknown format, then read or decode failures, with neither struct touched |
| StrictParser.DecodedParse | strict.config.file.parser.impl.go:75-114 | once decoded, a panic depends only on the two structs and not on the file; otherwise the configuration holds the decoded file, the strict struct keeps its shape, and at most one error per leaf is reported under the file's name and format |
| StrictParser.ParseConfig | strict.config.file.parser.impl.go:58-73 | both structs and the returned value or error are those of `Parse`; on success the strict struct is returned |
| StrictParser.Parse | strict.config.file.parser.impl.go:58-114 | a panic needs an existing YAML or property file; a returned error other than a config failure leaves both structs as they were; a config failure carries the file's name, the format and a non-empty error list; `FileFailuresFirst` and `DecodedParse` state the rest |
| StrictParser.ReconcileInto | strict.config.file.parser.impl.go:85-95 | the walk panics exactly when the decoded struct and the strict struct are not compatible; the configuration struct keeps the decoded file; any error is a config failure with the file's name, the format and a non-empty error list |
| StrictParser.Finish | strict.config.file.parser.impl.go:85-95 | any field error fails with a `FileConfigError`; none returns the strict struct |
| DefaultParser.LoadLeaf | default.config.file.parer.go:94-103 | the leaf always takes the loader's value, even when the load failed; a failure is reported against the text the leaf held before; so at most one error, and none exactly when the load succeeds |
| DefaultParser.ResolveField | default.config.file.parer.go:92-113 | a field that completes keeps its name, and a string field adds at most one error; `FieldPanicsIffNotStrings` and `FieldKeepsShape` state when it panics and which shape it keeps |
| DefaultParser.Resolve | default.config.file.parer.go:87-116 | the pass over one struct, specified by its lemmas: `PanicsIffNotStrings` (when it panics), `KeepsShape` (the shape kept), `ResolveAppend` and `ResolveFlattens` (the order of errors and leaves) and `FlatResolve` (the value of each leaf) |
| DefaultParser.PanicsIffNotStrings | default.config.file.parer.go:87-116 | the pass panics exactly when some leaf is not a string; integers included; no count is checked |
| DefaultParser.StringsAndStructsByShape | default.config.file.parer.go:52-56 | decoding cannot make a struct acceptable or unacceptable to the pass |
| DefaultParser.KeepsShape | default.config.file.parer.go:87-116 | a pass that does not panic keeps the struct's shape |
| DefaultParser.ResolveAppend | default.config.file.parer.go:104-106 | the errors of later fields follow those of earlier ones, nested lists included |
| DefaultParser.ResolveFlattens | default.config.file.parer.go:87-116 | nesting does not matter: the errors and the leaves are those of resolving the leaves as one flat list in pre-order |
| DefaultParser.FlatResolve | default.config.file.parer.go:94-103 | on a flat list of strings every field takes the loader's value, at most one error per field, and none exactly when every load succeeds |
| DefaultParser.ExtractEnv | default.config.file.parer.go:87-116 | the struct after the in-place loop and the returned errors are exactly the result of `Resolve` on the old struct |
| DefaultParser.FileFailuresFirst | default.config.file.parer.go:28-44 | stat error first, then JSON, then unknown format, then read or decode failures, before the struct is touched |
| DefaultParser.DecodedParse | default.config.file.parer.go:46-85 | once decoded, the parse panics exactly when a leaf is not a string; otherwise the shape is kept, every leaf holds the loader's value for its decoded text, and the parse fails exactly when some load failed |
| DefaultParser.ParseConfig | default.config.file.parer.go:28-44 | the struct and the returned value or error are those of `Parse` |
| DefaultParser.Parse | default.config.file.parer.go:28-85 | a panic needs an existing YAML or property file; a returned error other than a config failure leaves the struct as it was; a config failure carries the file's name, the format and a non-empty error list; `FileFailuresFirst` and `DecodedParse` state the rest |
| DefaultParser.ResolveInto | default.config.file.parer.go:56-66 | the pass over the decoded struct panics exactly when some leaf is not a string; any error is a config failure with the file's name, the format and a non-empty error list |
| DefaultParser.Finish | default.config.file.parer.go:56-66 | any field error fails with a `FileConfigError`; none returns the configuration struct |
| Scenarios.AllLeavesResolve | config.file.parser.impl.go:126-153 | with a placeholder-free loader, a port, a name and a nested database block are filled with their numbers and names, and no error is reported |
| Scenarios.EmptyPortReported | config.file.parser.impl.go:155-178 | an empty nested port gives one error, `Port: ` with "field is empty"; its siblings still resolve and the port keeps its value |
| Scenarios.EmptyPortReport | field.error.go:25-32 | the combined report of that error is `Port:  - 'field is empty'` |

## Left out

- File I/O and the decoders: `os.Stat`, `ioutil.ReadFile`, `yaml.Unmarshal` and `toml.DecodeFile` are inputs of the model, not modelled. A decoder is assumed to write only the string leaves its document mentions, and a failed decode is assumed to leave the struct as it was.
- The environment loader (go-envloader) is a pair of caller-supplied functions. Placeholder syntax and environment lookup are not modelled.
- Go reflection and dynamic-struct synthesis are replaced by the explicit field tree. Struct tags matter only to the decoders and are dropped.
- Go strings are modelled as sequences of characters, not UTF-8 bytes. White space is Go's Unicode white-space set, taken character by character.
- Shapes.Wrap: Go's `int` is taken as 64 bits wide.
- `convertToStringConfig` also returns an error, but that error is never non-nil, so the model's mirror has no error path.
- Wrapped I/O errors are modelled by the underlying text at the end of the message. The exact `%w` chain is not modelled.
- The constructors `NewConfigFileParser`, `NewStrictConfigFileParser`, `DefaultStrictYamlConfigFileParser`, `DefaultStrictPropertyConfigFileParser` and `NewDefaulltConfigFileParser` only store their arguments. They are not modelled.
- `config.file.parser.go` declares an interface only. The demo programs under `examples/` are not part of this model.
- Panic messages: a panic is modelled by its reason only, without its formatted text.
- Unexported struct fields: every field is assumed exported. Go's reflection panics when a pass writes (`SetString`, `SetInt`) or takes the address of (`Addr().Interface()`) a field reached through an unexported field. This happens in the loose mirror and writes, the strict walk and writes, and every write of the default pass. The model has no such panic.
- Reconciliation.PanicsIffIncompatible: its "panics exactly when" holds only for structs whose fields are all exported. A struct with an unexported field can panic in Go where the model completes.
- LooseParser.MirrorCompatible: its "panics exactly when" holds only for structs whose fields are all exported. A struct with an unexported field can panic in Go where the model completes.
- LooseParser.DecodedMirrorCompatible: its "panics exactly when" holds only for structs whose fields are all exported. A struct with an unexported field can panic in Go where the model completes.
- LooseParser.DecodedParse: its "panics exactly when" holds only for structs whose fields are all exported. A struct with an unexported field can panic in Go where the model completes.
- StrictParser.DecodedParse: its "panics exactly when" holds only for structs whose fields are all exported. A struct with an unexported field can panic in Go where the model completes.
- DefaultParser.PanicsIffNotStrings: its "panics exactly when" holds only for structs whose fields are all exported. With an unexported string field, the default pass panics in Go at its first write to that field.
- DefaultParser.DecodedParse: its "panics exactly when" holds only for structs whose fields are all exported. With an unexported string field, the default pass panics in Go at its first write to that field.
- LooseParser.ParseConfig, LooseParser.ParseYamlFile, LooseParser.ParsePropertiesFile and LooseParser.Finish require a parse that does not panic. The panicking outcome is stated by `LooseParser.Parse` and `LooseParser.DecodedParse`.
- StrictParser.ParseConfig and StrictParser.Finish require a parse that does not panic, for the same reason. They also require the strict struct and the configuration struct to be distinct objects: aliasing of the two is not modelled.
- DefaultParser.ParseConfig and DefaultParser.Finish require a parse that does not panic. The panicking outcome is stated by `DefaultParser.Parse` and `DefaultParser.DecodedParse`.
- Nested structs are updated through a copy that is written back. Go writes through an interior pointer instead. Nothing else can observe the difference.
