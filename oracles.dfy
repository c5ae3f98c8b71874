/**
  What the parsers get from outside: the file system (`os.Stat`, `ioutil.ReadFile`), the
  YAML and TOML decoders, and the errors a parse can return.

  A decoded file is a document mapping the path of a field (the names of the structs
  leading to it, then its own name) to the scalar text found there. Decoding into a struct
  overwrites the string leaves the document mentions and leaves every other field alone,
  so the struct keeps its shape.
 */
module Oracles {
  import opened Wrappers
  import opened Shapes
  import opened FieldErrors
  import opened FileConfigurations
  import opened FileConfigErrors

  type Document = map<seq<string>, string>

  /** Decodes `doc` into the fields of a struct found at `path`. */
  function Fill(fields: seq<Field>, doc: Document, path: seq<string>): (r: seq<Field>)
    ensures SameShape(fields, r)
    decreases fields
  {
    if fields == [] then []
    else [FillField(fields[0], doc, path)] + Fill(fields[1..], doc, path)
  }

  function FillField(f: Field, doc: Document, path: seq<string>): (r: Field)
    ensures SameFieldShape(f, r)
    decreases f
  {
    var here := path + [f.name];
    match f.value
    case StringValue(_) => if here in doc then Field(f.name, StringValue(doc[here])) else f
    case StructValue(fs) => Field(f.name, StructValue(Fill(fs, doc, here)))
    case _ => f
  }

  /** The outside world as one parse sees it. */
  datatype FileSystem = FileSystem(
    statError: Option<string>,                           // os.Stat of the configured path
    readFile: Result<seq<bv8>, string>,                  // ioutil.ReadFile of the path
    yamlUnmarshal: seq<bv8> -> Result<Document, string>, // yaml.Unmarshal of the bytes
    tomlDecodeFile: Result<Document, string>)            // toml.DecodeFile of the path

  const ReadPrefix: string := "failed to read configuration file: "
  const UnmarshalPrefix: string := "failed to unmarshal configuration file: "
  const JsonMessage: string := "JSON parser not implemented yet"
  const UnrecognizedMessage: string := "unrecognized file format"

  /** The errors `ParseConfig` returns. */
  datatype ParseError =
    | StatFailed(message: string)
    | ReadFailed(message: string)
    | UnmarshalFailed(message: string)
    | DecodeFailed(message: string)
    | JsonNotImplemented
    | UnrecognizedFormat
    | ConfigFailed(configError: FileConfigError)
  {
    /** The error's text: wrapped I/O errors keep the underlying text at the end. */
    function Error(): (r: string)
      ensures (StatFailed? || ReadFailed? || UnmarshalFailed? || DecodeFailed?) ==>
                |r| >= |message| && r[|r| - |message|..] == message
      ensures ReadFailed? ==> r == ReadPrefix + message
      ensures UnmarshalFailed? ==> r == UnmarshalPrefix + message
      ensures StatFailed? || DecodeFailed? ==> r == message
      ensures JsonNotImplemented? ==> r == JsonMessage
      ensures UnrecognizedFormat? ==> r == UnrecognizedMessage
      ensures ConfigFailed? ==> r == configError.Error()
    {
      match this
      case StatFailed(m) => m
      case ReadFailed(m) => ReadPrefix + m
      case UnmarshalFailed(m) => UnmarshalPrefix + m
      case DecodeFailed(m) => m
      case JsonNotImplemented => JsonMessage
      case UnrecognizedFormat => UnrecognizedMessage
      case ConfigFailed(e) => e.Error()
    }
  }

  /** A parse that did not panic: the error it returns, or `None` when it returns the
      configuration. */
  datatype Parsed<S> = Returned(state: S, err: Option<ParseError>) | ParsePanicked(reason: Panic)

  /** The last step of every parse: any field error fails the parse with all of them, in
      order, under the file's name and format; no field error returns the configuration. */
  function Conclude(fileName: string, fileFormat: FileFormat, fieldErrors: seq<FieldError>): (r: Option<ParseError>)
    ensures r.None? <==> |fieldErrors| == 0
    ensures r.Some? ==> r.value.ConfigFailed? && r.value.configError.configFile == fileName
                        && r.value.configError.fileFormat == fileFormat
                        && r.value.configError.fieldErrors == fieldErrors
  {
    if |fieldErrors| > 0 then Some(ConfigFailed(FileConfigError(fileName, fileFormat, fieldErrors))) else None
  }

  /** Go's `(config, err)` pair as one value: the configuration when `err` is nil. */
  function Returning<T>(config: T, err: Option<ParseError>): (r: Result<T, ParseError>)
    ensures r.Success? <==> err.None?
    ensures r.Success? ==> r.value == config
    ensures r.Failure? ==> r.error == err.value
  {
    match err
    case None => Success(config)
    case Some(e) => Failure(e)
  }

  /** Decodes a document into a struct held by reference, in place. */
  method DecodeInto(config: array<Field>, doc: Document)
    modifies config
    ensures config[..] == Fill(old(config[..]), doc, [])
  {
    var decoded := Fill(config[..], doc, []);
    for i := 0 to config.Length
      invariant config[..i] == decoded[..i]
      invariant config[i..] == old(config[i..])
    {
      config[i] := decoded[i];
    }
  }
}
