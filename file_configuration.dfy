/** The file format enumeration and the file configuration every parser is built from. */
module FileConfigurations {
  import opened Wrappers
  import opened Shapes

  /** A named integer type: YAML, JSON and PROPERTY are its first three values, and any
      other integer is a value of the type too. */
  type FileFormat = int

  const YAML: FileFormat := 0
  const JSON: FileFormat := 1
  const PROPERTY: FileFormat := 2

  const UnknownFormatName: string := "Unknown file format"

  /** The human-readable name of a format; the three known formats have distinct names and
      every other value shares the fallback name. */
  function FileFormatToString(fileFormat: FileFormat): (r: string)
    ensures r == UnknownFormatName <==> fileFormat !in {YAML, JSON, PROPERTY}
  {
    if fileFormat == YAML then "YAML"
    else if fileFormat == PROPERTY then "property"
    else if fileFormat == JSON then "JSON"
    else UnknownFormatName
  }

  /** The format a name stands for, if any: the inverse of `FileFormatToString` on known formats. */
  function FileFormatFromString(name: string): Option<FileFormat> {
    if name == "YAML" then Some(YAML)
    else if name == "property" then Some(PROPERTY)
    else if name == "JSON" then Some(JSON)
    else None
  }

  /** The name of a known format identifies it; an unknown value has no format behind its name. */
  lemma FormatNameRoundTrip(fileFormat: FileFormat)
    ensures fileFormat in {YAML, JSON, PROPERTY} ==> FileFormatFromString(FileFormatToString(fileFormat)) == Some(fileFormat)
    ensures fileFormat !in {YAML, JSON, PROPERTY} ==> FileFormatFromString(FileFormatToString(fileFormat)) == None
  {
  }

  /** What to parse: the file, its format, the struct the file is decoded into (held by
      reference, as the Go code holds a pointer) and the environment loader. */
  datatype FileConfiguration = FileConfiguration(
    fileName: string,
    fileFormat: FileFormat,
    fileInputConfiguration: array<Field>,
    environmentLoader: Loader)

  /** Stores its four arguments unchanged. */
  function NewFileConfiguration(fileName: string, fileFormat: FileFormat,
                                fileInputConfiguration: array<Field>, environmentLoader: Loader): (r: FileConfiguration)
    ensures r.fileName == fileName && r.fileFormat == fileFormat
    ensures r.fileInputConfiguration == fileInputConfiguration && r.environmentLoader == environmentLoader
  {
    FileConfiguration(fileName, fileFormat, fileInputConfiguration, environmentLoader)
  }
}
