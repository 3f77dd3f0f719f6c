/**
 * The value types the report code passes around: the header and key unions
 * of src/types/table.d.ts, and the records the report and exit logic read
 * (`ProcessedResult`, `JsonOutput`), with the fields they are used with.
 */
module Types {
  import opened Base

  /** Display names of the security report's columns. */
  datatype SecurityReportHeader =
    | IdHeader | ModuleHeader | TitleHeader | PathsHeader | SeverityHeader | UrlHeader | ExceptedHeader
  {
    function Name(): string
    {
      match this
      case IdHeader => "ID"
      case ModuleHeader => "Module"
      case TitleHeader => "Title"
      case PathsHeader => "Paths"
      case SeverityHeader => "Severity"
      case UrlHeader => "URL"
      case ExceptedHeader => "Ex."
    }

    /** Position of the column in the canonical report layout. */
    function Index(): nat
    {
      match this
      case IdHeader => 0
      case ModuleHeader => 1
      case TitleHeader => 2
      case PathsHeader => 3
      case SeverityHeader => 4
      case UrlHeader => 5
      case ExceptedHeader => 6
    }
  }

  /** Property names of a security report row object. */
  datatype SecurityReportKey =
    | IdKey | ModuleKey | TitleKey | PathsKey | SeverityKey | UrlKey | IsExceptedKey
  {
    function Name(): string
    {
      match this
      case IdKey => "id"
      case ModuleKey => "module"
      case TitleKey => "title"
      case PathsKey => "paths"
      case SeverityKey => "severity"
      case UrlKey => "url"
      case IsExceptedKey => "isExcepted"
    }
  }

  /** Display names of the exception report's columns. */
  datatype ExceptionReportHeader = ExIdHeader | StatusHeader | ExpiryHeader | NotesHeader
  {
    function Name(): string
    {
      match this
      case ExIdHeader => "ID"
      case StatusHeader => "Status"
      case ExpiryHeader => "Expiry"
      case NotesHeader => "Notes"
    }
  }

  /** Property names of an exception report row object. */
  datatype ExceptionReportKey = ExIdKey | StatusKey | ExpiryKey | NotesKey
  {
    function Name(): string
    {
      match this
      case ExIdKey => "id"
      case StatusKey => "status"
      case ExpiryKey => "expiry"
      case NotesKey => "notes"
    }
  }

  /** A report: rows of string cells. */
  type Report = seq<seq<string>>

  /**
   * What the audit processing hands back; it is computed by code outside
   * this model and enters only as a value. `failed` may be left unset.
   */
  datatype ProcessedResult = ProcessedResult(
    failed: Option<bool>,
    unhandledIds: seq<string>,
    report: Report,
    unusedExceptionIds: seq<string>,
    unusedExceptionModules: seq<string>)

  /** A row turned into an object: property name to cell. */
  type RowObject = map<string, string>

  /** The machine-readable document printed in JSON mode. */
  datatype JsonOutput = JsonOutput(
    failed: bool,
    unhandledVulnerabilityIds: seq<string>,
    vulnerabilitiesReport: seq<RowObject>,
    exceptionsReport: seq<RowObject>,
    unusedExceptionIds: seq<string>)
}
