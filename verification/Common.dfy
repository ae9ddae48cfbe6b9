/** What several of the exporters share. */
module Common {

  type Byte = n: nat | n < 256

  /** The result of an export, as the SDK knows it. */
  datatype ExportResult = Success | Failure | FailureFull | FailureInvalidArgument
}
