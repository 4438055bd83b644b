/** The OS/2 error codes the modelled code compares and returns. */
module ErrorCodes {
  const NO_ERROR := 0
  const ERROR_FILE_NOT_FOUND := 2
  const ERROR_PATH_NOT_FOUND := 3
  const ERROR_ACCESS_DENIED := 5
  const ERROR_REM_NOT_LIST := 51
  const ERROR_INVALID_PARAMETER := 87
  const ERROR_BUFFER_OVERFLOW := 111
  const ERROR_EAS_NOT_SUPPORTED := 282

  /** The length limit of an OS/2 path. */
  const CCHMAXPATH: nat := 260
}
