/**
 The SoX status codes the binding re-exports as `SoxErrorT`. The read loop
 needs only one of them: `EndOfFile`, whose code -1, cast to `usize`, is the
 sentinel `sox_read` results are compared with.
 */
module SoxError {
  import opened Native

  datatype SoxErrorT =
    | Success
    | EndOfFile
    | InvalidAudioHeader
    | UnsupportedDataFormat
    | CannotAllocMemory
    | OperationNotPermitted
    | OperationNotSupported
    | InvalidArgument
  {
    /** The native `sox_error_t` value of each variant. */
    function Code(): int {
      match this
      case Success => 0
      case EndOfFile => -1
      case InvalidAudioHeader => 2000
      case UnsupportedDataFormat => 2001
      case CannotAllocMemory => 2002
      case OperationNotPermitted => 2003
      case OperationNotSupported => 2004
      case InvalidArgument => 2005
    }
  }

  /** The variant carrying a native status code, if any. */
  function FromCode(code: int): (e: Option<SoxErrorT>)
    ensures e.Some? ==> e.value.Code() == code
  {
    match code
    case 0 => Some(Success)
    case -1 => Some(EndOfFile)
    case 2000 => Some(InvalidAudioHeader)
    case 2001 => Some(UnsupportedDataFormat)
    case 2002 => Some(CannotAllocMemory)
    case 2003 => Some(OperationNotPermitted)
    case 2004 => Some(OperationNotSupported)
    case 2005 => Some(InvalidArgument)
    case _ => None
  }

  /** Every variant's code maps back to that variant, so no two variants
      share a code. */
  lemma CodeRoundTrip(e: SoxErrorT)
    ensures FromCode(e.Code()) == Some(e)
  {
  }

  /** `SoxErrorT::EndOfFile as usize`: the code -1 wrapped to 2^64 - 1. */
  const EOF_SENTINEL: usize := AsUsize(EndOfFile.Code())

  /** The sentinel is `usize::MAX`, far above any count an 8192-sample read
      can return, so it is never mistaken for a sample count. */
  lemma EofSentinelValue()
    ensures EOF_SENTINEL == TWO_64 - 1
    ensures EOF_SENTINEL > 8192
  {
  }
}
