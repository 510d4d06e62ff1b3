/** Shared vocabulary of the model: optional values, results, bytes and the
    error values the transfer engine reports. */
module Common {

  datatype Option<+T> = None | Some(value: T)

  /** A failure-compatible result, so that `:-` propagates the error. */
  datatype Result<+T> = Ok(value: T) | Err(error: Error) {
    predicate IsFailure() {
      Err?
    }

    function PropagateFailure<U>(): Result<U>
      requires Err?
    {
      Err(error)
    }

    function Extract(): T
      requires Ok?
    {
      value
    }
  }

  /** One octet on the wire. */
  type Byte = b: int | 0 <= b < 256

  /** The largest value of Go's int64. */
  const MaxInt64: int := 0x7FFF_FFFF_FFFF_FFFF

  /** The errors the engine distinguishes. `Fault(k)` stands for an
      arbitrary I/O error (a failing channel, a failing filesystem call) and
      is compared by identity, as the engine compares errors by value. */
  datatype Error =
    | Eof                                   // io.EOF
    | ShortWrite                            // io.ErrShortWrite
    | Closed                                // os.ErrClosed: I/O on a closed handle
    | InvalidHandle                         // os.ErrInvalid: I/O on a missing handle
    | QuotaExceeded                         // common.ErrQuotaExceeded
    | PermissionDenied                      // common.ErrPermissionDenied
    | NotExist                              // common.ErrNotExist
    | OpUnsupported                         // common.ErrOpUnsupported
    | GenericFailure                        // common.ErrGenericFailure
    | TransferClosed                        // common.ErrTransferClosed
    | SshFxFailure                          // sftp.ErrSSHFxFailure
    | SshFxNoSuchFile                       // sftp.ErrSSHFxNoSuchFile
    | SshFxPermissionDenied                 // sftp.ErrSSHFxPermissionDenied
    | SshFxOpUnsupported                    // sftp.ErrSSHFxOpUnsupported
    | UnsupportedConfig                     // errUnsupportedConfig of the exec dispatcher
    | InvalidWriteOffset(offset: int, minimum: int)
    | UnacceptableEndDir                    // "unacceptable end dir command"
    | UnsupportedCommand                    // "scp command not supported"
    | Syntax(reason: string)                // malformed protocol message or command line
    | Remote(text: seq<Byte>)               // error text received from the SCP peer
    | Fault(id: nat)                        // any other I/O error

  /** The message an error carries. Only the messages an error is compared
      by are fixed; every other error says "failure". */
  function ErrorMessage(e: Error): string {
    match e
    case Syntax(reason) => reason
    case InvalidWriteOffset(_, _) => "Invalid write offset"
    case UnacceptableEndDir => "unacceptable end dir command"
    case UnsupportedCommand => "scp command not supported"
    case Eof => "EOF"
    case ShortWrite => "short write"
    case Closed => "file already closed"
    case QuotaExceeded => "denying write due to space limit"
    case TransferClosed => "transfer already closed"
    case _ => "failure"
  }
}
