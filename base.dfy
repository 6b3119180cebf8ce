/** Shared vocabulary of the depth-map tools: bytes, optional values, and the
    errors the scripts raise or report. */
module Base {

  /** One byte of a file. */
  newtype byte = x: int | 0 <= x < 256

  datatype Option<T> = None | Some(value: T)

  /** Every failure the tools can meet. Each constructor stands for one
      exception (or one printed-and-returned error) of the scripts. */
  datatype Error =
    | FileNotFound(path: string)          // os.path.isfile / isdir said no, or makedirs("")
    | OpenExrUnavailable                  // the optional OpenEXR/Imath import failed
    | ExrOpenFailed                       // OpenEXR.InputFile could not parse the file
    | NoChannels                          // channels[0] on an empty channel list (IndexError)
    | ZChannelMissing(available: seq<string>)
    | ChannelReadFailed(name: string)     // the decoder could not deliver a channel's samples
    | ShapeMismatch(height: int, width: int, size: nat)   // numpy reshape refused
    | EmptyArray                          // min()/max() of a zero-size array
    | NoChannelAxis                       // shape[2] of an array with fewer than 3 axes
    | ImageReadFailed                     // cv2.imread returned None (or raised)
    | DirCreateFailed(dir: string)
    | WriteFailed(path: string)           // cv2.imwrite returned False
    | WrongTokenCount(line: string)       // cam_K.txt line without exactly 3 tokens
    | WrongRowCount(count: nat)           // cam_K.txt without exactly 3 rows
    | NotANumber(token: string)           // float(token) raised

  /** A value or the error that stopped its computation; usable with `:-`. */
  datatype Result<T> = Ok(value: T) | Err(error: Error) {
    predicate IsFailure() { Err? }

    function PropagateFailure<U>(): Result<U>
      requires Err?
    {
      Err(error)
    }

    function Extract(): T
      requires Ok?
    {
      value
    }
  }
}
