/** Error values for the exceptions the modelled Python code raises, and the
    small Option/Result wrappers the rest of the model returns them in. */
module Errors {

  datatype Option<+T> = None | Some(value: T)

  /** The Python exception class an error is raised as. */
  datatype ExceptionClass = ValueError | ImportError | AssertionError | KeyError

  datatype Error =
    | BothSources                  // Walls(file_name=..., txt=...) with both given
    | NoSource                     // Walls() with neither given (or an empty txt)
    | UnsupportedFormat(ext: string)
    | BadRowLengths                // a loaded grid whose rows differ in length
    | NotRgbMode(mode: string)     // assert img.mode == 'RGB'
    | TooWide(width: int)          // the width bound of an assert failed
    | TooHigh(height: int)         // the height bound of an assert failed
    | TooManyColors                // a PNG with more than 16 colours
    | MissingKey(key: string)      // a lookup-table miss in Walls.convert
    | EmptyArgMax                  // numpy argmax over an empty image
  {
    function Class(): ExceptionClass {
      match this
      case BothSources | NoSource | EmptyArgMax => ValueError
      case UnsupportedFormat(_) | BadRowLengths => ImportError
      case NotRgbMode(_) | TooWide(_) | TooHigh(_) | TooManyColors => AssertionError
      case MissingKey(_) => KeyError
    }
  }

  datatype Result<+T> = Success(value: T) | Failure(error: Error)
}
