/** The outcomes the engine reports. The source builds every engine error with
    errors.New(""); the model gives each failing branch its own name so that
    contracts can say which branch was taken. */
module Errors {

  datatype Error =
    | ErrInvalid          // an operation on a nil *os.File (os.ErrInvalid)
    | ErrNegativeOffset   // os.File.ReadAt before the start of the file
    | ErrEOF              // os.File.ReadAt that runs past the end of the file
    | ErrNotExist         // a read-only open of a file that does not exist
    | ErrPanic            // the source would panic: a decoded length slices past its buffer
    | ErrTooLarge         // DataFile.Write: the offset would pass math.MaxInt64
    | ErrInactive         // put on an active data file that has been deactivated
    | ErrNoKey            // Get: the key is not in the index
    | ErrNoDataFile       // Get: the indexed file id has no open data file
    | ErrNilReceiver      // WriteHint on a nil *HintFile

  datatype Result<T> = Ok(value: T) | Err(error: Error)

  datatype Outcome = Pass | Fail(error: Error)

  datatype Option<T> = None | Some(value: T)
}
