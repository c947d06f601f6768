/** Return codes of the file system functions, and optional values. */
module Os2 {
  datatype Option<+T> = None | Some(value: T)

  datatype ApiRet =
    | NoError
    | BufferOverflow
    | EasDidntFit
    | EaListInconsistent
    | FilenameExcedRange
    | NoMoreFiles
    | InvalidParameter
    | FileNotFound
    | PathNotFound
    | NegativeSeek
    | NotSupported
    | OpenFailed
    | AccessDenied
    | DriveLocked
    | InvalidOffset
    | FileOpenFailed
    | NoJolietDescriptor
}
