/** The ways a bootstrap run can end early, and the result type that carries them.
    Every failure but UncaughtException ends the process with exit code 1 (the
    error dialog of handleError, or of the unpack worker, followed by System.exit(1));
    UncaughtException is a runtime exception that main does not catch. */
module Failures {

  datatype Option<T> = None | Some(value: T)

  datatype Failure =
    | MissingProperty(key: string)         // "Missing System Property"
    | ServiceUnavailable                   // the JNLP BasicService could not be looked up
    | UnknownArchitecture(arch: string)    // the lower-cased os.arch value
    | UnknownOperatingSystem(os: string)   // the lower-cased os.name value
    | DownloadFailed                       // "Download Error": open or read failure
    | DownloadCanceled                     // the user pressed cancel on the progress monitor
    | ExtractionFailed                     // "Extraction Error" reported by the unpack worker
    | UncaughtException(name: string)      // a runtime exception escaping main

  datatype Result<T> = Ok(value: T) | Err(failure: Failure)
}
