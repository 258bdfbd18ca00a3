/** Values shared by the whole checker: the optional value, the four terminal
    outcomes a record can receive, and the three per-outcome output files. */
module Outcomes {

  /** A value that may be absent. `None` is also what a Python function
      returns when control falls off its end without a `return`. */
  datatype Option<+T> = None | Some(value: T)

  /** The terminal classification of one email address. `check_email` yields
      only the first three; `process_email` adds `Skipped`. */
  datatype Outcome = Valid | Invalid | Failed | Skipped

  /** The append-only per-outcome files: valid_emails.txt, invalid_emails.txt
      and retry_emails.txt. A skipped record goes to none of them. */
  datatype Bucket = ValidFile | InvalidFile | RetryFile

  /** The file an outcome other than `Skipped` is appended to. */
  function BucketOf(o: Outcome): (b: Bucket)
    requires o != Skipped
    ensures b == ValidFile <==> o == Valid
    ensures b == InvalidFile <==> o == Invalid
    ensures b == RetryFile <==> o == Failed
  {
    match o
    case Valid => ValidFile
    case Invalid => InvalidFile
    case Failed => RetryFile
  }
}
