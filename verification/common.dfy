/**
 * Shared vocabulary of the snapper command-line client model: optional and
 * failure-carrying values, the client's local error conditions, and the
 * 32-bit unsigned snapshot number.
 */
module Common {

  /** A value that may be absent (an option that was not given on the command line). */
  datatype Option<+T> = None | Some(value: T) {

    /** The carried value, or `default` when absent. */
    function GetOr(default: T): T {
      match this
      case Some(v) => v
      case None => default
    }
  }

  /** The first position of `c` in `s`, as `string::find` reports it. */
  function IndexOf(s: string, c: char): (r: Option<nat>)
    ensures r.Some? ==> r.value < |s| && s[r.value] == c && c !in s[..r.value]
    ensures r.None? <==> c !in s
  {
    if |s| == 0 then None
    else if s[0] == c then Some(0)
    else
      match IndexOf(s[1..], c)
      case None => None
      case Some(i) =>
        assert s[..i + 1] == [s[0]] + s[1..][..i];
        Some(i + 1)
  }

  /**
   * Every `exit(EXIT_FAILURE)` of the client (and the `throw;` of
   * `remove_subvolume`) becomes a `Failure` carrying the reason.
   */
  datatype Result<+T> = Success(value: T) | Failure(error: Error) {

    predicate IsFailure() {
      Failure?
    }

    function PropagateFailure<U>(): Result<U>
      requires Failure?
    {
      Failure(error)
    }

    function Extract(): T
      requires Success?
    {
      value
    }
  }

  /** The local validation errors of the client, one per diagnostic it prints. */
  datatype Error =
    | InvalidSnapshot(text: string)        // "Invalid snapshot '%s'."
    | InvalidSnapshots                     // "Invalid snapshots."
    | IdenticalSnapshots                   // "Identical snapshots."
    | InvalidUserdata                      // "Invalid userdata."
    | NotInSubvolume(subvolume: string, name: string)
    | UnknownSnapshotType(name: string)    // "Unknown type of snapshot."
    | MissingPreNumber                     // "Missing or invalid pre-number."
    | MissingCommand                       // "Missing command argument."
    | WrongArgumentCount(command: string)  // "Command '...' needs/does not take ..."
    | CannotOpenFile(path: string)         // "Opening file '%s' failed."

  /** Largest value of a C++ `unsigned int` on the platforms snapper targets. */
  const UINT_MAX: nat := 0xFFFF_FFFF

  /** A snapshot number as the client stores it: an `unsigned int`; 0 means "none". */
  type Num = n: nat | n <= UINT_MAX
}
