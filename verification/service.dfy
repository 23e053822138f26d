/**
 * The snapper service as the client sees it. Every remote call the client
 * makes is recorded as a `Call` in a trace; what the service answers is an
 * oracle that may depend on everything asked so far (the trace up to and
 * including the call being answered), and is otherwise unconstrained.
 */
module Service {
  import opened Common
  import opened Userdata

  /** The editable metadata of a snapshot (`XSnapshot` as far as `modify` touches it). */
  datatype SnapshotData = SnapshotData(description: string, cleanup: string, userdata: Userdata)

  /** One file the undo step should act on (`XUndo`). */
  datatype UndoDirective = UndoDirective(undo: bool, name: string)

  /** How many files applying the pending undo would create, modify and delete (`XUndoStatistic`). */
  datatype Statistic = Statistic(numCreate: nat, numModify: nat, numDelete: nat) {

    /** Nothing would change. */
    predicate Empty() {
      numCreate == 0 && numModify == 0 && numDelete == 0
    }
  }

  /** The remote calls of the client, with the arguments it passes. */
  datatype Call =
    | CreateSingle(config: string, description: string, cleanup: string, userdata: Userdata)
    | CreatePre(config: string, description: string, cleanup: string, userdata: Userdata)
    | CreatePost(config: string, pre: Num, description: string, cleanup: string, userdata: Userdata)
    | RunCommand(command: string)
    | GetSnapshot(config: string, number: Num)
    | SetSnapshot(config: string, number: Num, data: SnapshotData)
    | CreateComparison(config: string, first: Num, second: Num)
    | GetFiles(config: string, first: Num, second: Num)
    | GetConfig(config: string)
    | SetUndo(config: string, first: Num, second: Num, undos: seq<UndoDirective>)
    | SetUndoAll(config: string, first: Num, second: Num, undo: bool)
    | GetUndoStatistic(config: string, first: Num, second: Num)
    | UndoChanges(config: string, first: Num, second: Num)

  /**
   * The answers of the service. Each oracle is handed the trace ending with
   * the call it answers: `newNumber` answers the create calls, `snapshot`
   * answers `GetSnapshot`, `subvolume` answers `GetConfig`, and `statistic`
   * answers `GetUndoStatistic`.
   */
  datatype Service = Service(
    newNumber: seq<Call> -> Num,
    snapshot: seq<Call> -> SnapshotData,
    subvolume: seq<Call> -> string,
    statistic: seq<Call> -> Statistic)

  /** What a command did to the service, and how it ended. */
  datatype Outcome<+T> = Outcome(calls: seq<Call>, result: Result<T>)

  /** How many times a trace applies an undo. */
  function CommitCount(calls: seq<Call>): nat {
    if calls == [] then 0
    else CommitCount(calls[..|calls| - 1]) + (if calls[|calls| - 1].UndoChanges? then 1 else 0)
  }

  /** Appending one call adds one commit exactly when that call applies an undo. */
  lemma CommitCountSnoc(calls: seq<Call>, c: Call)
    ensures CommitCount(calls + [c]) == CommitCount(calls) + (if c.UndoChanges? then 1 else 0)
  {
    assert (calls + [c])[..|calls|] == calls;
  }

  /** A trace without commits has none in any of its prefixes either. */
  lemma CommitCountNoneBefore(calls: seq<Call>)
    requires calls != [] && CommitCount(calls) == 0
    ensures CommitCount(calls[..|calls| - 1]) == 0
  {
  }
}
