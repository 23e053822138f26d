/**
 * `snapper undochange`: the undo directives built from an input file, from
 * the file arguments or as "undo everything", and the gate that applies
 * the undo only when the service reports something to change. Also the
 * `snapper status` line format that the input file is meant to hold.
 */
module Undo {
  import opened Common
  import opened Numbers
  import opened Subvolume
  import opened Service

  // ---------------------------------------------------------------------------
  // Reading an undo file
  // ---------------------------------------------------------------------------

  /**
   * The file name one line of an undo file designates. Empty lines are
   * skipped; a line starting with `/` is the name itself; any other line
   * loses everything up to and including its first blank (the status
   * column), and is skipped when it has no blank.
   */
  function LineName(line: string): (r: Option<string>)
    ensures r.None? <==> line == [] || (line[0] != '/' && ' ' !in line)
    ensures r.Some? && line[0] == '/' ==> r.value == line
    ensures r.Some? && line[0] != '/' ==>
              exists p :: 0 <= p < |line| && line[p] == ' ' && ' ' !in line[..p] && r.value == line[p + 1..]
  {
    if line == [] then None
    else if line[0] == '/' then Some(line)
    else
      match IndexOf(line, ' ')
      case None => None
      case Some(p) => Some(line[p + 1..])
  }

  /** The names the lines of an undo file designate, in file order. */
  function FileNames(lines: seq<string>): (names: seq<string>)
    ensures |names| <= |lines|
    ensures (forall i :: 0 <= i < |lines| ==> LineName(lines[i]).Some?) ==> |names| == |lines|
    decreases |lines|
  {
    if lines == [] then []
    else
      match LineName(lines[0])
      case None => FileNames(lines[1..])
      case Some(name) => [name] + FileNames(lines[1..])
  }

  /** The names of two pieces of a file are the first piece's names followed by the second's. */
  lemma {:induction false} FileNamesAppend(a: seq<string>, b: seq<string>)
    ensures FileNames(a + b) == FileNames(a) + FileNames(b)
    decreases |a|
  {
    if a == [] {
      assert a + b == b;
    } else {
      assert (a + b)[0] == a[0];
      assert (a + b)[1..] == a[1..] + b;
      FileNamesAppend(a[1..], b);
    }
  }

  /** One line gives its name when it designates a file and nothing when it is skipped. */
  lemma FileNamesSingle(line: string)
    ensures FileNames([line]) == if LineName(line).Some? then [LineName(line).value] else []
  {
    assert [line][1..] == [];
  }

  /** A status line names the file after its first blank. */
  lemma LineNameStatusExample()
    ensures LineName("c /a") == Some("/a")
  {
    var line := "c /a";
    assert line[1..][0] == ' ';
    assert IndexOf(line[1..], ' ') == Some(0);
    assert IndexOf(line, ' ') == Some(1);
    assert line[2..] == "/a";
  }

  /**
   * A file mixing a status line, an empty line, a line with neither a blank
   * nor a leading `/`, and a bare absolute name: the status is stripped,
   * the two middle lines are skipped, and the order is kept.
   */
  lemma FileNamesMixed()
    ensures FileNames(["c /a", "", "b", "/c"]) == ["/a", "/c"]
  {
    LineNameStatusExample();
    var lines := ["c /a", "", "b", "/c"];
    assert lines[1..] == ["", "b", "/c"];
    assert lines[1..][1..] == ["b", "/c"];
    assert lines[1..][1..][1..] == ["/c"];
    assert ' ' !in "b";
    assert FileNames(["/c"]) == ["/c"];
    assert FileNames(["b", "/c"]) == ["/c"];
    assert FileNames(["", "b", "/c"]) == ["/c"];
  }

  /**
   * One `undo = true` directive per name, named relative to `subvolume`,
   * in the same order; the first name outside the subvolume ends the
   * client (`remove_subvolume` fails).
   */
  function Directives(subvolume: string, names: seq<string>): (r: Result<seq<UndoDirective>>)
    ensures r.Success? <==> forall i :: 0 <= i < |names| ==> StartsWith(names[i], subvolume)
    ensures r.Success? ==> |r.value| == |names|
    ensures r.Success? ==>
              forall i :: 0 <= i < |names| ==>
                r.value[i].undo && RemoveSubvolume(subvolume, names[i]) == Success(r.value[i].name)
    ensures r.Failure? ==>
              exists i :: 0 <= i < |names| && !StartsWith(names[i], subvolume)
                          && r.error == NotInSubvolume(subvolume, names[i])
                          && forall j :: 0 <= j < i ==> StartsWith(names[j], subvolume)
    decreases |names|
  {
    if names == [] then Success([])
    else
      var name :- RemoveSubvolume(subvolume, names[0]);
      var rest :- Directives(subvolume, names[1..]);
      Success([UndoDirective(true, name)] + rest)
  }

  // ---------------------------------------------------------------------------
  // Status lines
  // ---------------------------------------------------------------------------

  /** A changed file as the comparison reports it (`XFile`): its name inside the subvolume and its status column. */
  datatype FileStatus = FileStatus(name: string, status: string)

  /** The status column can be told apart from the name: no blank in it, and it does not start with `/`. */
  predicate PlainStatus(status: string) {
    ' ' !in status && (status == [] || status[0] != '/')
  }

  /** One line of `snapper status` output: the status, a blank, and the absolute file name. */
  function StatusLine(subvolume: string, f: FileStatus): string {
    f.status + " " + AddSubvolume(subvolume, f.name)
  }

  /** The lines `snapper status` writes for a list of changed files. */
  function StatusLines(subvolume: string, files: seq<FileStatus>): (lines: seq<string>)
    ensures |lines| == |files|
    ensures forall i :: 0 <= i < |files| ==> lines[i] == StatusLine(subvolume, files[i])
  {
    if files == [] then [] else [StatusLine(subvolume, files[0])] + StatusLines(subvolume, files[1..])
  }

  /** The absolute names of a list of changed files, in order. */
  function AbsoluteNames(subvolume: string, files: seq<FileStatus>): (names: seq<string>)
    ensures |names| == |files|
    ensures forall i :: 0 <= i < |files| ==> names[i] == AddSubvolume(subvolume, files[i].name)
  {
    if files == [] then [] else [AddSubvolume(subvolume, files[0].name)] + AbsoluteNames(subvolume, files[1..])
  }

  /** A status line names the absolute file it was written for. */
  lemma LineNameStatusLine(subvolume: string, f: FileStatus)
    requires PlainStatus(f.status)
    ensures LineName(StatusLine(subvolume, f)) == Some(AddSubvolume(subvolume, f.name))
  {
    var line := StatusLine(subvolume, f);
    var p := |f.status|;
    assert line[p] == ' ';
    assert line[..p] == f.status;
    assert line[p + 1..] == AddSubvolume(subvolume, f.name);
    if f.status != [] {
      assert line[0] == f.status[0];
    }
    if line[0] != '/' {
      assert IndexOf(line, ' ') == Some(p);
    }
  }

  /** Every status line is kept, so the names of a status file are the files' absolute names in order. */
  lemma {:induction false} FileNamesStatusLines(subvolume: string, files: seq<FileStatus>)
    requires forall i :: 0 <= i < |files| ==> PlainStatus(files[i].status)
    ensures FileNames(StatusLines(subvolume, files)) == AbsoluteNames(subvolume, files)
    decreases |files|
  {
    if files != [] {
      var lines := StatusLines(subvolume, files);
      LineNameStatusLine(subvolume, files[0]);
      assert lines[0] == StatusLine(subvolume, files[0]);
      assert lines[1..] == StatusLines(subvolume, files[1..]);
      FileNamesStatusLines(subvolume, files[1..]);
    }
  }

  // ---------------------------------------------------------------------------
  // Status text
  // ---------------------------------------------------------------------------

  /** The text `snapper status` writes: every status line ended by a newline. */
  function StatusText(subvolume: string, files: seq<FileStatus>): string
    decreases |files|
  {
    if files == [] then [] else StatusLine(subvolume, files[0]) + "\n" + StatusText(subvolume, files[1..])
  }

  /**
   * The lines a line reader yields from a text: the pieces between
   * newlines, where a final newline ends the last line rather than
   * starting an empty one.
   */
  function TextLines(text: string): (lines: seq<string>)
    ensures forall i :: 0 <= i < |lines| ==> '\n' !in lines[i]
    decreases |text|
  {
    if text == [] then []
    else
      match IndexOf(text, '\n')
      case None => [text]
      case Some(p) => [text[..p]] + TextLines(text[p + 1..])
  }

  /** A line without a newline, written with its newline, reads back as that line. */
  lemma TextLinesCons(line: string, rest: string)
    requires '\n' !in line
    ensures TextLines(line + "\n" + rest) == [line] + TextLines(rest)
  {
    var t := line + "\n" + rest;
    assert t[|line|] == '\n';
    assert t[..|line|] == line;
    assert IndexOf(t, '\n') == Some(|line|);
    assert t[|line| + 1..] == rest;
  }

  /** Status text reads back line by line when no status, name or subvolume holds a newline. */
  lemma {:induction false} TextLinesStatusText(subvolume: string, files: seq<FileStatus>)
    requires '\n' !in subvolume
    requires forall i :: 0 <= i < |files| ==> '\n' !in files[i].status && '\n' !in files[i].name
    ensures TextLines(StatusText(subvolume, files)) == StatusLines(subvolume, files)
    decreases |files|
  {
    if files != [] {
      var f := files[0];
      var line := StatusLine(subvolume, f);
      assert '\n' !in line by {
        assert '\n' !in AddSubvolume(subvolume, f.name);
        assert line == f.status + " " + AddSubvolume(subvolume, f.name);
      }
      TextLinesCons(line, StatusText(subvolume, files[1..]));
      TextLinesStatusText(subvolume, files[1..]);
      assert StatusLines(subvolume, files) == [line] + StatusLines(subvolume, files[1..]);
    }
  }

  /**
   * `status` writes names unescaped, so a name holding a newline comes back
   * as two lines: the file read back names only the part before the
   * newline, and the rest is skipped as a line without a blank.
   */
  lemma StatusTextNewlineName()
    ensures TextLines(StatusText("/", [FileStatus("/a\nb", "c")])) == ["c /a", "b"]
    ensures FileNames(TextLines(StatusText("/", [FileStatus("/a\nb", "c")]))) == ["/a"]
  {
    var files := [FileStatus("/a\nb", "c")];
    assert files[1..] == [];
    var text := StatusText("/", files);
    assert text == "c /a" + "\n" + ("b" + "\n" + "");
    TextLinesCons("c /a", "b" + "\n" + "");
    TextLinesCons("b", "");
    assert "b" + "\n" + "" == "b" + "\n";
    assert TextLines(text) == ["c /a", "b"];
    LineNameStatusExample();
    assert ["c /a", "b"][1..] == ["b"];
    assert ' ' !in "b";
  }

  /** The absolute names of the files, handed back, give one undo directive per file naming it. */
  lemma DirectivesAbsoluteNames(subvolume: string, files: seq<FileStatus>)
    requires subvolume == "/" ==> forall i :: 0 <= i < |files| ==> StartsWith(files[i].name, "/")
    ensures Directives(subvolume, AbsoluteNames(subvolume, files))
              == Success(seq(|files|, i requires 0 <= i < |files| => UndoDirective(true, files[i].name)))
  {
    var names := AbsoluteNames(subvolume, files);
    forall i | 0 <= i < |files|
      ensures RemoveSubvolume(subvolume, names[i]) == Success(files[i].name)
    {
      RemoveAddSubvolume(subvolume, files[i].name);
    }
    var d := Directives(subvolume, names);
    assert d.Success?;
    assert d.value == seq(|files|, i requires 0 <= i < |files| => UndoDirective(true, files[i].name));
  }

  /**
   * Round trip through a status file: feeding `snapper status` output back
   * to `undochange --input` yields one directive per listed file, naming
   * exactly that file. Under the root subvolume the names must be absolute,
   * and no status, name or subvolume may hold a newline.
   */
  lemma UndoStatusFile(subvolume: string, files: seq<FileStatus>)
    requires '\n' !in subvolume
    requires forall i :: 0 <= i < |files| ==> '\n' !in files[i].status && '\n' !in files[i].name
    requires forall i :: 0 <= i < |files| ==> PlainStatus(files[i].status)
    requires subvolume == "/" ==> forall i :: 0 <= i < |files| ==> StartsWith(files[i].name, "/")
    ensures Directives(subvolume, FileNames(TextLines(StatusText(subvolume, files))))
              == Success(seq(|files|, i requires 0 <= i < |files| => UndoDirective(true, files[i].name)))
  {
    TextLinesStatusText(subvolume, files);
    FileNamesStatusLines(subvolume, files);
    DirectivesAbsoluteNames(subvolume, files);
  }

  // ---------------------------------------------------------------------------
  // The command
  // ---------------------------------------------------------------------------

  /** Where the files to undo come from: nowhere (`--input` not given), a file that cannot be opened, or the lines of the input file. */
  datatype UndoInput = NoInput | Unopenable(path: string) | Lines(lines: seq<string>)

  /** How `undochange` ends when it succeeds: nothing to change, or the changes applied with their counts. */
  datatype UndoReport = NothingToDo | Changes(statistic: Statistic)

  /** The names the directives are built from: the input file's, or without a file the arguments. */
  function Chosen(input: UndoInput, names: seq<string>): seq<string> {
    if input.Lines? then FileNames(input.lines) else names
  }

  /**
   * The undo selection after the comparison exists: the directives of the
   * input file; without a file, "undo all" when no file argument follows
   * the range, the directives of the file arguments otherwise.
   */
  function SelectUndo(config: string, first: Num, second: Num, input: UndoInput, names: seq<string>,
                      calls: seq<Call>, svc: Service): (o: Outcome<()>)
    requires !input.Unopenable?
    ensures |calls| < |o.calls| && o.calls[..|calls|] == calls
    ensures CommitCount(o.calls) == CommitCount(calls)
    ensures o.result.Success? ==> o.calls[|o.calls| - 1].SetUndo? || o.calls[|o.calls| - 1].SetUndoAll?
    ensures o.result.Failure? ==> o.result.error.NotInSubvolume?
  {
    if input.NoInput? && names == [] then
      CommitCountSnoc(calls, SetUndoAll(config, first, second, true));
      Outcome(calls + [SetUndoAll(config, first, second, true)], Success(()))
    else
      var asked := calls + [GetConfig(config)];
      CommitCountSnoc(calls, GetConfig(config));
      match Directives(svc.subvolume(asked), Chosen(input, names))
      case Failure(e) => Outcome(asked, Failure(e))
      case Success(undos) =>
        CommitCountSnoc(asked, SetUndo(config, first, second, undos));
        assert (asked + [SetUndo(config, first, second, undos)])[..|calls|] == calls;
        Outcome(asked + [SetUndo(config, first, second, undos)], Success(()))
  }

  /**
   * Which selection is made: "undo all" exactly when there is neither an
   * input file nor a file argument; otherwise the subvolume is fetched and
   * the directives of the file's lines (or of the arguments, without a file)
   * are set, unless a name lies outside the subvolume.
   */
  lemma SelectUndoUnfold(config: string, first: Num, second: Num, input: UndoInput, names: seq<string>,
                             calls: seq<Call>, svc: Service)
    requires !input.Unopenable?
    ensures var o := SelectUndo(config, first, second, input, names, calls, svc);
            input.NoInput? && names == [] ==> o == Outcome(calls + [SetUndoAll(config, first, second, true)], Success(()))
    ensures var o := SelectUndo(config, first, second, input, names, calls, svc);
            var asked := calls + [GetConfig(config)];
            var directives := Directives(svc.subvolume(asked), Chosen(input, names));
            input.Lines? || names != [] ==>
              && (directives.Failure? ==> o == Outcome(asked, Failure(directives.error)))
              && (directives.Success? ==> o == Outcome(asked + [SetUndo(config, first, second, directives.value)], Success(())))
  {
  }

  /**
   * The statistics gate once the undo selection is made: fetch the
   * statistics, and apply the undo only when they are not empty, as the
   * call right after the fetch.
   */
  function Gate(config: string, first: Num, second: Num, calls: seq<Call>, svc: Service): (o: Outcome<UndoReport>)
    ensures o.result.Success?
    ensures |calls| < |o.calls| && o.calls[..|calls|] == calls
    ensures o.calls[|calls|] == GetUndoStatistic(config, first, second)
    ensures svc.statistic(o.calls[..|calls| + 1]).Empty() <==> o.result.value == NothingToDo
    ensures o.result.value == NothingToDo ==> |o.calls| == |calls| + 1
    ensures o.result.value.Changes? ==>
              && |o.calls| == |calls| + 2
              && o.calls[|calls| + 1] == UndoChanges(config, first, second)
              && o.result.value.statistic == svc.statistic(o.calls[..|calls| + 1])
    ensures CommitCount(o.calls[..|o.calls| - 1]) == CommitCount(calls)
    ensures CommitCount(o.calls) == CommitCount(calls) + if o.result.value.Changes? then 1 else 0
  {
    var asked := calls + [GetUndoStatistic(config, first, second)];
    CommitCountSnoc(calls, GetUndoStatistic(config, first, second));
    assert asked[..|calls|] == calls;
    var statistic := svc.statistic(asked);
    if statistic.Empty() then
      assert asked[..|calls| + 1] == asked;
      Outcome(asked, Success(NothingToDo))
    else
      var applied := asked + [UndoChanges(config, first, second)];
      CommitCountSnoc(asked, UndoChanges(config, first, second));
      assert applied[..|applied| - 1] == asked;
      assert applied[..|calls|] == calls;
      Outcome(applied, Success(Changes(statistic)))
  }

  /** The trace that creates the comparison of `first` and `second` and fetches its file list. */
  function Compare(config: string, first: Num, second: Num): (calls: seq<Call>)
    ensures CommitCount(calls) == 0
  {
    var calls := [CreateComparison(config, first, second), GetFiles(config, first, second)];
    CommitCountSnoc([], calls[0]);
    CommitCountSnoc([calls[0]], calls[1]);
    assert [calls[0]] + [calls[1]] == calls;
    calls
  }

  /**
   * How `command_undo` ends once the undo selection was made on top of the
   * comparison: a failed selection ends it there; otherwise the statistics
   * are fetched and the undo applied only when they are not empty. The
   * undo is applied at most once, and only as the last call, right after
   * the statistics.
   */
  function Finish(config: string, first: Num, second: Num, selected: Outcome<()>, svc: Service)
    : (o: Outcome<UndoReport>)
    requires |selected.calls| >= 2 && CommitCount(selected.calls) == 0
    ensures |o.calls| >= |selected.calls| && o.calls[..|selected.calls|] == selected.calls
    ensures CommitCount(o.calls[..|o.calls| - 1]) == 0
    ensures CommitCount(o.calls) == if o.result.Success? && o.result.value.Changes? then 1 else 0
    ensures o.calls[|o.calls| - 1].UndoChanges? <==> o.result.Success? && o.result.value.Changes?
    ensures o.calls[|o.calls| - 1].UndoChanges? ==>
              && o.calls[|o.calls| - 1] == UndoChanges(config, first, second)
              && o.calls[|o.calls| - 2] == GetUndoStatistic(config, first, second)
              && !svc.statistic(o.calls[..|o.calls| - 1]).Empty()
              && o.result.value.statistic == svc.statistic(o.calls[..|o.calls| - 1])
    ensures o.result == Success(NothingToDo) ==>
              && o.calls[|o.calls| - 1] == GetUndoStatistic(config, first, second)
              && svc.statistic(o.calls).Empty()
    ensures selected.result.Failure? ==> o == Outcome(selected.calls, Failure(selected.result.error))
    ensures selected.result.Success? ==>
              && o.result.Success?
              && |o.calls| > |selected.calls|
              && o.calls[|selected.calls|] == GetUndoStatistic(config, first, second)
              && (svc.statistic(o.calls[..|selected.calls| + 1]).Empty() <==> o.result.value == NothingToDo)
  {
    if selected.result.Failure? then
      CommitCountNoneBefore(selected.calls);
      Outcome(selected.calls, Failure(selected.result.error))
    else
      Gate(config, first, second, selected.calls, svc)
  }

  /** The range was read, its first snapshot is not 0, and the input file (if any) could be opened. */
  predicate Proceeds(range: Result<(Num, Num)>, input: UndoInput) {
    range.Success? && range.value.0 != 0 && !input.Unopenable?
  }

  /**
   * `command_undo` once the range argument was read: an unopenable input
   * file, then `first == 0`, are rejected before anything is asked of the
   * service; `names` are the file arguments after the range.
   */
  function RunUndo(config: string, range: Result<(Num, Num)>, names: seq<string>, input: UndoInput, svc: Service)
    : (o: Outcome<UndoReport>)
    ensures range.Failure? ==> o == Outcome([], Failure(range.error))
    ensures range.Success? && input.Unopenable? ==> o == Outcome([], Failure(CannotOpenFile(input.path)))
    ensures range.Success? && range.value.0 == 0 && !input.Unopenable? ==> o == Outcome([], Failure(InvalidSnapshots))
    ensures Proceeds(range, input) <==> o.calls != []
  {
    match range
    case Failure(e) => Outcome([], Failure(e))
    case Success((first, second)) =>
      if input.Unopenable? then Outcome([], Failure(CannotOpenFile(input.path)))
      else if first == 0 then Outcome([], Failure(InvalidSnapshots))
      else Finish(config, first, second, SelectUndo(config, first, second, input, names, Compare(config, first, second), svc), svc)
  }

  /**
   * `command_undo`: a range argument is required and read with
   * `read_nums`; the arguments after it are the files to undo.
   */
  function CommandUndo(config: string, args: seq<string>, input: UndoInput, svc: Service): (o: Outcome<UndoReport>)
    ensures |args| == 0 ==> o == Outcome([], Failure(WrongArgumentCount("undochange")))
    ensures |args| > 0 && ReadNums(args[0]).Failure? ==> o == Outcome([], Failure(ReadNums(args[0]).error))
    ensures |args| > 0 ==> o == RunUndo(config, ReadNums(args[0]), args[1..], input, svc)
  {
    if |args| < 1 then Outcome([], Failure(WrongArgumentCount("undochange")))
    else RunUndo(config, ReadNums(args[0]), args[1..], input, svc)
  }

  /**
   * Once the checks pass, the comparison of the two snapshots is created
   * and its files fetched before anything else.
   */
  lemma UndoComparesFirst(config: string, range: Result<(Num, Num)>, names: seq<string>, input: UndoInput, svc: Service)
    requires Proceeds(range, input)
    ensures var o := RunUndo(config, range, names, input, svc);
            && |o.calls| >= 3
            && o.calls[0] == CreateComparison(config, range.value.0, range.value.1)
            && o.calls[1] == GetFiles(config, range.value.0, range.value.1)
  {
    var (first, second) := range.value;
    var compared := Compare(config, first, second);
    var selected := SelectUndo(config, first, second, input, names, compared, svc);
    assert selected.calls[..2] == compared;
    var o := Finish(config, first, second, selected, svc);
    assert o.calls[..2] == compared by {
      assert o.calls[..|selected.calls|] == selected.calls;
    }
    assert o.calls[0] == o.calls[..2][0] && o.calls[1] == o.calls[..2][1];
  }

  /**
   * The commit gate of `undochange`: the undo is applied at most once; it
   * is applied exactly when the command reports changes, as the last call,
   * right after fetching statistics that are not empty; "nothing to do"
   * means the fetched statistics were empty and nothing was applied.
   */
  lemma UndoCommitGate(config: string, range: Result<(Num, Num)>, names: seq<string>, input: UndoInput, svc: Service)
    ensures var o := RunUndo(config, range, names, input, svc);
            && CommitCount(o.calls) == (if o.result.Success? && o.result.value.Changes? then 1 else 0)
            && (o.result.Success? && o.result.value.Changes? ==>
                  && |o.calls| >= 2
                  && o.calls[|o.calls| - 1].UndoChanges?
                  && o.calls[|o.calls| - 2].GetUndoStatistic?
                  && CommitCount(o.calls[..|o.calls| - 1]) == 0
                  && !svc.statistic(o.calls[..|o.calls| - 1]).Empty()
                  && o.result.value.statistic == svc.statistic(o.calls[..|o.calls| - 1]))
            && (o.result == Success(NothingToDo) ==>
                  && o.calls != []
                  && o.calls[|o.calls| - 1].GetUndoStatistic?
                  && svc.statistic(o.calls).Empty())
  {
    if Proceeds(range, input) {
      UndoComparesFirst(config, range, names, input, svc);
    }
  }

  /**
   * Liveness of the commit gate: once the checks pass, the command fails
   * only on a name outside the subvolume; otherwise it fetches the
   * statistics after the comparison, reports "nothing to do" exactly when
   * they are empty, and when they are not it applies the undo as its last
   * call.
   */
  lemma UndoAppliesChanges(config: string, range: Result<(Num, Num)>, names: seq<string>, input: UndoInput, svc: Service)
    requires Proceeds(range, input)
    ensures var o := RunUndo(config, range, names, input, svc);
            o.result.Failure? ==> o.result.error.NotInSubvolume?
    ensures var o := RunUndo(config, range, names, input, svc);
            var (first, second) := range.value;
            o.result.Success? ==>
              exists k :: 2 <= k < |o.calls| && o.calls[k] == GetUndoStatistic(config, first, second)
                          && (svc.statistic(o.calls[..k + 1]).Empty() <==> o.result.value == NothingToDo)
                          && (!svc.statistic(o.calls[..k + 1]).Empty() ==>
                                o.calls[|o.calls| - 1] == UndoChanges(config, first, second))
  {
    var (first, second) := range.value;
    var compared := Compare(config, first, second);
    var selected := SelectUndo(config, first, second, input, names, compared, svc);
    var o := Finish(config, first, second, selected, svc);
    assert RunUndo(config, range, names, input, svc) == o;
    if o.result.Success? {
      var k := |selected.calls|;
      assert o.calls[k] == GetUndoStatistic(config, first, second);
      if !svc.statistic(o.calls[..k + 1]).Empty() {
        assert o.result.value.Changes?;
      }
    }
  }

  /**
   * Without an input file and without file arguments, the selection is a
   * single "undo all" call, and no list of directives is set.
   */
  lemma UndoAllSelection(config: string, range: Result<(Num, Num)>, svc: Service)
    requires Proceeds(range, NoInput)
    ensures var o := RunUndo(config, range, [], NoInput, svc);
            && |o.calls| >= 3
            && o.calls[2] == SetUndoAll(config, range.value.0, range.value.1, true)
            && forall i :: 0 <= i < |o.calls| ==> !o.calls[i].SetUndo? && !o.calls[i].GetConfig?
  {
    var (first, second) := range.value;
    var compared := Compare(config, first, second);
    SelectUndoUnfold(config, first, second, NoInput, [], compared, svc);
    var selected := SelectUndo(config, first, second, NoInput, [], compared, svc);
    assert selected.calls == compared + [SetUndoAll(config, first, second, true)];
  }

  /**
   * With an input file, or without one but with file arguments, the
   * subvolume is fetched and the directives of the file's lines (of the
   * arguments, without a file) are set; a name outside the subvolume ends
   * the command right after fetching the subvolume.
   */
  lemma UndoListSelection(config: string, range: Result<(Num, Num)>, names: seq<string>, input: UndoInput, svc: Service)
    requires Proceeds(range, input) && (input.Lines? || names != [])
    ensures var o := RunUndo(config, range, names, input, svc);
            var asked := Compare(config, range.value.0, range.value.1) + [GetConfig(config)];
            var directives := Directives(svc.subvolume(asked), Chosen(input, names));
            && |o.calls| >= 3
            && o.calls[..3] == asked
            && (directives.Failure? ==> o == Outcome(asked, Failure(directives.error)))
            && (directives.Success? ==>
                  |o.calls| >= 4 && o.calls[3] == SetUndo(config, range.value.0, range.value.1, directives.value))
  {
    var (first, second) := range.value;
    var compared := Compare(config, first, second);
    SelectUndoUnfold(config, first, second, input, names, compared, svc);
    var selected := SelectUndo(config, first, second, input, names, compared, svc);
    var asked := compared + [GetConfig(config)];
    var directives := Directives(svc.subvolume(asked), Chosen(input, names));
    var o := Finish(config, first, second, selected, svc);
    if directives.Failure? {
      assert selected == Outcome(asked, Failure(directives.error));
      assert o == Outcome(asked, Failure(directives.error));
    } else {
      assert selected.calls == asked + [SetUndo(config, first, second, directives.value)];
      assert o.calls[..|selected.calls|] == selected.calls;
      assert o.calls[..3] == asked;
      assert o.calls[3] == selected.calls[3];
    }
  }
}
