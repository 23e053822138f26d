# snapper command-line client: parsing, userdata, creation and undo logic

A Dafny model of the orchestration logic in `client/snapper.cc`, the command-line
client of the snapper snapshot manager. The client talks to a snapshot service.
The model covers the logic that sits between the raw command line and that
service:

- **Snapshot numbers** (`numbers.dfy`). `read_num` accepts a string only when
  all of it reads as one `unsigned int`. `read_nums` splits a range `a..b` at
  the first `..` and refuses equal endpoints. The decimal form the client
  prints reads back as the same number.
- **Userdata** (`userdata.dfy`). `read_userdata` splits a delta such as
  `k1=v1,k2=` on comma runs (boost `token_compress_on`). It splits each token at
  its first `=` and trims both halves with the "C" locale `isspace`. An empty
  value erases the key; any other value overwrites it. The tokens apply left
  to right, starting from a copy of the old map. `show_userdata` prints
  `key=value` entries in `std::map` key order, joined by `", "`.
- **Subvolume paths** (`subvolume.dfy`). `add_subvolume` and
  `remove_subvolume` add and strip a character prefix. The root subvolume `/`
  is left alone.
- **The service** (`service.dfy`). Every remote call is recorded in a trace
  (`Call`). Each answer comes from an oracle (`Service`) that sees the trace so
  far. Nothing else is assumed about the service.
- **`snapper create`** (`create.dfy`). Selects the type, validates the options
  in the source's order, then makes the create calls. `--command` wraps
  `system(command)` in a pre/post pair.
- **`snapper modify`** (`modify.dfy`). For each number: fetch the snapshot,
  update the fields that were given (userdata is merged), and store it back.
- **`snapper undochange`** (`undo.dfy`). Builds the undo directives from an
  input file, from the file arguments, or as "undo all". Then it fetches the
  statistics and applies the undo only when they are not empty. The file
  parser is checked against the `snapper status` line format.

A client `exit(EXIT_FAILURE)` becomes a `Failure` carrying the reason (`Common.Error`).
A command returns an `Outcome`: the calls it made, then its result.

## Model

| member | source | states |
|---|---|---|
| `Numbers.Decimal` | client/snapper.cc:541 | the printed form of a number is non-empty digits without a leading zero whose value is the number |
| `Numbers.Scan` | client/snapper.cc:58-60 | the digit scan yields a value exactly when the whole string is digits and the value fits in 32 bits, and then it is that value |
| `Numbers.ReadNum` | client/snapper.cc:56-70 | success exactly for a non-empty all-digit string whose value is at most UINT_MAX (so "", "12x" and "12 " fail); the result is the string's value; failure reports the offending text |
| `Numbers.ReadNumDecimal` | client/snapper.cc:56-70 | every snapshot number, printed in decimal, reads back as itself |
| `Numbers.FindDots` | client/snapper.cc:75 | `find("..")` returns the first position of `..` at or after the start, or none when there is none |
| `Numbers.ReadNums` | client/snapper.cc:73-93 | fails with "Invalid snapshots" exactly when there is no `..`; around the FIRST `..` an unreadable first half is reported with its own text, then an unreadable second half with its own; two readable halves give "Identical snapshots" exactly when they read as the same number and otherwise the pair of their numbers in input order (so `01..2` gives `(1, 2)`) |
| `Numbers.ReadNumsRange` | client/snapper.cc:73-93 | the text `a..b` reads back as `(a, b)` when `a != b` (either may be larger) and is refused as identical when `a == b` |
| `Userdata.SplitOnCommas` | client/snapper.cc:102 | the split yields at least one token and no token holds a comma |
| `Userdata.SplitCompress` | client/snapper.cc:102 | a run of commas is one separator: doubling a comma anywhere leaves the tokens unchanged, so with `SplitJoin` the tokens of every string are determined |
| `Userdata.SplitJoin` | client/snapper.cc:102 | splitting undoes joining with single commas when the tokens are comma-free and the inner ones non-empty |
| `Userdata.Trim` | client/snapper.cc:118-119 | the result has no white space at either end, never grows, leaves trimmed text unchanged, and is empty exactly for all-space input |
| `Userdata.TrimSlice` | client/snapper.cc:118-119 | the trimmed text is a slice of the input, and everything before and after the slice is white space |
| `Userdata.ParseToken` | client/snapper.cc:111-125 | a token without `=` fails; on success the key is non-empty and `=`-free, and the pair is the trimmed text before and after the first `=` |
| `Userdata.ParseTokenAccepts` | client/snapper.cc:111-125 | a token is accepted exactly when it holds a `=` and the trimmed text before its first `=` is not empty |
| `Userdata.ParseDelta` | client/snapper.cc:109-125 | parsing all tokens fails exactly when some token fails; on success it gives one pair per token, in order |
| `Userdata.Put` | client/snapper.cc:127-130 | an empty value erases the key (absent or not), any other value sets it, and no other key changes |
| `Userdata.ApplyUnmentioned` | client/snapper.cc:96-131 | a key no token names keeps its presence and old value |
| `Userdata.ApplyLastWins` | client/snapper.cc:109-131 | the last token naming a key decides it: erased when empty, that value otherwise |
| `Userdata.ReadUserdata` | client/snapper.cc:96-134 | succeeds exactly when every token parses (see `ValidDeltaAccepts`); the failure is "Invalid userdata"; a map of non-empty entries stays one |
| `Userdata.ValidDeltaAccepts` | client/snapper.cc:102-125 | a delta is readable exactly when every comma-separated token holds a `=` and a non-empty trimmed key |
| `Userdata.ReadUserdataUnmentioned` | client/snapper.cc:99 | keys the delta does not name keep their old presence and value |
| `Userdata.ReadUserdataLastWins` | client/snapper.cc:109-131 | the last token for a key wins over the old map and earlier tokens |
| `Userdata.SortedKeys` | client/snapper.cc:142 | enumerates exactly the keys, strictly ascending in `std::string` order |
| `Userdata.KeyOrderUnique` | client/snapper.cc:142 | two strictly ascending enumerations of the same keys are equal |
| `Userdata.ShowUserdata` | client/snapper.cc:137-150 | the rendering is empty exactly for the empty map |
| `Userdata.ShowUserdataKeyOrder` | client/snapper.cc:137-150 | the rendering is the `key=value` entries, joined by `", "`, in the one ascending key order |
| `Userdata.SplitRenderTokens` | client/snapper.cc:144-146 | splitting a rendering on commas gives its entries, each after the first with its leading blank |
| `Userdata.ReadShowRoundTrip` | client/snapper.cc:96-150 | reading back a printed non-empty map (values free of commas and outer blanks, keys free of `=`) rebuilds that map; the empty map prints "", which is refused |
| `Subvolume.AddSubvolume` | client/snapper.cc:153-157 | under `/` the name is unchanged; otherwise the result starts with the subvolume and continues with the name |
| `Subvolume.RemoveSubvolume` | client/snapper.cc:160-170 | fails exactly when the name does not start with the subvolume string (a character prefix); under `/` the name is unchanged; otherwise the subvolume followed by the result is the name |
| `Subvolume.RemoveAddSubvolume` | client/snapper.cc:153-170 | removing undoes adding, for any name under a subvolume other than `/` and for absolute names under `/` |
| `Subvolume.AddRemoveSubvolume` | client/snapper.cc:153-170 | adding the subvolume back to a stripped name restores the name |
| `Create.TypeOf` | client/snapper.cc:485-500 | a `--type` text selects exactly the type whose name it is, and no type when it names none |
| `Create.Validate` | client/snapper.cc:467-533 | accepted exactly when there is no positional argument, the type is known, the pre-number and the userdata are readable, a post has a non-zero pre-number and a pre-post (forced by `--command`) a non-empty command; otherwise the first failing check in that order gives its own error (wrong argument count, unknown type, the unreadable pre-number text, invalid userdata, missing pre-number, missing command); the accepted fields are the given options or their defaults |
| `Create.RangeText` | client/snapper.cc:564-565 | the printed `pre..post` line reads back with `read_nums` as the pair when the numbers differ |
| `Create.Dispatch` | client/snapper.cc:535-567 | one call for single, pre and post, three for pre-post; a line is printed exactly with `--print-number` |
| `Create.CommandCreate` | client/snapper.cc:453-567 | a rejected invocation makes no service call at all and reports the validation error |
| `Create.CreateOneCall` | client/snapper.cc:537-556 | single, pre and post each make exactly one create call of their kind with the given description, cleanup and userdata, and post passes the given pre-number; the printed number reads back as the service's answer |
| `Create.CreatePrePostCalls` | client/snapper.cc:558-563 | pre-post is a pre call, then the command, then a post call with the number the pre call returned, an empty description, and the same cleanup and userdata |
| `Create.CreatePrePostPrinted` | client/snapper.cc:564-565 | the printed `pre..post` reads back as the pre and post numbers in that order |
| `Create.CreateCommandForcesPrePost` | client/snapper.cc:517-521 | with `--command` a valid invocation makes the three pre-post calls around that command |
| `Modify.UpdateData` | client/snapper.cc:611-618 | a given description or cleanup replaces the old one and an absent one keeps it; the userdata delta merges into the snapshot's own userdata and fails exactly when unreadable |
| `Modify.UpdateDataUnmentioned` | client/snapper.cc:617-618 | keys the delta does not name keep their old values |
| `Modify.CommandModify` | client/snapper.cc:586-622 | with no argument it fails before any call; it succeeds exactly when every argument is a number and the userdata is readable, and then it makes one fetch and one store per argument, in order, storing the updated metadata under the same number; a failure stops at the first bad argument with the earlier ones already stored |
| `Undo.LineName` | client/snapper.cc:879-891 | a line is skipped exactly when it is empty, or does not start with `/` and has no blank; a `/` line is the name; otherwise the name is what follows the first blank |
| `Undo.FileNames` | client/snapper.cc:877-898 | never more names than lines, and one per line when none is skipped |
| `Undo.FileNamesAppend` | client/snapper.cc:877-898 | the names of a file are the names of its lines, line by line: the names of two consecutive pieces are concatenated |
| `Undo.FileNamesSingle` | client/snapper.cc:879-897 | one line gives its name when it designates a file and nothing when it is skipped |
| `Undo.FileNamesMixed` | client/snapper.cc:877-898 | a file with a status line, an empty line, a line with neither blank nor leading `/`, and an absolute name yields the stripped name and the absolute name, in order |
| `Undo.Directives` | client/snapper.cc:894-897 | succeeds exactly when every name lies in the subvolume, giving one `undo` directive per name in order with the name relative to the subvolume; otherwise it fails on the first name outside it |
| `Undo.LineNameStatusLine` | client/snapper.cc:759 | a `snapper status` line names the absolute path of its file |
| `Undo.FileNamesStatusLines` | client/snapper.cc:759 | when every status is plain (no blank, no leading `/`), none of the lines `status` writes for a file list is skipped, and they name the files' absolute paths in order |
| `Undo.TextLinesStatusText` | client/snapper.cc:758-759 | the text `status` writes reads back as its lines when no status, name or subvolume holds a newline |
| `Undo.StatusTextNewlineName` | client/snapper.cc:759 | a name holding a newline comes back as two lines, and the file read back names only the part before the newline |
| `Undo.UndoStatusFile` | client/snapper.cc:868-900 | feeding the text `snapper status` writes to `--input` yields one undo directive per listed file, naming exactly that file, when every status is plain (no blank, no leading `/`), no status, name or subvolume holds a newline, and under the root subvolume every name is absolute |
| `Undo.SelectUndo` | client/snapper.cc:868-924 | the selection only appends calls, applies nothing, and on success ends with setting the undo |
| `Undo.Gate` | client/snapper.cc:926-936 | the statistics are fetched; "nothing to do" exactly when they are empty; otherwise the undo is applied once, right after, and the counts are reported |
| `Undo.Finish` | client/snapper.cc:864-936 | a failed selection ends the command with its error; a successful one goes on to fetch the statistics, reports "nothing to do" exactly when they are empty, and otherwise applies the undo once, as the last call, right after them |
| `Undo.RunUndo` | client/snapper.cc:842-862 | a failed range, an unopenable input file and `first == 0` are refused in that order, with no service call; the service is called exactly when the checks pass |
| `Undo.CommandUndo` | client/snapper.cc:836-842 | a missing range argument is refused before any call; otherwise the range is read with `read_nums` and the rest are the file arguments |
| `Undo.UndoComparesFirst` | client/snapper.cc:864-866 | once the checks pass, the comparison is created and its files fetched before anything else |
| `Undo.UndoCommitGate` | client/snapper.cc:926-936 | applying the undo happens once if changes are reported and never otherwise, as the last call right after non-empty statistics; "nothing to do" means the fetched statistics were empty |
| `Undo.UndoAppliesChanges` | client/snapper.cc:868-936 | once the checks pass, the command fails only on a name outside the subvolume; otherwise it fetches the statistics after the comparison, reports "nothing to do" exactly when they are empty, and applies the undo as its last call when they are not |
| `Undo.UndoAllSelection` | client/snapper.cc:904-907 | without file and file arguments the selection is one "undo all" call and no directive list is set |
| `Undo.UndoListSelection` | client/snapper.cc:868-923 | with a file or file arguments the subvolume is fetched and the directive list set, or the command stops at a name outside the subvolume |

## Left out

- `Numbers.ReadNum`: `istringstream >> unsigned int` also skips leading white space and accepts a sign (`" 12"`, `"+12"`, and `"-1"` wrapping to 4294967295). The model accepts only plain digit strings.
- `Userdata.Trim`: uses the classic "C" locale white-space set (blank, `\t`, `\n`, `\v`, `\f`, `\r`); other locales are not modelled.
- `Userdata.ReadShowRoundTrip`: holds only for maps whose values have no comma and no outer blanks and whose keys have no `=`. Other maps do not survive the trip, because `show_userdata` does no escaping.
- The empty-token-list check of `read_userdata` (client/snapper.cc:103-107) has no counterpart. A comma split always yields at least one token, so it can never fire.
- `Subvolume.RemoveSubvolume`: the source's bare `throw;` with no active exception ends the process (`std::terminate`). The model reports it as the `NotInSubvolume` failure.
- The D-Bus transport and the `command_*_x*` service functions are not modelled. They are represented as trace entries whose answers come from oracles, and service-side errors are not modelled.
- `system(command)` is a single `RunCommand` trace entry. Its exit status is ignored, as in the source.
- `GetOpts` option parsing is taken as already done. Options arrive as `Option` fields and arguments as a sequence consumed front to back.
- Output formatting is not modelled: tables, `sformat`, translations, help text, and the `create:%d modify:%d delete:%d` line. Only the `--print-number` text of `create` is modelled.
- `Undo.UndoStatusFile`: stated only for statuses, names and a subvolume without a newline. `status` writes names unescaped, so a name holding a newline is read back as two lines (`Undo.StatusTextNewlineName`).
- `Undo.TextLines`: the line reader of the input file is not part of this model. It is taken to split at each newline, with a final newline ending the last line.
- File I/O: the undo input file is its sequence of lines, and a file that cannot be opened is `Unopenable`. The comparison's file list is fetched but unused by `command_undo`, so it is a trace entry with no modelled answer.
- The other commands (`list`, `delete`, `mount`, `status` apart from its line format, `diff`, `cleanup`, config handling), the cleanup algorithms and `main` are not modelled.
