# ScriptDatabaseChanges — a Dafny model of its self-contained logic

`ScriptDatabaseChanges` compares every base table of a source SQL Server
database with the same table in a destination database. It runs
`tablediff.exe` once per table, in parallel, and gathers the scripts the tool
writes into one `changeScript.sql`, with a `GO` batch separator after each
table's script. Around the database and process I/O, the program holds four
small pieces of logic. This project models each of them and proves what it
guarantees:

- **Command-line parsing** (`Parameters`). `ParseParameters` reads the
  arguments as (name, value) pairs. It lower-cases each name and strips
  `--`, `-` and `/` from it. The name must then select one of
  `SourceServer`, `SourceDatabase`, `DestinationServer` or
  `DestinationDatabase`. An empty or odd-length argument list is an error,
  and so is an unknown name. The loop is a `while` loop over a
  `ProgramParameters` record. The record is a value because the object the
  source fills in is local and is returned only at the end. The loop is
  proved against a functional specification, `Parse`.
- **Script accumulation** (`ChangeScript`). `ScriptBuilder` is the shared
  `StringBuilder` and its `AppendChangeScript`. A blank fragment changes
  nothing. Any other fragment is appended followed by `GO\r\n` and a line
  break. The `Parallel.ForEach` in `Main` becomes a sequential loop
  (`ScriptAllTables`). It visits the tables in the order their appends ran,
  which can be any permutation of the table list. The proofs show:
  - The buffer only grows.
  - Each block is one non-blank fragment framed by the separator, and each
    append of a non-blank fragment gives exactly one block.
  - The script is empty exactly when every fragment is blank.
  - Every completion order yields the same blocks, counted with repetition.
- **Deny-list filter** (`TableList`). `GetTableList` removes the first
  `CheckDBLog` from the catalog's list, then the first `EventLog`. This is
  `List<string>.Remove`, an exact, case-sensitive match. `Remove` models it
  as an `IndexOf` loop followed by the deletion.
- **Tool-path search** (`TableDiffPath`). `GetTableDiffUtilityPath` builds
  candidates in this order: two base folders, each crossed with the seven
  versions 140 down to 80. It returns the first candidate that exists and
  fails when none does. `File.Exists` is a function parameter.
- **Diff invocation strings** (`DiffCommand`). This module holds the
  argument string passed to `tablediff.exe`, the output file name, and how
  the tool's output becomes a fragment.

`Wrappers` holds the `Option` and `Result` types that stand for null and
for thrown exceptions. `Text` models the .NET string primitives the code
uses: `ToLower`, `Replace(pattern, "")`, `char.IsWhiteSpace` and
`string.IsNullOrWhiteSpace`. It also holds joining on spaces, which the
argument template performs, and splitting on single spaces
(`SplitSpaces`). The program never splits a string; `SplitSpaces` is the
model's stand-in for how `tablediff.exe` reads its command line.
`Permutations` holds one proof step about reordered sequences.

Facts about the program that the model keeps:

- The program recognises exactly four keys: `sourceserver`,
  `sourcedatabase`, `destinationserver` and `destinationdatabase`.
- It removes exactly two tables, `CheckDBLog` and `EventLog`.
- `List.Remove` deletes only the first occurrence of a name. A table list
  with a repeated denied name therefore keeps the later copies
  (`DenyFilterRemovesDenied` needs the list to have no duplicates).
- `GenerateChangeScript` starts `tablediff.exe` from a hard-coded path. It
  does not use the path that `GetTableDiffUtilityPath` finds.
  `ToolPathIsFirstCandidate` shows that the hard-coded path is the first
  candidate.

## Model

| member | source | states |
|---|---|---|
| `Parameters.ParseParameters` | ScriptDatabaseChanges/Program.cs:108-144 | The count checks and the `i += 2` loop return exactly `Parse(args)`. On success that is the parameters built from the pairs. Otherwise it is the error that would be thrown. |
| `Parameters.ParseRejectsBadCount` | ScriptDatabaseChanges/Program.cs:110-111 | No arguments gives `MissingParameters` and an odd count gives `OddParameterCount`. Success implies a positive, even count. |
| `Parameters.ParseSucceedsIff` | ScriptDatabaseChanges/Program.cs:113-140 | Parsing succeeds if and only if the count is positive and even and every even-index element is a recognised name. Values at odd indices are never checked as names. |
| `Parameters.ParseReportsFirstUnknown` | ScriptDatabaseChanges/Program.cs:138-139 | If the name at even index `i` is the first one not recognised, the result is `UnknownParameter` carrying that name as given. |
| `Parameters.ParseKeepsLastValue` | ScriptDatabaseChanges/Program.cs:113-143 | On success, each property holds the value of the last pair whose name selects it (`LastValue`, a backward scan). A property that no pair names stays null. |
| `Parameters.ProgramParameters.Set` | ScriptDatabaseChanges/Program.cs:122-136 | Assigning one property sets it to the value and leaves the three others unchanged. |
| `Parameters.Normalize` | ScriptDatabaseChanges/Program.cs:120 | The normal form of a name holds no `-` and no `/`, and every character in it occurs in the lower-cased name. |
| `Parameters.ApplyPairsStep` | ScriptDatabaseChanges/Program.cs:116-139 | One pass of the loop: an unknown name at position `i` ends the parse with `UnknownParameter`, and a known one sets its property and continues at `i + 2`. |
| `Parameters.NormalizeDropsSeparators` | ScriptDatabaseChanges/Program.cs:120 | After lower-casing, normalisation deletes every `-` and `/` and nothing else. The `--` replacement is subsumed. |
| `Parameters.NormalizeConcat` | ScriptDatabaseChanges/Program.cs:120 | Normalising a name piecewise gives the normalised whole. |
| `Parameters.SeparatorIgnored` | ScriptDatabaseChanges/Program.cs:120 | Inserting `-` or `/` anywhere in a name does not change the key it selects. For example, `-source-server` and `/sourceserver` select the same key as `sourceserver`. |
| `Parameters.CaseIgnored` | ScriptDatabaseChanges/Program.cs:120 | A name selects the same key as its lower-cased form. For example, `--SourceServer` selects the same key as `--sourceserver`. |
| `Parameters.NormalizeLowerLetters` | ScriptDatabaseChanges/Program.cs:120-122 | A name made only of lower-case letters is its own normal form. So `sourceserver` selects `SourceServer`. |
| `Text.ToLower` | ScriptDatabaseChanges/Program.cs:120 | Lower-casing keeps the length and maps each character independently. |
| `Text.RemoveAll` | ScriptDatabaseChanges/Program.cs:120 | `Replace(pattern, "")` never lengthens a string, and every character of the result occurs in the input. `RemoveAllSingle` shows that a one-character pattern deletes exactly that character and keeps the rest in order. `RemoveAllDoubleThenSingle` shows that deleting `--` before `-` changes nothing. |
| `Text.RemoveAllSingle` | ScriptDatabaseChanges/Program.cs:120 | Deleting a one-character pattern deletes every copy of that character and keeps the rest in order. |
| `Text.RemoveAllDoubleThenSingle` | ScriptDatabaseChanges/Program.cs:120 | Deleting `cc` and then `c` gives the same result as deleting `c` alone. |
| `Text.BlankConcat` | ScriptDatabaseChanges/Program.cs:44 | A string is blank exactly when both of its halves are. |
| `ChangeScript.Blocks` | ScriptDatabaseChanges/Program.cs:29-36 | There is at most one block per fragment appended. |
| `ChangeScript.BlocksEmpty` | ScriptDatabaseChanges/Program.cs:44-48 | No block is empty. There are no blocks exactly when every fragment is blank. |
| `ChangeScript.Script` | ScriptDatabaseChanges/Program.cs:29-38 | The text `Main` writes is empty exactly when every table's fragment is blank. |
| `ChangeScript.ScriptBuilder.constructor` | ScriptDatabaseChanges/Program.cs:17 | The shared buffer starts empty. |
| `ChangeScript.ScriptBuilder.AppendChangeScript` | ScriptDatabaseChanges/Program.cs:42-50 | The new buffer is the old one followed by the framed fragment. A blank fragment leaves the buffer unchanged, and the old text is always a prefix. |
| `ChangeScript.ScriptAppend` | ScriptDatabaseChanges/Program.cs:42-50 | The script of `fragments + [f]` is the script of `fragments` followed by the framing of `f`. |
| `ChangeScript.ScriptAppendOnly` | ScriptDatabaseChanges/Program.cs:46-49 | The script of `earlier + later` is the script of `earlier` followed by that of `later`, so it has the earlier script as a prefix. |
| `ChangeScript.ScriptStep` | ScriptDatabaseChanges/Program.cs:29-32 | Handling one more table of the completion order appends that table's framed fragment to the script. |
| `ChangeScript.BlocksAreFramedFragments` | ScriptDatabaseChanges/Program.cs:44-48 | Every block of the script is some non-blank fragment followed by `GO\r\n\r\n`. |
| `ChangeScript.FramedInjective` | ScriptDatabaseChanges/Program.cs:44-48 | Two different non-blank fragments are framed into two different blocks. |
| `ChangeScript.BlocksCount` | ScriptDatabaseChanges/Program.cs:29-36 | A non-blank fragment appended `n` times gives its block exactly `n` times. So every non-blank fragment reaches the script, and nothing else is added or lost. |
| `ChangeScript.BlocksPermuted` | ScriptDatabaseChanges/Program.cs:29-36 | Fragments appended in two orders that are permutations of each other give the same multiset of blocks. |
| `ChangeScript.ScriptsPermuted` | ScriptDatabaseChanges/Program.cs:29-36 | Whatever order the per-table appends run in, the script holds the same blocks as the table-list order, counted with repetition. |
| `ChangeScript.ScriptAllTables` | ScriptDatabaseChanges/Program.cs:29-38 | The sequential loop in `Main` produces the concatenated blocks of the non-blank fragments, in completion order. Its blocks equal, as a multiset, those of any other order of the tables. |
| `TableList.RemoveFirst` | ScriptDatabaseChanges/Program.cs:71-72 | `List.Remove` returns the list unchanged when the item is absent. Otherwise the list is one shorter. Either way the result's multiset is the old one minus one copy of the item. |
| `TableList.RemoveFirstAt` | ScriptDatabaseChanges/Program.cs:71-72 | If the first occurrence is at `i`, the result is everything before `i` followed by everything after it. |
| `TableList.Remove` | ScriptDatabaseChanges/Program.cs:71-72 | The `IndexOf`-then-delete loop returns `RemoveFirst` and reports whether the item was present. |
| `TableList.RemoveDeniedTables` | ScriptDatabaseChanges/Program.cs:71-74 | The two `Remove` calls give `WithoutDeniedTables(tables)`, which is at most two entries shorter than the input. |
| `TableList.RemoveFirstIsSubsequence` | ScriptDatabaseChanges/Program.cs:71-72 | Removing an item keeps the remaining entries in their order. |
| `TableList.DenyFilterCounts` | ScriptDatabaseChanges/Program.cs:71-74 | The length drops by at most 2. The result's multiset is the input's minus one `CheckDBLog` and one `EventLog`, and every other name keeps its count. |
| `TableList.DenyFilterKeepsOrder` | ScriptDatabaseChanges/Program.cs:71-74 | The filtered list is a subsequence of the catalog's list. |
| `TableList.DenyFilterRemovesDenied` | ScriptDatabaseChanges/Program.cs:71-74 | For a list with no duplicates, neither denied name remains, and every other name is present exactly when it was in the input. |
| `TableDiffPath.CrossPathsAt` | ScriptDatabaseChanges/Program.cs:103 | `SelectMany` yields `bases × versions` paths. The path for base `b` and version `v` sits at position `b` times the number of versions plus `v`. |
| `TableDiffPath.CandidateAt` | ScriptDatabaseChanges/Program.cs:99-103 | There are 14 candidates. Position `7b + v` holds `{base b}\{version v}\COM\tablediff.exe`. |
| `TableDiffPath.FirstIndex` | ScriptDatabaseChanges/Program.cs:104-105 | `Where(...).First()` as an index: none exactly when no element qualifies, and otherwise the least qualifying index. |
| `TableDiffPath.GetTableDiffUtilityPath` | ScriptDatabaseChanges/Program.cs:97-106 | Fails exactly when no candidate exists. Otherwise it returns an existing candidate, and no candidate before it exists. |
| `TableDiffPath.ToolPathPrefersFirstFolderThenNewestVersion` | ScriptDatabaseChanges/Program.cs:99-105 | The chosen path belongs to the lexicographically least (base folder, version) pair that exists. `Program Files` comes before `Program Files (x86)`, then versions run newest first. |
| `DiffCommand.DiffCommandArguments` | ScriptDatabaseChanges/Program.cs:82-83 | When no server, database, table or file name holds a space, splitting the argument string on single spaces gives back exactly the 14 flag/value tokens, empty ones included. |
| `DiffCommand.UnsetValueIsEmptyToken` | ScriptDatabaseChanges/Program.cs:83 | An unset server or database property leaves an empty token right after its flag. |
| `DiffCommand.ArgumentsTokenize` | ScriptDatabaseChanges/Program.cs:83 | When no server, database, table or file name holds a space, splitting the argument string on single spaces gives both `-sourcetable` and `-destinationtable` the table name as the token after `-sourcetable` and after `-destinationtable`. |
| `DiffCommand.TableWithSpaceSplits` | ScriptDatabaseChanges/Program.cs:83 | The table name is not quoted. For a name `a b`, splitting the argument string on single spaces (`SplitSpaces`) gives 16 tokens: `-sourcetable` and `-destinationtable` are each followed only by `a`, and `b` follows each as a stray token. |
| `DiffCommand.OutputFile` | ScriptDatabaseChanges/Program.cs:80 | The output file name extends the `-f` name and is never equal to it. |
| `DiffCommand.OutputFileFollowsFlag` | ScriptDatabaseChanges/Program.cs:79-83 | The file read back is the value passed after `-f` with its quotes removed and `.sql` added. |
| `DiffCommand.NoOutputAddsNothing` | ScriptDatabaseChanges/Program.cs:88-94 | A table whose diff leaves no output file adds nothing to the change script. |
| `DiffCommand.OutputReachesScript` | ScriptDatabaseChanges/Program.cs:88-94 | The output a table's diff leaves, when it is not blank, reaches the change script as its own block. |
| `DiffCommand.NoOutputsEmptyScript` | ScriptDatabaseChanges/Program.cs:88-94 | When no table's diff leaves an output file, the change script is empty. |
| `DiffCommand.ToolPathIsFirstCandidate` | ScriptDatabaseChanges/Program.cs:85 | The hard-coded tool path is the first search candidate. When it exists, the search returns it. |
| `Text.SplitJoin` | ScriptDatabaseChanges/Program.cs:82-83 | Splitting on spaces undoes joining with single spaces when no token contains a space. |

## Left out

- The SQL connection and the `INFORMATION_SCHEMA.TABLES` query in `GetTableList` (lines 55-69) are database I/O. So is the `SqlDataReader.Select` extension (lines 157-163). The model starts from the list the query returned.
- Starting `tablediff.exe`, waiting for it, `Path.GetTempPath` / `GetRandomFileName`, and reading and deleting the temp file (lines 79, 85-93) are process and file I/O. The file's contents, or their absence, are a parameter of `ChangeScriptFromOutput`. In `ScriptAllTables`, the per-table result of `GenerateChangeScript` is a function parameter `changeScriptOf`.
- Concurrency is not modelled: `Parallel.ForEach`, the `lock`, `Interlocked.Increment` and the progress `Console.WriteLine` (lines 29-36, 46). Appends run one at a time, in a completion order supplied by the caller, which may be any permutation of the tables. The progress counter is dropped.
- `File.WriteAllText("changeScript.sql", ...)` (line 39) is file I/O.
- `ChangeScript.ScriptAllTables` models only runs in which no call of `GenerateChangeScript` throws: `changeScriptOf` is total. In the program, `Process.Start` (line 85) throws when the hard-coded tool path is missing, and `File.ReadAllText` or `File.Delete` (lines 91-92) can throw. Such an exception escapes `Parallel.ForEach` (lines 29-36), so one throwing table aborts the whole run and no `changeScript.sql` is written. This happens on every table when `tablediff.exe` is installed only under `Program Files (x86)` or for a version other than 140, even though `GetTableDiffUtilityPath` (line 24) succeeds.
- `File.Exists` is the parameter `fileExists`. `Environment.NewLine` is `"\r\n"`.
- `Text.ToLower`: only ASCII letters are lower-cased. The .NET `ToLower` follows the current culture. Under a Turkish or Azeri culture it maps the ASCII `I` to the dotless `ı` (U+0131). There `--DESTINATIONSERVER` normalises to `destınatıonserver`, and the program throws at line 139, while the model and `CaseIgnored` select `DestinationServer`. Non-ASCII letters are also left unchanged by the model.
- `Text.IsWhiteSpace` is the fixed set of characters that .NET's `char.IsWhiteSpace` accepts.
- `Parameters.ParseParameters`: a null argument array is not representable. In the source it throws the same exception as an empty array, so `MissingParameters` covers both.
- `ChangeScript.ScriptBuilder.AppendChangeScript`: a null fragment is not representable. The only caller never passes null, and the source treats null like the empty string, as a no-op.
- `DiffCommand.DiffCommandArguments` is written as its 14 tokens joined by single spaces, which is the string the interpolation template produces. The tool's own command-line parsing is not modelled: splitting on single spaces (`SplitSpaces`) stands for it. The two differ in two ways. `tablediff.exe` would read the quoted file name as one argument even if it held spaces. It also treats a run of spaces as one separator.
- An unset or empty server or database value is interpolated as nothing (line 83), so the string holds two spaces in a row there. `UnsetValueIsEmptyToken` shows the empty token this gives under `SplitSpaces`. The tool's parser drops that token, so the flag before it takes the next flag as its value: with no destination server, `-destinationserver` receives `-destinationdatabase`. What the tool then does is not modelled.
- Server, database and table values that contain spaces are put into the command line unquoted (line 83). `TableWithSpaceSplits` shows that splitting on single spaces cuts such a table name in two. What `tablediff.exe` then does is not modelled; most likely it writes no output file, and the table silently adds nothing to the script.
- `DiffCommand.OutputFile`: that the tool writes its script to the `-f` name with `.sql` added is behaviour of the external tool, which is not part of this model.
