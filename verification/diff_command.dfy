/** The pure parts of `GenerateChangeScript`: the `tablediff.exe` argument
    string, the name of the file the tool writes, and the text read back.
    Starting the process, waiting for it and the temporary files are not
    modelled; the file's contents, or its absence, are a parameter. */
module DiffCommand {
  import opened Wrappers
  import opened Text
  import opened Parameters
  import ChangeScript
  import TableDiffPath

  /** The tool path `GenerateChangeScript` starts. It is fixed, not the one
      `GetTableDiffUtilityPath` finds. */
  const ToolPath: string := @"C:\Program Files\Microsoft SQL Server\140\COM\tablediff.exe"

  /** A string property inside an interpolated string: null prints as
      nothing. */
  function Interpolated(o: Option<string>): string
  {
    match o
    case Some(s) => s
    case None => ""
  }

  /** The (flag, value) tokens of `diffCommandArguments`, in order. */
  function ArgumentTokens(p: ProgramParameters, table: string, fileName: string): (r: seq<string>)
    ensures |r| == 14
  {
    ["-sourceserver", Interpolated(p.sourceServer),
     "-sourcedatabase", Interpolated(p.sourceDatabase),
     "-destinationserver", Interpolated(p.destinationServer),
     "-destinationdatabase", Interpolated(p.destinationDatabase),
     "-sourcetable", table,
     "-destinationtable", table,
     "-f", "\"" + fileName + "\""]
  }

  /** No value holds a space, so splitting on single spaces keeps each
      token whole. */
  predicate Unspaced(p: ProgramParameters, table: string, fileName: string)
  {
    && ' ' !in Interpolated(p.sourceServer) && ' ' !in Interpolated(p.sourceDatabase)
    && ' ' !in Interpolated(p.destinationServer) && ' ' !in Interpolated(p.destinationDatabase)
    && ' ' !in table && ' ' !in fileName
  }

  lemma UnspacedTokens(p: ProgramParameters, table: string, fileName: string)
    requires Unspaced(p, table, fileName)
    ensures forall k :: 0 <= k < 14 ==> ' ' !in ArgumentTokens(p, table, fileName)[k]
  {
    var t := ArgumentTokens(p, table, fileName);
    assert t[13] == ['"'] + fileName + ['"'];
  }

  /** `diffCommandArguments`: the interpolated template puts exactly one
      space between consecutive tokens, so when no value holds a space,
      splitting on single spaces (`SplitSpaces`) gives back exactly the 14
      flag/value tokens, empty ones included. */
  function DiffCommandArguments(p: ProgramParameters, table: string, fileName: string): (r: string)
    ensures Unspaced(p, table, fileName) ==> SplitSpaces(r) == ArgumentTokens(p, table, fileName)
  {
    var t := ArgumentTokens(p, table, fileName);
    if Unspaced(p, table, fileName) then
      UnspacedTokens(p, table, fileName);
      SplitJoin(t);
      JoinSpaces(t)
    else
      JoinSpaces(t)
  }

  /** `outputFile`: the file the tool leaves its script in. It is never the
      name passed with `-f` itself. */
  function OutputFile(fileName: string): (r: string)
    ensures fileName < r
  {
    fileName + ".sql"
  }

  /** Lines 88 to 94: the file's text if it exists, otherwise empty. */
  function ChangeScriptFromOutput(outputContents: Option<string>): (r: string)
    ensures outputContents.None? ==> r == []
    ensures outputContents.Some? ==> r == outputContents.value
  {
    match outputContents
    case Some(text) => text
    case None => ""
  }

  /** The file read back is the `-f` value with its quotes taken off and
      `.sql` added. */
  lemma OutputFileFollowsFlag(p: ProgramParameters, table: string, fileName: string)
    ensures ArgumentTokens(p, table, fileName)[12] == "-f"
    ensures OutputFile(fileName) == ArgumentTokens(p, table, fileName)[13][1..|fileName| + 1] + ".sql"
  {
    var q := ArgumentTokens(p, table, fileName)[13];
    assert q == ['"'] + fileName + ['"'];
    assert q[1..|fileName| + 1] == fileName;
  }

  /** When no value holds a space, both `-sourcetable` and
      `-destinationtable` receive the table name. */
  lemma ArgumentsTokenize(p: ProgramParameters, table: string, fileName: string)
    requires Unspaced(p, table, fileName)
    ensures SplitSpaces(DiffCommandArguments(p, table, fileName))[9] == table
    ensures SplitSpaces(DiffCommandArguments(p, table, fileName))[11] == table
  {
  }

  /** The tokens `SplitSpaces` gives when the table name is `a b`. */
  function SpreadTokens(p: ProgramParameters, a: string, b: string, fileName: string): (r: seq<string>)
    ensures |r| == 16
    ensures r[8] == "-sourcetable" && r[9] == a && r[10] == b
    ensures r[11] == "-destinationtable" && r[12] == a && r[13] == b
  {
    ["-sourceserver", Interpolated(p.sourceServer),
     "-sourcedatabase", Interpolated(p.sourceDatabase),
     "-destinationserver", Interpolated(p.destinationServer),
     "-destinationdatabase", Interpolated(p.destinationDatabase),
     "-sourcetable", a, b,
     "-destinationtable", a, b,
     "-f", "\"" + fileName + "\""]
  }

  lemma JoinSpread(p: ProgramParameters, a: string, b: string, fileName: string)
    ensures DiffCommandArguments(p, a + " " + b, fileName) == JoinSpaces(SpreadTokens(p, a, b, fileName))
  {
    var t := ArgumentTokens(p, a + " " + b, fileName);
    var head := t[..9];
    var q := t[13];
    assert t == head + [a + " " + b] + ["-destinationtable", a + " " + b, "-f", q];
    JoinSplitToken(head, a, b, ["-destinationtable", a + " " + b, "-f", q]);
    var mid := head + [a, b, "-destinationtable"];
    assert head + [a, b] + ["-destinationtable", a + " " + b, "-f", q]
        == mid + [a + " " + b] + ["-f", q];
    JoinSplitToken(mid, a, b, ["-f", q]);
    assert mid + [a, b] + ["-f", q] == SpreadTokens(p, a, b, fileName);
  }

  lemma UnspacedSpread(p: ProgramParameters, a: string, b: string, fileName: string)
    requires Unspaced(p, a, fileName) && ' ' !in b
    ensures forall k :: 0 <= k < 16 ==> ' ' !in SpreadTokens(p, a, b, fileName)[k]
  {
    var u, r := ArgumentTokens(p, a, fileName), SpreadTokens(p, a, b, fileName);
    UnspacedTokens(p, a, fileName);
    assert r == u[..10] + [b] + u[10..12] + [b] + u[12..];
  }

  /** An unset property is interpolated as nothing, so it leaves an empty
      token between its flag and the next flag. */
  lemma UnsetValueIsEmptyToken(p: ProgramParameters, table: string, fileName: string)
    requires Unspaced(p, table, fileName)
    ensures p.sourceServer.None? ==> SplitSpaces(DiffCommandArguments(p, table, fileName))[1] == ""
    ensures p.sourceDatabase.None? ==> SplitSpaces(DiffCommandArguments(p, table, fileName))[3] == ""
    ensures p.destinationServer.None? ==> SplitSpaces(DiffCommandArguments(p, table, fileName))[5] == ""
    ensures p.destinationDatabase.None? ==> SplitSpaces(DiffCommandArguments(p, table, fileName))[7] == ""
  {
  }

  /** Table names are put into the command line without quotes, so for a
      name with a space, `a b`, splitting on single spaces (`SplitSpaces`)
      gives 16 tokens: `-sourcetable` and `-destinationtable` are followed
      only by `a`, and `b` is a stray token after each. */
  lemma TableWithSpaceSplits(p: ProgramParameters, a: string, b: string, fileName: string)
    requires Unspaced(p, a, fileName) && ' ' !in b
    ensures var r := SplitSpaces(DiffCommandArguments(p, a + " " + b, fileName));
            && |r| == 16
            && r[8] == "-sourcetable" && r[9] == a && r[10] == b
            && r[11] == "-destinationtable" && r[12] == a && r[13] == b
  {
    JoinSpread(p, a, b, fileName);
    UnspacedSpread(p, a, b, fileName);
    SplitJoin(SpreadTokens(p, a, b, fileName));
  }

  /** A table whose diff leaves no output file contributes nothing to the
      change script. */
  lemma NoOutputAddsNothing()
    ensures ChangeScript.Framed(ChangeScriptFromOutput(None)) == []
  {
  }

  /** Every table whose diff leaves non-blank output gets that output's
      block in the change script. */
  lemma OutputReachesScript(tables: seq<string>, outputOf: string -> Option<string>, t: string)
    requires t in tables
    requires outputOf(t).Some? && !IsNullOrWhiteSpace(outputOf(t).value)
    ensures ChangeScript.Framed(outputOf(t).value)
            in ChangeScript.Blocks(ChangeScript.ChangeScripts(tables, u => ChangeScriptFromOutput(outputOf(u))))
  {
    var fragments := ChangeScript.ChangeScripts(tables, u => ChangeScriptFromOutput(outputOf(u)));
    var i :| 0 <= i < |tables| && tables[i] == t;
    assert fragments[i] == outputOf(t).value;
    ChangeScript.BlocksCount(fragments, outputOf(t).value);
  }

  /** When no table's diff leaves an output file, the change script is
      empty. */
  lemma NoOutputsEmptyScript(tables: seq<string>, outputOf: string -> Option<string>)
    requires forall t :: t in tables ==> outputOf(t).None?
    ensures ChangeScript.Script(ChangeScript.ChangeScripts(tables, u => ChangeScriptFromOutput(outputOf(u)))) == []
  {
    var fragments := ChangeScript.ChangeScripts(tables, u => ChangeScriptFromOutput(outputOf(u)));
    forall f | f in fragments
      ensures IsNullOrWhiteSpace(f)
    {
      var i :| 0 <= i < |fragments| && fragments[i] == f;
      assert outputOf(tables[i]).None?;
    }
  }

  /** The fixed tool path is the first candidate `GetTableDiffUtilityPath`
      tries, so the search returns it whenever it exists. */
  lemma ToolPathIsFirstCandidate(fileExists: string -> bool)
    ensures ToolPath == TableDiffPath.Candidates()[0]
    ensures fileExists(ToolPath) ==> TableDiffPath.GetTableDiffUtilityPath(fileExists) == Success(ToolPath)
  {
    TableDiffPath.CandidateAt(0, 0);
    assert TableDiffPath.CandidatePath(TableDiffPath.BaseFolders[0], TableDiffPath.Versions[0]) == ToolPath;
  }
}
