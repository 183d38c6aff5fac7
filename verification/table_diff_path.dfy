/** `GetTableDiffUtilityPath`: the candidate locations of `tablediff.exe`,
    every base folder crossed with every SQL Server version, tried in order;
    the first that exists is the answer, and `First()` throws when none does.
    `File.Exists` is a parameter. */
module TableDiffPath {
  import opened Wrappers

  /** The two base folders, in the order they are tried. */
  const BaseFolders: seq<string> :=
    [@"C:\Program Files\Microsoft SQL Server", @"C:\Program Files (x86)\Microsoft SQL Server"]

  /** The SQL Server version folders, newest first. */
  const Versions: seq<string> := ["140", "130", "120", "110", "100", "90", "80"]

  /** `$@"{b}\{v}\COM\tablediff.exe"`. */
  function CandidatePath(baseFolder: string, version: string): string
  {
    baseFolder + @"\" + version + @"\COM\tablediff.exe"
  }

  /** `versions.Select(v => CandidatePath(b, v))`. */
  function VersionPaths(baseFolder: string, versions: seq<string>): (r: seq<string>)
    ensures |r| == |versions|
    ensures forall j :: 0 <= j < |versions| ==> r[j] == CandidatePath(baseFolder, versions[j])
  {
    seq(|versions|, j requires 0 <= j < |versions| => CandidatePath(baseFolder, versions[j]))
  }

  /** `bases.SelectMany(b => VersionPaths(b, versions))`. */
  function CrossPaths(bases: seq<string>, versions: seq<string>): seq<string>
    decreases |bases|
  {
    if bases == [] then [] else VersionPaths(bases[0], versions) + CrossPaths(bases[1..], versions)
  }

  /** Candidates are ordered base-folder-major, version-minor: the path for
      base `b` and version `v` is at position `b * |versions| + v`. */
  lemma {:induction false} CrossPathsAt(bases: seq<string>, versions: seq<string>, b: nat, v: nat)
    requires b < |bases| && v < |versions|
    ensures |CrossPaths(bases, versions)| == |bases| * |versions|
    ensures b * |versions| + v < |CrossPaths(bases, versions)|
    ensures CrossPaths(bases, versions)[b * |versions| + v] == CandidatePath(bases[b], versions[v])
    decreases |bases|
  {
    var n := |versions|;
    var head := VersionPaths(bases[0], versions);
    if b == 0 {
      if |bases| > 1 {
        CrossPathsAt(bases[1..], versions, 0, v);
      } else {
        assert CrossPaths(bases[1..], versions) == [];
      }
    } else {
      CrossPathsAt(bases[1..], versions, b - 1, v);
      assert b * n + v == n + ((b - 1) * n + v);
    }
    assert |bases| * n == n + (|bases| - 1) * n;
  }

  /** Every candidate path, in the order the LINQ query yields them. */
  function Candidates(): seq<string>
  {
    CrossPaths(BaseFolders, Versions)
  }

  /** There are fourteen candidates; the one at `7 * b + v` is version `v`
      under base folder `b`. */
  lemma CandidateAt(b: nat, v: nat)
    requires b < 2 && v < 7
    ensures |Candidates()| == 14
    ensures Candidates()[7 * b + v] == CandidatePath(BaseFolders[b], Versions[v])
  {
    CrossPathsAt(BaseFolders, Versions, b, v);
  }

  /** The position of the first element satisfying `p`, if any
      (`Where(p).First()` as an index). */
  function FirstIndex(xs: seq<string>, p: string -> bool): (r: Option<nat>)
    ensures r.None? <==> forall i :: 0 <= i < |xs| ==> !p(xs[i])
    ensures r.Some? ==> r.value < |xs| && p(xs[r.value])
    ensures r.Some? ==> forall i :: 0 <= i < r.value ==> !p(xs[i])
    decreases |xs|
  {
    if xs == [] then None
    else if p(xs[0]) then Some(0)
    else
      match FirstIndex(xs[1..], p)
      case None => None
      case Some(i) => Some(i + 1)
  }

  /** `First()` on an empty sequence. */
  datatype PathError = NoTableDiffInstallation

  /** `GetTableDiffUtilityPath`, with `File.Exists` as `fileExists`: the
      earliest existing candidate, or an error when none exists. */
  function GetTableDiffUtilityPath(fileExists: string -> bool): (r: Result<string, PathError>)
    ensures r.Failure? <==> forall c :: c in Candidates() ==> !fileExists(c)
    ensures r.Success? ==>
              exists i :: 0 <= i < |Candidates()| && Candidates()[i] == r.value
                          && fileExists(r.value)
                          && forall j :: 0 <= j < i ==> !fileExists(Candidates()[j])
  {
    match FirstIndex(Candidates(), fileExists)
    case None => Failure(NoTableDiffInstallation)
    case Some(i) => Success(Candidates()[i])
  }

  /** The path found is the existing one with the earliest base folder, and
      within that folder the newest version. */
  lemma ToolPathPrefersFirstFolderThenNewestVersion(fileExists: string -> bool)
    requires GetTableDiffUtilityPath(fileExists).Success?
    ensures exists b, v :: 0 <= b < 2 && 0 <= v < 7
              && GetTableDiffUtilityPath(fileExists).value == CandidatePath(BaseFolders[b], Versions[v])
              && (forall b', v' :: 0 <= b' < 2 && 0 <= v' < 7 && (b' < b || (b' == b && v' < v))
                    ==> !fileExists(CandidatePath(BaseFolders[b'], Versions[v'])))
  {
    var c := GetTableDiffUtilityPath(fileExists).value;
    CandidateAt(0, 0);
    var i :| 0 <= i < |Candidates()| && Candidates()[i] == c && fileExists(c)
             && forall j :: 0 <= j < i ==> !fileExists(Candidates()[j]);
    var b, v := i / 7, i % 7;
    assert i == 7 * b + v;
    CandidateAt(b, v);
    forall b', v' | 0 <= b' < 2 && 0 <= v' < 7 && (b' < b || (b' == b && v' < v))
      ensures !fileExists(CandidatePath(BaseFolders[b'], Versions[v']))
    {
      CandidateAt(b', v');
      assert 7 * b' + v' < i;
    }
  }
}
