/** `ParseParameters` and `ProgramParameters`: the command line is read as
    (name, value) pairs; each name is lower-cased and stripped of `--`, `-`
    and `/`, then must be one of four keys. */
module Parameters {
  import opened Wrappers
  import opened Text

  /** The four settable properties of `ProgramParameters`. */
  datatype Key = SourceServer | SourceDatabase | DestinationServer | DestinationDatabase

  /** `ProgramParameters`; `None` stands for a property still null. */
  datatype ProgramParameters = ProgramParameters(
    sourceDatabase: Option<string>,
    sourceServer: Option<string>,
    destinationDatabase: Option<string>,
    destinationServer: Option<string>)
  {
    function Get(k: Key): Option<string>
    {
      match k
      case SourceServer => sourceServer
      case SourceDatabase => sourceDatabase
      case DestinationServer => destinationServer
      case DestinationDatabase => destinationDatabase
    }

    /** Assigning one property leaves the three others as they were. */
    function Set(k: Key, v: string): (r: ProgramParameters)
      ensures r.Get(k) == Some(v)
      ensures forall other: Key :: other != k ==> r.Get(other) == Get(other)
    {
      match k
      case SourceServer => this.(sourceServer := Some(v))
      case SourceDatabase => this.(sourceDatabase := Some(v))
      case DestinationServer => this.(destinationServer := Some(v))
      case DestinationDatabase => this.(destinationDatabase := Some(v))
    }
  }

  /** A freshly constructed `ProgramParameters`: every property null. */
  const Unset := ProgramParameters(None, None, None, None)

  /** The exceptions `ParseParameters` throws. */
  datatype ParseError =
    | MissingParameters          // null or empty argument array
    | OddParameterCount          // a name without its value
    | UnknownParameter(name: string)  // the name as given, before normalising

  /** The switch expression: lower-case, then `Replace("--", "")`,
      `Replace("-", "")` and `Replace("/", "")`. The normal form holds no
      separator and no character the lower-cased name lacks. */
  function Normalize(name: string): (r: string)
    ensures '-' !in r && '/' !in r
    ensures forall c :: c in r ==> c in ToLower(name)
  {
    var dashes := RemoveAll(RemoveAll(ToLower(name), "--"), "-");
    RemoveAllSingle(RemoveAll(ToLower(name), "--"), '-');
    RemoveAllSingle(dashes, '/');
    RemoveAll(dashes, "/")
  }

  /** The key a parameter name selects, if any. */
  function KeyOf(name: string): (r: Option<Key>)
    ensures r == Some(SourceServer) <==> Normalize(name) == "sourceserver"
    ensures r == Some(SourceDatabase) <==> Normalize(name) == "sourcedatabase"
    ensures r == Some(DestinationServer) <==> Normalize(name) == "destinationserver"
    ensures r == Some(DestinationDatabase) <==> Normalize(name) == "destinationdatabase"
  {
    var n := Normalize(name);
    if n == "sourceserver" then Some(SourceServer)
    else if n == "sourcedatabase" then Some(SourceDatabase)
    else if n == "destinationserver" then Some(DestinationServer)
    else if n == "destinationdatabase" then Some(DestinationDatabase)
    else None
  }

  /** One pass of the loop body: assign the value, or fail on the name. */
  function Assign(p: ProgramParameters, name: string, value: string): Result<ProgramParameters, ParseError>
  {
    match KeyOf(name)
    case Some(k) => Success(p.Set(k, value))
    case None => Failure(UnknownParameter(name))
  }

  /** The loop over the remaining pairs, starting from parameters `p`. */
  function ApplyPairs(p: ProgramParameters, pairs: seq<string>): Result<ProgramParameters, ParseError>
    requires |pairs| % 2 == 0
    decreases |pairs|
  {
    if pairs == [] then Success(p)
    else
      match Assign(p, pairs[0], pairs[1])
      case Failure(e) => Failure(e)
      case Success(q) => ApplyPairs(q, pairs[2..])
  }

  /** What `ParseParameters` returns or throws, as a function of `args`. */
  function Parse(args: seq<string>): Result<ProgramParameters, ParseError>
  {
    if |args| == 0 then Failure(MissingParameters)
    else if |args| % 2 != 0 then Failure(OddParameterCount)
    else ApplyPairs(Unset, args)
  }

  /** An even position before an even end leaves room for a whole pair. */
  lemma EvenStep(i: int, n: int)
    requires 0 <= i < n && i % 2 == 0 && n % 2 == 0
    ensures i + 2 <= n && (i + 2) % 2 == 0 && (n - i) % 2 == 0 && (n - (i + 2)) % 2 == 0
  {
    assert i == 2 * (i / 2) && n == 2 * (n / 2);
  }

  /** One pass of the loop over the pairs from position `i` on. */
  lemma ApplyPairsStep(p: ProgramParameters, args: seq<string>, i: nat)
    requires i < |args| && |args| % 2 == 0 && i % 2 == 0
    ensures KeyOf(args[i]).None? ==> ApplyPairs(p, args[i..]) == Failure(UnknownParameter(args[i]))
    ensures KeyOf(args[i]).Some? ==>
              ApplyPairs(p, args[i..]) == ApplyPairs(p.Set(KeyOf(args[i]).value, args[i + 1]), args[i + 2..])
  {
    EvenStep(i, |args|);
    assert args[i..][2..] == args[i + 2..];
  }

  /** `ParseParameters`: the count checks, then the `i += 2` loop. */
  method ParseParameters(args: seq<string>) returns (r: Result<ProgramParameters, ParseError>)
    ensures r == Parse(args)
  {
    if |args| == 0 {
      return Failure(MissingParameters);
    }
    if |args| % 2 != 0 {
      return Failure(OddParameterCount);
    }
    var parameters := Unset;
    var i := 0;
    while i < |args|
      invariant 0 <= i <= |args| && i % 2 == 0
      invariant ApplyPairs(parameters, args[i..]) == ApplyPairs(Unset, args)
      decreases |args| - i
    {
      EvenStep(i, |args|);
      var parameterName := args[i];
      var parameterValue := args[i + 1];
      ApplyPairsStep(parameters, args, i);
      match KeyOf(parameterName)
      case None =>
        return Failure(UnknownParameter(parameterName));
      case Some(k) =>
        parameters := parameters.Set(k, parameterValue);
      i := i + 2;
    }
    return Success(parameters);
  }

  // ---------------------------------------------------------------------
  // Argument count
  // ---------------------------------------------------------------------

  /** No arguments, or an odd number of them, is an error and yields no
      parameters. */
  lemma ParseRejectsBadCount(args: seq<string>)
    ensures |args| == 0 ==> Parse(args) == Failure(MissingParameters)
    ensures |args| % 2 == 1 ==> Parse(args) == Failure(OddParameterCount)
    ensures Parse(args).Success? ==> |args| > 0 && |args| % 2 == 0
  {
  }

  // ---------------------------------------------------------------------
  // Names: only even positions, normalised, one of four keys
  // ---------------------------------------------------------------------

  /** Every name position (an even index) holds a recognised name. */
  ghost predicate AllNamesKnown(args: seq<string>)
  {
    forall i :: 0 <= i < |args| && i % 2 == 0 ==> KeyOf(args[i]).Some?
  }

  /** A property of every even position holds of the first element and of
      every even position of the rest after the first pair. */
  lemma EvenPositionsCons(pairs: seq<string>, known: string -> bool)
    requires pairs != [] && |pairs| % 2 == 0
    ensures (forall i :: 0 <= i < |pairs| && i % 2 == 0 ==> known(pairs[i]))
        <==> known(pairs[0]) && forall i :: 0 <= i < |pairs| - 2 && i % 2 == 0 ==> known(pairs[2..][i])
  {
    EvenStep(0, |pairs|);
    var rest := pairs[2..];
    forall i | 0 <= i < |rest| && i % 2 == 0
      ensures rest[i] == pairs[i + 2] && (i + 2) % 2 == 0
    {
    }
    if known(pairs[0]) && forall i :: 0 <= i < |rest| && i % 2 == 0 ==> known(rest[i]) {
      forall i | 0 <= i < |pairs| && i % 2 == 0
        ensures known(pairs[i])
      {
        if i >= 2 {
          assert pairs[i] == rest[i - 2];
        }
      }
    }
  }

  /** The names of a list of pairs are the first name and the names of the
      remaining pairs. */
  lemma AllNamesKnownCons(pairs: seq<string>)
    requires pairs != [] && |pairs| % 2 == 0
    ensures |pairs[2..]| % 2 == 0
    ensures AllNamesKnown(pairs) <==> KeyOf(pairs[0]).Some? && AllNamesKnown(pairs[2..])
  {
    EvenStep(0, |pairs|);
    EvenPositionsCons(pairs, name => KeyOf(name).Some?);
  }

  lemma {:induction false} ApplyPairsSucceedsIff(p: ProgramParameters, pairs: seq<string>)
    requires |pairs| % 2 == 0
    ensures ApplyPairs(p, pairs).Success? <==> AllNamesKnown(pairs)
    decreases |pairs|
  {
    if pairs != [] {
      AllNamesKnownCons(pairs);
      match Assign(p, pairs[0], pairs[1])
      case Failure(e) =>
      case Success(q) =>
        ApplyPairsSucceedsIff(q, pairs[2..]);
    }
  }

  /** Parsing succeeds exactly when the count is even and positive and every
      name (never a value) is recognised. */
  lemma ParseSucceedsIff(args: seq<string>)
    ensures Parse(args).Success? <==> |args| > 0 && |args| % 2 == 0 && AllNamesKnown(args)
  {
    if |args| > 0 && |args| % 2 == 0 {
      ApplyPairsSucceedsIff(Unset, args);
    }
  }

  lemma {:induction false} ApplyPairsReportsFirstUnknown(p: ProgramParameters, pairs: seq<string>, i: nat)
    requires |pairs| % 2 == 0
    requires i < |pairs| && i % 2 == 0 && KeyOf(pairs[i]).None?
    requires forall j :: 0 <= j < i && j % 2 == 0 ==> KeyOf(pairs[j]).Some?
    ensures ApplyPairs(p, pairs) == Failure(UnknownParameter(pairs[i]))
    decreases |pairs|
  {
    if i > 0 {
      EvenStep(0, |pairs|);
      assert KeyOf(pairs[0]).Some?;
      var q := p.Set(KeyOf(pairs[0]).value, pairs[1]);
      var rest := pairs[2..];
      forall j | 0 <= j < i - 2 && j % 2 == 0
        ensures KeyOf(rest[j]).Some?
      {
        assert rest[j] == pairs[j + 2];
      }
      assert rest[i - 2] == pairs[i];
      ApplyPairsReportsFirstUnknown(q, rest, i - 2);
    }
  }

  /** The error names the first unrecognised name, as given. */
  lemma ParseReportsFirstUnknown(args: seq<string>, i: nat)
    requires |args| % 2 == 0
    requires i < |args| && i % 2 == 0 && KeyOf(args[i]).None?
    requires forall j :: 0 <= j < i && j % 2 == 0 ==> KeyOf(args[j]).Some?
    ensures Parse(args) == Failure(UnknownParameter(args[i]))
  {
    ApplyPairsReportsFirstUnknown(Unset, args, i);
  }

  /** After lower-casing, `Normalize` deletes every `-` and every `/`, and
      nothing else: the `--` replacement is subsumed by the `-` one. */
  lemma NormalizeDropsSeparators(name: string)
    ensures Normalize(name) == Without(Without(ToLower(name), '-'), '/')
  {
    var lower := ToLower(name);
    RemoveAllSingle(RemoveAll(lower, "--"), '-');
    RemoveAllDoubleThenSingle(lower, '-');
    RemoveAllSingle(Without(lower, '-'), '/');
  }

  lemma {:induction false} StripConcat(a: string, b: string)
    ensures Without(Without(ToLower(a + b), '-'), '/')
         == Without(Without(ToLower(a), '-'), '/') + Without(Without(ToLower(b), '-'), '/')
  {
    ToLowerConcat(a, b);
    WithoutConcat(ToLower(a), ToLower(b), '-');
    WithoutConcat(Without(ToLower(a), '-'), Without(ToLower(b), '-'), '/');
  }

  /** Normalising a name part by part gives the normalised whole. */
  lemma NormalizeConcat(a: string, b: string)
    ensures Normalize(a + b) == Normalize(a) + Normalize(b)
  {
    NormalizeDropsSeparators(a + b);
    NormalizeDropsSeparators(a);
    NormalizeDropsSeparators(b);
    StripConcat(a, b);
  }

  lemma NormalizeSeparator(c: char)
    requires c == '-' || c == '/'
    ensures Normalize([c]) == []
  {
    NormalizeDropsSeparators([c]);
    assert ToLower([c]) == [c];
    if c == '-' {
      assert Without([c], '-') == [];
    } else {
      assert Without([c], '-') == [c];
      assert Without([c], '/') == [];
    }
  }

  lemma NormalizeSeparatorInside(a: string, b: string, c: char)
    requires c == '-' || c == '/'
    ensures Normalize(a + [c] + b) == Normalize(a + b)
  {
    NormalizeConcat(a + [c], b);
    NormalizeConcat(a, [c]);
    NormalizeConcat(a, b);
    NormalizeSeparator(c);
    assert Normalize(a) + [] == Normalize(a);
  }

  /** A `-` or `/` anywhere in a name does not change the key it selects. */
  lemma SeparatorIgnored(a: string, b: string, c: char)
    requires c == '-' || c == '/'
    ensures KeyOf(a + [c] + b) == KeyOf(a + b)
  {
    NormalizeSeparatorInside(a, b, c);
  }

  /** Upper-case ASCII letters select the same key as their lower-case
      forms. */
  lemma CaseIgnored(name: string)
    ensures KeyOf(ToLower(name)) == KeyOf(name)
  {
    NormalizeDropsSeparators(name);
    NormalizeDropsSeparators(ToLower(name));
    assert ToLower(ToLower(name)) == ToLower(name);
  }

  lemma {:induction false} WithoutAbsent(s: string, c: char)
    requires c !in s
    ensures Without(s, c) == s
    decreases |s|
  {
    if s != [] {
      WithoutAbsent(s[1..], c);
    }
  }

  /** A name made only of lower-case ASCII letters is its own normal form. */
  lemma NormalizeLowerLetters(name: string)
    requires forall i :: 0 <= i < |name| ==> 'a' <= name[i] <= 'z'
    ensures Normalize(name) == name
  {
    NormalizeDropsSeparators(name);
    assert ToLower(name) == name;
    WithoutAbsent(name, '-');
    WithoutAbsent(name, '/');
  }

  // ---------------------------------------------------------------------
  // Values: the last value given for a key wins; unnamed keys stay null
  // ---------------------------------------------------------------------

  /** Reference definition: the value of the last pair whose name selects
      `k`, scanning the pairs from the end. */
  function LastValue(pairs: seq<string>, k: Key): Option<string>
    requires |pairs| % 2 == 0
    decreases |pairs|
  {
    if pairs == [] then None
    else if KeyOf(pairs[|pairs| - 2]) == Some(k) then Some(pairs[|pairs| - 1])
    else LastValue(pairs[..|pairs| - 2], k)
  }

  /** `later` if it is set, otherwise `earlier`. */
  function Override(later: Option<string>, earlier: Option<string>): Option<string>
  {
    if later.Some? then later else earlier
  }

  lemma {:induction false} LastValueCons(name: string, value: string, rest: seq<string>, k: Key)
    requires |rest| % 2 == 0
    ensures LastValue([name, value] + rest, k)
         == Override(LastValue(rest, k), if KeyOf(name) == Some(k) then Some(value) else None)
    decreases |rest|
  {
    var all := [name, value] + rest;
    if rest != [] {
      assert all[|all| - 2] == rest[|rest| - 2] && all[|all| - 1] == rest[|rest| - 1];
      assert all[..|all| - 2] == [name, value] + rest[..|rest| - 2];
      LastValueCons(name, value, rest[..|rest| - 2], k);
    } else {
      assert all[..|all| - 2] == [];
    }
  }

  lemma ApplyPairsCons(p: ProgramParameters, pairs: seq<string>)
    requires pairs != [] && |pairs| % 2 == 0 && ApplyPairs(p, pairs).Success?
    ensures Assign(p, pairs[0], pairs[1]).Success?
    ensures ApplyPairs(p, pairs) == ApplyPairs(Assign(p, pairs[0], pairs[1]).value, pairs[2..])
  {
  }

  /** The value the first pair gives `k`, if its name selects `k`. */
  function FirstValue(pairs: seq<string>, k: Key): Option<string>
    requires |pairs| >= 2
  {
    if KeyOf(pairs[0]) == Some(k) then Some(pairs[1]) else None
  }

  lemma LastValueFront(pairs: seq<string>, k: Key)
    requires pairs != [] && |pairs| % 2 == 0
    ensures LastValue(pairs, k) == Override(LastValue(pairs[2..], k), FirstValue(pairs, k))
  {
    assert pairs == [pairs[0], pairs[1]] + pairs[2..];
    LastValueCons(pairs[0], pairs[1], pairs[2..], k);
  }

  /** One assignment: the named property takes the value, the others keep
      theirs. */
  lemma AssignValue(p: ProgramParameters, pairs: seq<string>, k: Key)
    requires |pairs| >= 2 && Assign(p, pairs[0], pairs[1]).Success?
    ensures Assign(p, pairs[0], pairs[1]).value.Get(k) == Override(FirstValue(pairs, k), p.Get(k))
  {
  }

  lemma {:induction false} ApplyPairsValues(p: ProgramParameters, pairs: seq<string>, k: Key)
    requires |pairs| % 2 == 0 && ApplyPairs(p, pairs).Success?
    ensures ApplyPairs(p, pairs).value.Get(k) == Override(LastValue(pairs, k), p.Get(k))
    decreases |pairs|
  {
    if pairs != [] {
      EvenStep(0, |pairs|);
      ApplyPairsCons(p, pairs);
      var q := Assign(p, pairs[0], pairs[1]).value;
      AssignValue(p, pairs, k);
      ApplyPairsValues(q, pairs[2..], k);
      LastValueFront(pairs, k);
    }
  }

  /** On success each property holds the value of the last pair naming it,
      and is null when no pair names it. */
  lemma ParseKeepsLastValue(args: seq<string>, k: Key)
    requires Parse(args).Success?
    ensures |args| % 2 == 0
    ensures Parse(args).value.Get(k) == LastValue(args, k)
  {
    ApplyPairsValues(Unset, args, k);
  }
}
