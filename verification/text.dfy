/** The .NET string primitives the program relies on, over `string`
    (`seq<char>`): `ToLower`, `Replace(pattern, "")`, `char.IsWhiteSpace`
    and `string.IsNullOrWhiteSpace`, plus joining on spaces. Splitting on
    single spaces is not something the program does; it stands for how the
    external tool reads its command line. */
module Text {

  /** Lower-casing of one character. Only the ASCII letters are mapped. */
  function LowerChar(c: char): char
  {
    if 'A' <= c <= 'Z' then (c as int + 32) as char else c
  }

  /** `string.ToLower()`, character by character. */
  function ToLower(s: string): (r: string)
    ensures |r| == |s|
    ensures forall i :: 0 <= i < |s| ==> r[i] == LowerChar(s[i])
    decreases |s|
  {
    if s == [] then [] else [LowerChar(s[0])] + ToLower(s[1..])
  }

  lemma {:induction false} ToLowerConcat(a: string, b: string)
    ensures ToLower(a + b) == ToLower(a) + ToLower(b)
    decreases |a|
  {
    if a == [] {
      assert a + b == b;
    } else {
      assert (a + b)[0] == a[0];
      assert (a + b)[1..] == a[1..] + b;
      ToLowerConcat(a[1..], b);
    }
  }

  /** `s.Replace(pattern, "")`: the leftmost occurrence is deleted first and
      the scan resumes after it, so occurrences never overlap. */
  function RemoveAll(s: string, pattern: string): (r: string)
    requires |pattern| > 0
    ensures |r| <= |s|
    ensures forall x :: x in r ==> x in s
    decreases |s|
  {
    if |s| < |pattern| then s
    else if s[..|pattern|] == pattern then RemoveAll(s[|pattern|..], pattern)
    else [s[0]] + RemoveAll(s[1..], pattern)
  }

  /** The characters of `s` other than `c`, in order. */
  function Without(s: string, c: char): (r: string)
    ensures c !in r
    ensures forall x :: x in r ==> x in s
    decreases |s|
  {
    if s == [] then []
    else if s[0] == c then Without(s[1..], c)
    else [s[0]] + Without(s[1..], c)
  }

  lemma {:induction false} WithoutConcat(a: string, b: string, c: char)
    ensures Without(a + b, c) == Without(a, c) + Without(b, c)
    decreases |a|
  {
    if a == [] {
      assert a + b == b;
    } else {
      assert (a + b)[0] == a[0];
      assert (a + b)[1..] == a[1..] + b;
      WithoutConcat(a[1..], b, c);
    }
  }

  /** Deleting a one-character pattern is `Without`. */
  lemma {:induction false} RemoveAllSingle(s: string, c: char)
    ensures RemoveAll(s, [c]) == Without(s, c)
    decreases |s|
  {
    if |s| >= 1 {
      RemoveAllSingle(s[1..], c);
    }
  }

  /** Deleting the doubled pattern `cc` first changes nothing once every
      single `c` is deleted afterwards. */
  lemma {:induction false} RemoveAllDoubleThenSingle(s: string, c: char)
    ensures Without(RemoveAll(s, [c, c]), c) == Without(s, c)
    decreases |s|
  {
    if |s| < 2 {
    } else if s[..2] == [c, c] {
      RemoveAllDoubleThenSingle(s[2..], c);
      assert s[0] == c && s[1] == c;
      assert s[1..][1..] == s[2..];
    } else {
      RemoveAllDoubleThenSingle(s[1..], c);
      WithoutConcat([s[0]], RemoveAll(s[1..], [c, c]), c);
    }
  }

  /** `char.IsWhiteSpace`: the Unicode space, line and paragraph separators
      together with U+0009 to U+000D and U+0085. */
  predicate IsWhiteSpace(c: char)
  {
    || c == ' '
    || '\t' <= c <= '\r'
    || c == '\U{0085}'
    || c == '\U{00A0}'
    || c == '\U{1680}'
    || '\U{2000}' <= c <= '\U{200A}'
    || c == '\U{2028}'
    || c == '\U{2029}'
    || c == '\U{202F}'
    || c == '\U{205F}'
    || c == '\U{3000}'
  }

  /** `string.IsNullOrWhiteSpace` for a non-null string: true of the empty
      string and exactly of the strings made only of white space. */
  predicate IsNullOrWhiteSpace(s: string): (r: bool)
    ensures s == [] ==> r
    ensures r <==> forall c :: c in s ==> IsWhiteSpace(c)
  {
    forall i :: 0 <= i < |s| ==> IsWhiteSpace(s[i])
  }

  /** A string is blank exactly when both of its halves are. */
  lemma BlankConcat(a: string, b: string)
    ensures IsNullOrWhiteSpace(a + b) <==> IsNullOrWhiteSpace(a) && IsNullOrWhiteSpace(b)
  {
    if IsNullOrWhiteSpace(a) && IsNullOrWhiteSpace(b) {
      forall i | 0 <= i < |a + b|
        ensures IsWhiteSpace((a + b)[i])
      {
        if i >= |a| {
          assert (a + b)[i] == b[i - |a|];
        }
      }
    }
    if IsNullOrWhiteSpace(a + b) {
      forall i | 0 <= i < |b|
        ensures IsWhiteSpace(b[i])
      {
        assert (a + b)[|a| + i] == b[i];
      }
    }
  }

  /** The index of the first `c` in `s`, when there is one. */
  function IndexOfChar(s: string, c: char): (i: nat)
    requires c in s
    ensures i < |s| && s[i] == c && c !in s[..i]
    decreases |s|
  {
    if s[0] == c then 0 else 1 + IndexOfChar(s[1..], c)
  }

  /** `String.Join(" ", tokens)`. */
  function JoinSpaces(tokens: seq<string>): (r: string)
    requires |tokens| > 0
    decreases |tokens|
  {
    if |tokens| == 1 then tokens[0] else tokens[0] + " " + JoinSpaces(tokens[1..])
  }

  /** The pieces between single spaces, empty ones included: the semantics
      of .NET's `Split(' ')`. */
  function SplitSpaces(s: string): (r: seq<string>)
    ensures |r| > 0
    decreases |s|
  {
    if ' ' in s then
      var i := IndexOfChar(s, ' ');
      [s[..i]] + SplitSpaces(s[i + 1..])
    else [s]
  }

  /** Splitting undoes joining when no token holds a space. */
  lemma {:induction false} SplitJoin(tokens: seq<string>)
    requires |tokens| > 0
    requires forall k :: 0 <= k < |tokens| ==> ' ' !in tokens[k]
    ensures SplitSpaces(JoinSpaces(tokens)) == tokens
    decreases |tokens|
  {
    if |tokens| > 1 {
      var t, rest := tokens[0], JoinSpaces(tokens[1..]);
      var s := t + " " + rest;
      assert s[|t|] == ' ';
      assert s[..|t|] == t;
      var i := IndexOfChar(s, ' ');
      assert i == |t|;
      assert s[i + 1..] == rest;
      SplitJoin(tokens[1..]);
      assert tokens == [tokens[0]] + tokens[1..];
    }
  }

  /** A token that holds a space joins to the same text as its two halves
      given as separate tokens. */
  lemma {:induction false} JoinSplitToken(pre: seq<string>, x: string, y: string, post: seq<string>)
    ensures JoinSpaces(pre + [x + " " + y] + post) == JoinSpaces(pre + [x, y] + post)
    decreases |pre|
  {
    if pre == [] {
      assert [] + [x + " " + y] + post == [x + " " + y] + post;
      assert [] + [x, y] + post == [x] + ([y] + post);
      assert ([x] + ([y] + post))[1..] == [y] + post;
      if post != [] {
        assert ([x + " " + y] + post)[1..] == post;
        assert ([y] + post)[1..] == post;
      }
    } else {
      assert (pre + [x + " " + y] + post)[1..] == pre[1..] + [x + " " + y] + post;
      assert (pre + [x, y] + post)[1..] == pre[1..] + [x, y] + post;
      JoinSplitToken(pre[1..], x, y, post);
    }
  }
}
