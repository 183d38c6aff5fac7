/** The shared change-script buffer (`_builder` with `AppendChangeScript`)
    and the loop in `Main` that appends each table's fragment to it. The
    parallel loop is modelled as a sequential one over the order in which
    the tables' appends happened to run, which may be any permutation of the
    table list. */
module ChangeScript {
  import opened Text
  import opened Permutations

  /** The literal batch separator line appended after every fragment. */
  const BatchSeparator: string := "GO\r\n"

  /** `Environment.NewLine`, added by `StringBuilder.AppendLine`. */
  const NewLine: string := "\r\n"

  /** What one call of `AppendChangeScript` adds to the buffer: nothing for
      a blank fragment, otherwise the fragment, `GO` and a blank line. */
  function Framed(fragment: string): (r: string)
    ensures r == [] <==> IsNullOrWhiteSpace(fragment)
    ensures !IsNullOrWhiteSpace(fragment) ==>
              r == fragment + "GO\r\n\r\n"
  {
    if IsNullOrWhiteSpace(fragment) then [] else fragment + BatchSeparator + NewLine
  }

  /** The framed non-blank fragments, in append order: at most one block
      per fragment. */
  function Blocks(fragments: seq<string>): (r: seq<string>)
    ensures |r| <= |fragments|
    decreases |fragments|
  {
    if fragments == [] then []
    else
      var last := fragments[|fragments| - 1];
      Blocks(fragments[..|fragments| - 1]) + (if IsNullOrWhiteSpace(last) then [] else [Framed(last)])
  }

  /** The blocks laid end to end. */
  function Concat(blocks: seq<string>): string
    decreases |blocks|
  {
    if blocks == [] then [] else Concat(blocks[..|blocks| - 1]) + blocks[|blocks| - 1]
  }

  /** The buffer's text after appending `fragments` in order to an empty
      buffer. It is empty exactly when every fragment is blank. */
  function Script(fragments: seq<string>): (r: string)
    ensures r == [] <==> forall i :: 0 <= i < |fragments| ==> IsNullOrWhiteSpace(fragments[i])
  {
    BlocksEmpty(fragments);
    ConcatEmpty(Blocks(fragments));
    Concat(Blocks(fragments))
  }

  /** No block is empty, and there are none exactly when every fragment is
      blank. */
  lemma {:induction false} BlocksEmpty(fragments: seq<string>)
    ensures forall k :: 0 <= k < |Blocks(fragments)| ==> Blocks(fragments)[k] != []
    ensures Blocks(fragments) == [] <==> forall i :: 0 <= i < |fragments| ==> IsNullOrWhiteSpace(fragments[i])
    decreases |fragments|
  {
    if fragments != [] {
      var init := fragments[..|fragments| - 1];
      BlocksEmpty(init);
      assert forall i :: 0 <= i < |init| ==> init[i] == fragments[i];
    }
  }

  /** The concatenation is empty exactly when every block is. */
  lemma {:induction false} ConcatEmpty(blocks: seq<string>)
    ensures Concat(blocks) == [] <==> forall k :: 0 <= k < |blocks| ==> blocks[k] == []
    decreases |blocks|
  {
    if blocks != [] {
      var init := blocks[..|blocks| - 1];
      ConcatEmpty(init);
      assert forall k :: 0 <= k < |init| ==> init[k] == blocks[k];
    }
  }

  /** `_builder` together with `AppendChangeScript`. The `lock` that
      serialises the appends is not modelled: appends here happen one at a
      time. */
  class ScriptBuilder {
    var text: string

    constructor ()
      ensures text == []
    {
      text := [];
    }

    /** `AppendChangeScript`: a blank fragment leaves the buffer unchanged;
        otherwise the framed fragment is appended, so the old text stays a
        prefix. */
    method AppendChangeScript(changeScript: string)
      modifies this
      ensures text == old(text) + Framed(changeScript)
      ensures IsNullOrWhiteSpace(changeScript) ==> text == old(text)
      ensures old(text) <= text
    {
      if IsNullOrWhiteSpace(changeScript) {
        return;
      }
      text := text + (changeScript + BatchSeparator) + NewLine;
    }
  }

  /** `GenerateChangeScript` applied to each table of `tables`, in order. */
  function ChangeScripts(tables: seq<string>, changeScriptOf: string -> string): (r: seq<string>)
    ensures |r| == |tables|
    ensures forall i :: 0 <= i < |tables| ==> r[i] == changeScriptOf(tables[i])
  {
    seq(|tables|, i requires 0 <= i < |tables| => changeScriptOf(tables[i]))
  }

  /** The loop in `Main` followed by `_builder.ToString()`. `completion` is
      the order in which the tables' appends ran, a permutation of `tables`;
      `changeScriptOf` stands for `GenerateChangeScript` with the run's
      parameters. The result is the blocks of the non-blank fragments in
      that order, and the same blocks, counted with repetition, whatever the
      order. */
  method ScriptAllTables(tables: seq<string>, completion: seq<string>, changeScriptOf: string -> string)
    returns (script: string)
    requires multiset(completion) == multiset(tables)
    ensures script == Concat(Blocks(ChangeScripts(completion, changeScriptOf)))
    ensures multiset(Blocks(ChangeScripts(completion, changeScriptOf)))
         == multiset(Blocks(ChangeScripts(tables, changeScriptOf)))
  {
    var builder := new ScriptBuilder();
    var i := 0;
    while i < |completion|
      invariant 0 <= i <= |completion|
      invariant builder.text == Script(ChangeScripts(completion[..i], changeScriptOf))
      decreases |completion| - i
    {
      var changeScript := changeScriptOf(completion[i]);
      builder.AppendChangeScript(changeScript);
      ScriptStep(completion, i, changeScriptOf);
      i := i + 1;
    }
    assert completion[..i] == completion;
    script := builder.text;
    ScriptsPermuted(completion, tables, changeScriptOf);
  }

  // ---------------------------------------------------------------------
  // Properties of the buffer
  // ---------------------------------------------------------------------

  /** Appending one fragment to the fragments appended so far adds exactly
      its framed text (nothing when it is blank). */
  lemma ScriptAppend(fragments: seq<string>, fragment: string)
    ensures Script(fragments + [fragment]) == Script(fragments) + Framed(fragment)
  {
    var all := fragments + [fragment];
    assert all[..|all| - 1] == fragments;
    var bs := Blocks(fragments);
    if !IsNullOrWhiteSpace(fragment) {
      assert (bs + [Framed(fragment)])[..|bs|] == bs;
    } else {
      assert bs + [] == bs;
    }
  }

  /** One more table of the completion order appends its framed fragment. */
  lemma ScriptStep(completion: seq<string>, i: nat, f: string -> string)
    requires i < |completion|
    ensures Script(ChangeScripts(completion[..i + 1], f))
         == Script(ChangeScripts(completion[..i], f)) + Framed(f(completion[i]))
  {
    ScriptAppend(ChangeScripts(completion[..i], f), f(completion[i]));
    assert ChangeScripts(completion[..i + 1], f) == ChangeScripts(completion[..i], f) + [f(completion[i])];
  }

  lemma {:induction false} BlocksConcat(a: seq<string>, b: seq<string>)
    ensures Blocks(a + b) == Blocks(a) + Blocks(b)
    decreases |b|
  {
    if b == [] {
      assert a + b == a;
    } else {
      var b' := b[..|b| - 1];
      assert (a + b)[..|a + b| - 1] == a + b';
      assert (a + b)[|a + b| - 1] == b[|b| - 1];
      BlocksConcat(a, b');
    }
  }

  lemma {:induction false} ConcatConcat(a: seq<string>, b: seq<string>)
    ensures Concat(a + b) == Concat(a) + Concat(b)
    decreases |b|
  {
    if b == [] {
      assert a + b == a;
    } else {
      var b' := b[..|b| - 1];
      assert (a + b)[..|a + b| - 1] == a + b';
      ConcatConcat(a, b');
    }
  }

  /** The buffer only grows: the script of some fragments is a prefix of the
      script of those fragments followed by more. */
  lemma ScriptAppendOnly(earlier: seq<string>, later: seq<string>)
    ensures Script(earlier + later) == Script(earlier) + Script(later)
    ensures Script(earlier) <= Script(earlier + later)
  {
    BlocksConcat(earlier, later);
    ConcatConcat(Blocks(earlier), Blocks(later));
  }

  /** Each block is some non-blank fragment followed by the separator line
      and a blank line. `BlocksCount` gives the converse, with multiplicity. */
  lemma {:induction false} BlocksAreFramedFragments(fragments: seq<string>, k: nat)
    requires k < |Blocks(fragments)|
    ensures exists i :: 0 <= i < |fragments| && !IsNullOrWhiteSpace(fragments[i])
                        && Blocks(fragments)[k] == fragments[i] + "GO\r\n\r\n"
    decreases |fragments|
  {
    var n := |fragments|;
    var init := fragments[..n - 1];
    if k < |Blocks(init)| {
      BlocksAreFramedFragments(init, k);
      var i :| 0 <= i < |init| && !IsNullOrWhiteSpace(init[i]) && Blocks(init)[k] == init[i] + "GO\r\n\r\n";
      assert fragments[i] == init[i];
    } else {
      var last := fragments[n - 1];
      assert Blocks(fragments)[k] == Framed(last);
      assert Framed(last) == last + "GO\r\n\r\n";
    }
  }

  /** Distinct non-blank fragments are framed into distinct blocks. */
  lemma FramedInjective(a: string, b: string)
    requires !IsNullOrWhiteSpace(a) && !IsNullOrWhiteSpace(b)
    requires Framed(a) == Framed(b)
    ensures a == b
  {
    assert |a| == |b|;
    assert a == Framed(a)[..|a|];
    assert b == Framed(b)[..|b|];
  }

  /** The one-fragment case of `BlocksCount`. */
  lemma FramedCountOne(g: string, f: string)
    requires !IsNullOrWhiteSpace(f)
    ensures multiset(Blocks([g]))[Framed(f)] == multiset([g])[f]
  {
    assert [g][..0] == [];
    if !IsNullOrWhiteSpace(g) && Framed(g) == Framed(f) {
      FramedInjective(g, f);
    }
  }

  /** A non-blank fragment appended `n` times gives its block exactly `n`
      times, so every non-blank fragment reaches the script. */
  lemma {:induction false} BlocksCount(fragments: seq<string>, f: string)
    requires !IsNullOrWhiteSpace(f)
    ensures multiset(Blocks(fragments))[Framed(f)] == multiset(fragments)[f]
    ensures f in fragments ==> Framed(f) in Blocks(fragments)
    decreases |fragments|
  {
    if fragments != [] {
      var n := |fragments|;
      var init, last := fragments[..n - 1], fragments[n - 1];
      assert fragments == init + [last];
      BlocksCount(init, f);
      BlocksConcat(init, [last]);
      FramedCountOne(last, f);
      assert multiset(fragments) == multiset(init) + multiset([last]);
      assert multiset(Blocks(fragments)) == multiset(Blocks(init)) + multiset(Blocks([last]));
    }
    if f in fragments {
      assert multiset(fragments)[f] > 0;
    }
  }

  /** Taking one fragment out of the middle keeps the blocks of the others. */
  lemma BlocksRemoveOne(pre: seq<string>, x: string, post: seq<string>)
    ensures multiset(Blocks(pre + [x] + post))
         == multiset(Blocks([x])) + multiset(Blocks(pre + post))
  {
    BlocksConcat(pre + [x], post);
    BlocksConcat(pre, [x]);
    BlocksConcat(pre, post);
    var bp, bm, bq := Blocks(pre), Blocks([x]), Blocks(post);
    assert multiset(bp + bm + bq) == multiset(bp) + multiset(bm) + multiset(bq);
    assert multiset(bp + bq) == multiset(bp) + multiset(bq);
  }

  /** Fragments appended in any two orders give the same blocks, counted
      with repetition: no fragment is lost, duplicated or split. */
  lemma {:induction false} BlocksPermuted(xs: seq<string>, ys: seq<string>)
    requires multiset(xs) == multiset(ys)
    ensures multiset(Blocks(xs)) == multiset(Blocks(ys))
    decreases |xs|
  {
    if xs != [] {
      var x, rest := xs[0], xs[1..];
      var pre, post := FindFirst(xs, ys);
      assert xs == [] + [x] + rest;
      BlocksPermuted(rest, pre + post);
      BlocksRemoveOne(pre, x, post);
      BlocksRemoveOne([], x, rest);
      assert [] + rest == rest;
    } else {
      assert multiset(ys) == multiset{};
    }
  }

  lemma ChangeScriptsConcat(a: seq<string>, b: seq<string>, f: string -> string)
    ensures ChangeScripts(a + b, f) == ChangeScripts(a, f) + ChangeScripts(b, f)
  {
    var l, r := ChangeScripts(a + b, f), ChangeScripts(a, f) + ChangeScripts(b, f);
    forall i | 0 <= i < |a + b|
      ensures l[i] == r[i]
    {
      if i < |a| {
        assert (a + b)[i] == a[i];
      } else {
        assert (a + b)[i] == b[i - |a|];
      }
    }
  }

  lemma ChangeScriptsRemoveOne(pre: seq<string>, x: string, post: seq<string>, f: string -> string)
    ensures multiset(ChangeScripts(pre + [x] + post, f))
         == multiset{f(x)} + multiset(ChangeScripts(pre + post, f))
  {
    ChangeScriptsConcat(pre + [x], post, f);
    ChangeScriptsConcat(pre, [x], f);
    ChangeScriptsConcat(pre, post, f);
    var cp, cm, cq := ChangeScripts(pre, f), ChangeScripts([x], f), ChangeScripts(post, f);
    assert cm == [f(x)];
    assert multiset(cp + cm + cq) == multiset(cp) + multiset(cm) + multiset(cq);
    assert multiset(cp + cq) == multiset(cp) + multiset(cq);
  }

  lemma {:induction false} ChangeScriptsPermuted(xs: seq<string>, ys: seq<string>, f: string -> string)
    requires multiset(xs) == multiset(ys)
    ensures multiset(ChangeScripts(xs, f)) == multiset(ChangeScripts(ys, f))
    decreases |xs|
  {
    if xs != [] {
      var x, rest := xs[0], xs[1..];
      var pre, post := FindFirst(xs, ys);
      assert xs == [] + [x] + rest;
      ChangeScriptsPermuted(rest, pre + post, f);
      ChangeScriptsRemoveOne(pre, x, post, f);
      ChangeScriptsRemoveOne([], x, rest, f);
      assert [] + rest == rest;
    } else {
      assert multiset(ys) == multiset{};
    }
  }

  /** Whatever order the parallel appends ran in, the script holds the same
      blocks, counted with repetition. */
  lemma ScriptsPermuted(order: seq<string>, tables: seq<string>, f: string -> string)
    requires multiset(order) == multiset(tables)
    ensures multiset(Blocks(ChangeScripts(order, f))) == multiset(Blocks(ChangeScripts(tables, f)))
  {
    ChangeScriptsPermuted(order, tables, f);
    BlocksPermuted(ChangeScripts(order, f), ChangeScripts(tables, f));
  }
}
