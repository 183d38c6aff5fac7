/** The end of `GetTableList`: after the catalog query returns the base
    tables, `tables.Remove("CheckDBLog")` and `tables.Remove("EventLog")`
    take the two operational tables out of the working set. */
module TableList {

  /** The two names removed from the table list, in the order they are
      removed. */
  const CheckDBLog: string := "CheckDBLog"
  const EventLog: string := "EventLog"

  /** `List<string>.Remove(item)` on the list's contents: the first element
      equal to `item` (exact, case-sensitive comparison) is deleted; a list
      without `item` is returned as it was. */
  function RemoveFirst(xs: seq<string>, item: string): (r: seq<string>)
    ensures item !in xs ==> r == xs
    ensures item in xs ==> |r| == |xs| - 1
    ensures multiset(r) == multiset(xs) - multiset{item}
    decreases |xs|
  {
    if xs == [] then []
    else if xs[0] == item then
      assert xs == [item] + xs[1..];
      xs[1..]
    else
      assert xs == [xs[0]] + xs[1..];
      [xs[0]] + RemoveFirst(xs[1..], item)
  }

  /** The table list `GetTableList` returns, as a function of what the
      catalog query yielded. */
  function WithoutDeniedTables(tables: seq<string>): seq<string>
  {
    RemoveFirst(RemoveFirst(tables, CheckDBLog), EventLog)
  }

  /** `List<string>.Remove`: find the first index holding `item`
      (`IndexOf`), then delete it (`RemoveAt`). */
  method Remove(list: seq<string>, item: string) returns (r: seq<string>, removed: bool)
    ensures removed <==> item in list
    ensures r == RemoveFirst(list, item)
  {
    var i := 0;
    while i < |list| && list[i] != item
      invariant 0 <= i <= |list|
      invariant item !in list[..i]
      decreases |list| - i
    {
      i := i + 1;
    }
    if i == |list| {
      assert list[..i] == list;
      return list, false;
    }
    RemoveFirstAt(list, item, i);
    return list[..i] + list[i + 1..], true;
  }

  /** Lines 71 to 74 of `GetTableList`. */
  method RemoveDeniedTables(tables: seq<string>) returns (result: seq<string>)
    ensures result == WithoutDeniedTables(tables)
    ensures |tables| - 2 <= |result| <= |tables|
  {
    var removed: bool;
    result := tables;
    result, removed := Remove(result, CheckDBLog);
    result, removed := Remove(result, EventLog);
  }

  // ---------------------------------------------------------------------
  // Properties of List.Remove
  // ---------------------------------------------------------------------

  /** `Remove` deletes exactly the first occurrence: everything before it and
      everything after it is kept, in order. */
  lemma {:induction false} RemoveFirstAt(xs: seq<string>, item: string, i: nat)
    requires i < |xs| && xs[i] == item && item !in xs[..i]
    ensures RemoveFirst(xs, item) == xs[..i] + xs[i + 1..]
    decreases i
  {
    if i == 0 {
      assert xs[..0] + xs[1..] == xs[1..];
    } else {
      var tail := xs[1..];
      PrefixTail(xs, item, i);
      RemoveFirstAt(tail, item, i - 1);
      assert RemoveFirst(xs, item) == [xs[0]] + (tail[..i - 1] + tail[i..]);
    }
  }

  lemma PrefixTail(xs: seq<string>, item: string, i: nat)
    requires 0 < i < |xs| && xs[i] == item && item !in xs[..i]
    ensures xs[0] != item && item !in xs[1..][..i - 1] && xs[1..][i - 1] == item
    ensures [xs[0]] + (xs[1..][..i - 1] + xs[1..][i..]) == xs[..i] + xs[i + 1..]
  {
    assert xs[0] == xs[..i][0];
    assert xs[1..][..i - 1] == xs[..i][1..];
    assert xs[..i] == [xs[0]] + xs[1..][..i - 1];
    assert xs[1..][i..] == xs[i + 1..];
  }

  /** `sub` is `xs` with some elements deleted, the rest in their order. */
  ghost predicate IsSubsequence(sub: seq<string>, xs: seq<string>)
    decreases |xs|
  {
    if sub == [] then true
    else if xs == [] then false
    else if sub[0] == xs[0] then IsSubsequence(sub[1..], xs[1..])
    else IsSubsequence(sub, xs[1..])
  }

  lemma {:induction false} RemoveFirstIsSubsequence(xs: seq<string>, item: string)
    ensures IsSubsequence(RemoveFirst(xs, item), xs)
    decreases |xs|
  {
    if xs != [] {
      if xs[0] == item {
        DropFirstIsSubsequence(xs);
      } else {
        RemoveFirstIsSubsequence(xs[1..], item);
        assert ([xs[0]] + RemoveFirst(xs[1..], item))[1..] == RemoveFirst(xs[1..], item);
      }
    }
  }

  lemma {:induction false} SubsequenceReflexive(xs: seq<string>)
    ensures IsSubsequence(xs, xs)
    decreases |xs|
  {
    if xs != [] {
      SubsequenceReflexive(xs[1..]);
    }
  }

  lemma DropFirstIsSubsequence(xs: seq<string>)
    requires xs != []
    ensures IsSubsequence(xs[1..], xs)
  {
    SubsequenceReflexive(xs[1..]);
    SubsequenceOfTail(xs[1..], xs);
  }

  lemma {:induction false} SubsequenceOfTail(sub: seq<string>, xs: seq<string>)
    requires xs != [] && IsSubsequence(sub, xs[1..])
    ensures IsSubsequence(sub, xs)
    decreases |xs|, 1
  {
    if sub != [] && sub[0] == xs[0] {
      SubsequenceDropHead(sub, xs[1..]);
    }
  }

  lemma {:induction false} SubsequenceDropHead(sub: seq<string>, t: seq<string>)
    requires sub != [] && IsSubsequence(sub, t)
    ensures IsSubsequence(sub[1..], t)
    decreases |t| + 1, 0
  {
    if sub[0] == t[0] {
      SubsequenceOfTail(sub[1..], t);
    } else {
      SubsequenceDropHead(sub, t[1..]);
      SubsequenceOfTail(sub[1..], t);
    }
  }

  lemma {:induction false} SubsequenceTransitive(a: seq<string>, b: seq<string>, c: seq<string>)
    requires IsSubsequence(a, b) && IsSubsequence(b, c)
    ensures IsSubsequence(a, c)
    decreases |c|
  {
    if a != [] {
      assert b != [] && c != [];
      if b[0] == c[0] {
        if a[0] == b[0] {
          SubsequenceTransitive(a[1..], b[1..], c[1..]);
        } else {
          SubsequenceTransitive(a, b[1..], c[1..]);
        }
      } else {
        SubsequenceTransitive(a, b, c[1..]);
        SubsequenceOfTail(a, c);
      }
    }
  }

  /** No name occurs twice. */
  ghost predicate NoDuplicates(xs: seq<string>)
  {
    forall y :: multiset(xs)[y] <= 1
  }

  // ---------------------------------------------------------------------
  // Properties of the deny-list filter
  // ---------------------------------------------------------------------

  /** The filter drops at most one `CheckDBLog` and one `EventLog` and
      keeps every other name with its count. */
  lemma DenyFilterCounts(tables: seq<string>)
    ensures |tables| - 2 <= |WithoutDeniedTables(tables)| <= |tables|
    ensures multiset(WithoutDeniedTables(tables))
         == multiset(tables) - multiset{CheckDBLog} - multiset{EventLog}
    ensures forall t :: t != CheckDBLog && t != EventLog ==>
              multiset(WithoutDeniedTables(tables))[t] == multiset(tables)[t]
  {
  }

  /** What remains after the filter keeps its order from the catalog. */
  lemma DenyFilterKeepsOrder(tables: seq<string>)
    ensures IsSubsequence(WithoutDeniedTables(tables), tables)
  {
    var once := RemoveFirst(tables, CheckDBLog);
    RemoveFirstIsSubsequence(tables, CheckDBLog);
    RemoveFirstIsSubsequence(once, EventLog);
    SubsequenceTransitive(WithoutDeniedTables(tables), once, tables);
  }

  /** In a table list without repeated names, neither denied table remains,
      and every other name is still there. */
  lemma DenyFilterRemovesDenied(tables: seq<string>)
    requires NoDuplicates(tables)
    ensures CheckDBLog !in WithoutDeniedTables(tables)
    ensures EventLog !in WithoutDeniedTables(tables)
    ensures forall t :: t != CheckDBLog && t != EventLog ==>
              (t in WithoutDeniedTables(tables) <==> t in tables)
  {
    var r := WithoutDeniedTables(tables);
    DenyFilterCounts(tables);
    var m, mr := multiset(tables), multiset(r);
    assert CheckDBLog[0] != EventLog[0];
    assert m[CheckDBLog] <= 1 && m[EventLog] <= 1;
    assert mr[CheckDBLog] == 0;
    assert mr[EventLog] == 0;
    forall t | t != CheckDBLog && t != EventLog
      ensures t in r <==> t in tables
    {
      assert mr[t] == m[t];
    }
  }
}
