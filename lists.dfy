/** The list operations the role reconciliation relies on, with the
    semantics of .NET's List and LINQ: List.Remove drops the FIRST
    occurrence only, Distinct keeps the first occurrence of each element in
    order, Where filters, and Except is a set difference that also
    de-duplicates. A mutable list that several parties can hold is the
    class StringList. */
module Lists {

  function Elements(s: seq<string>): set<string>
  {
    set x | x in s
  }

  predicate NoDuplicates(s: seq<string>)
  {
    forall i, j :: 0 <= i < j < |s| ==> s[i] != s[j]
  }

  /** List<string>.Remove(x): the first occurrence of x, if any, is dropped. */
  function RemoveFirst(s: seq<string>, x: string): (r: seq<string>)
    ensures |r| == if x in s then |s| - 1 else |s|
  {
    if s == [] then []
    else if s[0] == x then s[1..]
    else [s[0]] + RemoveFirst(s[1..], x)
  }

  /** Removing the first occurrence takes exactly one x out of the bag. */
  lemma {:induction false} RemoveFirstBag(s: seq<string>, x: string)
    ensures multiset(RemoveFirst(s, x)) == multiset(s) - multiset{x}
  {
    if s != [] {
      assert s == [s[0]] + s[1..];
      if s[0] != x {
        RemoveFirstBag(s[1..], x);
      }
    }
  }

  /** After List.Remove(x), x is still present exactly when it occurred at
      least twice. */
  lemma RemoveFirstLeaves(s: seq<string>, x: string)
    ensures x in RemoveFirst(s, x) <==> multiset(s)[x] >= 2
    ensures Elements(RemoveFirst(s, x)) - {x} == Elements(s) - {x}
  {
    RemoveFirstBag(s, x);
    assert forall y :: y in RemoveFirst(s, x) <==> multiset(RemoveFirst(s, x))[y] > 0;
  }

  /** List.Remove only ever drops an element. */
  lemma {:induction false} RemoveFirstSubset(s: seq<string>, x: string)
    ensures forall n :: n in RemoveFirst(s, x) ==> n in s
  {
    if s != [] && s[0] != x {
      RemoveFirstSubset(s[1..], x);
    }
  }

  /** Removing an element from a list without duplicates leaves none. */
  lemma {:induction false} RemoveFirstKeepsNoDuplicates(s: seq<string>, x: string)
    requires NoDuplicates(s)
    ensures NoDuplicates(RemoveFirst(s, x))
  {
    if s != [] && s[0] != x {
      assert NoDuplicates(s[1..]) by {
        forall i, j | 0 <= i < j < |s[1..]| ensures s[1..][i] != s[1..][j] {
          assert s[1..][i] == s[i + 1] && s[1..][j] == s[j + 1];
        }
      }
      RemoveFirstKeepsNoDuplicates(s[1..], x);
      RemoveFirstBag(s[1..], x);
      var r := RemoveFirst(s[1..], x);
      assert s[0] !in r by {
        assert s[0] !in s[1..] by {
          forall k | 0 <= k < |s[1..]| ensures s[1..][k] != s[0] {
            assert s[1..][k] == s[k + 1];
          }
        }
        assert multiset(s[1..])[s[0]] == 0;
        assert multiset(r)[s[0]] == 0;
      }
      forall i, j | 0 <= i < j < |[s[0]] + r| ensures ([s[0]] + r)[i] != ([s[0]] + r)[j] {
        if i == 0 {
          assert ([s[0]] + r)[j] == r[j - 1];
        } else {
          assert ([s[0]] + r)[i] == r[i - 1] && ([s[0]] + r)[j] == r[j - 1];
        }
      }
    } else if s != [] {
      forall i, j | 0 <= i < j < |s[1..]| ensures s[1..][i] != s[1..][j] {
        assert s[1..][i] == s[i + 1] && s[1..][j] == s[j + 1];
      }
    }
  }

  /** Enumerable.Distinct: the first occurrence of each element, in order. */
  function Dedup(s: seq<string>): (r: seq<string>)
    ensures Elements(r) == Elements(s)
    ensures NoDuplicates(r)
    decreases |s|
  {
    if s == [] then []
    else
      var d := Dedup(s[..|s| - 1]);
      assert Elements(s) == Elements(s[..|s| - 1]) + {s[|s| - 1]} by {
        assert s == s[..|s| - 1] + [s[|s| - 1]];
      }
      if s[|s| - 1] in d then d else d + [s[|s| - 1]]
  }

  /** A list without duplicates holds each element at most once. */
  lemma {:induction false} NoDuplicatesBag(s: seq<string>, x: string)
    requires NoDuplicates(s)
    ensures multiset(s)[x] <= 1
  {
    if s != [] {
      assert s == [s[0]] + s[1..];
      NoDuplicatesBag(s[1..], x);
      if s[0] == x {
        assert x !in s[1..] by {
          forall k | 0 <= k < |s[1..]| ensures s[1..][k] != x {
            assert s[1..][k] == s[k + 1];
          }
        }
      }
    }
  }

  /** Where(x => !excluded.Contains(x)): the elements of s, in order, that
      do not occur in excluded. */
  function FilterOut(s: seq<string>, excluded: seq<string>): (r: seq<string>)
    ensures Elements(r) == Elements(s) - Elements(excluded)
  {
    if s == [] then []
    else
      assert s == [s[0]] + s[1..];
      var rest := FilterOut(s[1..], excluded);
      assert Elements([s[0]] + rest) == {s[0]} + Elements(rest);
      if s[0] in excluded then rest else [s[0]] + rest
  }

  /** Enumerable.Except: the distinct elements of a that are not in b. */
  function Except(a: seq<string>, b: seq<string>): (r: seq<string>)
    ensures Elements(r) == Elements(a) - Elements(b)
    ensures NoDuplicates(r)
  {
    Dedup(FilterOut(a, b))
  }

  /** A List<string> object: the same list may be held by the caller and by
      the callee, which is why Add and Remove change it in place. */
  class StringList {
    var items: seq<string>

    constructor (items: seq<string>)
      ensures this.items == items
    {
      this.items := items;
    }

    method Add(x: string)
      modifies this
      ensures items == old(items) + [x]
    {
      items := items + [x];
    }

    method Remove(x: string) returns (removed: bool)
      modifies this
      ensures removed == (x in old(items))
      ensures items == RemoveFirst(old(items), x)
    {
      removed := x in items;
      items := RemoveFirst(items, x);
    }
  }
}
