/**
 * The newest-first views of the history's keys: the selector shows them in
 * reverse insertion order, the dashboard and the manage list sort them in
 * descending string order.
 */
module Listing {

  /** No key occurs twice. */
  ghost predicate Distinct<T>(s: seq<T>)
  {
    forall i, j :: 0 <= i < j < |s| ==> s[i] != s[j]
  }

  /** A sequence without duplicates holds every element once. */
  lemma {:induction false} DistinctOnce<T>(s: seq<T>, x: T)
    requires Distinct(s) && x in s
    ensures multiset(s)[x] == 1
  {
    if s[0] == x {
      assert x !in s[1..];
      assert s == [s[0]] + s[1..];
    } else {
      assert Distinct(s[1..]);
      DistinctOnce(s[1..], x);
      assert s == [s[0]] + s[1..];
    }
  }

  /** Elements counted at most once make a sequence without duplicates. */
  lemma {:induction false} OnceDistinct<T>(s: seq<T>)
    requires forall x :: multiset(s)[x] <= 1
    ensures Distinct(s)
  {
    if s != [] {
      assert s == [s[0]] + s[1..];
      assert multiset(s) == multiset{s[0]} + multiset(s[1..]);
      forall x ensures multiset(s[1..])[x] <= 1 {
        assert multiset(s)[x] == multiset{s[0]}[x] + multiset(s[1..])[x];
      }
      OnceDistinct(s[1..]);
      assert multiset(s)[s[0]] == 1 + multiset(s[1..])[s[0]];
      forall i, j | 0 <= i < j < |s| ensures s[i] != s[j] {
        if i == 0 {
          assert s[j] == s[1..][j - 1];
        } else {
          assert s[i] == s[1..][i - 1] && s[j] == s[1..][j - 1];
        }
      }
    }
  }

  /** A rearrangement of a sequence without duplicates has no duplicates either. */
  lemma PermutationKeepsDistinct<T>(s: seq<T>, t: seq<T>)
    requires Distinct(s) && multiset(t) == multiset(s)
    ensures Distinct(t)
  {
    forall x ensures multiset(t)[x] <= 1 {
      if x in s {
        DistinctOnce(s, x);
      }
    }
    OnceDistinct(t);
  }

  /** The keys last-inserted first, as the selector lists them. */
  function Reversed<T>(s: seq<T>): (r: seq<T>)
    ensures |r| == |s|
    ensures forall k :: 0 <= k < |s| ==> r[k] == s[|s| - 1 - k]
  {
    if s == [] then [] else Reversed(s[1..]) + [s[0]]
  }

  /** Reversing neither adds nor drops a key. */
  lemma {:induction false} ReversedPermutes<T>(s: seq<T>)
    ensures multiset(Reversed(s)) == multiset(s)
  {
    if s != [] {
      ReversedPermutes(s[1..]);
      assert s == [s[0]] + s[1..];
    }
  }

  /** Python's ordering of strings: lexicographic by code point, a proper prefix first. */
  predicate LexLe(a: string, b: string): (le: bool)
    ensures a <= b ==> le
    ensures b < a ==> !le
    ensures forall k :: 0 <= k < |a| && k < |b| && a[..k] == b[..k] ==> (a[k] < b[k] ==> le) && (b[k] < a[k] ==> !le)
  {
    if a == [] then true
    else if b == [] then false
    else if a[0] != b[0] then a[0] < b[0]
    else
      assert forall k :: 1 <= k <= |a| && k <= |b| && a[..k] == b[..k] ==>
        a[1..][..k - 1] == a[..k][1..] == b[..k][1..] == b[1..][..k - 1];
      LexLe(a[1..], b[1..])
  }

  lemma {:induction false} LexReflexive(a: string)
    ensures LexLe(a, a)
  {
    if a != [] {
      LexReflexive(a[1..]);
    }
  }

  lemma {:induction false} LexTotal(a: string, b: string)
    ensures LexLe(a, b) || LexLe(b, a)
  {
    if a != [] && b != [] && a[0] == b[0] {
      LexTotal(a[1..], b[1..]);
    }
  }

  lemma {:induction false} LexAntisymmetric(a: string, b: string)
    requires LexLe(a, b) && LexLe(b, a)
    ensures a == b
  {
    if a != [] && b != [] {
      LexAntisymmetric(a[1..], b[1..]);
      assert a == [a[0]] + a[1..] && b == [b[0]] + b[1..];
    }
  }

  lemma {:induction false} LexTransitive(a: string, b: string, c: string)
    requires LexLe(a, b) && LexLe(b, c)
    ensures LexLe(a, c)
  {
    if a != [] && b != [] && c != [] && a[0] == b[0] && b[0] == c[0] {
      LexTransitive(a[1..], b[1..], c[1..]);
    }
  }

  /** Newest first: each key is greater than or equal to every key after it. */
  ghost predicate Descending(s: seq<string>)
  {
    forall i, j :: 0 <= i < j < |s| ==> LexLe(s[j], s[i])
  }

  /** Puts one key into a descending list at its place. */
  function Insert(x: string, s: seq<string>): (r: seq<string>)
    ensures multiset(r) == multiset(s) + multiset{x}
  {
    if s == [] then [x]
    else if LexLe(s[0], x) then [x] + s
    else
      assert s == [s[0]] + s[1..];
      [s[0]] + Insert(x, s[1..])
  }

  /** The keys as `sorted(keys, reverse=True)` lists them. */
  function SortDescending(s: seq<string>): (r: seq<string>)
    ensures multiset(r) == multiset(s)
  {
    if s == [] then []
    else
      assert s == [s[0]] + s[1..];
      Insert(s[0], SortDescending(s[1..]))
  }

  lemma {:induction false} InsertDescending(x: string, s: seq<string>)
    requires Descending(s)
    ensures Descending(Insert(x, s))
  {
    if s == [] {
    } else if LexLe(s[0], x) {
      var r := [x] + s;
      forall i, j | 0 <= i < j < |r| ensures LexLe(r[j], r[i]) {
        if i == 0 {
          if j > 1 {
            LexTransitive(s[j - 1], s[0], x);
          }
        }
      }
    } else {
      LexTotal(s[0], x);
      var t := Insert(x, s[1..]);
      assert Descending(s[1..]);
      InsertDescending(x, s[1..]);
      var r := [s[0]] + t;
      forall i, j | 0 <= i < j < |r| ensures LexLe(r[j], r[i]) {
        if i == 0 {
          var y := t[j - 1];
          assert y in multiset(t);
          if y != x {
            assert y in multiset(s[1..]);
            var k :| 0 <= k < |s[1..]| && s[1..][k] == y;
            assert s[k + 1] == y;
          }
        }
      }
    }
  }

  /** The dashboard and manage listings are in descending string order. */
  lemma {:induction false} SortDescendingIsDescending(s: seq<string>)
    ensures Descending(SortDescending(s))
  {
    if s != [] {
      SortDescendingIsDescending(s[1..]);
      InsertDescending(s[0], SortDescending(s[1..]));
    }
  }

  /** The first key of a descending list is the greatest. */
  lemma HeadIsGreatest(s: seq<string>, x: string)
    requires Descending(s) && x in s
    ensures LexLe(x, s[0])
  {
    var k :| 0 <= k < |s| && s[k] == x;
    if k == 0 {
      LexReflexive(x);
    }
  }

  lemma DescendingTail(s: seq<string>)
    requires s != [] && Descending(s)
    ensures Descending(s[1..])
  {
  }

  /** Dropping the first element takes it out of the multiset. */
  lemma TailMultiset<T>(s: seq<T>)
    requires s != []
    ensures multiset(s[1..]) == multiset(s) - multiset{s[0]}
  {
    assert s == [s[0]] + s[1..];
  }

  /** Two descending lists of the same keys start with the same key. */
  lemma SameHead(s: seq<string>, t: seq<string>)
    requires s != [] && Descending(s) && Descending(t) && multiset(t) == multiset(s)
    ensures t != [] && s[0] == t[0]
  {
    assert s[0] in multiset(t);
    assert t[0] in multiset(s);
    HeadIsGreatest(t, s[0]);
    HeadIsGreatest(s, t[0]);
    LexAntisymmetric(s[0], t[0]);
  }

  /**
   * A descending arrangement of distinct keys is unique: any list holding the
   * same keys in descending order is the sorted listing.
   */
  lemma {:induction false} DescendingUnique(s: seq<string>, t: seq<string>)
    requires Distinct(s) && Descending(s) && Descending(t) && multiset(t) == multiset(s)
    ensures s == t
  {
    if s == [] {
      assert |t| == |multiset(t)| == 0;
    } else {
      SameHead(s, t);
      TailMultiset(s);
      TailMultiset(t);
      DescendingTail(s);
      DescendingTail(t);
      assert Distinct(s[1..]);
      DescendingUnique(s[1..], t[1..]);
      assert s == [s[0]] + s[1..] && t == [t[0]] + t[1..];
    }
  }
}
