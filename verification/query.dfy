/** The queryset operations the core uses, on rows held in sequences:
    `.filter(...)` keeps the rows a predicate accepts, `.distinct()` drops
    repeated rows, and `order_by("-created_at", "id")` (the `Meta.ordering`
    of every model here) sorts newest first, ties broken by ascending id. */
module Query {

  // ------------------------------------------------------------- filter

  /** `r` is `s` with some rows left out, the rest in their original order. */
  predicate IsSubsequence<T(==,!new)>(r: seq<T>, s: seq<T>)
    decreases |s|
  {
    if r == [] then true
    else if s == [] then false
    else if r[0] == s[0] then IsSubsequence(r[1..], s[1..])
    else IsSubsequence(r, s[1..])
  }

  /** `queryset.filter(p)`: exactly the rows `p` accepts, in their order. */
  function Select<T(==,!new)>(s: seq<T>, p: T -> bool): (r: seq<T>)
    ensures forall x :: x in r <==> x in s && p(x)
    ensures |r| <= |s|
  {
    if s == [] then []
    else if p(s[0]) then [s[0]] + Select(s[1..], p)
    else Select(s[1..], p)
  }

  /** What a filter keeps stays in the queryset's order. */
  lemma {:induction false} SelectIsSubsequence<T(!new)>(s: seq<T>, p: T -> bool)
    ensures IsSubsequence(Select(s, p), s)
  {
    if s != [] {
      var rest := Select(s[1..], p);
      SelectIsSubsequence(s[1..], p);
      if p(s[0]) {
        assert ([s[0]] + rest)[1..] == rest;
      }
    }
  }

  /** Chained `.filter(p).filter(q)` is one filter by both predicates. */
  lemma {:induction false} SelectSelect<T(!new)>(s: seq<T>, p: T -> bool, q: T -> bool)
    ensures Select(Select(s, p), q) == Select(s, x => p(x) && q(x))
  {
    if s != [] {
      SelectSelect(s[1..], p, q);
    }
  }

  lemma {:induction false} SubsequenceReflexive<T(!new)>(s: seq<T>)
    ensures IsSubsequence(s, s)
  {
    if s != [] {
      SubsequenceReflexive(s[1..]);
    }
  }

  /** A filter depends only on what its predicate says of the rows present. */
  lemma {:induction false} SelectCongruent<T(!new)>(s: seq<T>, p: T -> bool, q: T -> bool)
    requires forall x :: x in s ==> p(x) == q(x)
    ensures Select(s, p) == Select(s, q)
  {
    if s != [] {
      SelectCongruent(s[1..], p, q);
    }
  }

  /** Narrowing a filter by a further predicate is one filter by a predicate
      equal, on the rows present, to the conjunction of both. */
  lemma SelectNarrow<T(!new)>(s: seq<T>, p: T -> bool, q: T -> bool, both: T -> bool)
    requires forall x :: x in s ==> both(x) == (p(x) && q(x))
    ensures Select(Select(s, p), q) == Select(s, both)
  {
    SelectSelect(s, p, q);
    SelectCongruent(s, x => p(x) && q(x), both);
  }

  /** A filter every row passes returns the queryset unchanged. */
  lemma {:induction false} SelectAll<T(!new)>(s: seq<T>, p: T -> bool)
    requires forall x :: x in s ==> p(x)
    ensures Select(s, p) == s
  {
    if s != [] {
      SelectAll(s[1..], p);
      assert s == [s[0]] + s[1..];
    }
  }

  /** A filter no row passes returns nothing. */
  lemma {:induction false} SelectNone<T(!new)>(s: seq<T>, p: T -> bool)
    requires forall x :: x in s ==> !p(x)
    ensures Select(s, p) == []
  {
    if s != [] {
      SelectNone(s[1..], p);
    }
  }

  /** Filtering two querysets one after the other is filtering their union
      in order. */
  lemma {:induction false} SelectAppend<T(!new)>(a: seq<T>, b: seq<T>, p: T -> bool)
    ensures Select(a + b, p) == Select(a, p) + Select(b, p)
  {
    if a == [] {
      assert a + b == b;
    } else {
      var ab := a + b;
      assert ab != [] && ab[0] == a[0] && ab[1..] == a[1..] + b;
      SelectAppend(a[1..], b, p);
      if p(a[0]) {
        assert Select(ab, p) == [a[0]] + Select(a[1..] + b, p);
        assert Select(a, p) == [a[0]] + Select(a[1..], p);
      } else {
        assert Select(ab, p) == Select(a[1..] + b, p);
      }
    }
  }

  /** Rows without repeats. */
  predicate NoDuplicates<T(==,!new)>(s: seq<T>) {
    forall i, j :: 0 <= i < j < |s| ==> s[i] != s[j]
  }

  /** A filter of rows without repeats has no repeats. */
  lemma {:induction false} SelectKeepsNoDuplicates<T(!new)>(s: seq<T>, p: T -> bool)
    requires NoDuplicates(s)
    ensures NoDuplicates(Select(s, p))
  {
    if s != [] {
      assert NoDuplicates(s[1..]) by {
        forall i, j | 0 <= i < j < |s[1..]| ensures s[1..][i] != s[1..][j] {
          assert s[1..][i] == s[i + 1] && s[1..][j] == s[j + 1];
        }
      }
      SelectKeepsNoDuplicates(s[1..], p);
      var rest := Select(s[1..], p);
      if p(s[0]) {
        assert s[0] !in s[1..] by {
          forall k | 0 <= k < |s[1..]| ensures s[1..][k] != s[0] {
            assert s[1..][k] == s[k + 1];
          }
        }
        var r := [s[0]] + rest;
        forall i, j | 0 <= i < j < |r| ensures r[i] != r[j] {
          assert r[j] == rest[j - 1];
          if i > 0 {
            assert r[i] == rest[i - 1];
          } else {
            assert r[j] in rest;
          }
        }
      }
    }
  }

  /** Rows held in primary-key order: keys strictly increase. */
  predicate KeysIncreasing<T>(s: seq<T>, key: T -> nat) {
    forall i, j :: 0 <= i < j < |s| ==> key(s[i]) < key(s[j])
  }

  lemma KeysIncreasingNoDuplicates<T(!new)>(s: seq<T>, key: T -> nat)
    requires KeysIncreasing(s, key)
    ensures NoDuplicates(s)
  {
  }

  /** A row whose key exceeds every key present may be appended. */
  lemma AppendKeepsKeysIncreasing<T(!new)>(s: seq<T>, x: T, key: T -> nat)
    requires KeysIncreasing(s, key)
    requires forall y :: y in s ==> key(y) < key(x)
    ensures KeysIncreasing(s + [x], key)
  {
    var r := s + [x];
    forall i, j | 0 <= i < j < |r| ensures key(r[i]) < key(r[j]) {
      if j == |s| {
        assert r[i] in s;
      }
    }
  }

  /** A filter keeps primary-key order. */
  lemma {:induction false} SelectKeepsKeysIncreasing<T(!new)>(s: seq<T>, p: T -> bool, key: T -> nat)
    requires KeysIncreasing(s, key)
    ensures KeysIncreasing(Select(s, p), key)
  {
    if s != [] {
      assert KeysIncreasing(s[1..], key) by {
        forall i, j | 0 <= i < j < |s[1..]| ensures key(s[1..][i]) < key(s[1..][j]) {
          assert s[1..][i] == s[i + 1] && s[1..][j] == s[j + 1];
        }
      }
      SelectKeepsKeysIncreasing(s[1..], p, key);
      var rest := Select(s[1..], p);
      if p(s[0]) {
        var r := [s[0]] + rest;
        forall i, j | 0 <= i < j < |r| ensures key(r[i]) < key(r[j]) {
          assert r[j] == rest[j - 1];
          if i > 0 {
            assert r[i] == rest[i - 1];
          } else {
            assert r[j] in s[1..];
            var m :| 0 <= m < |s[1..]| && s[1..][m] == r[j];
            assert s[m + 1] == r[j];
          }
        }
      }
    }
  }

  // ----------------------------------------------------------- distinct

  /** `.distinct()`: keeps the first occurrence of each row not in `seen`. */
  function DistinctFrom<T(==,!new)>(s: seq<T>, seen: set<T>): (r: seq<T>)
    ensures forall x :: x in r <==> x in s && x !in seen
    ensures NoDuplicates(r)
  {
    if s == [] then []
    else if s[0] in seen then DistinctFrom(s[1..], seen)
    else
      var rest := DistinctFrom(s[1..], seen + {s[0]});
      [s[0]] + rest
  }

  function Distinct<T(==,!new)>(s: seq<T>): (r: seq<T>)
    ensures forall x :: x in r <==> x in s
    ensures NoDuplicates(r)
  {
    DistinctFrom(s, {})
  }

  // ----------------------------------------------------------- order_by

  /** The sort key of a row: its creation time and its primary key. */
  datatype Stamp = Stamp(createdAt: int, id: nat)

  /** `order_by("-created_at", "id")`: `a` may come before `b`. */
  predicate NewerFirst(a: Stamp, b: Stamp) {
    a.createdAt > b.createdAt || (a.createdAt == b.createdAt && a.id <= b.id)
  }

  predicate SortedNewestFirst<T>(s: seq<T>, key: T -> Stamp) {
    forall i, j :: 0 <= i < j < |s| ==> NewerFirst(key(s[i]), key(s[j]))
  }

  function InsertNewestFirst<T(==,!new)>(x: T, s: seq<T>, key: T -> Stamp): (r: seq<T>)
    ensures multiset(r) == multiset(s) + multiset{x}
    ensures forall y :: y in r <==> y in s || y == x
  {
    if s == [] then [x]
    else if NewerFirst(key(x), key(s[0])) then [x] + s
    else
      assert s == [s[0]] + s[1..];
      [s[0]] + InsertNewestFirst(x, s[1..], key)
  }

  lemma {:induction false} InsertKeepsSorted<T(!new)>(x: T, s: seq<T>, key: T -> Stamp)
    requires SortedNewestFirst(s, key)
    ensures SortedNewestFirst(InsertNewestFirst(x, s, key), key)
  {
    if s != [] && !NewerFirst(key(x), key(s[0])) {
      var rest := InsertNewestFirst(x, s[1..], key);
      InsertKeepsSorted(x, s[1..], key);
      forall k | 0 <= k < |rest| ensures NewerFirst(key(s[0]), key(rest[k])) {
        assert rest[k] in rest;
        if rest[k] != x {
          var m :| 0 <= m < |s[1..]| && s[1..][m] == rest[k];
          assert s[m + 1] == rest[k];
        }
      }
      ConsKeepsSorted(s[0], rest, key);
    } else if s != [] {
      forall k | 0 <= k < |s| ensures NewerFirst(key(x), key(s[k])) {
        assert k == 0 || NewerFirst(key(s[0]), key(s[k]));
      }
      ConsKeepsSorted(x, s, key);
    }
  }

  /** A row that may precede every row of a sorted sequence can head it. */
  lemma ConsKeepsSorted<T>(h: T, t: seq<T>, key: T -> Stamp)
    requires SortedNewestFirst(t, key)
    requires forall k :: 0 <= k < |t| ==> NewerFirst(key(h), key(t[k]))
    ensures SortedNewestFirst([h] + t, key)
  {
    var r := [h] + t;
    forall i, j | 0 <= i < j < |r| ensures NewerFirst(key(r[i]), key(r[j])) {
      assert r[j] == t[j - 1];
      if i > 0 {
        assert r[i] == t[i - 1];
      }
    }
  }

  /** `order_by("-created_at", "id")`: the same rows, newest first. */
  function SortNewestFirst<T(==,!new)>(s: seq<T>, key: T -> Stamp): (r: seq<T>)
    ensures SortedNewestFirst(r, key)
    ensures multiset(r) == multiset(s)
    ensures forall x :: x in r <==> x in s
  {
    if s == [] then []
    else
      assert s == [s[0]] + s[1..];
      var rest := SortNewestFirst(s[1..], key);
      InsertKeepsSorted(s[0], rest, key);
      InsertNewestFirst(s[0], rest, key)
  }

  /** A row occurs at most once in a sequence without repeats. */
  lemma {:induction false} NoDuplicatesCount<T(!new)>(s: seq<T>, x: T)
    requires NoDuplicates(s)
    ensures multiset(s)[x] <= 1
  {
    if s != [] {
      assert s == [s[0]] + s[1..];
      assert NoDuplicates(s[1..]) by {
        forall i, j | 0 <= i < j < |s[1..]| ensures s[1..][i] != s[1..][j] {
          assert s[1..][i] == s[i + 1] && s[1..][j] == s[j + 1];
        }
      }
      NoDuplicatesCount(s[1..], x);
      if s[0] == x {
        assert x !in s[1..] by {
          forall k | 0 <= k < |s[1..]| ensures s[1..][k] != s[0] {
            assert s[1..][k] == s[k + 1];
          }
        }
      }
    }
  }

  /** A row at two positions occurs at least twice. */
  lemma TwoCopies<T>(s: seq<T>, i: nat, j: nat)
    requires i < j < |s| && s[i] == s[j]
    ensures multiset(s)[s[i]] >= 2
  {
    assert s == s[..j] + [s[j]] + s[j + 1..];
    assert s[..j][i] == s[i];
  }

  /** A rearrangement of rows without repeats has no repeats. */
  lemma PermutationKeepsNoDuplicates<T(!new)>(s: seq<T>, r: seq<T>)
    requires multiset(r) == multiset(s) && NoDuplicates(s)
    ensures NoDuplicates(r)
  {
    forall i, j | 0 <= i < j < |r| ensures r[i] != r[j] {
      NoDuplicatesCount(s, r[i]);
      if r[i] == r[j] {
        TwoCopies(r, i, j);
      }
    }
  }

  /** Sorting keeps rows without repeats free of repeats. */
  lemma SortKeepsNoDuplicates<T(!new)>(s: seq<T>, key: T -> Stamp)
    requires NoDuplicates(s)
    ensures NoDuplicates(SortNewestFirst(s, key))
  {
    PermutationKeepsNoDuplicates(s, SortNewestFirst(s, key));
  }

  /** When primary keys are distinct the order is total, so the sorted rows
      are fully determined: any two sorted arrangements of the same rows are
      equal. */
  lemma {:induction false} SortedNewestFirstUnique<T(!new)>(a: seq<T>, b: seq<T>, key: T -> Stamp)
    requires multiset(a) == multiset(b)
    requires SortedNewestFirst(a, key) && SortedNewestFirst(b, key)
    requires forall i, j :: 0 <= i < j < |a| ==> key(a[i]).id != key(a[j]).id
    ensures a == b
  {
    assert |a| == |multiset(a)| == |multiset(b)| == |b|;
    if a != [] {
      SortedHeadsAgree(a, b, key);
      TailsAgain(a, b, key);
      SortedNewestFirstUnique(a[1..], b[1..], key);
      SameHeadSameTail(a, b);
    }
  }

  /** The tails of two sorted arrangements with the same head are again two
      sorted arrangements of the same rows with distinct keys. */
  lemma TailsAgain<T>(a: seq<T>, b: seq<T>, key: T -> Stamp)
    requires a != [] && b != [] && a[0] == b[0] && multiset(a) == multiset(b)
    requires SortedNewestFirst(a, key) && SortedNewestFirst(b, key)
    requires forall i, j :: 0 <= i < j < |a| ==> key(a[i]).id != key(a[j]).id
    ensures multiset(a[1..]) == multiset(b[1..])
    ensures SortedNewestFirst(a[1..], key) && SortedNewestFirst(b[1..], key)
    ensures forall i, j :: 0 <= i < j < |a[1..]| ==> key(a[1..][i]).id != key(a[1..][j]).id
  {
    TailMultiset(a);
    TailMultiset(b);
    TailKeepsSorted(a, key);
    TailKeepsSorted(b, key);
    TailKeepsDistinctIds(a, key);
  }

  lemma SameHeadSameTail<T>(a: seq<T>, b: seq<T>)
    requires a != [] && b != [] && a[0] == b[0] && a[1..] == b[1..]
    ensures a == b
  {
    assert a == [a[0]] + a[1..] && b == [b[0]] + b[1..];
  }

  lemma TailMultiset<T>(a: seq<T>)
    requires a != []
    ensures multiset(a[1..]) == multiset(a) - multiset{a[0]}
  {
    assert a == [a[0]] + a[1..];
  }

  lemma TailKeepsSorted<T>(a: seq<T>, key: T -> Stamp)
    requires a != [] && SortedNewestFirst(a, key)
    ensures SortedNewestFirst(a[1..], key)
  {
    forall i, j | 0 <= i < j < |a[1..]| ensures NewerFirst(key(a[1..][i]), key(a[1..][j])) {
      assert a[1..][i] == a[i + 1] && a[1..][j] == a[j + 1];
    }
  }

  lemma TailKeepsDistinctIds<T>(a: seq<T>, key: T -> Stamp)
    requires a != []
    requires forall i, j :: 0 <= i < j < |a| ==> key(a[i]).id != key(a[j]).id
    ensures forall i, j :: 0 <= i < j < |a[1..]| ==> key(a[1..][i]).id != key(a[1..][j]).id
  {
    forall i, j | 0 <= i < j < |a[1..]| ensures key(a[1..][i]).id != key(a[1..][j]).id {
      assert a[1..][i] == a[i + 1] && a[1..][j] == a[j + 1];
    }
  }

  lemma SortedHeadsAgree<T(!new)>(a: seq<T>, b: seq<T>, key: T -> Stamp)
    requires a != [] && multiset(a) == multiset(b)
    requires SortedNewestFirst(a, key) && SortedNewestFirst(b, key)
    requires forall i, j :: 0 <= i < j < |a| ==> key(a[i]).id != key(a[j]).id
    ensures b != [] && a[0] == b[0]
  {
    assert a[0] in multiset(b);
    assert b != [] && b[0] in multiset(a);
    var i :| 0 <= i < |b| && b[i] == a[0];
    var j :| 0 <= j < |a| && a[j] == b[0];
    assert i == 0 || NewerFirst(key(b[0]), key(a[0]));
    assert j == 0 || NewerFirst(key(a[0]), key(b[0]));
  }
}
