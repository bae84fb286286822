/** Python's `sorted(xs, key=k)` and `min(xs, key=k)` on a list, for a key
    with real values. `sorted` is a stable sort: records whose keys tie stay in
    their input order. It is modelled by a stable insertion sort; `min` returns
    the first record whose key is least. */
module Ordering {

  predicate SortedBy<T>(s: seq<T>, key: T -> real) {
    forall i, j :: 0 <= i < j < |s| ==> key(s[i]) <= key(s[j])
  }

  /** a goes before b: lower key, or equal key and lower tag. */
  predicate Before<T>(a: T, b: T, key: T -> real, tag: T -> int) {
    key(a) < key(b) || (key(a) == key(b) && tag(a) < tag(b))
  }

  /** Sorted by key, and records with equal keys in increasing tag order. */
  predicate LexSortedBy<T>(s: seq<T>, key: T -> real, tag: T -> int) {
    forall i, j :: 0 <= i < j < |s| ==> Before(s[i], s[j], key, tag)
  }

  predicate TagsIncreasing<T>(s: seq<T>, tag: T -> int) {
    forall i, j :: 0 <= i < j < |s| ==> tag(s[i]) < tag(s[j])
  }

  function RemoveAt<T>(s: seq<T>, i: nat): (r: seq<T>)
    requires i < |s|
    ensures |r| == |s| - 1
  {
    s[..i] + s[i + 1..]
  }

  /** Inserts x in front of the first record whose key is not below x's. */
  function Insert<T>(x: T, s: seq<T>, key: T -> real): (r: seq<T>)
    ensures |r| == |s| + 1
    ensures multiset(r) == multiset{x} + multiset(s)
  {
    if s == [] || key(x) <= key(s[0]) then [x] + s
    else
      assert s == [s[0]] + s[1..];
      [s[0]] + Insert(x, s[1..], key)
  }

  lemma {:induction false} InsertSorted<T>(x: T, s: seq<T>, key: T -> real)
    requires SortedBy(s, key)
    ensures SortedBy(Insert(x, s, key), key)
  {
    if s == [] || key(x) <= key(s[0]) {
    } else {
      var rest := Insert(x, s[1..], key);
      InsertSorted(x, s[1..], key);
      forall j | 0 <= j < |rest| ensures key(s[0]) <= key(rest[j]) {
        assert rest[j] in multiset(rest);
        if rest[j] != x {
          assert rest[j] in s[1..];
        }
      }
    }
  }

  /** `sorted(s, key=key)`: a stable sort. */
  function Sort<T>(s: seq<T>, key: T -> real): (r: seq<T>)
    ensures |r| == |s|
    ensures multiset(r) == multiset(s)
  {
    if s == [] then []
    else
      var rest := Sort(s[1..], key);
      assert s == [s[0]] + s[1..];
      Insert(s[0], rest, key)
  }

  /** The output of Sort is sorted. */
  lemma {:induction false} SortIsSorted<T>(s: seq<T>, key: T -> real)
    ensures SortedBy(Sort(s, key), key)
  {
    if s != [] {
      SortIsSorted(s[1..], key);
      InsertSorted(s[0], Sort(s[1..], key), key);
    }
  }

  /** The index of the first record whose key is least: the record that
      `min(s, key=key)` returns, and the one a stable sort puts first. */
  function FirstMin<T>(s: seq<T>, key: T -> real): (m: nat)
    requires |s| > 0
    ensures m < |s|
    ensures forall j :: 0 <= j < |s| ==> key(s[m]) <= key(s[j])
    ensures forall j :: 0 <= j < m ==> key(s[m]) < key(s[j])
  {
    if |s| == 1 then 0
    else
      var m := 1 + FirstMin(s[1..], key);
      if key(s[0]) <= key(s[m]) then 0 else m
  }

  /** The first record of the sorted list is the first record of least key. */
  lemma {:induction false} SortHeadIsFirstMin<T>(s: seq<T>, key: T -> real)
    requires |s| > 0
    ensures Sort(s, key)[0] == s[FirstMin(s, key)]
  {
    if |s| > 1 {
      SortHeadIsFirstMin(s[1..], key);
    }
  }

  /** Behind its head, the sorted list is the sort of the input without the
      record that went to the head. */
  lemma {:induction false} SortTailRemovesFirstMin<T>(s: seq<T>, key: T -> real)
    requires |s| > 0
    ensures Sort(s, key)[1..] == Sort(RemoveAt(s, FirstMin(s, key)), key)
  {
    if |s| > 1 {
      var m := 1 + FirstMin(s[1..], key);
      SortHeadIsFirstMin(s[1..], key);
      if key(s[0]) <= key(s[m]) {
        assert FirstMin(s, key) == 0;
        HeadStaysInFront(s, key, m);
      } else {
        assert FirstMin(s, key) == m;
        SortTailRemovesFirstMin(s[1..], key);
        HeadMovesBack(s, key, m);
      }
    }
  }

  /** First case of SortTailRemovesFirstMin: s[0] is a least record. */
  lemma HeadStaysInFront<T>(s: seq<T>, key: T -> real, m: nat)
    requires 0 < m < |s|
    requires Sort(s[1..], key)[0] == s[m]
    requires key(s[0]) <= key(s[m])
    ensures Sort(s, key)[1..] == Sort(RemoveAt(s, 0), key)
  {
    SortUnfold(s, key);
    assert RemoveAt(s, 0) == s[1..];
  }

  /** Second case of SortTailRemovesFirstMin: the record at m > 0 is least
      and goes to the head. */
  lemma HeadMovesBack<T>(s: seq<T>, key: T -> real, m: nat)
    requires 0 < m < |s|
    requires Sort(s[1..], key)[0] == s[m]
    requires key(s[m]) < key(s[0])
    requires Sort(s[1..], key)[1..] == Sort(RemoveAt(s[1..], m - 1), key)
    ensures Sort(s, key)[1..] == Sort(RemoveAt(s, m), key)
  {
    var r' := Sort(s[1..], key);
    var t := RemoveAt(s, m);
    RemoveAtFront(s, m);
    assert t[0] == s[0];
    calc {
      Sort(s, key)[1..];
    == { SortUnfold(s, key); }
      Insert(s[0], r', key)[1..];
    == { InsertBehindHead(s[0], r', key); }
      Insert(s[0], r'[1..], key);
    ==
      Insert(t[0], Sort(t[1..], key), key);
    == { SortUnfold(t, key); }
      Sort(t, key);
    }
  }

  /** x goes behind the head of s when the head's key is lower. */
  lemma InsertBehindHead<T>(x: T, s: seq<T>, key: T -> real)
    requires |s| > 0 && key(s[0]) < key(x)
    ensures Insert(x, s, key)[1..] == Insert(x, s[1..], key)
  {
  }

  /** The first two records of the sorted list, as positions of the input:
      i is the first record of least key, j the first record of least key
      among the others. */
  lemma SortFirstTwo<T>(s: seq<T>, key: T -> real) returns (i: nat, j: nat)
    requires |s| >= 2
    ensures i < |s| && j < |s| && i != j
    ensures Sort(s, key)[0] == s[i] && Sort(s, key)[1] == s[j]
    ensures forall k :: 0 <= k < |s| ==> key(s[i]) <= key(s[k])
    ensures forall k :: 0 <= k < i ==> key(s[i]) < key(s[k])
    ensures forall k :: 0 <= k < |s| && k != i ==> key(s[j]) <= key(s[k])
    ensures forall k :: 0 <= k < j && k != i ==> key(s[j]) < key(s[k])
  {
    i := FirstMin(s, key);
    SortHeadIsFirstMin(s, key);
    j := SortSecond(s, key);
  }

  lemma SortSecond<T>(s: seq<T>, key: T -> real) returns (j: nat)
    requires |s| >= 2
    ensures j < |s| && j != FirstMin(s, key)
    ensures Sort(s, key)[1] == s[j]
    ensures forall k :: 0 <= k < |s| && k != FirstMin(s, key) ==> key(s[j]) <= key(s[k])
    ensures forall k :: 0 <= k < j && k != FirstMin(s, key) ==> key(s[j]) < key(s[k])
  {
    var i := FirstMin(s, key);
    var rest := RemoveAt(s, i);
    var m := FirstMin(rest, key);
    j := if m < i then m else m + 1;
    SortSecondIsHeadOfRest(s, key);
    RemoveAtIndex(s, i, m);
    LeastOfOthers(s, key, i, m);
  }

  /** The second record of the sorted list heads the sort of the others. */
  lemma SortSecondIsHeadOfRest<T>(s: seq<T>, key: T -> real)
    requires |s| >= 2
    ensures var rest := RemoveAt(s, FirstMin(s, key));
            Sort(s, key)[1] == rest[FirstMin(rest, key)]
  {
    var rest := RemoveAt(s, FirstMin(s, key));
    SortTailRemovesFirstMin(s, key);
    SortHeadIsFirstMin(rest, key);
    assert Sort(s, key)[1] == Sort(s, key)[1..][0];
  }

  /** The first least record of s without s[i], as a position of s. */
  lemma LeastOfOthers<T>(s: seq<T>, key: T -> real, i: nat, m: nat)
    requires i < |s| && m < |s| - 1
    requires forall k :: 0 <= k < |s| - 1 ==> key(RemoveAt(s, i)[m]) <= key(RemoveAt(s, i)[k])
    requires forall k :: 0 <= k < m ==> key(RemoveAt(s, i)[m]) < key(RemoveAt(s, i)[k])
    ensures var j := if m < i then m else m + 1;
            && (forall k :: 0 <= k < |s| && k != i ==> key(s[j]) <= key(s[k]))
            && (forall k :: 0 <= k < j && k != i ==> key(s[j]) < key(s[k]))
  {
    var j := if m < i then m else m + 1;
    RemoveAtIndex(s, i, m);
    forall k | 0 <= k < |s| && k != i
      ensures key(s[j]) <= key(s[k])
      ensures k < j ==> key(s[j]) < key(s[k])
    {
      RemoveAtIndex(s, i, if k < i then k else k - 1);
    }
  }

  lemma RemoveAtIndex<T>(s: seq<T>, i: nat, k: nat)
    requires i < |s| && k < |s| - 1
    ensures RemoveAt(s, i)[k] == s[if k < i then k else k + 1]
  {
  }

  lemma SortUnfold<T>(s: seq<T>, key: T -> real)
    requires |s| > 0
    ensures Sort(s, key) == Insert(s[0], Sort(s[1..], key), key)
  {
  }

  lemma RemoveAtFront<T>(s: seq<T>, i: nat)
    requires 0 < i < |s|
    ensures RemoveAt(s, i) == [s[0]] + RemoveAt(s[1..], i - 1)
    ensures RemoveAt(s, i)[1..] == RemoveAt(s[1..], i - 1)
  {
  }

  /** Sorting a list that is already sorted changes nothing. */
  lemma {:induction false} SortOfSorted<T>(s: seq<T>, key: T -> real)
    requires SortedBy(s, key)
    ensures Sort(s, key) == s
  {
    if s != [] {
      SortOfSorted(s[1..], key);
      assert s == [s[0]] + s[1..];
    }
  }

  lemma {:induction false} InsertLexSorted<T>(x: T, s: seq<T>, key: T -> real, tag: T -> int)
    requires LexSortedBy(s, key, tag)
    requires forall y :: y in s ==> tag(x) < tag(y)
    ensures LexSortedBy(Insert(x, s, key), key, tag)
  {
    if s == [] {
    } else if key(x) <= key(s[0]) {
      var r := [x] + s;
      assert Insert(x, s, key) == r;
      forall j | 0 < j < |r| ensures Before(x, r[j], key, tag) {
        assert r[j] == s[j - 1];
        if j > 1 { assert Before(s[0], s[j - 1], key, tag); }
      }
      forall i, j | 0 <= i < j < |r| ensures Before(r[i], r[j], key, tag) {
        if i > 0 { assert Before(s[i - 1], s[j - 1], key, tag); }
      }
    } else {
      var rest := Insert(x, s[1..], key);
      assert Insert(x, s, key) == [s[0]] + rest;
      InsertLexSorted(x, s[1..], key, tag);
      forall j | 0 <= j < |rest| ensures Before(s[0], rest[j], key, tag) {
        assert rest[j] in multiset(rest);
        if rest[j] != x {
          assert rest[j] in s[1..];
          var k :| 0 <= k < |s[1..]| && s[1..][k] == rest[j];
          assert Before(s[0], s[k + 1], key, tag);
        }
      }
    }
  }

  /** Stability stated by position: when the input's tags increase, the sorted
      list orders records of equal key by increasing tag. */
  lemma {:induction false} SortStable<T>(s: seq<T>, key: T -> real, tag: T -> int)
    requires TagsIncreasing(s, tag)
    ensures LexSortedBy(Sort(s, key), key, tag)
  {
    if s != [] {
      var rest := Sort(s[1..], key);
      SortStable(s[1..], key, tag);
      forall y | y in rest ensures tag(s[0]) < tag(y) {
        assert y in multiset(rest);
        assert y in s[1..];
      }
      InsertLexSorted(s[0], rest, key, tag);
    }
  }

  /** The tags of a list, in order. */
  function Tags<T>(s: seq<T>, tag: T -> int): (r: seq<int>)
    ensures |r| == |s|
  {
    if s == [] then [] else [tag(s[0])] + Tags(s[1..], tag)
  }

  /** Position i of the tags is the tag of position i. */
  lemma {:induction false} TagsAt<T>(s: seq<T>, tag: T -> int, i: nat)
    requires i < |s|
    ensures Tags(s, tag)[i] == tag(s[i])
  {
    if i > 0 {
      TagsAt(s[1..], tag, i - 1);
    }
  }

  lemma {:induction false} TagsInsert<T>(x: T, s: seq<T>, key: T -> real, tag: T -> int)
    ensures multiset(Tags(Insert(x, s, key), tag)) == multiset{tag(x)} + multiset(Tags(s, tag))
  {
    if s == [] || key(x) <= key(s[0]) {
      assert ([x] + s)[1..] == s;
    } else {
      TagsInsert(x, s[1..], key, tag);
      assert ([s[0]] + Insert(x, s[1..], key))[1..] == Insert(x, s[1..], key);
    }
  }

  /** Sorting permutes the tags as it permutes the records. */
  lemma {:induction false} TagsSort<T>(s: seq<T>, key: T -> real, tag: T -> int)
    ensures multiset(Tags(Sort(s, key), tag)) == multiset(Tags(s, tag))
  {
    if s != [] {
      TagsSort(s[1..], key, tag);
      TagsInsert(s[0], Sort(s[1..], key), key, tag);
    }
  }

  lemma {:induction false} TagsAppend<T>(a: seq<T>, b: seq<T>, tag: T -> int)
    ensures Tags(a + b, tag) == Tags(a, tag) + Tags(b, tag)
  {
    if a == [] {
      assert a + b == b;
    } else {
      TagsAppend(a[1..], b, tag);
      assert (a + b)[1..] == a[1..] + b;
    }
  }
}
