/** Python's `sorted(items, key=lambda x: x[1])` on `(key, caption)` pairs: ascending by
    caption, and entries with equal captions keep their original order. */
module StableSort {
  import opened Strings
  import opened OrderedMaps

  predicate SortedByCaption(s: seq<Entry>) {
    forall i, j :: 0 <= i < j < |s| ==> LessEq(s[i].caption, s[j].caption)
  }

  /** The entries carrying a given caption, in order. */
  function WithCaption(s: seq<Entry>, caption: string): (r: seq<Entry>)
    ensures |r| <= |s|
    decreases |s|
  {
    if s == [] then []
    else if s[0].caption == caption then [s[0]] + WithCaption(s[1..], caption)
    else WithCaption(s[1..], caption)
  }

  /** Places `e` before the first entry whose caption is not below its own. */
  function Insert(e: Entry, s: seq<Entry>): (r: seq<Entry>)
    ensures |r| == |s| + 1
    decreases |s|
  {
    if s == [] then [e]
    else if LessEq(e.caption, s[0].caption) then [e] + s
    else [s[0]] + Insert(e, s[1..])
  }

  /** Insertion sort; each element is inserted ahead of the equal captions that come after
      it in the input. */
  function SortByCaption(xs: seq<Entry>): (r: seq<Entry>)
    ensures |r| == |xs|
    decreases |xs|
  {
    if xs == [] then [] else Insert(xs[0], SortByCaption(xs[1..]))
  }

  lemma {:induction false} InsertPermutes(e: Entry, s: seq<Entry>)
    ensures multiset(Insert(e, s)) == multiset(s) + multiset{e}
    decreases |s|
  {
    if s != [] && !LessEq(e.caption, s[0].caption) {
      InsertPermutes(e, s[1..]);
      assert s == [s[0]] + s[1..];
    }
  }

  lemma {:induction false} InsertSorted(e: Entry, s: seq<Entry>)
    requires SortedByCaption(s)
    ensures SortedByCaption(Insert(e, s))
    decreases |s|
  {
    if s != [] {
      if LessEq(e.caption, s[0].caption) {
        forall j | 1 <= j < |s| + 1
          ensures LessEq(e.caption, ([e] + s)[j].caption)
        {
          if j > 1 {
            LessEqTransitive(e.caption, s[0].caption, s[j - 1].caption);
          }
        }
      } else {
        LessEqTotal(e.caption, s[0].caption);
        InsertSorted(e, s[1..]);
        InsertPermutes(e, s[1..]);
        var t := Insert(e, s[1..]);
        forall j | 0 <= j < |t|
          ensures LessEq(s[0].caption, t[j].caption)
        {
          assert t[j] in multiset(t);
          if t[j] != e {
            assert t[j] in multiset(s[1..]);
            var k :| 0 <= k < |s[1..]| && s[1..][k] == t[j];
            assert s[k + 1] == t[j];
          }
        }
      }
    }
  }

  /** Among entries of one caption, inserting `e` puts it first and keeps the others. */
  lemma {:induction false} InsertStable(e: Entry, s: seq<Entry>, caption: string)
    ensures WithCaption(Insert(e, s), caption) == WithCaption([e], caption) + WithCaption(s, caption)
    decreases |s|
  {
    if s == [] {
    } else if LessEq(e.caption, s[0].caption) {
      assert ([e] + s)[1..] == s;
    } else {
      LessEqReflexive(e.caption);
      InsertStable(e, s[1..], caption);
      assert ([s[0]] + Insert(e, s[1..]))[1..] == Insert(e, s[1..]);
    }
  }

  /** The result is ordered by caption. */
  lemma {:induction false} SortSorted(xs: seq<Entry>)
    ensures SortedByCaption(SortByCaption(xs))
    decreases |xs|
  {
    if xs != [] {
      SortSorted(xs[1..]);
      InsertSorted(xs[0], SortByCaption(xs[1..]));
    }
  }

  /** The result holds exactly the input entries. */
  lemma {:induction false} SortPermutes(xs: seq<Entry>)
    ensures multiset(SortByCaption(xs)) == multiset(xs)
    decreases |xs|
  {
    if xs != [] {
      SortPermutes(xs[1..]);
      InsertPermutes(xs[0], SortByCaption(xs[1..]));
      assert xs == [xs[0]] + xs[1..];
    }
  }

  /** Stability: the entries of each caption appear in their input order. */
  lemma {:induction false} SortStable(xs: seq<Entry>, caption: string)
    ensures WithCaption(SortByCaption(xs), caption) == WithCaption(xs, caption)
    decreases |xs|
  {
    if xs != [] {
      SortStable(xs[1..], caption);
      InsertStable(xs[0], SortByCaption(xs[1..]), caption);
    }
  }

  /** A key distinct from all of `s` stays distinct after insertion. */
  lemma {:induction false} InsertKeepsDistinct(e: Entry, s: seq<Entry>)
    requires DistinctKeys(s)
    requires forall x | x in s :: x.key != e.key
    ensures DistinctKeys(Insert(e, s))
    decreases |s|
  {
    if s != [] && !LessEq(e.caption, s[0].caption) {
      var t := Insert(e, s[1..]);
      InsertKeepsDistinct(e, s[1..]);
      InsertPermutes(e, s[1..]);
      forall x | x in t
        ensures x.key != s[0].key
      {
        assert x in multiset(t);
        if x != e {
          assert x in multiset(s[1..]);
          var k :| 0 <= k < |s[1..]| && s[1..][k] == x;
          assert s[k + 1] == x;
        }
      }
      DistinctCons(s[0], t);
    }
  }

  /** An entry followed by entries of other, distinct keys. */
  lemma DistinctCons(a: Entry, t: seq<Entry>)
    requires DistinctKeys(t)
    requires forall x | x in t :: x.key != a.key
    ensures DistinctKeys([a] + t)
  {
    var r := [a] + t;
    forall i, j | 0 <= i < j < |r|
      ensures r[i].key != r[j].key
    {
      assert r[j] == t[j - 1];
      if i > 0 {
        assert r[i] == t[i - 1];
      }
    }
  }

  /** Sorting keeps the keys distinct. */
  lemma {:induction false} SortKeepsDistinct(xs: seq<Entry>)
    requires DistinctKeys(xs)
    ensures DistinctKeys(SortByCaption(xs))
    decreases |xs|
  {
    if xs != [] {
      var rest := SortByCaption(xs[1..]);
      assert DistinctKeys(xs[1..]) by {
        forall i, j | 0 <= i < j < |xs[1..]|
          ensures xs[1..][i].key != xs[1..][j].key
        {
          assert xs[1..][i] == xs[i + 1] && xs[1..][j] == xs[j + 1];
        }
      }
      SortKeepsDistinct(xs[1..]);
      SortPermutes(xs[1..]);
      forall x | x in rest
        ensures x.key != xs[0].key
      {
        assert x in multiset(rest);
        var k :| 0 <= k < |xs[1..]| && xs[1..][k] == x;
        assert xs[k + 1] == x;
      }
      InsertKeepsDistinct(xs[0], rest);
    }
  }
}
