/** Python's `collections.OrderedDict` (and the insertion-ordered `dict`) from selection
    keys to captions, as a sequence of entries in insertion order. */
module OrderedMaps {

  datatype Entry = Entry(key: string, caption: string)

  /** The keys in insertion order. */
  function Keys(m: seq<Entry>): (keys: seq<string>)
    ensures |keys| == |m|
    ensures forall i :: 0 <= i < |m| ==> keys[i] == m[i].key
  {
    seq(|m|, i requires 0 <= i < |m| => m[i].key)
  }

  predicate DistinctKeys(m: seq<Entry>) {
    forall i, j :: 0 <= i < j < |m| ==> m[i].key != m[j].key
  }

  /** Position of the first entry with key `k`, or -1 when there is none. */
  function IndexOfKey(m: seq<Entry>, k: string): (i: int)
    ensures -1 <= i < |m|
    ensures i >= 0 ==> m[i].key == k
    ensures forall j :: 0 <= j < |m| && (i < 0 || j < i) ==> m[j].key != k
    decreases |m|
  {
    if m == [] then -1
    else if m[0].key == k then 0
    else
      var i := IndexOfKey(m[1..], k);
      if i < 0 then -1 else i + 1
  }

  /** `m[k] = v`: an existing key keeps its position and takes the new caption; a new
      key is appended. */
  function Put(m: seq<Entry>, k: string, v: string): (r: seq<Entry>)
    ensures Keys(r) == if k in Keys(m) then Keys(m) else Keys(m) + [k]
    ensures Entry(k, v) in r
    ensures forall i :: 0 <= i < |m| && m[i].key != k ==> r[i] == m[i]
    ensures k !in Keys(m) ==> r == m + [Entry(k, v)]
    ensures forall i :: 0 <= i < |r| ==> r[i] == Entry(k, v) || (i < |m| && r[i] == m[i])
  {
    var i := IndexOfKey(m, k);
    if i < 0 then m + [Entry(k, v)] else m[i := Entry(k, v)]
  }

  /** A sequence of `m[k] = v` assignments, in order. */
  function PutAll(m: seq<Entry>, entries: seq<Entry>): seq<Entry>
    decreases |entries|
  {
    if entries == [] then m
    else PutAll(Put(m, entries[0].key, entries[0].caption), entries[1..])
  }

  /** Assigning fresh, distinct keys appends the entries in order. */
  lemma {:induction false} PutAllAppends(m: seq<Entry>, entries: seq<Entry>)
    requires DistinctKeys(m + entries)
    ensures PutAll(m, entries) == m + entries
    decreases |entries|
  {
    if entries != [] {
      var e := entries[0];
      assert e.key !in Keys(m) by {
        forall i | 0 <= i < |m|
          ensures Keys(m)[i] != e.key
        {
          assert (m + entries)[i] == m[i];
          assert (m + entries)[|m|] == e;
        }
      }
      assert Put(m, e.key, e.caption) == m + [e];
      assert (m + [e]) + entries[1..] == m + entries;
      PutAllAppends(m + [e], entries[1..]);
    }
  }

  /** Assignment never introduces a duplicate key. */
  lemma PutKeepsDistinct(m: seq<Entry>, k: string, v: string)
    requires DistinctKeys(m)
    ensures DistinctKeys(Put(m, k, v))
    ensures |Put(m, k, v)| == if k in Keys(m) then |m| else |m| + 1
  {
    var r := Put(m, k, v);
    assert Keys(r) == if k in Keys(m) then Keys(m) else Keys(m) + [k];
    forall i, j | 0 <= i < j < |r|
      ensures r[i].key != r[j].key
    {
      assert Keys(r)[i] == r[i].key && Keys(r)[j] == r[j].key;
      if k !in Keys(m) && j == |m| {
        assert Keys(m)[i] == m[i].key;
      }
    }
  }

  /** Assigning the same caption to a key already present changes nothing. */
  lemma PutPresentSame(m: seq<Entry>, k: string, v: string)
    requires Entry(k, v) in m
    requires DistinctKeys(m)
    ensures Put(m, k, v) == m
  {
    var i :| 0 <= i < |m| && m[i] == Entry(k, v);
    assert Keys(m)[i] == k;
    var r := Put(m, k, v);
    assert |r| == |m|;
    forall j | 0 <= j < |m|
      ensures r[j] == m[j]
    {
      if m[j].key == k {
        assert j == i;
        assert Keys(r)[j] == k;
      }
    }
  }

  /** A sequence of assignments keeps the existing keys, in place, and adds the new ones
      after them. */
  lemma PutAllKeys(m: seq<Entry>, entries: seq<Entry>, k: string)
    ensures |m| <= |PutAll(m, entries)|
    ensures Keys(PutAll(m, entries))[..|m|] == Keys(m)
    ensures k in Keys(PutAll(m, entries)) <==> k in Keys(m) || k in Keys(entries)
  {
    PutAllKeepsKeys(m, entries);
    PutAllKeyMembers(m, entries, k);
  }

  lemma {:induction false} PutAllKeepsKeys(m: seq<Entry>, entries: seq<Entry>)
    ensures |m| <= |PutAll(m, entries)|
    ensures Keys(PutAll(m, entries))[..|m|] == Keys(m)
    decreases |entries|
  {
    if entries != [] {
      var m' := Put(m, entries[0].key, entries[0].caption);
      var keys := Keys(PutAll(m', entries[1..]));
      assert |m'| <= |keys| && keys[..|m'|] == Keys(m') by {
        PutAllKeepsKeys(m', entries[1..]);
      }
      assert Keys(m')[..|m|] == Keys(m);
      assert keys[..|m|] == keys[..|m'|][..|m|];
    }
  }

  lemma {:induction false} PutAllKeyMembers(m: seq<Entry>, entries: seq<Entry>, k: string)
    ensures k in Keys(PutAll(m, entries)) <==> k in Keys(m) || k in Keys(entries)
    decreases |entries|
  {
    if entries != [] {
      var e, rest := entries[0], entries[1..];
      var m' := Put(m, e.key, e.caption);
      assert k in Keys(PutAll(m', rest)) <==> k in Keys(m') || k in Keys(rest) by {
        PutAllKeyMembers(m', rest, k);
      }
      assert k in Keys(entries) <==> k == e.key || k in Keys(rest) by {
        assert Keys(entries) == [e.key] + Keys(rest);
      }
    }
  }

  /** Entries whose keys are not assigned again keep their captions too. */
  lemma {:induction false} PutAllKeepsUntouched(m: seq<Entry>, entries: seq<Entry>, i: int)
    requires 0 <= i < |m|
    requires m[i].key !in Keys(entries)
    ensures |m| <= |PutAll(m, entries)| && PutAll(m, entries)[i] == m[i]
    decreases |entries|
  {
    if entries != [] {
      var m' := Put(m, entries[0].key, entries[0].caption);
      assert Keys(entries) == [entries[0].key] + Keys(entries[1..]);
      assert m'[i] == m[i];
      PutAllKeepsUntouched(m', entries[1..], i);
    }
  }

  /** Every entry after a sequence of assignments was there before or was assigned. */
  lemma {:induction false} PutAllEntriesFrom(m: seq<Entry>, entries: seq<Entry>, i: int)
    requires 0 <= i < |PutAll(m, entries)|
    ensures PutAll(m, entries)[i] in m || PutAll(m, entries)[i] in entries
    decreases |entries|
  {
    if entries != [] {
      var m' := Put(m, entries[0].key, entries[0].caption);
      PutAllEntriesFrom(m', entries[1..], i);
      var x := PutAll(m, entries)[i];
      if x in m' {
        var j :| 0 <= j < |m'| && m'[j] == x;
        assert x == entries[0] || x == m[j];
      } else {
        assert x in entries[1..];
        var j :| 0 <= j < |entries[1..]| && entries[1..][j] == x;
        assert x == entries[j + 1];
      }
    }
  }

  /** Assignments keep a dictionary's keys distinct. */
  lemma {:induction false} PutAllDistinct(m: seq<Entry>, entries: seq<Entry>)
    requires DistinctKeys(m)
    ensures DistinctKeys(PutAll(m, entries))
    decreases |entries|
  {
    if entries != [] {
      PutKeepsDistinct(m, entries[0].key, entries[0].caption);
      PutAllDistinct(Put(m, entries[0].key, entries[0].caption), entries[1..]);
    }
  }
}
