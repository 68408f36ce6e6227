/** The key-to-position index over the record collection: what it means for
    the index to agree with the collection, the index createIndex builds, and
    how the two mutations that disturb positions affect that agreement. */
module Indexing {
  import opened Records

  /** Every key of the index names an in-range position holding a record with
      that identifier, and every record's identifier is a key of the index. */
  ghost predicate IndexConsistent(d: seq<Course>, m: map<string, int>)
  {
    && (forall k :: k in m ==> 0 <= m[k] < |d| && d[m[k]].cid == k)
    && (forall j :: 0 <= j < |d| ==> d[j].cid in m)
  }

  /** No two records share an identifier. */
  ghost predicate Distinct(d: seq<Course>)
  {
    forall i, j :: 0 <= i < j < |d| ==> d[i].cid != d[j].cid
  }

  /** Each key points at the last record carrying it. */
  ghost predicate LastWins(d: seq<Course>, m: map<string, int>)
  {
    forall k, j :: k in m && 0 <= m[k] < j < |d| ==> d[j].cid != k
  }

  /** The index createIndex leaves behind: position i is stored under
      d[i].cid for i = 0, 1, ..., so a later duplicate overwrites an earlier one. */
  function BuildIndex(d: seq<Course>): map<string, int>
  {
    if d == [] then map[] else BuildIndex(d[..|d| - 1])[d[|d| - 1].cid := |d| - 1]
  }

  /** The collection with the record at position i taken out; the others keep
      their order and move down by one past i. */
  function Spliced(d: seq<Course>, i: int): (r: seq<Course>)
    requires 0 <= i < |d|
    ensures |r| == |d| - 1
    ensures forall j :: 0 <= j < i ==> r[j] == d[j]
    ensures forall j :: i <= j < |r| ==> r[j] == d[j + 1]
  {
    d[..i] + d[i + 1..]
  }

  /** The rebuilt index agrees with the collection, and on duplicate
      identifiers the last position wins. */
  lemma {:induction false} BuildIndexConsistent(d: seq<Course>)
    ensures IndexConsistent(d, BuildIndex(d))
    ensures LastWins(d, BuildIndex(d))
  {
    if d != [] {
      var n := |d| - 1;
      var p := d[..n];
      BuildIndexConsistent(p);
      var m := BuildIndex(d);
      assert m == BuildIndex(p)[d[n].cid := n];
      forall k | k in m
        ensures 0 <= m[k] < |d| && d[m[k]].cid == k
      {
        if k != d[n].cid {
          assert p[BuildIndex(p)[k]] == d[m[k]];
        }
      }
      forall j | 0 <= j < |d|
        ensures d[j].cid in m
      {
        if j < n {
          assert p[j] == d[j];
        }
      }
      forall k, j | k in m && 0 <= m[k] < j < |d|
        ensures d[j].cid != k
      {
        if k != d[n].cid && j < n {
          assert p[j] == d[j];
        }
      }
    }
  }

  /** When identifiers are distinct, the consistency predicate determines the
      index: it can only be the rebuilt one. */
  lemma ConsistentIsBuilt(d: seq<Course>, m: map<string, int>)
    requires IndexConsistent(d, m) && Distinct(d)
    ensures m == BuildIndex(d)
  {
    var b := BuildIndex(d);
    BuildIndexConsistent(d);
    forall k | k in m
      ensures k in b && m[k] == b[k]
    {
      assert d[m[k]].cid in b;
    }
    forall k | k in b
      ensures k in m
    {
      assert d[b[k]].cid in m;
    }
    assert m.Keys == b.Keys;
  }

  /** Appending a record whose identifier is not yet indexed keeps identifiers
      distinct, and rebuilding the index then amounts to adding one entry. */
  lemma InsertFresh(d: seq<Course>, m: map<string, int>, c: Course)
    requires IndexConsistent(d, m) && Distinct(d)
    requires c.cid !in m
    ensures Distinct(d + [c])
    ensures BuildIndex(d + [c]) == m[c.cid := |d|]
  {
    var e := d + [c];
    forall i, j | 0 <= i < j < |e|
      ensures e[i].cid != e[j].cid
    {
      if j == |d| {
        assert e[i] == d[i];
      } else {
        assert e[i] == d[i] && e[j] == d[j];
      }
    }
    assert e[..|d|] == d;
    ConsistentIsBuilt(d, m);
  }

  /** Removing one record keeps distinct identifiers distinct. */
  lemma SplicedDistinct(d: seq<Course>, i: int)
    requires Distinct(d) && 0 <= i < |d|
    ensures Distinct(Spliced(d, i))
  {
  }

  /** Removing the record a key points to from a collection with distinct
      identifiers keeps them distinct, and the rebuilt index then holds every
      other key and not the removed one. */
  lemma DeleteReindexed(d: seq<Course>, m: map<string, int>, key: string)
    requires IndexConsistent(d, m) && Distinct(d)
    requires key in m
    ensures Distinct(Spliced(d, m[key]))
    ensures BuildIndex(Spliced(d, m[key])).Keys == m.Keys - {key}
  {
    var i := m[key];
    var e := Spliced(d, i);
    SplicedDistinct(d, i);
    var n := BuildIndex(e);
    BuildIndexConsistent(e);
    RebuiltKeysShrink(d, m, key, e, n);
    RebuiltKeysKept(d, m, key, e, n);
  }

  /** Every key of the rebuilt index was a key before and is not the deleted one. */
  lemma RebuiltKeysShrink(d: seq<Course>, m: map<string, int>, key: string, e: seq<Course>, n: map<string, int>)
    requires IndexConsistent(d, m) && Distinct(d)
    requires key in m && e == Spliced(d, m[key])
    requires IndexConsistent(e, n)
    ensures forall k :: k in n ==> k in m && k != key
  {
  }

  /** Every key other than the deleted one is a key of the rebuilt index. */
  lemma RebuiltKeysKept(d: seq<Course>, m: map<string, int>, key: string, e: seq<Course>, n: map<string, int>)
    requires IndexConsistent(d, m)
    requires key in m && e == Spliced(d, m[key])
    requires IndexConsistent(e, n)
    ensures forall k :: k in m && k != key ==> k in n
  {
    var i := m[key];
    forall k | k in m && k != key
      ensures k in n
    {
      var j := m[k];
      assert j != i;
      var j' := if j < i then j else j - 1;
      assert e[j'] == d[j];
      assert e[j'].cid == k;
    }
  }

  /** deleteEntry as written: the collection loses the record at m[key], but the
      index only loses `key`. Entries for records before the removed one stay
      right; entries for records after it are one too high. */
  lemma DeleteAsWrittenStale(d: seq<Course>, m: map<string, int>, key: string)
    requires IndexConsistent(d, m)
    requires key in m
    ensures forall k :: k in m && k != key && m[k] < m[key] ==> Spliced(d, m[key])[m[k]].cid == k
    ensures forall k :: k in m && k != key && m[k] > m[key] ==> Spliced(d, m[key])[m[k] - 1].cid == k
    ensures forall k :: k in m && k != key ==> m[k] != m[key]
  {
  }

  /** deleteEntry as written keeps the index consistent exactly when the
      deleted record was the last one. */
  lemma DeleteAsWrittenConsistentIff(d: seq<Course>, m: map<string, int>, key: string)
    requires IndexConsistent(d, m) && Distinct(d)
    requires key in m
    ensures IndexConsistent(Spliced(d, m[key]), m - {key}) <==> m[key] == |d| - 1
  {
    var i := m[key];
    var e := Spliced(d, i);
    var m' := m - {key};
    if i == |d| - 1 {
      forall k | k in m'
        ensures 0 <= m'[k] < |e| && e[m'[k]].cid == k
      {
        assert e[m[k]] == d[m[k]];
      }
      forall j | 0 <= j < |e|
        ensures e[j].cid in m'
      {
        assert e[j] == d[j];
      }
    } else {
      var last := d[|d| - 1].cid;
      assert last in m;
      assert d[m[last]].cid == last;
      assert m[last] == |d| - 1;
      assert last in m' && m'[last] == |e|;
    }
  }

  /** The failure deleteEntry causes, on three records A, B, C: after deleting
      "A" the entry for "B" points at the record of "C", and the entry for "C"
      points one past the end of the collection. */
  lemma DeleteAsWrittenCounterexample()
    ensures var d := [Course("A", "a", "1"), Course("B", "b", "2"), Course("C", "c", "3")];
            var m := BuildIndex(d);
            && IndexConsistent(d, m) && Distinct(d)
            && "A" in m && m["A"] == 0
            && var e := Spliced(d, m["A"]);
            var m' := m - {"A"};
            && !IndexConsistent(e, m')
            && e[m'["B"]].cid == "C"
            && m'["C"] == |e|
  {
    var d := [Course("A", "a", "1"), Course("B", "b", "2"), Course("C", "c", "3")];
    var d1, d2 := [d[0]], [d[0], d[1]];
    assert d1[..0] == [] && d2[..1] == d1 && d[..2] == d2;
    assert BuildIndex(d1) == map["A" := 0];
    assert BuildIndex(d2) == map["A" := 0, "B" := 1];
    var m := BuildIndex(d);
    assert m == map["A" := 0, "B" := 1, "C" := 2];
    BuildIndexConsistent(d);
    DeleteAsWrittenConsistentIff(d, m, "A");
  }
}
