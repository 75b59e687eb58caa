/** What a table holds, as a finite map from keys to items. */
module RbContents {
  import opened RbShape
  import opened Wrappers

  /** The map spelled out by a list of entries. */
  ghost function MapOf(s: seq<Entry>): map<int, Item> {
    if s == [] then map[] else MapOf(s[1..])[s[0].x.key := s[0].x]
  }

  ghost function Lookup(m: map<int, Item>, key: int): Option<Item> {
    if key in m then Some(m[key]) else None
  }

  predicate DistinctKeys(s: seq<Entry>) {
    forall i, j :: 0 <= i < j < |s| ==> s[i].x.key != s[j].x.key
  }

  lemma {:induction false} MapOfHas(s: seq<Entry>)
    requires DistinctKeys(s)
    ensures forall i :: 0 <= i < |s| ==> s[i].x.key in MapOf(s) && MapOf(s)[s[i].x.key] == s[i].x
    ensures forall k :: k in MapOf(s) ==> exists i :: 0 <= i < |s| && s[i].x.key == k
  {
    if s != [] {
      var t := s[1..];
      MapOfHas(t);
      forall i | 0 <= i < |s| ensures s[i].x.key in MapOf(s) && MapOf(s)[s[i].x.key] == s[i].x {
        if i > 0 { assert s[i] == t[i - 1]; }
      }
      forall k | k in MapOf(s) ensures exists i :: 0 <= i < |s| && s[i].x.key == k {
        if k != s[0].x.key {
          var i :| 0 <= i < |t| && t[i].x.key == k;
          assert s[i + 1].x.key == k;
        } else {
          assert s[0].x.key == k;
        }
      }
    }
  }

  lemma DistinctTail(s: seq<Entry>)
    requires DistinctKeys(s) && s != []
    ensures DistinctKeys(s[1..])
  {
    forall i, j | 0 <= i < j < |s[1..]| ensures s[1..][i].x.key != s[1..][j].x.key {
      assert s[1..][i] == s[i + 1] && s[1..][j] == s[j + 1];
    }
  }

  lemma MapOfCons(s: seq<Entry>)
    ensures s != [] ==> MapOf(s) == MapOf(s[1..])[s[0].x.key := s[0].x]
  {
  }

  lemma KeyApart(s: seq<Entry>, t: seq<Entry>)
    requires DistinctKeys(s) && s != [] && t == s[1..]
    ensures s[0].x.key !in MapOf(t)
  {
    DistinctTail(s);
    MapOfHas(t);
    forall i | 0 <= i < |t| ensures t[i].x.key != s[0].x.key { assert s[i + 1] == t[i]; }
  }

  /** An entry put in anywhere. */
  lemma {:induction false} MapOfInsert(a: seq<Entry>, e: Entry, b: seq<Entry>)
    requires DistinctKeys(a + [e] + b)
    ensures e.x.key !in MapOf(a + b) && MapOf(a + [e] + b) == MapOf(a + b)[e.x.key := e.x]
  {
    var s := a + [e] + b;
    hide MapOf;
    MapOfCons(s);
    DistinctTail(s);
    if a == [] {
      assert s[1..] == b && a + b == b;
      KeyApart(s, b);
    } else {
      var t := a[1..];
      assert s[1..] == t + [e] + b && (a + b)[1..] == t + b;
      assert a[0].x.key != e.x.key by { assert s[0] == a[0] && s[|a|] == e; }
      hide DistinctKeys;
      MapOfCons(a + b);
      MapOfInsert(t, e, b);
    }
  }

  /** An entry taken out. */
  lemma MapOfRemove(a: seq<Entry>, e: Entry, b: seq<Entry>)
    requires DistinctKeys(a + [e] + b)
    ensures e.x.key !in MapOf(a + b) && MapOf(a + b) == MapOf(a + [e] + b) - {e.x.key}
  {
    MapOfInsert(a, e, b);
  }

  lemma SortedDistinct(s: seq<Entry>, lo: int, hi: int)
    requires Sorted(s, lo, hi)
    ensures DistinctKeys(s)
  {
  }
}
