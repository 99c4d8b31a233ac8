/** A QMap<QString, QString> as the garbage collector uses it: an associative
    container that keeps its entries in ascending key order, so that `keys()`
    comes out sorted. */
module QMaps {
  import opened Wrappers
  import opened Strings

  /** The entries of the map, in the map's iteration order. */
  type QMap = seq<(string, string)>

  /** Keys strictly ascending: sorted and free of duplicates. */
  predicate StrictlySorted(ks: seq<string>)
  {
    forall i, j :: 0 <= i < j < |ks| ==> Less(ks[i], ks[j])
  }

  /** The representation invariant of a QMap: keys strictly ascending. */
  predicate Ordered(m: QMap)
  {
    forall i, j :: 0 <= i < j < |m| ==> Less(m[i].0, m[j].0)
  }

  /** QMap::keys(): the keys in iteration order, hence ascending. */
  function Keys(m: QMap): (ks: seq<string>)
    ensures |ks| == |m|
    ensures forall i :: 0 <= i < |m| ==> ks[i] == m[i].0
    ensures Ordered(m) ==> StrictlySorted(ks)
  {
    if m == [] then [] else [m[0].0] + Keys(m[1..])
  }

  /** QMap::value(k): the value under k, or None (Qt's null QString) when k is absent. */
  function Value(m: QMap, k: string): (v: Option<string>)
    ensures v.Some? <==> k in Keys(m)
    ensures v.Some? ==> (k, v.value) in m
  {
    if m == [] then None
    else if m[0].0 == k then Some(m[0].1)
    else Value(m[1..], k)
  }

  /** In an ordered map an entry is what `value` finds under its key. */
  lemma {:induction false} ValueOfEntry(m: QMap, k: string, v: string)
    requires Ordered(m) && (k, v) in m
    ensures Value(m, k) == Some(v)
  {
    if m[0] != (k, v) {
      assert (k, v) in m[1..];
      var j :| 1 <= j < |m| && m[j] == (k, v);
      if m[0].0 == k {
        LessIrreflexive(k);
      }
      ValueOfEntry(m[1..], k, v);
    }
  }

  /** QMap::insert(k, v): k now maps to v, whatever it mapped to before; every other key keeps its value. */
  function Insert(m: QMap, k: string, v: string): (r: QMap)
    requires Ordered(m)
    ensures Ordered(r)
    ensures forall e :: e in r ==> e == (k, v) || e in m
    ensures Value(r, k) == Some(v)
    ensures forall key :: key != k ==> Value(r, key) == Value(m, key)
  {
    if m == [] then [(k, v)]
    else if m[0].0 == k then
      var r := [(k, v)] + m[1..];
      ValueCons((k, v), m[1..]);
      ValueCons(m[0], m[1..]);
      assert m == [m[0]] + m[1..];
      ConsOrdered((k, v), m[1..]);
      r
    else if Less(k, m[0].0) then
      var r := [(k, v)] + m;
      ValueCons((k, v), m);
      BelowAll(m, k);
      ConsOrdered((k, v), m);
      r
    else
      LessTotal(k, m[0].0);
      var tail := Insert(m[1..], k, v);
      var r := [m[0]] + tail;
      ValueCons(m[0], tail);
      ValueCons(m[0], m[1..]);
      assert m == [m[0]] + m[1..];
      AboveTail(m, tail, k, v);
      ConsOrdered(m[0], tail);
      r
  }

  /** Looking a key up in a map that starts with h. */
  lemma ValueCons(h: (string, string), t: QMap)
    ensures forall key :: Value([h] + t, key) == if h.0 == key then Some(h.1) else Value(t, key)
  {
    assert ([h] + t)[1..] == t;
  }

  /** An entry whose key is below every key of an ordered map can go in front of it. */
  lemma ConsOrdered(h: (string, string), t: QMap)
    requires Ordered(t)
    requires forall j :: 0 <= j < |t| ==> Less(h.0, t[j].0)
    ensures Ordered([h] + t)
  {
    var r := [h] + t;
    forall i, j | 0 <= i < j < |r| ensures Less(r[i].0, r[j].0) {
      assert r[j] == t[j - 1];
      if i > 0 {
        assert r[i] == t[i - 1];
      }
    }
  }

  /** A key below the first key of an ordered map is below all of them. */
  lemma BelowAll(m: QMap, k: string)
    requires Ordered(m) && m != [] && Less(k, m[0].0)
    ensures forall j :: 0 <= j < |m| ==> Less(k, m[j].0)
  {
    forall j | 0 < j < |m| ensures Less(k, m[j].0) {
      LessTransitive(k, m[0].0, m[j].0);
    }
  }

  /** The first key of an ordered map is below every key of an insertion into the rest. */
  lemma AboveTail(m: QMap, tail: QMap, k: string, v: string)
    requires Ordered(m) && m != [] && Less(m[0].0, k)
    requires forall e :: e in tail ==> e == (k, v) || e in m[1..]
    ensures forall j :: 0 <= j < |tail| ==> Less(m[0].0, tail[j].0)
  {
    forall j | 0 <= j < |tail| ensures Less(m[0].0, tail[j].0) {
      assert tail[j] in tail;
      if tail[j] != (k, v) {
        var i :| 0 <= i < |m[1..]| && m[1..][i] == tail[j];
        assert m[i + 1] == tail[j];
      }
    }
  }

  /** Inserting never loses a key. */
  lemma InsertKeeps(m: QMap, k: string, v: string, key: string)
    requires Ordered(m) && key in Keys(m)
    ensures key in Keys(Insert(m, k, v))
  {
    if key != k {
      assert Value(Insert(m, k, v), key) == Value(m, key);
    }
  }
}
