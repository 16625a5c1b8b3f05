/** The JavaScript `Map` used for a loaded collection: entries kept in
    insertion order, at most one entry per key. */
module OrderedMaps {

  /** Keys compared with JavaScript's SameValueZero, which for the ids of
      this model is structural equality. */
  datatype JsMap<K(==,!new), V> = JsMap(entries: seq<(K, V)>) {

    /** At most one entry per key. */
    ghost predicate Valid() {
      DistinctKeys(entries)
    }

    /** `map.size` */
    function Size(): nat {
      |entries|
    }

    /** `map.has(k)` */
    predicate Has(k: K) {
      IndexOf(entries, k) < |entries|
    }

    /** `map.get(k)` for a key that is present. */
    function Get(k: K): V
      requires Has(k)
    {
      entries[IndexOf(entries, k)].1
    }

    /** `map.set(k, v)`: an existing key keeps its position and gets the new
        value; a new key is appended. */
    function Set(k: K, v: V): (r: JsMap<K, V>)
      ensures Valid() ==> r.Valid()
      ensures r.Has(k) && r.Get(k) == v
      ensures forall k' | k' != k :: r.Has(k') == Has(k')
      ensures forall k' | k' != k && Has(k') :: r.Get(k') == Get(k')
      ensures forall p | p in r.entries :: p in entries || p == (k, v)
    {
      var i := IndexOf(entries, k);
      if i < |entries| then
        var es := entries[i := (k, v)];
        SameKeysSameIndex(entries, es);
        JsMap(es)
      else
        var es := entries + [(k, v)];
        IndexOfSnoc(entries, (k, v));
        JsMap(es)
    }

    /** `map.keys()`, in insertion order. */
    function Keys(): seq<K> {
      seq(|entries|, i requires 0 <= i < |entries| => entries[i].0)
    }

    /** `map.values()`, in insertion order. */
    function Values(): seq<V> {
      seq(|entries|, i requires 0 <= i < |entries| => entries[i].1)
    }

    /** `[...map]`: the list of [key, value] pairs in insertion order. */
    function Spread(): seq<(K, V)> {
      entries
    }

    /** The dictionary the map stands for. */
    function View(): map<K, V> {
      AsMap(entries)
    }
  }

  ghost predicate DistinctKeys<K, V>(es: seq<(K, V)>) {
    forall i, j | 0 <= i < j < |es| :: es[i].0 != es[j].0
  }

  /** Position of the first entry with key k, or |es| when there is none. */
  function IndexOf<K(==), V>(es: seq<(K, V)>, k: K): (i: nat)
    ensures i <= |es|
    ensures i < |es| ==> es[i].0 == k
    ensures forall j | 0 <= j < i :: es[j].0 != k
  {
    if es == [] then 0
    else if es[0].0 == k then 0
    else 1 + IndexOf(es[1..], k)
  }

  /** The dictionary obtained by applying the pairs in order, later pairs
      overriding earlier ones. */
  function AsMap<K, V>(es: seq<(K, V)>): map<K, V> {
    if es == [] then map[]
    else AsMap(es[..|es| - 1])[es[|es| - 1].0 := es[|es| - 1].1]
  }

  /** `new Map(pairs)`: an empty map to which `set` is applied once per
      pair, in order. */
  function FromPairs<K(==,!new), V>(ps: seq<(K, V)>): (m: JsMap<K, V>)
    ensures m.Valid()
  {
    if ps == [] then JsMap([])
    else FromPairs(ps[..|ps| - 1]).Set(ps[|ps| - 1].0, ps[|ps| - 1].1)
  }

  /** IndexOf only depends on the sequence of keys. */
  lemma SameKeysSameIndex<K, V>(a: seq<(K, V)>, b: seq<(K, V)>)
    requires |a| == |b| && forall j | 0 <= j < |a| :: a[j].0 == b[j].0
    ensures forall k :: IndexOf(a, k) == IndexOf(b, k)
  {
  }

  /** Where a key is found once an entry has been appended. */
  lemma IndexOfSnoc<K, V>(es: seq<(K, V)>, p: (K, V))
    ensures forall k :: (IndexOf(es + [p], k) ==
      if IndexOf(es, k) < |es| then IndexOf(es, k) else if p.0 == k then |es| else |es| + 1)
  {
    var es' := es + [p];
    assert forall j | 0 <= j < |es| :: es'[j] == es[j];
    assert es'[|es|] == p;
  }

  /** Building a map from pairs whose keys are distinct gives back exactly
      those pairs, in the same order. */
  lemma {:induction false} FromDistinctPairs<K(!new), V>(ps: seq<(K, V)>)
    requires DistinctKeys(ps)
    ensures FromPairs(ps) == JsMap(ps)
  {
    if ps != [] {
      var n := |ps| - 1;
      var pre := ps[..n];
      FromDistinctPairs(pre);
      assert forall j | 0 <= j < n :: pre[j].0 != ps[n].0 by {
        forall j | 0 <= j < n ensures pre[j].0 != ps[n].0 {
          assert pre[j] == ps[j];
        }
      }
      assert IndexOf(pre, ps[n].0) == n;
      assert pre + [ps[n]] == ps;
    }
  }

  /** Serialising a map to its [key, value] pairs and rebuilding it gives
      back the same map, in the same order. */
  lemma RoundTrip<K(!new), V>(m: JsMap<K, V>)
    requires m.Valid()
    ensures FromPairs(m.Spread()) == m
  {
    FromDistinctPairs(m.entries);
  }

  /** The keys of the dictionary view are the keys of the entries. */
  lemma {:induction false} AsMapKeys<K, V>(es: seq<(K, V)>, k: K)
    ensures k in AsMap(es) <==> exists i | 0 <= i < |es| :: es[i].0 == k
  {
    if es != [] {
      var n := |es| - 1;
      AsMapKeys(es[..n], k);
      if k in AsMap(es[..n]) {
        var i :| 0 <= i < n && es[..n][i].0 == k;
        assert es[i].0 == k;
      }
      if exists i | 0 <= i < |es| :: es[i].0 == k {
        var i :| 0 <= i < |es| && es[i].0 == k;
        if i < n {
          assert es[..n][i].0 == k;
        }
      }
    }
  }

  /** On a valid map, `has` and `get` agree with the dictionary view. */
  lemma {:induction false} ViewAgrees<K(!new), V>(m: JsMap<K, V>, k: K)
    requires m.Valid()
    ensures m.Has(k) <==> k in m.View()
    ensures m.Has(k) ==> m.Get(k) == m.View()[k]
    decreases |m.entries|
  {
    var es := m.entries;
    if es != [] {
      var n := |es| - 1;
      var pre := JsMap(es[..n]);
      assert pre.Valid() by {
        forall i, j | 0 <= i < j < n ensures pre.entries[i].0 != pre.entries[j].0 {
          assert pre.entries[i] == es[i] && pre.entries[j] == es[j];
        }
      }
      ViewAgrees(pre, k);
      IndexOfSnoc(es[..n], es[n]);
      assert es[..n] + [es[n]] == es;
      if k == es[n].0 {
        forall j | 0 <= j < n ensures es[..n][j].0 != k {
          assert es[..n][j] == es[j];
        }
        assert IndexOf(es[..n], k) == n;
      } else if pre.Has(k) {
        assert es[IndexOf(es[..n], k)] == es[..n][IndexOf(es[..n], k)];
      }
    }
  }

  /** `set` updates the dictionary view at one key and nowhere else. */
  lemma SetView<K(!new), V>(m: JsMap<K, V>, k: K, v: V)
    requires m.Valid()
    ensures m.Set(k, v).View() == m.View()[k := v]
  {
    var r := m.Set(k, v);
    forall k' ensures k' in r.View() <==> k' in m.View()[k := v] {
      ViewAgrees(m, k');
      ViewAgrees(r, k');
    }
    forall k' | k' in r.View() ensures r.View()[k'] == m.View()[k := v][k'] {
      ViewAgrees(m, k');
      ViewAgrees(r, k');
    }
  }

  /** `set` on a present key keeps the size and the order of keys and
      replaces the value in place; on an absent key it appends. */
  lemma SetKeepsOrder<K(!new), V>(m: JsMap<K, V>, k: K, v: V)
    ensures m.Has(k) ==> && m.Set(k, v).Size() == m.Size()
                         && m.Set(k, v).Keys() == m.Keys()
                         && m.Set(k, v).Values() == m.Values()[IndexOf(m.entries, k) := v]
    ensures !m.Has(k) ==> && m.Set(k, v).Size() == m.Size() + 1
                          && m.Set(k, v).Keys() == m.Keys() + [k]
                          && m.Set(k, v).Values() == m.Values() + [v]
  {
  }

  /** Rebuilding a map from any list of pairs, duplicates included, yields
      the dictionary in which the last pair for each key wins. */
  lemma {:induction false} FromPairsView<K(!new), V>(ps: seq<(K, V)>)
    ensures FromPairs(ps).View() == AsMap(ps)
  {
    if ps != [] {
      var n := |ps| - 1;
      FromPairsView(ps[..n]);
      SetView(FromPairs(ps[..n]), ps[n].0, ps[n].1);
    }
  }

  /** A valid map holds one entry per key of its dictionary view. */
  lemma {:induction false} SizeIsKeyCount<K(!new), V>(m: JsMap<K, V>)
    requires m.Valid()
    ensures |m.View()| == m.Size()
    decreases |m.entries|
  {
    var es := m.entries;
    if es != [] {
      var n := |es| - 1;
      var pre := JsMap(es[..n]);
      assert pre.Valid() by {
        forall i, j | 0 <= i < j < n ensures pre.entries[i].0 != pre.entries[j].0 {
          assert pre.entries[i] == es[i] && pre.entries[j] == es[j];
        }
      }
      SizeIsKeyCount(pre);
      AsMapKeys(es[..n], es[n].0);
      assert forall i | 0 <= i < n :: es[..n][i] == es[i];
      assert es[n].0 !in pre.View();
    }
  }

  /** `map.values()` lists the value of every key of the dictionary view. */
  lemma ValuesCoverView<K(!new), V>(m: JsMap<K, V>, k: K)
    requires m.Valid() && k in m.View()
    ensures m.View()[k] in m.Values()
  {
    ViewAgrees(m, k);
    assert m.Values()[IndexOf(m.entries, k)] == m.View()[k];
  }

  /** `map.values()` lists, position by position, the value that the
      dictionary view gives to `map.keys()` at the same position. */
  lemma ValuesInKeyOrder<K(!new), V>(m: JsMap<K, V>)
    requires m.Valid()
    ensures |m.Values()| == |m.Keys()|
    ensures forall i | 0 <= i < |m.Values()| :: m.Keys()[i] in m.View() && m.Values()[i] == m.View()[m.Keys()[i]]
  {
    forall i | 0 <= i < |m.Values()| ensures m.Keys()[i] in m.View() && m.Values()[i] == m.View()[m.Keys()[i]] {
      var k := m.entries[i].0;
      ViewAgrees(m, k);
      assert IndexOf(m.entries, k) == i;
    }
  }
}
