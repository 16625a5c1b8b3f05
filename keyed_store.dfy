/** The keyed collection store over `localStorage` and the id-sequence
    allocator built on it. */
module KeyedStore {
  import opened Ids
  import opened Entities
  import opened OrderedMaps

  /** A stored pair list as `Store.Save` leaves it: one pair per key, and
      every record filed under its normalised id. */
  ghost predicate KeyedByNormalizedId(ps: seq<(Id, Entity)>) {
    DistinctKeys(ps) && forall i | 0 <= i < |ps| :: ps[i].0 == NormalizeId(ps[i].1.id)
  }

  /** The numeric ids 1, 2, ..., n. */
  function IdRange(n: nat): set<Id> {
    set i | 1 <= i <= n :: IntId(i)
  }

  /** `localStorage`, holding each collection as the list of [id, record]
      pairs its last save wrote. */
  class Store {
    var storage: map<string, seq<(Id, Entity)>>

    /** Every stored collection is a list written by `Save`. */
    ghost predicate Valid()
      reads this
    {
      forall key | key in storage :: KeyedByNormalizedId(storage[key])
    }

    /** An empty `localStorage`. */
    constructor ()
      ensures storage == map[] && Valid()
    {
      storage := map[];
    }

    /** `loadEntityFromLocalStorage(key)`: the stored pairs rebuilt into a
        map; a collection that was never stored loads as the empty map. */
    function Load(key: string): (m: JsMap<Id, Entity>)
      reads this
      ensures m.Valid()
      ensures key !in storage ==> m == JsMap([])
    {
      if key in storage then FromPairs(storage[key]) else JsMap([])
    }

    /** `saveEntityToLocalStorage(entity, key)`: load the collection, set the
        record under its normalised id, and write the whole collection back
        as its list of [id, record] pairs. */
    method Save(entity: Entity, key: string)
      modifies this
      ensures storage == old(storage)[key := old(Load(key)).Set(NormalizeId(entity.id), entity).Spread()]
      ensures Load(key) == old(Load(key)).Set(NormalizeId(entity.id), entity)
      ensures old(Valid()) ==> Valid()
    {
      ghost var wasValid := Valid();
      var collectionList := Load(key);
      var id := NormalizeId(entity.id);
      collectionList := collectionList.Set(id, entity);
      storage := storage[key := collectionList.Spread()];
      RoundTrip(collectionList);
      if wasValid {
        LoadOfValidStore(old(storage), key);
        SetKeepsKeyedByNormalizedId(old(Load(key)), entity);
      }
    }

    /** `getNextSequenceForEntity(key)`: `false` for an empty collection;
        otherwise the id of the record keyed by the collection's size, plus
        one; `false` when no record has that key. */
    function NextSequence(key: string): (r: JsResult<Id>)
      reads this
      ensures r != Undefined
      ensures Load(key).Size() == 0 ==> r == False
      ensures r.Value? <==> IntId(Load(key).Size()) in Load(key).View()
      ensures r.Value? ==> r.value == Plus1(Load(key).View()[IntId(Load(key).Size())].id)
    {
      var storedData := Load(key);
      var size := storedData.Size();
      ViewAgrees(storedData, IntId(size));
      if size > 0 && storedData.Has(IntId(size)) then Value(Plus1(storedData.Get(IntId(size)).id))
      else False
    }
  }

  /** On a valid store, loading a collection gives back exactly the pairs
      that were written, in the order they were written. */
  lemma LoadOfValidStore(storage: map<string, seq<(Id, Entity)>>, key: string)
    requires forall k | k in storage :: KeyedByNormalizedId(storage[k])
    ensures key in storage ==> FromPairs(storage[key]).Spread() == storage[key]
  {
    if key in storage {
      FromDistinctPairs(storage[key]);
    }
  }

  /** Setting a record under its normalised id keeps a collection keyed by
      normalised ids. */
  lemma SetKeepsKeyedByNormalizedId(m: JsMap<Id, Entity>, entity: Entity)
    requires KeyedByNormalizedId(m.Spread())
    ensures KeyedByNormalizedId(m.Set(NormalizeId(entity.id), entity).Spread())
  {
  }

  /** On a valid store, every key of a loaded collection is the normalised
      id of the record filed under it. */
  lemma StoredKeysAreNormalized(s: Store, key: string, k: Id)
    requires s.Valid() && k in s.Load(key).View()
    ensures k == NormalizeId(s.Load(key).View()[k].id)
  {
    var m := s.Load(key);
    LoadOfValidStore(s.storage, key);
    ViewAgrees(m, k);
    assert m.entries[IndexOf(m.entries, k)].0 == k;
  }

  /** On a valid store the allocator gives `false` or the number one past
      the size of the collection, never anything else. */
  lemma NextSequenceOnValidStore(s: Store, key: string)
    requires s.Valid()
    ensures s.NextSequence(key) == False || s.NextSequence(key) == Value(IntId(s.Load(key).Size() + 1))
  {
    var m := s.Load(key);
    var k := IntId(m.Size());
    if k in m.View() {
      StoredKeysAreNormalized(s, key, k);
      NormalizedToIntId(m.View()[k].id, m.Size());
    }
  }

  lemma {:induction false} IdRangeSize(n: nat)
    ensures |IdRange(n)| == n
  {
    if n > 0 {
      IdRangeSize(n - 1);
      assert IdRange(n) == IdRange(n - 1) + {IntId(n)};
    }
  }

  /** When the records of a collection are keyed exactly 1..n and each
      record's id is its key, the allocator gives n + 1, or `false` when
      the collection is empty. */
  lemma NextSequenceOnDenseIds(s: Store, key: string, n: nat)
    requires s.Load(key).View().Keys == IdRange(n)
    requires forall k | k in s.Load(key).View() :: s.Load(key).View()[k].id == k
    ensures s.NextSequence(key) == if n == 0 then False else Value(IntId(n + 1))
  {
    var m := s.Load(key);
    SizeIsKeyCount(m);
    IdRangeSize(n);
    assert m.Size() == n;
    if n > 0 {
      assert IntId(n) in IdRange(n);
    }
  }

  /** A gap at the key equal to the size makes the allocator give `false`:
      posts keyed 1 and 3. */
  lemma NextSequenceFailsOnGap(s: Store, p1: Entity, p3: Entity)
    requires p1.id == IntId(1) && p3.id == IntId(3)
    requires s.storage == map[PostsKey := [(IntId(1), p1), (IntId(3), p3)]]
    ensures s.Load(PostsKey).Size() == 2
    ensures s.NextSequence(PostsKey) == False
  {
    LoadOfValidStore(s.storage, PostsKey);
    var m := s.Load(PostsKey);
    AsMapKeys(m.entries, IntId(2));
  }

  /** With a gap below the size the allocator hands out an id that is
      already a key: posts keyed 2 and 3 give 3, so the next create
      overwrites post 3. */
  lemma NextSequenceCollides(s: Store, p2: Entity, p3: Entity)
    requires p2.id == IntId(2) && p3.id == IntId(3)
    requires s.storage == map[PostsKey := [(IntId(2), p2), (IntId(3), p3)]]
    ensures s.NextSequence(PostsKey) == Value(IntId(3))
    ensures IntId(3) in s.Load(PostsKey).View()
  {
    LoadOfValidStore(s.storage, PostsKey);
    var m := s.Load(PostsKey);
    assert m.entries == [(IntId(2), p2), (IntId(3), p3)];
    AsMapKeys(m.entries, IntId(3));
    ViewAgrees(m, IntId(2));
    assert m.entries[0].0 == IntId(2);
  }

  /** Setting two records whose string ids differ only in letter case, as
      two `Store.Save` calls do to the loaded collection, leaves a single
      entry, under the lower-cased id, holding the later record; the
      collection grows by one entry at most, and only when that key was new. */
  lemma CaseVariantsCollapse(m: JsMap<Id, Entity>, e1: Entity, e2: Entity, a: string, b: string)
    requires m.Valid()
    requires e1.id == StrId(a) && e2.id == StrId(b) && SameUpToCase(a, b)
    ensures var m2 := m.Set(NormalizeId(e1.id), e1).Set(NormalizeId(e2.id), e2);
      && m2.View() == m.View()[StrId(ToLower(a)) := e2]
      && m2.Size() == m.Size() + (if StrId(ToLower(a)) in m.View() then 0 else 1)
  {
    SameKeyIffSameUpToCase(a, b);
    var m1 := m.Set(NormalizeId(e1.id), e1);
    ViewAgrees(m, StrId(ToLower(a)));
    SetView(m, NormalizeId(e1.id), e1);
    SetView(m1, NormalizeId(e2.id), e2);
    SetKeepsOrder(m, NormalizeId(e1.id), e1);
    SetKeepsOrder(m1, NormalizeId(e2.id), e2);
  }
}
