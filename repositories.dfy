/** The post, user and location repositories over the keyed store, with the
    two lookups that join collections. */
module Repositories {
  import opened Ids
  import opened Entities
  import opened OrderedMaps
  import opened Arrays
  import opened KeyedStore

  /** A keyed lookup result: the record stored under the key, or `false`
      when there is none. */
  ghost predicate IsLookup(m: JsMap<Id, Entity>, k: Id, found: JsResult<Entity>) {
    match found
    case False => k !in m.View()
    case Undefined => false
    case Value(e) => k in m.View() && m.View()[k] == e
  }

  /** The record a create saves: the id the allocator offers replaces the
      caller's only when that offer is truthy. */
  function WithNextId(record: Entity, next: JsResult<Id>): (r: Entity)
    ensures next.Value? && Truthy(next.value) ==> r.id == next.value
    ensures !(next.Value? && Truthy(next.value)) ==> r == record
    ensures r == record.(id := r.id)
  {
    if next.Value? && Truthy(next.value) then record.(id := next.value) else record
  }

  /** `found` is the last user in `users` whose field equals v, or `false`
      when there is none. */
  ghost predicate IsLastMatch(users: seq<Entity>, field: UserField, v: string, found: JsResult<Entity>) {
    match found
    case False => forall i | 0 <= i < |users| :: !HasField(users[i], field, v)
    case Undefined => false
    case Value(u) =>
      exists i | 0 <= i < |users| ::
        && users[i] == u && HasField(u, field, v)
        && forall j | i < j < |users| :: !HasField(users[j], field, v)
  }

  /** IsLastMatch pins the scan's result down: at most one result satisfies it. */
  lemma IsLastMatchUnique(users: seq<Entity>, field: UserField, v: string, r1: JsResult<Entity>, r2: JsResult<Entity>)
    requires IsLastMatch(users, field, v, r1) && IsLastMatch(users, field, v, r2)
    ensures r1 == r2
  {
    if r1.Value? && r2.Value? {
      var i1 :| 0 <= i1 < |users| && users[i1] == r1.value && HasField(r1.value, field, v)
                && forall j | i1 < j < |users| :: !HasField(users[j], field, v);
      var i2 :| 0 <= i2 < |users| && users[i2] == r2.value && HasField(r2.value, field, v)
                && forall j | i2 < j < |users| :: !HasField(users[j], field, v);
      assert i1 == i2;
    }
  }

  /** `l` is the first location in `locations` that belongs to the post. */
  ghost predicate IsFirstLocation(locations: seq<Entity>, postId: Id, l: Entity) {
    exists i | 0 <= i < |locations| ::
      && locations[i] == l && IsLocationOf(l, postId)
      && forall j | 0 <= j < i :: !IsLocationOf(locations[j], postId)
  }

  /** `PostRepository` */
  class PostRepository {
    const store: Store

    constructor (store: Store)
      ensures this.store == store
    {
      this.store := store;
    }

    /** `savePost`: persist the post as it is and return it. */
    method SavePost(post: Entity) returns (saved: Entity)
      modifies store
      ensures saved == post
      ensures store.storage == old(store.storage)[PostsKey := old(store.Load(PostsKey)).Set(NormalizeId(post.id), post).Spread()]
      ensures old(store.Valid()) ==> store.Valid()
    {
      store.Save(post, PostsKey);
      saved := post;
    }

    /** `createPost`: take the next id from the allocator when it offers a
        truthy one, then save. */
    method CreatePost(post: Entity) returns (created: Entity)
      modifies store
      ensures created == WithNextId(post, old(store.NextSequence(PostsKey)))
      ensures store.storage == old(store.storage)[PostsKey := old(store.Load(PostsKey)).Set(NormalizeId(created.id), created).Spread()]
      ensures old(store.Valid()) ==> store.Valid()
    {
      var createdPost := post;
      var nextId := store.NextSequence(PostsKey);
      if nextId.Value? && Truthy(nextId.value) {
        createdPost := createdPost.(id := nextId.value);
      }
      created := SavePost(createdPost);
    }

    /** `findAll`: every stored post, once per key, in insertion order. */
    function FindAll(): (posts: seq<Entity>)
      reads store
      ensures |posts| == |store.Load(PostsKey).View()|
      ensures forall k | k in store.Load(PostsKey).View() :: store.Load(PostsKey).View()[k] in posts
      ensures |posts| == |store.Load(PostsKey).Keys()|
      ensures forall i {:trigger store.Load(PostsKey).Keys()[i]} | 0 <= i < |posts| ::
        store.Load(PostsKey).Keys()[i] in store.Load(PostsKey).View() && posts[i] == store.Load(PostsKey).View()[store.Load(PostsKey).Keys()[i]]
    {
      var postsMap := store.Load(PostsKey);
      SizeIsKeyCount(postsMap);
      ValuesInKeyOrder(postsMap);
      forall k | k in postsMap.View() ensures postsMap.View()[k] in postsMap.Values() {
        ValuesCoverView(postsMap, k);
      }
      postsMap.Values()
    }

    /** `findPostById`: the post stored under exactly this key (no case
        normalisation), or `false`. */
    function FindPostById(postId: Id): (found: JsResult<Entity>)
      reads store
      ensures IsLookup(store.Load(PostsKey), postId, found)
      ensures found.Value? ==> found.value in FindAll()
    {
      var postsMap := store.Load(PostsKey);
      ViewAgrees(postsMap, postId);
      if postsMap.Has(postId) then
        ValuesCoverView(postsMap, postId);
        Value(postsMap.Get(postId))
      else False
    }
  }

  /** `UserRepository`, which reads posts through the post repository. */
  class UserRepository {
    const store: Store
    const posts: PostRepository

    constructor (store: Store, posts: PostRepository)
      ensures this.store == store && this.posts == posts
    {
      this.store := store;
      this.posts := posts;
    }

    /** `saveUser`: persist the user as it is and return it. */
    method SaveUser(user: Entity) returns (saved: Entity)
      modifies store
      ensures saved == user
      ensures store.storage == old(store.storage)[UsersKey := old(store.Load(UsersKey)).Set(NormalizeId(user.id), user).Spread()]
      ensures old(store.Valid()) ==> store.Valid()
    {
      store.Save(user, UsersKey);
      saved := user;
    }

    /** `createUser`: take the next id from the allocator when it offers a
        truthy one, then save. */
    method CreateUser(user: Entity) returns (created: Entity)
      modifies store
      ensures created == WithNextId(user, old(store.NextSequence(UsersKey)))
      ensures store.storage == old(store.storage)[UsersKey := old(store.Load(UsersKey)).Set(NormalizeId(created.id), created).Spread()]
      ensures old(store.Valid()) ==> store.Valid()
    {
      var createdUser := user;
      var nextId := store.NextSequence(UsersKey);
      if nextId.Value? && Truthy(nextId.value) {
        createdUser := createdUser.(id := nextId.value);
      }
      created := SaveUser(createdUser);
    }

    /** `findAll`: every stored user, once per key, in insertion order. */
    function FindAll(): (users: seq<Entity>)
      reads store
      ensures |users| == |store.Load(UsersKey).View()|
      ensures forall k | k in store.Load(UsersKey).View() :: store.Load(UsersKey).View()[k] in users
      ensures |users| == |store.Load(UsersKey).Keys()|
      ensures forall i {:trigger store.Load(UsersKey).Keys()[i]} | 0 <= i < |users| ::
        store.Load(UsersKey).Keys()[i] in store.Load(UsersKey).View() && users[i] == store.Load(UsersKey).View()[store.Load(UsersKey).Keys()[i]]
    {
      var usersMap := store.Load(UsersKey);
      SizeIsKeyCount(usersMap);
      ValuesInKeyOrder(usersMap);
      forall k | k in usersMap.View() ensures usersMap.View()[k] in usersMap.Values() {
        ValuesCoverView(usersMap, k);
      }
      usersMap.Values()
    }

    /** `findUserById`: the user stored under exactly this key, or `false`. */
    function FindUserById(userId: Id): (found: JsResult<Entity>)
      reads store
      ensures IsLookup(store.Load(UsersKey), userId, found)
      ensures found.Value? ==> found.value in FindAll()
    {
      var usersMap := store.Load(UsersKey);
      ViewAgrees(usersMap, userId);
      if usersMap.Has(userId) then
        ValuesCoverView(usersMap, userId);
        Value(usersMap.Get(userId))
      else False
    }

    /** The scan shared by `findUserByUsername` and `findUserByEmail`: visit
        every user in insertion order and keep the last one that matches. */
    method FindLastUserWith(field: UserField, v: string) returns (foundUser: JsResult<Entity>)
      ensures IsLastMatch(FindAll(), field, v, foundUser)
    {
      var users := FindAll();
      foundUser := False;
      ghost var at := 0;
      for i := 0 to |users|
        invariant foundUser.False? <==> forall j | 0 <= j < i :: !HasField(users[j], field, v)
        invariant !foundUser.Undefined?
        invariant foundUser.Value? ==>
          && 0 <= at < i && users[at] == foundUser.value && HasField(users[at], field, v)
          && forall j | at < j < i :: !HasField(users[j], field, v)
      {
        if HasField(users[i], field, v) {
          foundUser := Value(users[i]);
          at := i;
        }
      }
    }

    /** `findUserByUsername`: the last user with this username, or `false`. */
    method FindUserByUsername(username: string) returns (foundUser: JsResult<Entity>)
      ensures IsLastMatch(FindAll(), Username, username, foundUser)
    {
      foundUser := FindLastUserWith(Username, username);
    }

    /** `findUserByEmail`: the last user with this email address, or `false`. */
    method FindUserByEmail(emailAddress: string) returns (foundUser: JsResult<Entity>)
      ensures IsLastMatch(FindAll(), EmailAddress, emailAddress, foundUser)
    {
      foundUser := FindLastUserWith(EmailAddress, emailAddress);
    }

    /** `getAllPostsByUserId`: `false` for an unknown user; otherwise the
        user's posts, in storage order. */
    function GetAllPostsByUserId(userId: Id): (r: JsResult<seq<Entity>>)
      reads store, posts.store
      ensures r != Undefined
      ensures r.False? <==> userId !in store.Load(UsersKey).View()
      ensures r.Value? ==> IsSubsequence(r.value, posts.FindAll())
      ensures r.Value? ==> forall p :: (multiset(r.value)[p] ==
        if IsPostBy(p, userId) then multiset(posts.FindAll())[p] else 0)
    {
      if FindUserById(userId).Value? then
        var allPosts := posts.FindAll();
        Value(Filter(allPosts, element => IsPostBy(element, userId)))
      else False
    }
  }

  /** `LocationRepository`, which checks posts through the post repository. */
  class LocationRepository {
    const store: Store
    const posts: PostRepository

    constructor (store: Store, posts: PostRepository)
      ensures this.store == store && this.posts == posts
    {
      this.store := store;
      this.posts := posts;
    }

    /** `saveLocation`: persist the location as it is and return it. */
    method SaveLocation(location: Entity) returns (saved: Entity)
      modifies store
      ensures saved == location
      ensures store.storage == old(store.storage)[LocationsKey := old(store.Load(LocationsKey)).Set(NormalizeId(location.id), location).Spread()]
      ensures old(store.Valid()) ==> store.Valid()
    {
      store.Save(location, LocationsKey);
      saved := location;
    }

    /** `findAll`: every stored location, once per key, in insertion order. */
    function FindAll(): (locations: seq<Entity>)
      reads store
      ensures |locations| == |store.Load(LocationsKey).View()|
      ensures forall k | k in store.Load(LocationsKey).View() :: store.Load(LocationsKey).View()[k] in locations
      ensures |locations| == |store.Load(LocationsKey).Keys()|
      ensures forall i {:trigger store.Load(LocationsKey).Keys()[i]} | 0 <= i < |locations| ::
        store.Load(LocationsKey).Keys()[i] in store.Load(LocationsKey).View() && locations[i] == store.Load(LocationsKey).View()[store.Load(LocationsKey).Keys()[i]]
    {
      var locationsMap := store.Load(LocationsKey);
      SizeIsKeyCount(locationsMap);
      ValuesInKeyOrder(locationsMap);
      forall k | k in locationsMap.View() ensures locationsMap.View()[k] in locationsMap.Values() {
        ValuesCoverView(locationsMap, k);
      }
      locationsMap.Values()
    }

    /** `findLocationById`: the location stored under exactly this key, or
        `false`. */
    function FindLocationById(locationId: Id): (found: JsResult<Entity>)
      reads store
      ensures IsLookup(store.Load(LocationsKey), locationId, found)
      ensures found.Value? ==> found.value in FindAll()
    {
      var locationsMap := store.Load(LocationsKey);
      ViewAgrees(locationsMap, locationId);
      if locationsMap.Has(locationId) then
        ValuesCoverView(locationsMap, locationId);
        Value(locationsMap.Get(locationId))
      else False
    }

    /** `getLocationByPostId`: `false` for an unknown post; otherwise the first
        location of the post, or `undefined` when it has none. */
    function GetLocationByPostId(postId: Id): (r: JsResult<Entity>)
      reads store, posts.store
      ensures r.False? <==> postId !in posts.store.Load(PostsKey).View()
      ensures r.Undefined? <==>
        postId in posts.store.Load(PostsKey).View() && forall l | l in FindAll() :: !IsLocationOf(l, postId)
      ensures r.Value? ==> IsFirstLocation(FindAll(), postId, r.value)
    {
      if posts.FindPostById(postId).Value? then
        var allLocations := FindAll();
        var matching := Filter(allLocations, element => IsLocationOf(element, postId));
        FilterEmpty(allLocations, element => IsLocationOf(element, postId));
        if matching == [] then Undefined
        else
          FilterFirst(allLocations, element => IsLocationOf(element, postId));
          Value(matching[0])
      else False
    }
  }

  /** A lookup by id does not lower-case its key, so on a valid store a
      string id holding an upper-case letter never finds a post, even one
      saved with exactly that id. */
  lemma FindPostByIdIsCaseSensitive(repo: PostRepository, s: string)
    requires repo.store.Valid() && ToLower(s) != s
    ensures repo.FindPostById(StrId(s)) == False
  {
    if StrId(s) in repo.store.Load(PostsKey).View() {
      StoredKeysAreNormalized(repo.store, PostsKey, StrId(s));
      UpperIsNotNormalized(s);
    }
  }

  /** After a first post with id 1 is stored, the allocator offers 2, and
      setting a post under 2 appends it. */
  lemma AllocatorAfterFirstPost(s: Store, first: Entity, p: Entity)
    requires first.id == IntId(1)
    requires s.storage == map[PostsKey := [(IntId(1), first)]]
    ensures s.Load(PostsKey) == JsMap([(IntId(1), first)])
    ensures s.NextSequence(PostsKey) == Value(IntId(2))
    ensures s.Load(PostsKey).Set(IntId(2), p).Spread() == [(IntId(1), first), (IntId(2), p)]
  {
    FromDistinctPairs([(IntId(1), first)]);
    SetView(JsMap([]), IntId(1), first);
    assert IndexOf([(IntId(1), first)], IntId(2)) == 1;
  }

  /** Creating a post into an empty collection keeps the caller's id 1,
      because the allocator gives `false`. */
  method CreateFirstPost(repo: PostRepository, first: Entity) returns (p1: Entity)
    requires repo.store.storage == map[] && first.id == IntId(1)
    modifies repo.store
    ensures p1 == first
    ensures repo.store.storage == map[PostsKey := [(IntId(1), first)]]
  {
    p1 := repo.CreatePost(first);
    ghost var empty: JsMap<Id, Entity> := JsMap([]);
    assert empty.Set(IntId(1), first).Spread() == [(IntId(1), first)];
  }

  /** Creating a post after a first one stored under id 1 assigns it id 2
      and appends it. */
  method CreateSecondPost(repo: PostRepository, first: Entity, second: Entity) returns (p2: Entity)
    requires repo.store.storage == map[PostsKey := [(IntId(1), first)]] && first.id == IntId(1)
    modifies repo.store
    ensures p2 == WithNextId(second, Value(IntId(2)))
    ensures repo.store.storage == map[PostsKey := [(IntId(1), first), (IntId(2), p2)]]
  {
    AllocatorAfterFirstPost(repo.store, first, WithNextId(second, Value(IntId(2))));
    p2 := repo.CreatePost(second);
  }

  /** The two creates in a row: ids 1 and 2, stored in that order. */
  method CreateTwoPosts(repo: PostRepository, first: Entity, second: Entity) returns (p1: Entity, p2: Entity)
    requires repo.store.storage == map[] && first.id == IntId(1)
    modifies repo.store
    ensures p1 == first && p2 == WithNextId(second, Value(IntId(2)))
    ensures repo.store.storage == map[PostsKey := [(IntId(1), p1), (IntId(2), p2)]]
  {
    p1 := CreateFirstPost(repo, first);
    p2 := CreateSecondPost(repo, first, second);
  }

  /** Once the two posts of `CreateTwoPosts` are stored, each is found by
      its id. */
  lemma FindsBothPosts(repo: PostRepository, first: Entity, second: Entity)
    requires first.id == IntId(1) && second.id == IntId(2)
    requires repo.store.storage == map[PostsKey := [(IntId(1), first), (IntId(2), second)]]
    ensures repo.FindPostById(IntId(1)) == Value(first)
    ensures repo.FindPostById(IntId(2)) == Value(second)
  {
    var m := JsMap([(IntId(1), first), (IntId(2), second)]);
    FromDistinctPairs(m.entries);
    AsMapKeys(m.entries, IntId(1));
    AsMapKeys(m.entries, IntId(2));
  }
}
