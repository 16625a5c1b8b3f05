/** The three kinds of record the application stores, and the JavaScript
    values the repositories return. */
module Entities {
  import opened Ids

  /** A stored record. The fields the persistence layer inspects are `id`,
      `userId`, `postId`, `username` and `emailAddress`; the others are carried
      along unchanged. Coordinates are kept as their decimal text. */
  datatype Entity =
    | Post(id: Id, userId: Id, content: string, createdAt: int)
    | User(id: Id, username: string, emailAddress: string, firstName: string, lastName: string, avatar: string)
    | Location(id: Id, postId: Id, lat: string, lon: string, name: string)

  /** A repository result, keeping apart the three JavaScript values a
      caller can receive: `false`, `undefined` and a value. */
  datatype JsResult<T> = False | Undefined | Value(value: T)

  /** The posts collection, the users collection, the locations collection. */
  const PostsKey := "posts"
  const UsersKey := "users"
  const LocationsKey := "locations"

  /** `element.userId === userId`: only posts carry a `userId`. */
  predicate IsPostBy(e: Entity, userId: Id) {
    e.Post? && e.userId == userId
  }

  /** `element.postId === postId`: only locations carry a `postId`. */
  predicate IsLocationOf(e: Entity, postId: Id) {
    e.Location? && e.postId == postId
  }

  /** The user fields that the two user scans compare. */
  datatype UserField = Username | EmailAddress

  /** `value.username === v` or `value.emailAddress === v`: only users
      carry these fields. */
  predicate HasField(e: Entity, field: UserField, v: string) {
    e.User? &&
    match field
    case Username => e.username == v
    case EmailAddress => e.emailAddress == v
  }
}
