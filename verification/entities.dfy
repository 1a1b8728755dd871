/** The records the backend stores and exchanges. */
module Entities {
  import opened Wrappers

  /** Numeric primary keys assigned by the database. */
  type Id = int

  /** A row of the users table; `password` holds the bcrypt hash. */
  datatype User = User(id: Id, name: string, email: string, password: string, profile: Option<string>)

  /** A user record with its `password` field removed, as `getUser` sends it. */
  datatype PublicUser = PublicUser(id: Id, name: string, email: string, profile: Option<string>)

  /** A row of the news table; `userId` is the owner (`user_id`). */
  datatype Article = Article(id: Id, title: string, content: string, image: string, userId: Id)

  /**
   * The decoded token claims that the auth gate stores in `req.user`.
   * `userId` is the `user_id` claim and `id` the `id` claim; either may be absent.
   */
  datatype Claims = Claims(name: string, email: string, userId: Option<Id>, id: Option<Id>)

  /** One uploaded file as the upload middleware describes it. */
  datatype Upload = Upload(size: nat, mimetype: string, tempFilePath: string)
}
