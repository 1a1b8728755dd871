/**
 * The relational store behind the single database client: the users table
 * with its unique email index, and the news table whose `user_id` refers to a user.
 */
module Store {
  import opened Wrappers
  import opened Entities

  class Database {
    var users: map<Id, User>
    var emailIndex: map<string, Id>
    var nextUserId: Id
    var news: map<Id, Article>
    var nextNewsId: Id

    /** Keys match ids, the email index is exact, and every article's owner exists. */
    ghost predicate Valid()
      reads this
    {
      && (forall id :: id in users ==>
            users[id].id == id && id < nextUserId
            && users[id].email in emailIndex && emailIndex[users[id].email] == id)
      && (forall e :: e in emailIndex ==> emailIndex[e] in users && users[emailIndex[e]].email == e)
      && (forall id :: id in news ==> news[id].id == id && id < nextNewsId && news[id].userId in users)
    }

    constructor ()
      ensures Valid()
      ensures users == map[] && emailIndex == map[] && news == map[]
    {
      users, emailIndex, nextUserId := map[], map[], 1;
      news, nextNewsId := map[], 1;
    }

    /** `findUnique({ where: { email } })` on the users table. */
    function FindUserByEmail(email: string): (r: Option<User>)
      reads this
      requires Valid()
      ensures r.Some? <==> exists id :: id in users && users[id].email == email
      ensures r.Some? ==> r.value.id in users && users[r.value.id] == r.value && r.value.email == email
    {
      if email in emailIndex then
        var id := emailIndex[email];
        assert id in users && users[id].email == email;
        Some(users[id])
      else None
    }

    /** `findUnique({ where: { id } })` on the news table. */
    function FindNews(id: Id): (r: Option<Article>)
      reads this
      requires Valid()
      ensures r.Some? <==> id in news
      ensures r.Some? ==> r.value == news[id] && r.value.id == id && r.value.userId in users
    {
      if id in news then Some(news[id]) else None
    }
  }
}
