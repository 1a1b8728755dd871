/** Reading one's own profile and replacing a user's profile picture. */
module ProfileController {
  import opened Wrappers
  import opened Entities
  import opened Http
  import opened Store
  import opened ValidateImage

  const UserFetched: string := "User Details Fetched"
  const ImageNotProvided: string := "Image not provided"
  const ProfileUpdated: string := "profile updated"

  /** The record with `password` set to `undefined`, which drops it from the JSON. */
  function WithoutPassword(u: User): (p: PublicUser)
    ensures p.id == u.id && p.name == u.name && p.email == u.email && p.profile == u.profile
  {
    PublicUser(u.id, u.name, u.email, u.profile)
  }

  /**
   * `getUser`: the row whose email is the caller's `email` claim, without its
   * password; a missing row makes the password assignment throw, which answers
   * 500 "Something went wrong". The table is only read.
   */
  method GetUser(db: Database, caller: Claims) returns (resp: Response)
    requires db.Valid()
    ensures db.FindUserByEmail(caller.email).None? ==> resp == Reject(500, SomethingWentWrong)
    ensures db.FindUserByEmail(caller.email).Some? ==>
      && resp.status == 200 && resp.success && resp.message == Text(UserFetched) && resp.payload.ProfileData?
      && resp.payload.profile.email == caller.email
      && resp.payload.profile.id in db.users
      && resp.payload.profile == WithoutPassword(db.users[resp.payload.profile.id])
  {
    var email := caller.email;
    var user := db.FindUserByEmail(email);
    if user.None? {
      return Reject(500, SomethingWentWrong);
    }
    var userData := WithoutPassword(user.value);
    resp := Response(200, true, Text(UserFetched), ProfileData(userData));
  }

  /**
   * `updateProfile`: without files, 400 "Image not provided"; without a
   * `profile` file, reading its size throws (500); a validator message answers
   * 400; a path id naming no user makes the store's update throw (500). Only
   * then is the `profile` field of the row at the path id set to the upload's
   * URL. The caller's claims take no part in any decision.
   */
  method UpdateProfile(db: Database, pathId: Id, caller: Claims, files: Files,
                       supported: set<string>, upload: string -> string)
    returns (resp: Response)
    requires db.Valid()
    modifies db
    ensures db.Valid()
    ensures NoFiles(files) ==> resp == Reject(400, ImageNotProvided) && unchanged(db)
    ensures !NoFiles(files) && FileAt(files, "profile").None? ==> resp == Fail(NullDereference) && unchanged(db)
    ensures !NoFiles(files) && FileAt(files, "profile").Some? ==>
      var profile := FileAt(files, "profile").value;
      var message := ImageValidator(Some(profile.size), Some(profile.mimetype), supported);
      && (message.Some? ==> resp == Reject(400, message.value) && unchanged(db))
      && (message.None? && pathId !in old(db.users) ==> resp == Fail(RecordNotFound) && unchanged(db))
      && (message.None? && pathId in old(db.users) ==>
            && resp == Response(200, true, Text(ProfileUpdated), NoPayload)
            && db.users == old(db.users)[pathId := old(db.users)[pathId].(profile := Some(upload(profile.tempFilePath)))]
            && db.emailIndex == old(db.emailIndex) && db.news == old(db.news)
            && db.nextUserId == old(db.nextUserId) && db.nextNewsId == old(db.nextNewsId))
  {
    if NoFiles(files) {
      return Reject(400, ImageNotProvided);
    }
    var profile := FileAt(files, "profile");
    if profile.None? {
      return Fail(NullDereference);
    }
    var message := ImageValidator(Some(profile.value.size), Some(profile.value.mimetype), supported);
    if message.Some? {
      return Reject(400, message.value);
    }
    var secureUrl := upload(profile.value.tempFilePath);
    if pathId !in db.users {
      return Fail(RecordNotFound);
    }
    db.users := db.users[pathId := db.users[pathId].(profile := Some(secureUrl))];
    resp := Response(200, true, Text(ProfileUpdated), NoPayload);
  }
}
