/** The news handlers: create, list, fetch, update and delete articles. */
module NewsController {
  import opened Wrappers
  import opened Entities
  import opened Http
  import opened Store
  import opened ValidateImage
  import opened NewsValidation

  const ImageRequired: string := "Image required"
  const NewsCreated: string := "News created"
  const NewsFetched: string := "News Fetched"
  const CannotUpdate: string := "you cannot update this news"
  const NewsUpdated: string := "News Updated"
  const NotOwner: string := "Unauthorized"
  const NewsDeleted: string := "News Deleted"

  /** `imageValidator(image?.size, image?.mimetype)`: an absent file has neither. */
  function UploadMessage(image: Option<Upload>, supported: set<string>): (r: Option<string>)
    ensures image.None? ==> r == Some(TypeMessage)
    ensures image.Some? && image.value.size > MaxImageBytes ==> r == Some(SizeMessage)
    ensures image.Some? && image.value.size <= MaxImageBytes && image.value.mimetype !in supported ==>
      r == Some(TypeMessage)
    ensures r == None <==> image.Some? && image.value.size <= MaxImageBytes && image.value.mimetype in supported
  {
    ImageValidator(if image.Some? then Some(image.value.size) else None,
                   if image.Some? then Some(image.value.mimetype) else None,
                   supported)
  }

  // ---------------------------------------------------------------- createNews

  /** The guards of `createNews`, in source order. */
  datatype CreatePlan = RefuseCreate(response: Response) | Proceed(payload: NewsPayload, image: Upload)

  /**
   * A schema failure answers 500 with the validator's message; missing files
   * answer 400 "Image required"; a validator message answers 400 with it.
   * Only a valid body with an accepted `image` file proceeds.
   */
  function PlanCreate(body: NewsBody, files: Files, supported: set<string>): (r: CreatePlan)
    ensures ValidateNews(body).None? ==> r == RefuseCreate(Fail(ValidationFailure))
    ensures ValidateNews(body).Some? && NoFiles(files) ==> r == RefuseCreate(Reject(400, ImageRequired))
    ensures ValidateNews(body).Some? && !NoFiles(files) && UploadMessage(FileAt(files, "image"), supported).Some? ==>
      r == RefuseCreate(Reject(400, UploadMessage(FileAt(files, "image"), supported).value))
    ensures r.Proceed? <==>
      && ValidateNews(body).Some? && !NoFiles(files) && FileAt(files, "image").Some?
      && FileAt(files, "image").value.size <= MaxImageBytes
      && FileAt(files, "image").value.mimetype in supported
    ensures r.Proceed? ==> r.payload == ValidateNews(body).value && Some(r.image) == FileAt(files, "image")
  {
    var payload := ValidateNews(body);
    if payload.None? then RefuseCreate(Fail(ValidationFailure))
    else if NoFiles(files) then RefuseCreate(Reject(400, ImageRequired))
    else
      var image := FileAt(files, "image");
      var message := UploadMessage(image, supported);
      if message.Some? then RefuseCreate(Reject(400, message.value))
      else Proceed(payload.value, image.value)
  }

  /**
   * `createNews`: refused requests leave the store as it was; otherwise the
   * image is uploaded and a row is inserted with the payload's title and content,
   * the upload's URL and `user_id = req.user.id`. The store rejects the row
   * (500 with its message) when that claim is absent or names no user.
   */
  method CreateNews(db: Database, caller: Claims, body: NewsBody, files: Files,
                    supported: set<string>, upload: string -> string)
    returns (resp: Response)
    requires db.Valid()
    modifies db
    ensures db.Valid()
    ensures PlanCreate(body, files, supported).RefuseCreate? ==>
      resp == PlanCreate(body, files, supported).response && unchanged(db)
    ensures PlanCreate(body, files, supported).Proceed? && (caller.id.None? || caller.id.value !in old(db.users)) ==>
      resp == Fail(OwnerRejected) && unchanged(db)
    ensures PlanCreate(body, files, supported).Proceed? && caller.id.Some? && caller.id.value in old(db.users) ==>
      var plan := PlanCreate(body, files, supported);
      var a := Article(old(db.nextNewsId), plan.payload.title, plan.payload.content,
                       upload(plan.image.tempFilePath), caller.id.value);
      && resp == Response(200, true, Text(NewsCreated), NewsData(Some(a)))
      && a.id !in old(db.news)
      && db.news == old(db.news)[a.id := a]
      && db.nextNewsId == old(db.nextNewsId) + 1
      && db.users == old(db.users) && db.emailIndex == old(db.emailIndex) && db.nextUserId == old(db.nextUserId)
  {
    var plan := PlanCreate(body, files, supported);
    if plan.RefuseCreate? {
      return plan.response;
    }
    var secureUrl := upload(plan.image.tempFilePath);
    if caller.id.None? || caller.id.value !in db.users {
      return Fail(OwnerRejected);
    }
    var news := Article(db.nextNewsId, plan.payload.title, plan.payload.content, secureUrl, caller.id.value);
    db.news := db.news[news.id := news];
    db.nextNewsId := db.nextNewsId + 1;
    resp := Response(200, true, Text(NewsCreated), NewsData(Some(news)));
  }

  // ---------------------------------------------------------------- getAllNews

  function Min(a: int, b: int): int { if a <= b then a else b }

  /** `Math.ceil(n / d)` for a positive divisor: the least q with q * d >= n. */
  function CeilDiv(n: nat, d: nat): (q: nat)
    requires d > 0
    ensures q * d >= n
    ensures q == 0 || (q - 1) * d < n
  {
    var q := (n + d - 1) / d;
    assert q * d + (n + d - 1) % d == n + d - 1;
    assert (q - 1) * d == q * d - d;
    q
  }

  /** Multiplying by a non-negative factor keeps the order. */
  lemma {:induction false} ScaleMonotone(a: int, b: int, l: nat)
    requires a <= b
    ensures a * l <= b * l
    decreases l
  {
    if l > 0 {
      ScaleMonotone(a, b, l - 1);
      assert a * l == a * (l - 1) + a;
      assert b * l == b * (l - 1) + b;
    }
  }

  /** The `skip` the handler passes to the store: `(page - 1) * limit`. */
  function Skip(page: int, limit: int): (skip: nat)
    requires page >= 1 && limit >= 1
    ensures skip + limit == page * limit
  {
    ScaleMonotone(0, page - 1, limit);
    assert (page - 1) * limit + limit == page * limit;
    (page - 1) * limit
  }

  /**
   * The rows the store returns for `skip` and `take: limit`: every row from
   * position skip on, up to limit of them.
   */
  function PageOf(listing: seq<Article>, page: int, limit: int): (items: seq<Article>)
    requires page >= 1 && limit >= 1
    ensures |items| == if Skip(page, limit) < |listing| then Min(limit, |listing| - Skip(page, limit)) else 0
    ensures forall i :: 0 <= i < |items| ==> items[i] == listing[Skip(page, limit) + i]
  {
    var skip := Skip(page, limit);
    listing[Min(skip, |listing|)..Min(skip + limit, |listing|)]
  }

  /**
   * `getAllNews` over the store's listing: page and limit default to 1; a page
   * below 1 or a limit outside 1..10 reaches an assignment to a `const` and the
   * handler throws. Otherwise it sends at most `limit` rows starting at row
   * (page - 1) * limit, the row count, and the ceiling of count / limit pages.
   */
  function GetAllNews(page: Option<int>, limit: Option<int>, listing: seq<Article>): (r: Outcome)
    ensures r.Sent? <==> page.GetOr(1) >= 1 && 1 <= limit.GetOr(1) <= 10
    ensures r.Crashed? ==> r.fault == ConstAssignment
    ensures r.Sent? ==>
      var p, l := page.GetOr(1), limit.GetOr(1);
      && r.response.status == 200 && r.response.success && r.response.message == Text(NewsFetched)
      && r.response.payload.NewsPage?
      && var meta, items := r.response.payload.metadata, r.response.payload.items;
      && meta == PageMeta(|listing|, meta.totalPages, p, l)
      && meta.totalPages * l >= |listing| && (meta.totalPages == 0 || (meta.totalPages - 1) * l < |listing|)
      && items == PageOf(listing, p, l)
      && Skip(p, l) == (p - 1) * l
      && |items| == (if Skip(p, l) < |listing| then Min(l, |listing| - Skip(p, l)) else 0)
      && (forall i :: 0 <= i < |items| ==> items[i] == listing[Skip(p, l) + i])
  {
    var p := page.GetOr(1);
    var l := limit.GetOr(1);
    if p <= 0 then Crashed(ConstAssignment)
    else if l <= 0 || l > 10 then Crashed(ConstAssignment)
    else
      var meta := PageMeta(|listing|, CeilDiv(|listing|, l), p, l);
      Sent(Response(200, true, Text(NewsFetched), NewsPage(meta, PageOf(listing, p, l))))
  }

  /** Pages 1..k, concatenated. */
  function FirstPages(listing: seq<Article>, limit: int, k: nat): seq<Article>
    requires limit >= 1
  {
    if k == 0 then [] else FirstPages(listing, limit, k - 1) + PageOf(listing, k, limit)
  }

  /** Pages 1..k read the listing's first k * limit rows, in order, without gaps or repeats. */
  lemma {:induction false} FirstPagesArePrefix(listing: seq<Article>, limit: int, k: nat)
    requires limit >= 1
    ensures FirstPages(listing, limit, k) == listing[..Min(k * limit, |listing|)]
  {
    if k > 0 {
      FirstPagesArePrefix(listing, limit, k - 1);
      assert (k - 1) * limit + limit == k * limit;
      var before := Min((k - 1) * limit, |listing|);
      var after := Min(k * limit, |listing|);
      assert listing[..after] == listing[..before] + listing[before..after];
    }
  }

  /** Walking pages 1..totalPages returns every row of the listing exactly once. */
  lemma {:induction false} AllPagesCoverListing(listing: seq<Article>, limit: int)
    requires limit >= 1
    ensures FirstPages(listing, limit, CeilDiv(|listing|, limit)) == listing
  {
    FirstPagesArePrefix(listing, limit, CeilDiv(|listing|, limit));
  }

  /** A page is non-empty exactly when its number is at most totalPages. */
  lemma PageNonEmptyIff(listing: seq<Article>, page: int, limit: int)
    requires page >= 1 && limit >= 1
    ensures |PageOf(listing, page, limit)| > 0 <==> page <= CeilDiv(|listing|, limit)
  {
    var q := CeilDiv(|listing|, limit);
    if page <= q {
      ScaleMonotone(page - 1, q - 1, limit);
    } else {
      ScaleMonotone(q, page - 1, limit);
    }
  }

  /** 25 rows with limit 10: page 3 holds the last 5 rows, and there are 3 pages. */
  lemma TwentyFiveRowsThirdPage(listing: seq<Article>)
    requires |listing| == 25
    ensures var r := GetAllNews(Some(3), Some(10), listing);
      && r.Sent?
      && r.response.payload.metadata.totalPages == 3
      && r.response.payload.items == listing[20..]
  {
    assert CeilDiv(25, 10) == 3;
  }

  // ------------------------------------------------------------------ getNews

  /**
   * `getNews`: a non-empty cached string for the id is parsed and sent without
   * reading the store; otherwise the store's row (or null) is sent. The cache is
   * only read. `parse` is `JSON.parse`.
   */
  function GetNews(id: Id, cache: map<Id, string>, parse: string -> Article, store: map<Id, Article>): (r: Response)
    ensures r.status == 200 && r.success && r.message == Text(NewsFetched) && r.payload.NewsData?
    ensures id in cache && cache[id] != "" ==> r.payload.news == Some(parse(cache[id]))
    ensures !(id in cache && cache[id] != "") ==> (r.payload.news.Some? <==> id in store)
    ensures !(id in cache && cache[id] != "") && id in store ==> r.payload.news == Some(store[id])
  {
    var value := if id in cache then cache[id] else "";
    var news := if value == "" then (if id in store then Some(store[id]) else None) else Some(parse(value));
    Response(200, true, Text(NewsFetched), NewsData(news))
  }

  /** A cache that agrees with the store makes getNews answer exactly what the store holds. */
  lemma CoherentCacheReadsStore(id: Id, cache: map<Id, string>, parse: string -> Article, store: map<Id, Article>)
    requires forall k :: k in cache && cache[k] != "" ==> k in store && parse(cache[k]) == store[k]
    ensures GetNews(id, cache, parse, store).payload.news == (if id in store then Some(store[id]) else None)
  {
  }

  /** Fetching an article right after inserting it returns it, since nothing caches it. */
  lemma FetchAfterInsert(a: Article, cache: map<Id, string>, parse: string -> Article, store: map<Id, Article>)
    requires a.id !in cache
    ensures GetNews(a.id, cache, parse, store[a.id := a]).payload.news == Some(a)
  {
  }

  // --------------------------------------------------------------- updateNews

  /** The update body: each field is absent, or any string (the empty one is falsy). */
  datatype UpdateBody = UpdateBody(title: Option<string>, content: Option<string>, image: Option<string>)

  /** `value || fallback` for a string field. */
  function OrElse(value: Option<string>, fallback: string): (r: string)
    ensures value.Some? && value.value != "" ==> r == value.value
    ensures value.None? || value.value == "" ==> r == fallback
  {
    if value.Some? && value.value != "" then value.value else fallback
  }

  /**
   * The guards of `updateNews`. `Rewrite` carries the new row and the upload
   * the handler performs (whose URL it then discards).
   */
  datatype UpdatePlan = RefuseUpdate(response: Response) | Rewrite(article: Article, upload: Option<Upload>)

  /**
   * A missing row (reading `user_id` of null) and absent `req.files` both end in
   * 500 "Something went wrong"; a caller whose `id` claim differs from the
   * owner gets 400; a rejected image gets 400 with the validator's message.
   * Otherwise each of title, content and image comes from the body when truthy,
   * else from the row; the id and the owner never change.
   */
  function PlanUpdate(caller: Claims, stored: Option<Article>, files: Files, body: UpdateBody,
                      supported: set<string>): (r: UpdatePlan)
    ensures stored.None? ==> r == RefuseUpdate(Reject(500, SomethingWentWrong))
    ensures stored.Some? && caller.id != Some(stored.value.userId) ==> r == RefuseUpdate(Reject(400, CannotUpdate))
    ensures stored.Some? && caller.id == Some(stored.value.userId) && files.None? ==>
      r == RefuseUpdate(Reject(500, SomethingWentWrong))
    ensures stored.Some? && caller.id == Some(stored.value.userId) && files.Some?
            && FileAt(files, "image").Some? && UploadMessage(FileAt(files, "image"), supported).Some? ==>
      r == RefuseUpdate(Reject(400, UploadMessage(FileAt(files, "image"), supported).value))
    ensures r.Rewrite? <==>
      && stored.Some? && caller.id == Some(stored.value.userId) && files.Some?
      && (FileAt(files, "image").None? || UploadMessage(FileAt(files, "image"), supported).None?)
    ensures r.Rewrite? ==>
      var row := stored.value;
      && r.article.id == row.id && r.article.userId == row.userId
      && (r.article.title == row.title || (body.title == Some(r.article.title) && r.article.title != ""))
      && (body.title.Some? && body.title.value != "" ==> r.article.title == body.title.value)
      && (r.article.content == row.content || (body.content == Some(r.article.content) && r.article.content != ""))
      && (body.content.Some? && body.content.value != "" ==> r.article.content == body.content.value)
      && (r.article.image == row.image || (body.image == Some(r.article.image) && r.article.image != ""))
      && (body.image.Some? && body.image.value != "" ==> r.article.image == body.image.value)
      && r.upload == FileAt(files, "image")
  {
    if stored.None? then RefuseUpdate(Reject(500, SomethingWentWrong))
    else
      var news := stored.value;
      if caller.id != Some(news.userId) then RefuseUpdate(Reject(400, CannotUpdate))
      else if files.None? then RefuseUpdate(Reject(500, SomethingWentWrong))
      else
        var image := FileAt(files, "image");
        var message := UploadMessage(image, supported);
        if image.Some? && message.Some? then RefuseUpdate(Reject(400, message.value))
        else
          Rewrite(news.(title := OrElse(body.title, news.title),
                        content := OrElse(body.content, news.content),
                        image := OrElse(body.image, news.image)),
                  image)
  }

  /**
   * `updateNews`: a refused request leaves the store as it was; otherwise the
   * row at `id` is replaced by the planned row and nothing else changes. The
   * uploaded file's URL is computed and never stored.
   */
  method UpdateNews(db: Database, caller: Claims, id: Id, files: Files, body: UpdateBody,
                    supported: set<string>, upload: string -> string)
    returns (resp: Response)
    requires db.Valid()
    modifies db
    ensures db.Valid()
    ensures var plan := PlanUpdate(caller, old(db.FindNews(id)), files, body, supported);
      && (plan.RefuseUpdate? ==> resp == plan.response && unchanged(db))
      && (plan.Rewrite? ==>
            && id in old(db.news)
            && resp == Response(200, true, Text(NewsUpdated), NewsData(Some(plan.article)))
            && db.news == old(db.news)[id := plan.article]
            && db.users == old(db.users) && db.emailIndex == old(db.emailIndex)
            && db.nextUserId == old(db.nextUserId) && db.nextNewsId == old(db.nextNewsId))
  {
    var news := db.FindNews(id);
    var plan := PlanUpdate(caller, news, files, body, supported);
    if plan.RefuseUpdate? {
      return plan.response;
    }
    var imageUrl: Option<string> := None;
    if plan.upload.Some? {
      imageUrl := Some(upload(plan.upload.value.tempFilePath));
    }
    db.news := db.news[id := plan.article];
    resp := Response(200, true, Text(NewsUpdated), NewsData(Some(plan.article)));
  }

  // --------------------------------------------------------------- deleteNews

  datatype DeletePlan = RefuseDelete(response: Response) | Remove

  /**
   * The guards of `deleteNews`: a missing row ends in 500 "Something went wrong";
   * a caller whose `user_id` claim differs from the owner gets 401 "Unauthorized".
   */
  function PlanDelete(caller: Claims, stored: Option<Article>): (r: DeletePlan)
    ensures r == Remove <==> stored.Some? && caller.userId == Some(stored.value.userId)
    ensures stored.None? ==> r == RefuseDelete(Reject(500, SomethingWentWrong))
    ensures stored.Some? && caller.userId != Some(stored.value.userId) ==> r == RefuseDelete(Reject(401, NotOwner))
  {
    if stored.None? then RefuseDelete(Reject(500, SomethingWentWrong))
    else if caller.userId != Some(stored.value.userId) then RefuseDelete(Reject(401, NotOwner))
    else Remove
  }

  /**
   * `deleteNews`: a refused request leaves the store as it was; otherwise exactly
   * the row at `id` is removed and every other row is untouched.
   */
  method DeleteNews(db: Database, caller: Claims, id: Id) returns (resp: Response)
    requires db.Valid()
    modifies db
    ensures db.Valid()
    ensures var plan := PlanDelete(caller, old(db.FindNews(id)));
      && (plan.RefuseDelete? ==> resp == plan.response && unchanged(db))
      && (plan == Remove ==>
            && id in old(db.news)
            && resp == Response(200, true, Text(NewsDeleted), NoPayload)
            && db.news == old(db.news) - {id}
            && db.users == old(db.users) && db.emailIndex == old(db.emailIndex)
            && db.nextUserId == old(db.nextUserId) && db.nextNewsId == old(db.nextNewsId))
  {
    var news := db.FindNews(id);
    var plan := PlanDelete(caller, news);
    if plan.RefuseDelete? {
      return plan.response;
    }
    db.news := db.news - {id};
    resp := Response(200, true, Text(NewsDeleted), NoPayload);
  }
}
