/** The schema that a news body must satisfy before an article is created. */
module NewsValidation {
  import opened Wrappers

  /** The body as received: a field is `None` when missing or not a string. */
  datatype NewsBody = NewsBody(title: Option<string>, content: Option<string>)

  /** The validated payload: only the schema's fields survive. */
  datatype NewsPayload = NewsPayload(title: string, content: string)

  /** `vine.string().minLength(minLength).maxLength(maxLength)` */
  datatype StringRule = StringRule(minLength: nat, maxLength: nat)

  const TitleRule := StringRule(5, 150)
  const ContentRule := StringRule(10, 5000)

  predicate Satisfies(field: Option<string>, rule: StringRule) {
    field.Some? && rule.minLength <= |field.value| && |field.value| <= rule.maxLength
  }

  /**
   * Validation against `newsSchema`: accepted exactly when the title has 5 to 150
   * characters and the content 10 to 5000 (both bounds inclusive).
   */
  function ValidateNews(body: NewsBody): (r: Option<NewsPayload>)
    ensures r.Some? <==> && body.title.Some? && 5 <= |body.title.value| <= 150
                         && body.content.Some? && 10 <= |body.content.value| <= 5000
    ensures r.Some? ==> r.value == NewsPayload(body.title.value, body.content.value)
  {
    if Satisfies(body.title, TitleRule) && Satisfies(body.content, ContentRule) then
      Some(NewsPayload(body.title.value, body.content.value))
    else None
  }
}
