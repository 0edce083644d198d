/** The request validators of `src/utils/validations.js`. Request fields are
    arbitrary JSON/JS values, so they are modelled as `JsValue` with the
    language's truthiness; a validator either passes or throws a
    `ValidationError`, modelled as `Outcome<AppError>`. */
module Validations {
  import opened Wrappers
  import Errors

  /** The JS values a parsed request field can hold. Numbers are reals;
      `NaN` is its own case because it is a number that is falsy. */
  datatype JsValue =
    | Undefined
    | Null
    | Bool(b: bool)
    | Number(n: real)
    | NaN
    | Str(s: string)
    | Object

  /** JS truthiness: `false`, `0`, `NaN`, `""`, `null` and `undefined` are falsy. */
  predicate Truthy(v: JsValue) {
    match v
    case Undefined => false
    case Null => false
    case Bool(b) => b
    case Number(n) => n != 0.0
    case NaN => false
    case Str(s) => |s| > 0
    case Object => true
  }

  /** JS `typeof` reports "number": finite numbers and NaN alike. */
  predicate IsNumber(v: JsValue) {
    v.Number? || v.NaN?
  }

  /** The body of a score-update event. */
  datatype ScoreUpdateBody = ScoreUpdateBody(
    eventType: JsValue, userId: JsValue, gameId: JsValue, score: JsValue, timestamp: JsValue)

  const EventTypeMessage: string := "Invalid event type. Must be \"scoreUpdate\""
  const UserIdMessage: string := "Invalid or missing userId"
  const GameIdMessage: string := "Invalid or missing gameId"
  const ScoreMessage: string := "Score must be a positive number"
  const LimitMessage: string := "Limit must be a number between 1 and 100"

  /** A non-empty string. */
  predicate IsIdentifier(v: JsValue) {
    v.Str? && |v.s| > 0
  }

  /** What an accepted event looks like, stated field by field. */
  predicate WellFormedScoreUpdate(body: ScoreUpdateBody) {
    && body.eventType == Str("scoreUpdate")
    && IsIdentifier(body.userId)
    && IsIdentifier(body.gameId)
    && body.score.Number? && body.score.n > 0.0
  }

  /** `validateScoreUpdate(req)`: the four checks in source order, the first
      one that fails decides the error. The timestamp is not checked. */
  function ValidateScoreUpdate(body: ScoreUpdateBody): (r: Outcome<Errors.AppError>)
    ensures r.Pass? <==> WellFormedScoreUpdate(body)
    ensures r.Fail? ==> r.error.statusCode == 400 && r.error.status == Errors.StatusFail
  {
    if !Truthy(body.eventType) || body.eventType != Str("scoreUpdate") then
      Fail(Errors.ValidationError(EventTypeMessage))
    else if !Truthy(body.userId) || !body.userId.Str? then
      Fail(Errors.ValidationError(UserIdMessage))
    else if !Truthy(body.gameId) || !body.gameId.Str? then
      Fail(Errors.ValidationError(GameIdMessage))
    else if !Truthy(body.score) || !IsNumber(body.score) || (body.score.Number? && body.score.n < 0.0) then
      Fail(Errors.ValidationError(ScoreMessage))
    else
      Pass
  }

  /** Each check is reached only when all earlier ones passed, and then
      decides the error on its own, whatever the later fields hold. */
  lemma FirstFailingCheckDecides(body: ScoreUpdateBody)
    ensures body.eventType != Str("scoreUpdate") ==>
      ValidateScoreUpdate(body) == Fail(Errors.ValidationError(EventTypeMessage))
    ensures body.eventType == Str("scoreUpdate") && !IsIdentifier(body.userId) ==>
      ValidateScoreUpdate(body) == Fail(Errors.ValidationError(UserIdMessage))
    ensures body.eventType == Str("scoreUpdate") && IsIdentifier(body.userId) && !IsIdentifier(body.gameId) ==>
      ValidateScoreUpdate(body) == Fail(Errors.ValidationError(GameIdMessage))
    ensures body.eventType == Str("scoreUpdate") && IsIdentifier(body.userId) && IsIdentifier(body.gameId)
            && !(body.score.Number? && body.score.n > 0.0) ==>
      ValidateScoreUpdate(body) == Fail(Errors.ValidationError(ScoreMessage))
  {
  }

  /** A zero score is rejected (0 is falsy), and so is any non-number, even a
      numeric string. */
  lemma ScoreMustBePositiveNumber(body: ScoreUpdateBody)
    requires body.eventType == Str("scoreUpdate") && IsIdentifier(body.userId) && IsIdentifier(body.gameId)
    ensures body.score == Number(0.0) ==> ValidateScoreUpdate(body).Fail?
    ensures body.score == NaN ==> ValidateScoreUpdate(body).Fail?
    ensures body.score.Str? ==> ValidateScoreUpdate(body).Fail?
    ensures body.score.Number? && body.score.n > 0.0 ==> ValidateScoreUpdate(body).Pass?
  {
  }

  /** Whatever the timestamp field holds, the verdict is the same. */
  lemma TimestampNeverValidated(body: ScoreUpdateBody, timestamp: JsValue)
    ensures ValidateScoreUpdate(body.(timestamp := timestamp)) == ValidateScoreUpdate(body)
  {
  }

  /** `validateLimit(req)` applied to `parseInt(req.query.limit)`: `None`
      stands for `NaN` (a missing or unparseable limit). */
  function ValidateLimit(limit: Option<int>): (r: Outcome<Errors.AppError>)
    ensures r.Pass? <==> limit.None? || limit.value == 0 || 1 <= limit.value <= 100
    ensures r.Fail? ==> r.error == Errors.ValidationError(LimitMessage)
  {
    match limit
    case None => Pass
    case Some(n) =>
      if n != 0 && (n < 1 || n > 100) then Fail(Errors.ValidationError(LimitMessage)) else Pass
  }
}
