/**
 * What an Express controller sees of a request and answers: the properties of a
 * parsed JSON body, their JavaScript truthiness, and the status codes used.
 */
module Http {
  import opened Wrappers

  /**
   * One property of a request body: missing (`undefined`), JSON `null`, or a
   * value. Every property is typed by the column it is meant for; a number sent
   * for a string column is outside this model.
   */
  datatype Field<T> = Absent | Null | Given(value: T)

  /** JavaScript truthiness of a string property: `undefined`, `null` and "" are falsy. */
  predicate TruthyStr(f: Field<string>) {
    f.Given? && f.value != ""
  }

  /** JavaScript truthiness of a numeric property: `undefined`, `null` and 0 are falsy. */
  predicate TruthyNum(f: Field<int>) {
    f.Given? && f.value != 0
  }

  /** `f || prior` on a string column that cannot be null. */
  function OrStr(f: Field<string>, prior: string): string {
    if TruthyStr(f) then f.value else prior
  }

  /** `f || prior` on a numeric column that cannot be null. */
  function OrNum(f: Field<int>, prior: int): int {
    if TruthyNum(f) then f.value else prior
  }

  /** `f || prior` on a nullable string column. */
  function OrNullableStr(f: Field<string>, prior: Option<string>): Option<string> {
    if TruthyStr(f) then Some(f.value) else prior
  }

  /** `f || prior` on a nullable numeric column. */
  function OrNullableNum(f: Field<int>, prior: Option<int>): Option<int> {
    if TruthyNum(f) then Some(f.value) else prior
  }

  /** What Sequelize stores for a property handed to `create`: `undefined` and `null` both become NULL. */
  function Stored<T>(f: Field<T>): Option<T> {
    match f
    case Given(v) => Some(v)
    case _ => None
  }

  /**
   * JavaScript `ToNumber` as the relational operators apply it: `null` is 0 and
   * `undefined` is NaN (None), against which every comparison is false.
   */
  function AsNumber(f: Field<int>): Option<int> {
    match f
    case Absent => None
    case Null => Some(0)
    case Given(n) => Some(n)
  }

  /** The HTTP status codes the controllers answer with: 200, 201, 204, 400, 404 and 500. */
  datatype Status = Ok | Created | NoContent | BadRequest | NotFound | ServerError

  /** A read's answer: the status and, for 200, what the response carries. */
  datatype Reply<T> = Reply(status: Status, body: T)
}
