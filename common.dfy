/** Values shared by the post and user schemas and by the post controller. */
module Common {

  /** A value that may be absent. */
  datatype Option<T> = None | Some(value: T)

  /** A String field of a request body or a stored document, which JSON and
      Mongoose let be missing (`undefined`), explicitly `null`, or a string. */
  datatype Field = Absent | Null | Given(value: string)

  /** The error answers of the controller.
      - NotFound: 404, no post with that id.
      - Forbidden: 403, the caller is not the post's author.
      - Invalid: the schema's validation refused the document; the controller's
        catch-all answers it with a 500.
      - Conflict: a unique index refused the document (duplicate key).
      - Failure: any other failure behind the catch-all 500. */
  datatype Error = NotFound | Forbidden | Invalid | Conflict | Failure

  /** The tagged result of one controller action. */
  datatype Outcome<T> = Ok(value: T) | Err(error: Error)

  /** JavaScript truthiness of a String field: only a non-empty string is
      truthy. This is also exactly what Mongoose's `required` validator
      accepts for a String path. */
  predicate Truthy(f: Field)
  {
    f.Given? && f.value != ""
  }
}
