/** Optional values, results, and the error kinds the forum backend raises. */
module Wrappers {

  datatype Option<+T> = None | Some(value: T)

  /** The exceptions raised along the modelled paths, one constructor per kind. */
  datatype Error =
    | NotFound(resource: string)          // NotFoundException: "<resource> not found"
    | Forbidden                           // ForbiddenException
    | BadRequest(missingTopicIds: seq<int>) // BadRequestException listing unknown topic ids
    | Conflict(detail: string)            // ConflictException
    | ValueError(detail: string)          // a plain ValueError raised by a repository or service
    | IntegrityError                      // the database refused a write (unique or check constraint)
    | ValidationError(detail: string)     // request or schema validation failed

  /** The value of a call that either returns or raises. */
  datatype Result<+T> = Ok(value: T) | Err(error: Error)

  /** The value of a check that either passes or raises. */
  datatype Outcome = Pass | Fail(error: Error)
}
