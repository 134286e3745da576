/** Values shared by the whole model: optional values, results, entity tags and cacheable
    resources (src/auth/src/credentials.rs). */
module Resources {

  datatype Option<+T> = None | Some(value: T)

  datatype Result<+T, +E> = Ok(value: T) | Err(error: E)

  /** An entity tag is the counter value it was drawn from; drawing is `TagGenerator.Fresh`. */
  type EntityTag = nat

  /** What a provider answers: its current data under a tag, or "what you have is current". */
  datatype CacheableResource<+T> = NotModified | New(entityTag: EntityTag, data: T)

  /** An error of the credentials layer. Only its transience steers the code; `code` keeps
      different errors apart. */
  datatype CredentialsError = CredentialsError(transient: bool, code: nat)

  /** The process-wide tag counter behind `EntityTag::new`. */
  class TagGenerator {
    var next: nat

    constructor ()
      ensures next == 0
    {
      next := 0;
    }

    method Fresh() returns (tag: EntityTag)
      modifies this
      ensures tag == old(next) && next == old(next) + 1
    {
      tag := next;
      next := next + 1;
    }
  }
}
