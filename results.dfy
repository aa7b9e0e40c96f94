/** Optional values and success-or-error results, used for the nullable
    `categories` element of a post and for the exceptions the conversion raises. */
module Results {

  datatype Option<+T> = None | Some(value: T)

  datatype Result<+R, +E> = Success(value: R) | Failure(error: E)
}
