/** What both cache adapters answer their callers with. */
module AdaptCache {
  import opened Options
  import opened Bytes

  datatype Failure = NotFound | StorageError | ConvertError
  datatype Result<+V> = Ok(value: V) | Err(failure: Failure)

  /** The caller's conversion: the value and the bytes it counts for, or a conversion error. */
  type Convert<!V> = seq<byte> -> Option<(V, nat)>
}
