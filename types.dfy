/** Core value types of the cache library: tags, cache entries, query
    configurations, mutation results, typed tags, and the error values that
    the library raises as exceptions. */
module Types {

  datatype Option<+T> = None | Some(value: T)

  /** The exceptions the modelled code raises, one constructor per cause. */
  datatype Error =
    | InvalidDuration(input: string)        // ValueError from parse_duration
    | VerifyPercentOutOfRange               // ValueError from the constructors
    | AttributeError(name: string)          // a "_" TagSpec attribute, or a cache without `_t`
    | IndexError                            // build_path ran out of arguments
    | NotATagSpec                           // TypeError from _to_tag_spec
    | WildCountMismatch(wilds: int, params: int)  // TypeError from @cached
    | NotATag                               // TypeError from QueryCache.invalidate
    | FetchFailed(reason: string)           // whatever the caller's fetch raised

  datatype Result<+T> = Ok(value: T) | Err(error: Error)

  /** A tag is an ordered tuple of string segments. */
  type Tag = seq<string>

  /** A cached value with its metadata; times are milliseconds. */
  datatype CacheEntry<V> = CacheEntry(
    value: V,
    tags: seq<Tag>,
    createdAt: int,
    expiresAt: int,
    graceUntil: Option<int>)

  /** A duration as the library accepts it: a millisecond count or a string
      such as "30s". */
  datatype DurationInput = Millis(ms: int) | Text(text: string)

  /** The configuration a client query function returns; its `fn` is not a
      field here, the outcome of calling it is passed to the engine. */
  datatype QueryConfig = QueryConfig(
    tags: seq<Tag>,
    ttl: DurationInput,
    grace: Option<DurationInput>)

  /** What a mutation function returns: its result and the tags to
      invalidate afterwards. */
  datatype MutationResult<V> = MutationResult(result: V, invalidates: seq<Tag>)

  /** A concrete tag path produced by static schema fields. */
  datatype TypedTag = TypedTag(path: seq<string>)
}
