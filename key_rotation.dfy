/** Credential rotation of the batch fetcher (`select_api_key_for_request`
    and the key segment it logs): the first 45 requests use the first key,
    the next 45 the second, every later one the third. */
module KeyRotation {
  import opened Wrappers

  /** The two exceptions the selection can raise. */
  datatype KeyError =
    | NoApiKeys        // ValueError("No API keys provided")
    | IndexOutOfRange  // IndexError from keys[...]

  /** Requests served by each of the first two keys. */
  const SegmentSize := 45

  function Min(a: int, b: int): int {
    if a <= b then a else b
  }

  /** Python's `xs[j]`: negative positions count from the end. */
  function PyIndex<T>(xs: seq<T>, j: int): Result<T, KeyError>
  {
    if 0 <= j < |xs| then Success(xs[j])
    else if -|xs| <= j < 0 then Success(xs[|xs| + j])
    else Failure(IndexOutOfRange)
  }

  /** `select_api_key_for_request(request_index, keys)`. */
  function SelectApiKey(requestIndex: int, keys: seq<string>): (r: Result<string, KeyError>)
    ensures keys == [] ==> r == Failure(NoApiKeys)
    ensures keys != [] && requestIndex >= 0 ==> r.Success?
    ensures r.Success? ==> r.value in keys[..Min(|keys|, 3)]
  {
    if |keys| == 0 then Failure(NoApiKeys)
    else if |keys| < 3 then PyIndex(keys, Min(requestIndex, |keys| - 1))
    else if requestIndex < SegmentSize then Success(keys[0])
    else if requestIndex < 2 * SegmentSize then Success(keys[1])
    else Success(keys[2])
  }

  /** The 1-based segment the driver logs for request `i`; it does not look
      at the pool. */
  function KeySegment(i: int): (s: int)
    ensures 1 <= s <= 3
  {
    if i < 45 then 1 else if i < 90 then 2 else 3
  }

  /** An empty pool raises for every request index. */
  lemma EmptyPoolRaises(requestIndex: int)
    ensures SelectApiKey(requestIndex, []) == Failure(NoApiKeys)
  {
  }

  /** With three or more keys the chosen key sits at the logged segment
      minus one: [0, 45) gives the first key, [45, 90) the second and
      everything from 90 on the third. */
  lemma ThreeKeysFollowSegment(requestIndex: nat, keys: seq<string>)
    requires |keys| >= 3
    ensures SelectApiKey(requestIndex, keys) == Success(keys[KeySegment(requestIndex) - 1])
    ensures requestIndex < 45 ==> SelectApiKey(requestIndex, keys) == Success(keys[0])
    ensures 45 <= requestIndex < 90 ==> SelectApiKey(requestIndex, keys) == Success(keys[1])
    ensures 90 <= requestIndex ==> SelectApiKey(requestIndex, keys) == Success(keys[2])
  {
  }

  /** Keys after the third are never looked at. */
  lemma LaterKeysIgnored(requestIndex: int, keys: seq<string>)
    requires |keys| >= 3
    ensures SelectApiKey(requestIndex, keys) == SelectApiKey(requestIndex, keys[..3])
  {
  }

  /** With one or two keys request i uses position min(i, len - 1), so the
      last key serves every request from position len - 1 on. */
  lemma SmallPoolFallsBackToLast(requestIndex: nat, keys: seq<string>)
    requires 1 <= |keys| < 3
    ensures SelectApiKey(requestIndex, keys) == Success(keys[Min(requestIndex, |keys| - 1)])
    ensures requestIndex >= |keys| - 1 ==> SelectApiKey(requestIndex, keys) == Success(keys[|keys| - 1])
  {
  }

  /** A single key serves every request. */
  lemma SingleKeyAlways(requestIndex: nat, key: string)
    ensures SelectApiKey(requestIndex, [key]) == Success(key)
  {
  }

  /** A negative request index reaches the small-pool branch unchanged, so
      it counts from the end of the pool, and one below `-len` raises
      `IndexError`; with three or more keys it takes the first key. */
  lemma NegativeIndex(requestIndex: int, keys: seq<string>)
    requires requestIndex < 0 && keys != []
    ensures |keys| < 3 && -|keys| <= requestIndex ==> SelectApiKey(requestIndex, keys) == Success(keys[|keys| + requestIndex])
    ensures |keys| < 3 && requestIndex < -|keys| ==> SelectApiKey(requestIndex, keys) == Failure(IndexOutOfRange)
    ensures |keys| >= 3 ==> SelectApiKey(requestIndex, keys) == Success(keys[0])
  {
  }
}
