/** The retrying fetch of the batch fetcher (`make_request_with_retry`),
    with the HTTP call replaced by an oracle that gives the outcome of each
    attempt, and the log and sleeps replaced by a trace of events. */
module Retry {
  import opened Wrappers

  /** A decoded JSON document, as `response.json()` hands it back. */
  datatype Json =
    | JNull
    | JBool(b: bool)
    | JNumber(n: real)
    | JString(s: string)
    | JArray(items: seq<Json>)
    | JObject(members: seq<(string, Json)>)

  /** Python's truth value of the decoded document (`if data:`): None,
      False, zero, "" and empty containers are false. */
  predicate Truthy(j: Json) {
    match j
    case JNull => false
    case JBool(b) => b
    case JNumber(n) => n != 0.0
    case JString(s) => s != ""
    case JArray(items) => items != []
    case JObject(members) => members != []
  }

  /** What one `requests.get` gives: a response with a status and a body,
      or a `RequestException` (connection error, timeout, ...). */
  datatype Outcome = Response(status: int, body: Json) | TransportError

  /** The outcome of attempt k (0-based) of one call, for every k. */
  type Attempts = nat -> Outcome

  predicate Succeeds(o: Outcome) {
    o.Response? && o.status == 200
  }

  /** What the fetcher does that can be observed, in order. */
  datatype Event =
    | CreateDirectory                                // create_jsons_directory
    | Attempt(domain: string, key: string, number: nat)  // one requests.get
    | Sleep(seconds: nat)                            // time.sleep
    | Save(domain: string, data: Json)               // save_json_response
    | Skip(domain: string)                           // "no data received"

  /** Default `max_retries`, the value the driver uses. */
  const MaxRetries := 20

  /** Seconds slept between two attempts. */
  const RetryDelay := 2

  /** The first attempt in [from, n) that succeeds, if any. */
  function FirstSuccess(outcomes: Attempts, from: nat, n: int): (r: Option<nat>)
    ensures r.Some? ==> from <= r.value < n && Succeeds(outcomes(r.value))
    ensures r.Some? ==> forall j :: from <= j < r.value ==> !Succeeds(outcomes(j))
    ensures r.None? ==> forall j :: from <= j < n ==> !Succeeds(outcomes(j))
    decreases n - from
  {
    if from >= n then None
    else if Succeeds(outcomes(from)) then Some(from)
    else FirstSuccess(outcomes, from + 1, n)
  }

  /** k failed attempts in a row, each followed by the retry delay. */
  function FailedTries(domain: string, key: string, k: nat): seq<Event>
  {
    if k == 0 then []
    else FailedTries(domain, key, k - 1) + [Attempt(domain, key, k - 1), Sleep(RetryDelay)]
  }

  /** m attempts with the retry delay between two of them and none after
      the last one. */
  function Tries(domain: string, key: string, m: nat): seq<Event>
  {
    if m == 0 then [] else FailedTries(domain, key, m - 1) + [Attempt(domain, key, m - 1)]
  }

  /** The result of one call and what it did. */
  datatype FetchRun = FetchRun(data: Option<Json>, trace: seq<Event>)

  /** How many attempts a call makes: up to and including the first
      status-200 one, or all `maxRetries` of them (none when `maxRetries`
      <= 0). */
  function AttemptsMade(outcomes: Attempts, maxRetries: int): nat
  {
    match FirstSuccess(outcomes, 0, maxRetries)
    case Some(k) => k + 1
    case None => if maxRetries > 0 then maxRetries else 0
  }

  /** The specification of `make_request_with_retry`: the body of the first
      status-200 attempt, or nothing, after the attempts made. */
  function Fetch(domain: string, key: string, outcomes: Attempts, maxRetries: int): FetchRun
  {
    var data := match FirstSuccess(outcomes, 0, maxRetries)
      case Some(k) => Some(outcomes(k).body)
      case None => None;
    FetchRun(data, Tries(domain, key, AttemptsMade(outcomes, maxRetries)))
  }

  /** `make_request_with_retry(domain, api_key, max_retries)`. */
  method MakeRequestWithRetry(domain: string, key: string, outcomes: Attempts, maxRetries: int)
    returns (data: Option<Json>, trace: seq<Event>)
    ensures FetchRun(data, trace) == Fetch(domain, key, outcomes, maxRetries)
  {
    trace := [];
    var attempt: nat := 0;
    while attempt < maxRetries
      invariant maxRetries > 0 ==> attempt <= maxRetries
      invariant maxRetries <= 0 ==> attempt == 0
      invariant forall j :: 0 <= j < attempt ==> !Succeeds(outcomes(j))
      invariant trace == if attempt < maxRetries then FailedTries(domain, key, attempt)
                         else Tries(domain, key, attempt)
    {
      trace := trace + [Attempt(domain, key, attempt)];
      var outcome := outcomes(attempt);
      if outcome.Response? && outcome.status == 200 {
        data := Some(outcome.body);
        assert FirstSuccess(outcomes, 0, maxRetries) == Some(attempt);
        return;
      }
      if attempt < maxRetries - 1 {
        trace := trace + [Sleep(RetryDelay)];
      }
      attempt := attempt + 1;
    }
    data := None;
  }

  /** The shape of m attempts: attempts 0, 1, ..., m - 1 at the even
      positions, the 2-second delay at the odd ones, so the sequence starts
      and ends with an attempt. */
  lemma {:induction false} TriesShape(domain: string, key: string, m: nat)
    requires m >= 1
    ensures |Tries(domain, key, m)| == 2 * m - 1
    ensures forall j :: 0 <= j < 2 * m - 1 ==>
      Tries(domain, key, m)[j] == if j % 2 == 0 then Attempt(domain, key, j / 2) else Sleep(RetryDelay)
  {
    FailedTriesShape(domain, key, m - 1);
  }

  lemma {:induction false} FailedTriesShape(domain: string, key: string, k: nat)
    ensures |FailedTries(domain, key, k)| == 2 * k
    ensures forall j :: 0 <= j < 2 * k ==>
      FailedTries(domain, key, k)[j] == if j % 2 == 0 then Attempt(domain, key, j / 2) else Sleep(RetryDelay)
  {
    if k > 0 {
      FailedTriesShape(domain, key, k - 1);
    }
  }

  /** The numbers of the attempts in a trace, in order. */
  function AttemptNumbers(t: seq<Event>): seq<nat>
  {
    if t == [] then []
    else AttemptNumbers(t[..|t| - 1]) + (if t[|t| - 1].Attempt? then [t[|t| - 1].number] else [])
  }

  /** 0, 1, ..., n - 1. */
  function Range(n: nat): (r: seq<nat>)
    ensures |r| == n && forall j :: 0 <= j < n ==> r[j] == j
  {
    if n == 0 then [] else Range(n - 1) + [n - 1]
  }

  lemma AttemptNumbersSingle(e: Event)
    ensures AttemptNumbers([e]) == if e.Attempt? then [e.number] else []
  {
    assert [e][..0] == [];
  }

  lemma {:induction false} AttemptNumbersAppend(a: seq<Event>, b: seq<Event>)
    ensures AttemptNumbers(a + b) == AttemptNumbers(a) + AttemptNumbers(b)
  {
    if b != [] {
      var b' := b[..|b| - 1];
      assert (a + b)[..|a + b| - 1] == a + b';
      AttemptNumbersAppend(a, b');
    } else {
      assert a + b == a;
    }
  }

  /** Counted: m attempts, numbered 0 to m - 1 in order, and m - 1 sleeps
      of 2 seconds. */
  lemma TriesCounts(domain: string, key: string, m: nat)
    ensures AttemptNumbers(Tries(domain, key, m)) == Range(m)
    ensures multiset(Tries(domain, key, m))[Sleep(RetryDelay)] == if m == 0 then 0 else m - 1
  {
    if m > 0 {
      TriesNumbers(domain, key, m - 1);
      TriesSleeps(domain, key, m - 1);
    }
  }

  lemma TriesNumbers(domain: string, key: string, k: nat)
    ensures AttemptNumbers(Tries(domain, key, k + 1)) == Range(k + 1)
  {
    var f := FailedTries(domain, key, k);
    var last := Attempt(domain, key, k);
    assert Tries(domain, key, k + 1) == f + [last];
    FailedTriesNumbers(domain, key, k);
    AttemptNumbersAppend(f, [last]);
    AttemptNumbersSingle(last);
  }

  lemma TriesSleeps(domain: string, key: string, k: nat)
    ensures multiset(Tries(domain, key, k + 1))[Sleep(RetryDelay)] == k
  {
    var f := FailedTries(domain, key, k);
    var last := Attempt(domain, key, k);
    assert Tries(domain, key, k + 1) == f + [last];
    FailedTriesSleeps(domain, key, k);
    assert multiset(f + [last]) == multiset(f) + multiset{last};
  }

  lemma {:induction false} FailedTriesNumbers(domain: string, key: string, k: nat)
    ensures AttemptNumbers(FailedTries(domain, key, k)) == Range(k)
  {
    if k > 0 {
      FailedTriesNumbers(domain, key, k - 1);
      var f := FailedTries(domain, key, k - 1);
      var a, z := Attempt(domain, key, k - 1), Sleep(RetryDelay);
      assert FailedTries(domain, key, k) == (f + [a]) + [z];
      AttemptNumbersAppend(f + [a], [z]);
      AttemptNumbersAppend(f, [a]);
      AttemptNumbersSingle(a);
      AttemptNumbersSingle(z);
    }
  }

  lemma {:induction false} FailedTriesSleeps(domain: string, key: string, k: nat)
    ensures multiset(FailedTries(domain, key, k))[Sleep(RetryDelay)] == k
  {
    if k > 0 {
      FailedTriesSleeps(domain, key, k - 1);
      var f := FailedTries(domain, key, k - 1);
      var step := [Attempt(domain, key, k - 1), Sleep(RetryDelay)];
      assert multiset(FailedTries(domain, key, k)) == multiset(f) + multiset(step);
    }
  }

  /** Nothing but attempts at this domain with this key, and 2-second
      sleeps, happens during m attempts. */
  lemma TriesEvents(domain: string, key: string, m: nat)
    ensures forall e :: e in Tries(domain, key, m) ==>
      e == Sleep(RetryDelay) || (e.Attempt? && e.domain == domain && e.key == key && e.number < m)
  {
    if m > 0 {
      FailedTriesEvents(domain, key, m - 1);
    }
  }

  lemma {:induction false} FailedTriesEvents(domain: string, key: string, k: nat)
    ensures forall e :: e in FailedTries(domain, key, k) ==>
      e == Sleep(RetryDelay) || (e.Attempt? && e.domain == domain && e.key == key && e.number < k)
  {
    if k > 0 {
      FailedTriesEvents(domain, key, k - 1);
    }
  }

  /** If attempt k is the first to answer 200, the call returns its body
      after exactly k + 1 attempts and k sleeps. */
  lemma FirstSuccessReturnsBody(domain: string, key: string, outcomes: Attempts, maxRetries: int, k: nat)
    requires k < maxRetries && Succeeds(outcomes(k))
    requires forall j :: 0 <= j < k ==> !Succeeds(outcomes(j))
    ensures Fetch(domain, key, outcomes, maxRetries) == FetchRun(Some(outcomes(k).body), Tries(domain, key, k + 1))
  {
    var r := FirstSuccess(outcomes, 0, maxRetries);
    assert r.Some? && r.value == k;
  }

  /** If every attempt fails, the call returns nothing after exactly
      `maxRetries` attempts (none if `maxRetries` <= 0). */
  lemma AllFailuresReturnNothing(domain: string, key: string, outcomes: Attempts, maxRetries: int)
    requires forall j :: 0 <= j < maxRetries ==> !Succeeds(outcomes(j))
    ensures Fetch(domain, key, outcomes, maxRetries).data == None
    ensures Fetch(domain, key, outcomes, maxRetries).trace == Tries(domain, key, if maxRetries > 0 then maxRetries else 0)
    ensures maxRetries <= 0 ==> Fetch(domain, key, outcomes, maxRetries).trace == []
  {
  }

  /** m attempts end with an attempt, and every sleep among them is
      followed by an attempt. */
  lemma TriesSleepBetween(domain: string, key: string, m: nat)
    ensures var t := Tries(domain, key, m);
      && (t != [] ==> t[|t| - 1].Attempt?)
      && (forall j :: 0 <= j < |t| && t[j].Sleep? ==> j + 1 < |t| && t[j + 1].Attempt?)
  {
    var t := Tries(domain, key, m);
    if m >= 1 {
      TriesShape(domain, key, m);
      assert (2 * m - 2) % 2 == 0;
      forall j | 0 <= j < |t| && t[j].Sleep? ensures j + 1 < |t| && t[j + 1].Attempt? {
        assert j % 2 == 1;
        assert (j + 1) % 2 == 0;
      }
    }
  }

  /** A call never sleeps after its final attempt: a non-empty trace ends
      with an attempt, and a sleep is always followed by one. */
  lemma NoSleepAfterLastAttempt(domain: string, key: string, outcomes: Attempts, maxRetries: int)
    ensures var t := Fetch(domain, key, outcomes, maxRetries).trace;
      && (t != [] ==> t[|t| - 1].Attempt?)
      && (forall j :: 0 <= j < |t| && t[j].Sleep? ==> j + 1 < |t| && t[j + 1].Attempt?)
  {
    TriesSleepBetween(domain, key, AttemptsMade(outcomes, maxRetries));
  }

  /** Counting the events of a call whose attempt k is the first to answer
      200: attempts 0 to k, and k sleeps of 2 seconds. */
  lemma FirstSuccessCounts(domain: string, key: string, outcomes: Attempts, maxRetries: int, k: nat)
    requires k < maxRetries && Succeeds(outcomes(k))
    requires forall j :: 0 <= j < k ==> !Succeeds(outcomes(j))
    ensures AttemptNumbers(Fetch(domain, key, outcomes, maxRetries).trace) == Range(k + 1)
    ensures multiset(Fetch(domain, key, outcomes, maxRetries).trace)[Sleep(RetryDelay)] == k
  {
    FirstSuccessReturnsBody(domain, key, outcomes, maxRetries, k);
    TriesCounts(domain, key, k + 1);
  }

  /** Counting the events of a call where every attempt fails: attempts 0
      to `maxRetries` - 1, and one sleep fewer than attempts. */
  lemma AllFailuresCounts(domain: string, key: string, outcomes: Attempts, maxRetries: nat)
    requires maxRetries >= 1
    requires forall j :: 0 <= j < maxRetries ==> !Succeeds(outcomes(j))
    ensures AttemptNumbers(Fetch(domain, key, outcomes, maxRetries).trace) == Range(maxRetries)
    ensures multiset(Fetch(domain, key, outcomes, maxRetries).trace)[Sleep(RetryDelay)] == maxRetries - 1
  {
    AllFailuresReturnNothing(domain, key, outcomes, maxRetries);
    TriesCounts(domain, key, maxRetries);
  }
}
