/** `UnsplashClient` (unsplash_client.js): a de-duplicated pool of access
    keys with a round-robin cursor, request pacing, the retry loop of
    `_fetchWithRetry`, and the in-memory search cache. */
module Unsplash {
  import opened Wrappers
  import opened Text
  import opened AccessKeys
  import opened RetryPipeline

  const NoKeyMessage: string := "At least one Unsplash access key is required."
  const DefaultRequestDelay: int := 200
  const DefaultMaxRetries: int := 3

  /** `_normalizeAccessKeys`: every key trimmed, the empty ones dropped,
      duplicates removed in first-occurrence order. */
  function NormalizeAccessKeys(raw: seq<string>): (r: seq<string>)
    ensures NoDuplicates(r)
    ensures forall k :: k in r ==> k != [] && Trimmed(k)
  {
    Dedupe(KeysOf(raw))
  }

  /** The pool holds exactly the non-empty trimmed keys of the input, and
      is empty exactly when every input key is blank. */
  lemma NormalizeMembers(raw: seq<string>, k: string)
    ensures k in NormalizeAccessKeys(raw) <==> k != [] && exists p :: p in raw && Trim(p) == k
    ensures NormalizeAccessKeys(raw) == [] <==> forall p :: p in raw ==> Trim(p) == []
  {
    var keys := KeysOf(raw);
    assert keys == [] ==> forall p :: p in raw ==> Trim(p) == [];
    assert keys != [] ==> keys[0] in keys;
  }

  /** The pool keeps the order in which the keys first appear. */
  lemma NormalizeKeepsOrder(raw: seq<string>)
    ensures var r := NormalizeAccessKeys(raw);
      forall i, j :: 0 <= i < j < |r| ==> FirstIndex(KeysOf(raw), r[i]) < FirstIndex(KeysOf(raw), r[j])
  {
    DedupeOrder(KeysOf(raw));
  }

  /** Normalising a normalised pool changes nothing. */
  lemma NormalizeIdempotent(raw: seq<string>)
    ensures NormalizeAccessKeys(NormalizeAccessKeys(raw)) == NormalizeAccessKeys(raw)
  {
    CleanPoolFixed(NormalizeAccessKeys(raw));
  }

  /** A clean pool without duplicates is a fixed point of normalisation. */
  lemma CleanPoolFixed(r: seq<string>)
    requires NoDuplicates(r) && forall k :: k in r ==> k != [] && Trimmed(k)
    ensures NormalizeAccessKeys(r) == r
  {
    assert forall i :: 0 <= i < |r| ==> r[i] in r;
    KeysOfClean(r);
    DedupeOfDistinct(r);
  }

  /** Trimming and filtering keys that are already trimmed and non-empty
      keeps them all. */
  lemma {:induction false} KeysOfClean(ks: seq<string>)
    requires forall i :: 0 <= i < |ks| ==> ks[i] != [] && Trimmed(ks[i])
    ensures KeysOf(ks) == ks
  {
    if ks != [] {
      var head, tail := ks[0], ks[1..];
      TrimOfTrimmed(head);
      assert Trim(head) == head != [];
      KeysOfClean(tail);
      assert KeysOf(ks) == [head] + KeysOf(tail);
      assert ks == [head] + tail;
    }
  }

  /** `Math.floor(Math.random() * n)` for a random number in `[0, 1)`. */
  function StartIndex(random: real, n: nat): (i: nat)
    requires 0.0 <= random < 1.0 && n > 0
    ensures i < n
    ensures i as real <= random * n as real < (i + 1) as real
  {
    var x := random * n as real;
    assert x < n as real;
    x.Floor
  }

  /** `${query}:${perPage}`. */
  function CacheKey(query: string, perPage: nat): string {
    query + ":" + Decimal(perPage)
  }

  /** The number of characters after the last `:`. */
  function AfterLastColon(s: string): nat {
    if s == [] || s[|s| - 1] == ':' then 0 else 1 + AfterLastColon(s[..|s| - 1])
  }

  lemma {:induction false} AfterLastColonOf(a: string, d: string)
    requires forall i :: 0 <= i < |d| ==> d[i] != ':'
    ensures AfterLastColon(a + ":" + d) == |d|
    decreases |d|
  {
    var s := a + ":" + d;
    if d != [] {
      var d' := d[..|d| - 1];
      assert s[..|s| - 1] == a + ":" + d';
      AfterLastColonOf(a, d');
    }
  }

  /** No two searches share a cache entry: the key determines the query and
      the page size, since the digits after the last `:` are the page size. */
  lemma CacheKeyInjective(q1: string, p1: nat, q2: string, p2: nat)
    requires CacheKey(q1, p1) == CacheKey(q2, p2)
    ensures q1 == q2 && p1 == p2
  {
    var s := CacheKey(q1, p1);
    var d1, d2 := Decimal(p1), Decimal(p2);
    AfterLastColonOf(q1, d1);
    AfterLastColonOf(q2, d2);
    assert d1 == s[|s| - |d1|..];
    assert d2 == s[|s| - |d2|..];
    DecimalInjective(p1, p2);
    assert q1 == s[..|q1|] && q2 == s[..|q2|];
  }

  /** How `searchPhotos` fails: a response that is not `ok`, a body that is
      not JSON, or an error of the request pipeline. The script throws a
      plain `Error` in the first case, with the message
      `Unsplash API error: <status> <statusText>`; `ApiError` keeps only the
      status, since the status text is not modelled. */
  datatype SearchError = ApiError(status: int) | InvalidBody | QuotaError | NetworkFailure(code: Option<string>)

  /** What `searchPhotos` makes of the pipeline's result on a cache miss. */
  function SearchResult(f: Fetched): (r: Result<seq<Photo>, SearchError>)
    ensures r.Success? <==> f.Returned? && IsOk(f.response) && f.response.body.Some?
    ensures r.Success? ==> r.value == f.response.body.value.results
    ensures f.Returned? && !IsOk(f.response) ==> r == Failure(ApiError(f.response.status))
  {
    match f
    case Returned(resp) =>
      if !IsOk(resp) then Failure(ApiError(resp.status))
      else if resp.body.None? then Failure(InvalidBody)
      else Success(resp.body.value.results)
    case QuotaExhausted => Failure(QuotaError)
    case NetworkError(code) => Failure(NetworkFailure(code))
  }

  /** The loop invariant of `FetchWithRetry`: the whole run `goal` is the
      events so far followed by the run from the current state. */
  ghost predicate Resumes(keys: seq<string>, maxRetries: int, requestDelay: int, net: Network,
                          goal: Finish, done: seq<Event>, s: Pipe, retry: nat, switches: nat)
    requires s.index < |keys| && switches < |keys|
  {
    var f := Run(keys, maxRetries, requestDelay, net, s, retry, switches);
    goal == Finish(f.result, done + f.trace, f.state)
  }

  /** One call of `_fetchWithRetry`'s body from state `s`, as `Decide`
      describes it: whether it stops, with which result, the events it adds,
      and the state and counters of the next call. */
  ghost predicate Step(keys: seq<string>, maxRetries: int, requestDelay: int, net: Network,
                       s: Pipe, retry: nat, switches: nat,
                       stop: bool, result: Fetched, events: seq<Event>, s': Pipe, retry': nat, switches': nat)
    requires s.index < |keys| && switches < |keys|
  {
    var next := AfterSend(requestDelay, s);
    var d := Decide(|keys|, maxRetries, net(s.attempt, keys[s.index]), next, retry, switches);
    var ev := Sent(s.index, PaceWait(requestDelay, s.now, s.last));
    && stop == d.Stop?
    && (d.Stop? ==> result == d.result && events == [ev] && s' == next)
    && (d.Again? ==> s' == d.next && retry' == d.retry && switches' == d.switches
                     && events == [ev] + (if d.wait.Some? then [BackedOff(d.wait.value)] else []))
  }

  /** One turn of the loop keeps `Resumes`: a stop ends the run where `goal`
      ends, and another call resumes it with smaller counters. */
  lemma StepResumes(keys: seq<string>, maxRetries: int, requestDelay: int, net: Network,
                    goal: Finish, done: seq<Event>, s: Pipe, retry: nat, switches: nat,
                    stop: bool, result: Fetched, events: seq<Event>, s': Pipe, retry': nat, switches': nat)
    requires s.index < |keys| && switches < |keys|
    requires Resumes(keys, maxRetries, requestDelay, net, goal, done, s, retry, switches)
    requires Step(keys, maxRetries, requestDelay, net, s, retry, switches, stop, result, events, s', retry', switches')
    ensures stop ==> goal == Finish(result, done + events, s')
    ensures !stop ==> s'.index < |keys| && switches' < |keys| && s'.attempt == s.attempt + 1
    ensures !stop ==> retry' > retry || (retry' == retry && switches' > switches)
    ensures !stop ==> retry' <= maxRetries || retry' == retry
    ensures !stop ==> Resumes(keys, maxRetries, requestDelay, net, goal, done + events, s', retry', switches')
  {
    var next := AfterSend(requestDelay, s);
    var ev := Sent(s.index, PaceWait(requestDelay, s.now, s.last));
    var d := Decide(|keys|, maxRetries, net(s.attempt, keys[s.index]), next, retry, switches);
    if d.Again? {
      var g := Run(keys, maxRetries, requestDelay, net, d.next, d.retry, d.switches);
      if d.wait.Some? {
        assert done + ([ev] + ([BackedOff(d.wait.value)] + g.trace)) == done + events + g.trace;
      } else {
        assert done + ([ev] + g.trace) == done + events + g.trace;
      }
    }
  }

  class UnsplashClient {
    const accessKeys: seq<string>
    var currentKeyIndex: nat
    const requestDelay: int
    const maxRetries: int
    var lastRequestTime: int
    var searchCache: map<string, seq<Photo>>

    /** The pool is non-empty, clean and free of duplicates, and the cursor
        points into it. */
    predicate Valid()
      reads this
    {
      && accessKeys != [] && currentKeyIndex < |accessKeys|
      && NoDuplicates(accessKeys)
      && forall k :: k in accessKeys ==> k != [] && Trimmed(k)
    }

    /** `new UnsplashClient(accessKeys, options)` once the pool is known to
        be non-empty; `start` is the index `Math.random()` picked. */
    constructor (raw: seq<string>, start: nat, requestDelayOption: Option<int>, maxRetriesOption: Option<int>)
      requires start < |NormalizeAccessKeys(raw)|
      ensures Valid()
      ensures accessKeys == NormalizeAccessKeys(raw) && currentKeyIndex == start
      ensures requestDelay == requestDelayOption.GetOr(DefaultRequestDelay)
      ensures maxRetries == maxRetriesOption.GetOr(DefaultMaxRetries)
      ensures lastRequestTime == 0 && searchCache == map[]
    {
      accessKeys := NormalizeAccessKeys(raw);
      currentKeyIndex := start;
      requestDelay := requestDelayOption.GetOr(DefaultRequestDelay);
      maxRetries := maxRetriesOption.GetOr(DefaultMaxRetries);
      lastRequestTime := 0;
      searchCache := map[];
    }

    /** The constructor with its error path: without a usable key it throws;
        otherwise the cursor starts at the key `random` (the value of
        `Math.random()`) picks. */
    static method Create(raw: seq<string>, random: real, requestDelayOption: Option<int>,
                         maxRetriesOption: Option<int>) returns (r: Result<UnsplashClient, string>)
      requires 0.0 <= random < 1.0
      ensures r.Failure? <==> NormalizeAccessKeys(raw) == []
      ensures r.Failure? ==> r.error == NoKeyMessage
      ensures r.Success? ==>
        && fresh(r.value) && r.value.Valid()
        && r.value.accessKeys == NormalizeAccessKeys(raw)
        && r.value.currentKeyIndex == StartIndex(random, |NormalizeAccessKeys(raw)|)
        && r.value.requestDelay == requestDelayOption.GetOr(DefaultRequestDelay)
        && r.value.maxRetries == maxRetriesOption.GetOr(DefaultMaxRetries)
        && r.value.lastRequestTime == 0 && r.value.searchCache == map[]
    {
      var keys := NormalizeAccessKeys(raw);
      if keys == [] {
        return Failure(NoKeyMessage);
      }
      var start := StartIndex(random, |keys|);
      var client := new UnsplashClient(raw, start, requestDelayOption, maxRetriesOption);
      return Success(client);
    }

    /** `_getCurrentAccessKey`. */
    function CurrentAccessKey(): (k: string)
      reads this
      requires Valid()
      ensures k in accessKeys && k != [] && Trimmed(k)
    {
      accessKeys[currentKeyIndex]
    }

    /** `_rotateToNextKey`: with a single key nothing happens; otherwise the
        cursor moves one key on, wrapping round. */
    method RotateToNextKey() returns (rotated: bool)
      requires Valid()
      modifies this
      ensures Valid()
      ensures rotated <==> |accessKeys| > 1
      ensures currentKeyIndex == if rotated then (old(currentKeyIndex) + 1) % |accessKeys| else old(currentKeyIndex)
      ensures lastRequestTime == old(lastRequestTime) && searchCache == old(searchCache)
    {
      if |accessKeys| <= 1 {
        return false;
      }
      currentKeyIndex := (currentKeyIndex + 1) % |accessKeys|;
      return true;
    }

    /** `_enforceRateLimit` at clock reading `now`: wait until `requestDelay`
        has passed since the last request, then record the new time. The
        clock after the wait is returned. */
    method EnforceRateLimit(now: int) returns (sent: int)
      requires Valid()
      modifies this
      ensures Valid()
      ensures sent == now + PaceWait(requestDelay, now, old(lastRequestTime))
      ensures lastRequestTime == sent
      ensures currentKeyIndex == old(currentKeyIndex) && searchCache == old(searchCache)
    {
      var sinceLast := now - lastRequestTime;
      sent := now;
      if sinceLast < requestDelay {
        sent := now + TimerDelay(Some(requestDelay - sinceLast));
      }
      lastRequestTime := sent;
    }

    /** One call of `_fetchWithRetry`'s body with counters `retry` and
        `switches`: pace, send with the current key, then either stop with a
        result or prepare the next call (rotating the key, or waiting). It
        does what `Decide` says about the outcome. */
    method Attempt(net: Network, clock: int, attempt: nat, retry: nat, switches: nat)
      returns (stop: bool, result: Fetched, events: seq<Event>, clock': int, retry': nat, switches': nat)
      requires Valid() && switches < |accessKeys|
      modifies this
      ensures Valid() && searchCache == old(searchCache)
      ensures Step(accessKeys, maxRetries, requestDelay, net,
                   Pipe(old(currentKeyIndex), old(lastRequestTime), clock, attempt), retry, switches,
                   stop, result, events, Pipe(currentKeyIndex, lastRequestTime, clock', attempt + 1), retry', switches')
    {
      var sent := EnforceRateLimit(clock);
      var ev := Sent(currentKeyIndex, sent - clock);
      clock' := sent;
      var outcome := net(attempt, CurrentAccessKey());
      stop, result, retry', switches' := false, QuotaExhausted, retry, switches;
      match outcome
      case Reply(response) =>
        if IsQuotaLimited(response) {
          if switches < |accessKeys| - 1 {
            var rotated := RotateToNextKey();
            switches' := switches + 1;
            events := [ev];
            return;
          }
          if retry >= maxRetries {
            stop := true;
            events := [ev];
            return;
          }
          var wait := TimerDelay(QuotaWait(response.retryAfter, retry));
          clock' := clock' + wait;
          events := [ev, BackedOff(wait)];
          retry', switches' := retry + 1, 0;
          return;
        }
        if response.status >= 500 && retry < maxRetries {
          var wait := BackoffDelay(retry);
          clock' := clock' + wait;
          events := [ev, BackedOff(wait)];
          retry' := retry + 1;
          return;
        }
        stop, result := true, Returned(response);
        events := [ev];
      case Thrown(code) =>
        if retry < maxRetries && IsRetryableCode(code) {
          var wait := BackoffDelay(retry);
          clock' := clock' + wait;
          events := [ev, BackedOff(wait)];
          retry' := retry + 1;
          return;
        }
        stop, result := true, NetworkError(code);
        events := [ev];
    }

    /** `_fetchWithRetry` from `retryCount = keySwitchCount = 0`, as a loop
        over the two counters, against the server `net` and starting at
        clock reading `now`. It does what `Run` describes: the same result,
        the same requests and waits, the same final cursor and time. */
    method FetchWithRetry(net: Network, now: int) returns (result: Fetched, trace: seq<Event>, clock: int)
      requires Valid()
      modifies this
      ensures Valid()
      ensures var f := Run(accessKeys, maxRetries, requestDelay, net,
                           Pipe(old(currentKeyIndex), old(lastRequestTime), now, 0), 0, 0);
        && result == f.result && trace == f.trace
        && currentKeyIndex == f.state.index && lastRequestTime == f.state.last && clock == f.state.now
      ensures searchCache == old(searchCache)
    {
      ghost var goal := Run(accessKeys, maxRetries, requestDelay, net, Pipe(currentKeyIndex, lastRequestTime, now, 0), 0, 0);
      var retry: nat, switches: nat, attempt: nat := 0, 0, 0;
      clock := now;
      trace := [];
      while true
        invariant Valid() && switches < |accessKeys| && searchCache == old(searchCache)
        invariant Resumes(accessKeys, maxRetries, requestDelay, net, goal, trace,
                          Pipe(currentKeyIndex, lastRequestTime, clock, attempt), retry, switches)
        decreases maxRetries - retry, |accessKeys| - 1 - switches
      {
        ghost var s := Pipe(currentKeyIndex, lastRequestTime, clock, attempt);
        var stop, r, events, clock', retry', switches' := Attempt(net, clock, attempt, retry, switches);
        StepResumes(accessKeys, maxRetries, requestDelay, net, goal, trace, s, retry, switches,
                    stop, r, events, Pipe(currentKeyIndex, lastRequestTime, clock', attempt + 1), retry', switches');
        trace, clock, attempt := trace + events, clock', attempt + 1;
        if stop {
          return r, trace, clock;
        }
        retry, switches := retry', switches';
      }
    }

    /** `searchPhotos(query, perPage)`: a cached key answers at once without
        a request; a miss runs the pipeline and caches the results of a
        successful response, and only those. */
    method SearchPhotos(query: string, perPage: nat, net: Network, now: int)
      returns (r: Result<seq<Photo>, SearchError>, clock: int)
      requires Valid()
      modifies this
      ensures Valid()
      ensures var key := CacheKey(query, perPage);
        old(key in searchCache) ==>
          && r == Success(old(searchCache[key])) && clock == now
          && currentKeyIndex == old(currentKeyIndex) && lastRequestTime == old(lastRequestTime)
          && searchCache == old(searchCache)
      ensures var key := CacheKey(query, perPage);
        var f := Run(accessKeys, maxRetries, requestDelay, net,
                     Pipe(old(currentKeyIndex), old(lastRequestTime), now, 0), 0, 0);
        old(key !in searchCache) ==>
          && r == SearchResult(f.result)
          && currentKeyIndex == f.state.index && lastRequestTime == f.state.last && clock == f.state.now
          && searchCache == if r.Success? then old(searchCache)[key := r.value] else old(searchCache)
    {
      var key := CacheKey(query, perPage);
      if key in searchCache {
        return Success(searchCache[key]), now;
      }
      var fetched, trace;
      fetched, trace, clock := FetchWithRetry(net, now);
      r := SearchResult(fetched);
      if r.Success? {
        searchCache := searchCache[key := r.value];
      }
    }

    /** `trackDownload(location)`: the pipeline runs against the download
        endpoint `net`; whatever it ends with is swallowed. */
    method TrackDownload(net: Network, now: int) returns (clock: int)
      requires Valid()
      modifies this
      ensures Valid()
      ensures var f := Run(accessKeys, maxRetries, requestDelay, net,
                           Pipe(old(currentKeyIndex), old(lastRequestTime), now, 0), 0, 0);
        currentKeyIndex == f.state.index && lastRequestTime == f.state.last && clock == f.state.now
      ensures searchCache == old(searchCache)
    {
      var fetched, trace;
      fetched, trace, clock := FetchWithRetry(net, now);
    }

    /** `clearCache`. */
    method ClearCache()
      requires Valid()
      modifies this
      ensures Valid()
      ensures searchCache == map[]
      ensures currentKeyIndex == old(currentKeyIndex) && lastRequestTime == old(lastRequestTime)
    {
      searchCache := map[];
    }
  }
}
