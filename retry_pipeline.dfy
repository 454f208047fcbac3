/** The request pipeline of `UnsplashClient` (unsplash_client.js): how a
    response is classified, how long the client waits, and the whole
    rotate / back off / give up decision of `_fetchWithRetry`, written as a
    recursive reference definition over the two counters `retryCount` and
    `keySwitchCount`. The client class runs the same pipeline as a loop. */
module RetryPipeline {
  import opened Wrappers
  import opened Text

  /** The part of a photo record the script reads. */
  datatype Photo = Photo(id: string, regularUrl: Option<string>, downloadLocation: string)

  /** A JSON body as far as the client looks into it: the `error` and
      `errors` fields of a failure, the `results` of a search. */
  datatype Body = Body(error: Option<string>, errors: Option<seq<string>>, results: seq<Photo>)

  /** A response: its status, the `x-ratelimit-remaining` and `retry-after`
      headers, and the body when it parses as JSON. */
  datatype Response = Response(status: int, remaining: Option<string>, retryAfter: Option<string>,
                               body: Option<Body>)

  /** What one `fetch` gives: a response, or a rejection carrying an error
      code (`error.code`) or none. */
  datatype Outcome = Reply(response: Response) | Thrown(code: Option<string>)

  /** The server as seen by one pipeline run: the outcome of the request
      with the given sequence number sent with the given access key. */
  type Network = (nat, string) -> Outcome

  /** `response.ok`. */
  predicate IsOk(r: Response) {
    200 <= r.status <= 299
  }

  // ---------------------------------------------------------------------
  // Quota classification
  // ---------------------------------------------------------------------

  /** `[payload?.error, ...payload.errors].filter(Boolean)`. */
  function MessageList(body: Option<Body>): seq<string> {
    match body
    case None => []
    case Some(b) =>
      var first := if b.error.Some? && b.error.value != [] then [b.error.value] else [];
      first + NonEmpty(b.errors.GetOr([]))
  }

  function NonEmpty(xs: seq<string>): (r: seq<string>)
    ensures forall m :: m in r <==> m in xs && m != []
  {
    if xs == [] then [] else (if xs[0] != [] then [xs[0]] else []) + NonEmpty(xs[1..])
  }

  /** `.join(" ")`. */
  function JoinSpaced(parts: seq<string>): string {
    if parts == [] then []
    else if |parts| == 1 then parts[0]
    else parts[0] + " " + JoinSpaced(parts[1..])
  }

  /** Every part is a contiguous piece of the joined text. */
  lemma {:induction false} JoinSpacedHolds(parts: seq<string>, i: nat)
    requires i < |parts|
    ensures exists a, b :: JoinSpaced(parts) == a + parts[i] + b
  {
    if |parts| == 1 {
      assert JoinSpaced(parts) == [] + parts[0] + [];
    } else if i == 0 {
      assert JoinSpaced(parts) == [] + parts[0] + (" " + JoinSpaced(parts[1..]));
    } else {
      JoinSpacedHolds(parts[1..], i - 1);
      var a, b :| JoinSpaced(parts[1..]) == a + parts[1..][i - 1] + b;
      assert JoinSpaced(parts) == (parts[0] + " " + a) + parts[i] + b;
    }
  }

  /** The lower-cased text all error messages of a body are searched in. */
  function Messages(body: Option<Body>): string {
    AsciiLower(JoinSpaced(MessageList(body)))
  }

  const QuotaWords: seq<string> := ["rate limit", "quota", "limit exceeded"]

  predicate MentionsQuota(text: string) {
    Includes(text, QuotaWords[0]) || Includes(text, QuotaWords[1]) || Includes(text, QuotaWords[2])
  }

  /** `_isQuotaLimited(response)`: 429 always; 401 and 403 when the
      remaining-requests header is `"0"` or the messages mention a quota;
      every other status never, whatever its body says. */
  predicate IsQuotaLimited(r: Response) {
    if r.status == 429 then true
    else if r.status != 401 && r.status != 403 then false
    else if r.remaining == Some("0") then true
    else MentionsQuota(Messages(r.body))
  }

  /** The messages are joined before they are searched, so a phrase split
      across two of them still counts: `errors: ["Rate", "limit"]` marks a
      401 or 403 as quota-limited although neither item holds a quota word. */
  lemma SplitPhraseSignalsQuota(r: Response, results: seq<Photo>)
    requires r.status == 401 || r.status == 403
    requires r.body == Some(Body(None, Some(["Rate", "limit"]), results))
    ensures IsQuotaLimited(r)
    ensures !MentionsQuota(AsciiLower("Rate")) && !MentionsQuota(AsciiLower("limit"))
  {
    var parts := ["Rate", "limit"];
    assert NonEmpty(parts[1..][1..]) == [];
    assert MessageList(r.body) == parts;
    assert JoinSpaced(parts[1..]) == "limit";
    assert JoinSpaced(parts) == "Rate limit";
    assert Messages(r.body) == QuotaWords[0];
    IncludesMiddle([], QuotaWords[0], []);
    assert [] + QuotaWords[0] + [] == QuotaWords[0];
    NoQuotaWordAlone("Rate");
    NoQuotaWordAlone("limit");
  }

  /** A message without a space or a `q` mentions no quota phrase. */
  lemma NoQuotaWordAlone(m: string)
    requires ' ' !in m && 'q' !in m && 'Q' !in m
    ensures !MentionsQuota(AsciiLower(m))
  {
    var l := AsciiLower(m);
    assert ' ' !in l && 'q' !in l;
    AbsentChar(l, QuotaWords[0], ' ');
    AbsentChar(l, QuotaWords[1], 'q');
    AbsentChar(l, QuotaWords[2], ' ');
  }

  /** A 401 or 403 whose body is not JSON has no messages to search, so it
      is quota-limited exactly when the remaining-requests header is `"0"`. */
  lemma UnparsedBodyNeedsHeader(r: Response)
    requires r.status == 401 || r.status == 403
    requires r.body.None?
    ensures IsQuotaLimited(r) <==> r.remaining == Some("0")
  {
    assert Messages(r.body) == [];
    AbsentChar([], QuotaWords[0], 'r');
    AbsentChar([], QuotaWords[1], 'q');
    AbsentChar([], QuotaWords[2], 'l');
  }

  /** A quota word in any single error message, in any ASCII letter case,
      marks a 401 or 403 as quota-limited. */
  lemma MessageSignalsQuota(r: Response, m: string, w: nat)
    requires r.status == 401 || r.status == 403
    requires m in MessageList(r.body) && w < |QuotaWords| && Includes(AsciiLower(m), QuotaWords[w])
    ensures IsQuotaLimited(r)
  {
    var parts := MessageList(r.body);
    var i :| 0 <= i < |parts| && parts[i] == m;
    JoinSpacedHolds(parts, i);
    var a, b :| JoinSpaced(parts) == a + m + b;
    AsciiLowerConcat(a + m, b);
    AsciiLowerConcat(a, m);
    IncludesWithin(AsciiLower(a), AsciiLower(m), AsciiLower(b), QuotaWords[w]);
    assert Messages(r.body) == AsciiLower(a) + AsciiLower(m) + AsciiLower(b);
  }

  /** A non-empty `error` field is one of the messages searched. */
  lemma ErrorFieldListed(body: Body)
    requires body.error.Some? && body.error.value != []
    ensures body.error.value in MessageList(Some(body))
  {
  }

  /** A non-empty item of `errors` is one of the messages searched. */
  lemma ErrorsItemListed(body: Body, m: string)
    requires body.errors.Some? && m in body.errors.value && m != []
    ensures m in MessageList(Some(body))
  {
  }

  // ---------------------------------------------------------------------
  // Waits
  // ---------------------------------------------------------------------

  /** The largest delay a Node.js timer honours. */
  const TimeoutMax: nat := 0x7FFF_FFFF

  /** The delay `setTimeout(resolve, ms)` actually waits: a value that is
      not a number (`None`), below 1 or above `TimeoutMax` becomes 1 ms. */
  function TimerDelay(ms: Option<int>): (d: nat)
    ensures 1 <= d <= TimeoutMax
    ensures ms.Some? && 1 <= ms.value <= TimeoutMax ==> d == ms.value
    ensures ms.None? || ms.value < 1 || ms.value > TimeoutMax ==> d == 1
  {
    if ms.Some? && 1 <= ms.value <= TimeoutMax then ms.value else 1
  }

  function Pow2(n: nat): (r: nat)
    ensures r >= 1
  {
    if n == 0 then 1 else 2 * Pow2(n - 1)
  }

  /** `Math.pow(2, retryCount + 1) * 1000`, as the timer waits it. */
  function BackoffDelay(retry: nat): nat {
    TimerDelay(Some(Pow2(retry + 1) * 1000))
  }

  lemma {:induction false} Pow2Grows(a: nat, b: nat)
    requires a <= b
    ensures Pow2(a) <= Pow2(b)
    decreases b
  {
    if a < b {
      Pow2Grows(a, b - 1);
    }
  }

  lemma Pow2Table()
    ensures Pow2(21) == 2097152 && Pow2(22) == 4194304
  {
    assert Pow2(3) == 8;
    assert Pow2(6) == 64;
    assert Pow2(9) == 512;
    assert Pow2(12) == 4096;
    assert Pow2(15) == 32768;
    assert Pow2(18) == 262144;
  }

  /** The backoff doubles from 2 s while it fits a timer, which is up to
      the 21st retry; from then on Node cuts it to 1 ms. */
  lemma BackoffSchedule(retry: nat)
    ensures retry <= 20 ==> BackoffDelay(retry) == Pow2(retry + 1) * 1000
    ensures retry < 20 ==> BackoffDelay(retry + 1) == 2 * BackoffDelay(retry)
    ensures retry >= 21 ==> BackoffDelay(retry) == 1
  {
    Pow2Table();
    if retry <= 20 {
      Pow2Grows(retry + 1, 21);
      if retry < 20 {
        Pow2Grows(retry + 2, 21);
      }
    } else {
      Pow2Grows(22, retry + 1);
    }
  }

  /** The character class `[0-9]`. */
  predicate IsDigit(c: char) {
    '0' <= c <= '9'
  }

  /** The longest prefix of decimal digits. */
  function LeadingDigits(s: string): (r: string)
    ensures |r| <= |s| && r == s[..|r|]
    ensures forall i :: 0 <= i < |r| ==> IsDigit(r[i])
    ensures |r| < |s| ==> !IsDigit(s[|r|])
  {
    if s == [] || !IsDigit(s[0]) then [] else [s[0]] + LeadingDigits(s[1..])
  }

  /** `parseInt(s, 10)`: leading white space skipped, an optional sign, then
      the longest run of decimal digits; no digit at all is `NaN` (`None`). */
  function ParseInt(s: string): (r: Option<int>)
    ensures r.None? <==> LeadingDigits(Unsigned(TrimStart(s))) == []
  {
    SignedValue(TrimStart(s))
  }

  /** The value of an optionally signed run of digits at the start of `t`. */
  function SignedValue(t: string): (r: Option<int>)
    ensures r.None? <==> LeadingDigits(Unsigned(t)) == []
  {
    var digits := LeadingDigits(Unsigned(t));
    if digits == [] then None
    else if t[0] == '-' then Some(-(DigitsValue(digits) as int))
    else Some(DigitsValue(digits))
  }

  /** The text after an optional leading `+` or `-`. */
  function Unsigned(t: string): string {
    if t != [] && (t[0] == '+' || t[0] == '-') then t[1..] else t
  }

  /** `parseInt` reads back the decimal rendering of any count, also after
      white space. */
  lemma ParseIntOfDecimal(n: nat, pad: string)
    requires forall i :: 0 <= i < |pad| ==> IsWhite(pad[i])
    ensures ParseInt(pad + Decimal(n)) == Some(n)
  {
    var d := Decimal(n);
    DecimalDigits(n);
    ParsePositive(pad, d);
  }

  lemma DecimalDigits(n: nat)
    ensures var d := Decimal(n);
      d != [] && LeadingDigits(d) == d && (forall i :: 0 <= i < |d| ==> IsDigit(d[i])) && DigitsValue(d) == n
  {
    DecimalRoundTrip(n);
    LeadingDigitsAll(Decimal(n));
  }

  lemma ParsePositive(pad: string, d: string)
    requires forall i :: 0 <= i < |pad| ==> IsWhite(pad[i])
    requires d != [] && LeadingDigits(d) == d && forall i :: 0 <= i < |d| ==> IsDigit(d[i])
    ensures ParseInt(pad + d) == Some(DigitsValue(d))
  {
    TrimStartAfterWhite(pad, d);
    ParseTrimmedDigits(pad + d, d);
  }

  lemma ParseTrimmedDigits(s: string, d: string)
    requires TrimStart(s) == d
    requires d != [] && LeadingDigits(d) == d && forall i :: 0 <= i < |d| ==> IsDigit(d[i])
    ensures ParseInt(s) == Some(DigitsValue(d))
  {
    assert Unsigned(d) == d;
    assert SignedValue(d) == Some(DigitsValue(d));
  }

  /** After a minus sign, `parseInt` reads a run of digits negated. */
  lemma ParseNegative(d: string)
    requires d != [] && LeadingDigits(d) == d && forall i :: 0 <= i < |d| ==> IsDigit(d[i])
    ensures ParseInt("-" + d) == Some(-(DigitsValue(d) as int))
  {
    TrimStartAfterWhite([], "-" + d);
    assert [] + ("-" + d) == "-" + d;
    ParseTrimmedNegative("-" + d, d);
  }

  lemma ParseTrimmedNegative(s: string, d: string)
    requires TrimStart(s) == ['-'] + d
    requires d != [] && LeadingDigits(d) == d && forall i :: 0 <= i < |d| ==> IsDigit(d[i])
    ensures ParseInt(s) == Some(-(DigitsValue(d) as int))
  {
    var u := TrimStart(s);
    MinusSign(u, d);
    NegativeValue(u, d);
  }

  lemma MinusSign(u: string, d: string)
    requires u == ['-'] + d
    ensures u != [] && u[0] == '-' && Unsigned(u) == d
  {
  }

  lemma NegativeValue(u: string, d: string)
    requires u != [] && u[0] == '-' && Unsigned(u) == d
    requires d != [] && LeadingDigits(d) == d && forall i :: 0 <= i < |d| ==> IsDigit(d[i])
    ensures SignedValue(u) == Some(-(DigitsValue(d) as int))
  {
  }

  lemma {:induction false} LeadingDigitsAll(d: string)
    requires forall i :: 0 <= i < |d| ==> IsDigit(d[i])
    ensures LeadingDigits(d) == d
  {
    if d != [] {
      LeadingDigitsAll(d[1..]);
    }
  }

  lemma TrimStartAfterWhite(pad: string, t: string)
    requires forall i :: 0 <= i < |pad| ==> IsWhite(pad[i])
    requires t != [] && !IsWhite(t[0])
    ensures TrimStart(pad + t) == t
  {
    var s := pad + t;
    var r := TrimStart(s);
    assert s[|pad|] == t[0];
    assert r[0] == s[|s| - |r|];
    assert r == s[|s| - |r|..];
  }

  /** The wait before the next round once every key is quota-limited:
      `retry-after` seconds when the header is a non-empty string, else the
      exponential backoff. */
  function QuotaWait(retryAfter: Option<string>, retry: nat): (ms: Option<int>)
    ensures retryAfter.None? || retryAfter.value == [] ==> ms == Some(Pow2(retry + 1) * 1000)
  {
    if retryAfter.Some? && retryAfter.value != [] then
      match ParseInt(retryAfter.value)
      case None => None
      case Some(n) => Some(n * 1000)
    else Some(Pow2(retry + 1) * 1000)
  }

  /** A `retry-after` of a whole number of seconds within the timer range
      is waited in full. */
  lemma RetryAfterHonoured(n: nat, retry: nat)
    requires 1 <= n && n * 1000 <= TimeoutMax
    ensures TimerDelay(QuotaWait(Some(Decimal(n)), retry)) == n * 1000
  {
    var d := Decimal(n);
    ParseIntOfDecimal(n, []);
    assert [] + d == d;
    assert QuotaWait(Some(d), retry) == Some(n * 1000);
  }

  /** `_enforceRateLimit`: the wait before a request at time `now` when the
      previous one was sent at `last`. */
  function PaceWait(requestDelay: int, now: int, last: int): (w: nat)
    ensures now - last >= requestDelay ==> w == 0
  {
    if now - last < requestDelay then TimerDelay(Some(requestDelay - (now - last))) else 0
  }

  /** With a request delay a timer can wait, consecutive requests are at
      least `requestDelay` apart; a pacing wait is never more than needed. */
  lemma PacingSpacing(requestDelay: int, now: int, last: int)
    requires requestDelay - (now - last) <= TimeoutMax
    ensures now + PaceWait(requestDelay, now, last) - last >= requestDelay
    ensures PaceWait(requestDelay, now, last) > 0 ==> now + PaceWait(requestDelay, now, last) - last == requestDelay
  {
  }

  // ---------------------------------------------------------------------
  // The pipeline
  // ---------------------------------------------------------------------

  /** The network errors worth a retry. */
  const RetryableCodes: seq<string> := ["ECONNRESET", "ETIMEDOUT", "ENOTFOUND"]

  predicate IsRetryableCode(code: Option<string>) {
    code.Some? && code.value in RetryableCodes
  }

  /** How a pipeline run ends: with a response, by throwing the "quota
      reached for all available keys" error, or by rethrowing a network
      error. */
  datatype Fetched = Returned(response: Response) | QuotaExhausted | NetworkError(code: Option<string>)

  /** The client state a run threads through: the key cursor, the time of
      the last request, the clock, and how many requests were sent. */
  datatype Pipe = Pipe(index: nat, last: int, now: int, attempt: nat)

  /** The state once the request of `s` has gone out after its pacing wait:
      `lastRequestTime` is the clock after the wait. */
  function AfterSend(requestDelay: int, s: Pipe): (r: Pipe)
    ensures r.index == s.index && r.attempt == s.attempt + 1 && r.last == r.now
    ensures r.now == s.now + PaceWait(requestDelay, s.now, s.last)
  {
    var sent := s.now + PaceWait(requestDelay, s.now, s.last);
    Pipe(s.index, sent, sent, s.attempt + 1)
  }

  /** What `_fetchWithRetry` does after one outcome: stop with a result, or
      call itself again, after an optional backoff wait, with new counters. */
  datatype Decision = Stop(result: Fetched) | Again(wait: Option<nat>, next: Pipe, retry: nat, switches: nat)

  /** The decision for outcome `o` of the request sent with the counters
      `retry` and `switches`, from the state `next` after sending it, with
      `n` keys. Every recursive call strictly decreases the pair
      `(maxRetries - retry, n - 1 - switches)` in lexicographic order: a
      key switch keeps `retry` and counts one more switch, any wait counts
      one more retry. Only a key switch moves the cursor, one step round. */
  function Decide(n: nat, maxRetries: int, o: Outcome, next: Pipe, retry: nat, switches: nat): (d: Decision)
    requires next.index < n && switches < n
    ensures d.Again? ==> d.next.index < n && d.switches < n && d.next.attempt == next.attempt
    ensures d.Again? && d.wait.None? ==>
      d.retry == retry && switches < n - 1 && d.switches == switches + 1
      && d.next == next.(index := (next.index + 1) % n)
    ensures d.Again? && d.wait.Some? ==>
      retry < maxRetries && d.retry == retry + 1 && d.next == next.(now := next.now + d.wait.value)
    ensures d.Again? && d.wait.Some? && d.switches != switches ==> d.switches == 0
  {
    match o
    case Reply(resp) =>
      if IsQuotaLimited(resp) then
        if switches < n - 1 then Again(None, next.(index := (next.index + 1) % n), retry, switches + 1)
        else if retry >= maxRetries then Stop(QuotaExhausted)
        else
          var w := TimerDelay(QuotaWait(resp.retryAfter, retry));
          Again(Some(w), next.(now := next.now + w), retry + 1, 0)
      else if resp.status >= 500 && retry < maxRetries then
        var w := BackoffDelay(retry);
        Again(Some(w), next.(now := next.now + w), retry + 1, switches)
      else Stop(Returned(resp))
    case Thrown(code) =>
      if retry < maxRetries && IsRetryableCode(code) then
        var w := BackoffDelay(retry);
        Again(Some(w), next.(now := next.now + w), retry + 1, switches)
      else Stop(NetworkError(code))
  }

  /** The decision table of lines 120-174, case by case. */
  lemma DecisionTable(n: nat, maxRetries: int, o: Outcome, next: Pipe, retry: nat, switches: nat)
    requires next.index < n && switches < n
    ensures var d := Decide(n, maxRetries, o, next, retry, switches);
      && (o.Reply? && IsQuotaLimited(o.response) && switches < n - 1 ==> d.Again? && d.wait.None?)
      && (o.Reply? && IsQuotaLimited(o.response) && switches == n - 1 ==>
            if retry >= maxRetries then d == Stop(QuotaExhausted)
            else d.Again? && d.wait == Some(TimerDelay(QuotaWait(o.response.retryAfter, retry))) && d.switches == 0)
      && (o.Reply? && !IsQuotaLimited(o.response) ==>
            if o.response.status >= 500 && retry < maxRetries
            then d.Again? && d.wait == Some(BackoffDelay(retry)) && d.switches == switches
            else d == Stop(Returned(o.response)))
      && (o.Thrown? ==>
            if retry < maxRetries && IsRetryableCode(o.code)
            then d.Again? && d.wait == Some(BackoffDelay(retry)) && d.switches == switches
            else d == Stop(NetworkError(o.code)))
  {
  }

  /** What a run does, in order: a request with the key at `key` after a
      pacing wait of `paced` ms, or a backoff wait of `ms`. */
  datatype Event = Sent(key: nat, paced: nat) | BackedOff(ms: nat)

  datatype Finish = Finish(result: Fetched, trace: seq<Event>, state: Pipe)

  function Prepend(e: Event, f: Finish): Finish {
    Finish(f.result, [e] + f.trace, f.state)
  }

  function WaitThen(wait: Option<nat>, f: Finish): Finish {
    if wait.Some? then Prepend(BackedOff(wait.value), f) else f
  }

  /** `_fetchWithRetry(url, options, retry, switches)` from state `s`: the
      request, then what `Decide` says. */
  function Run(keys: seq<string>, maxRetries: int, requestDelay: int, net: Network,
               s: Pipe, retry: nat, switches: nat): (f: Finish)
    requires s.index < |keys| && switches < |keys|
    ensures f.state.index < |keys|
    ensures f.trace != [] && f.trace[0] == Sent(s.index, PaceWait(requestDelay, s.now, s.last))
    decreases maxRetries - retry, |keys| - 1 - switches
  {
    var next := AfterSend(requestDelay, s);
    var ev := Sent(s.index, PaceWait(requestDelay, s.now, s.last));
    match Decide(|keys|, maxRetries, net(s.attempt, keys[s.index]), next, retry, switches)
    case Stop(r) => Finish(r, [ev], next)
    case Again(w, s', r', sw') => Prepend(ev, WaitThen(w, Run(keys, maxRetries, requestDelay, net, s', r', sw')))
  }

  /** The key indices of the requests of a trace, in order. */
  function Keys(t: seq<Event>): (r: seq<nat>)
    ensures |r| <= |t|
  {
    if t == [] then [] else (if t[0].Sent? then [t[0].key] else []) + Keys(t[1..])
  }

  /** The backoff waits of a trace, in order. */
  function Waits(t: seq<Event>): seq<nat> {
    if t == [] then [] else (if t[0].BackedOff? then [t[0].ms] else []) + Waits(t[1..])
  }

  lemma EventsPrepend(e: Event, t: seq<Event>)
    ensures Keys([e] + t) == (if e.Sent? then [e.key] else []) + Keys(t)
    ensures Waits([e] + t) == (if e.BackedOff? then [e.ms] else []) + Waits(t)
  {
    assert ([e] + t)[1..] == t;
  }

  /** One step of a run, seen through its requests and its waits. */
  lemma RunStep(keys: seq<string>, maxRetries: int, requestDelay: int, net: Network,
                s: Pipe, retry: nat, switches: nat)
    requires s.index < |keys| && switches < |keys|
    ensures var f := Run(keys, maxRetries, requestDelay, net, s, retry, switches);
      var d := Decide(|keys|, maxRetries, net(s.attempt, keys[s.index]), AfterSend(requestDelay, s), retry, switches);
      && (d.Stop? ==> f.result == d.result && Keys(f.trace) == [s.index] && Waits(f.trace) == []
                      && f.state == AfterSend(requestDelay, s))
      && (d.Again? ==>
            var g := Run(keys, maxRetries, requestDelay, net, d.next, d.retry, d.switches);
            && f.result == g.result && f.state == g.state
            && Keys(f.trace) == [s.index] + Keys(g.trace)
            && Waits(f.trace) == (if d.wait.Some? then [d.wait.value] else []) + Waits(g.trace))
  {
    var ev := Sent(s.index, PaceWait(requestDelay, s.now, s.last));
    var d := Decide(|keys|, maxRetries, net(s.attempt, keys[s.index]), AfterSend(requestDelay, s), retry, switches);
    var f := Run(keys, maxRetries, requestDelay, net, s, retry, switches);
    if d.Stop? {
      assert f == Finish(d.result, [ev], AfterSend(requestDelay, s));
      EventsOf(ev, None, []);
    } else {
      var g := Run(keys, maxRetries, requestDelay, net, d.next, d.retry, d.switches);
      assert f == Prepend(ev, WaitThen(d.wait, g));
      EventsOf(ev, d.wait, g.trace);
    }
  }

  /** The requests and waits of a request followed by an optional wait. */
  lemma EventsOf(ev: Event, wait: Option<nat>, t: seq<Event>)
    requires ev.Sent?
    ensures var u := [ev] + WaitThen(wait, Finish(QuotaExhausted, t, Pipe(0, 0, 0, 0))).trace;
      && Keys(u) == [ev.key] + Keys(t)
      && Waits(u) == (if wait.Some? then [wait.value] else []) + Waits(t)
  {
    if wait.Some? {
      EventsPrepend(BackedOff(wait.value), t);
      EventsPrepend(ev, [BackedOff(wait.value)] + t);
    } else {
      EventsPrepend(ev, t);
    }
  }

  /** The backoff rounds still allowed after `retry` of them. */
  function RoundsLeft(maxRetries: int, retry: nat): nat {
    if maxRetries > retry then maxRetries - retry else 0
  }

  /** `rounds` times `n`, added up. */
  function Capacity(rounds: nat, n: nat): (r: nat)
    ensures r == rounds * n
  {
    if rounds == 0 then 0 else n + Capacity(rounds - 1, n)
  }

  /** The requests a run may still send: one per key left in this round,
      and one per key in each later round. */
  function Budget(maxRetries: int, retry: nat, switches: nat, n: nat): nat
    requires switches < n
  {
    Capacity(RoundsLeft(maxRetries, retry), n) + (n - switches)
  }

  /** The waits of the remaining backoff rounds, in order. */
  function Schedule(maxRetries: int, retry: nat): (r: seq<nat>)
    ensures |r| == RoundsLeft(maxRetries, retry)
    decreases RoundsLeft(maxRetries, retry)
  {
    if retry < maxRetries then [BackoffDelay(retry)] + Schedule(maxRetries, retry + 1) else []
  }

  /** The pipeline sends at most `Budget` requests; from the start, that is
      `maxRetries + 1` rounds of one request per key. */
  lemma {:induction false} RequestsBounded(keys: seq<string>, maxRetries: int, requestDelay: int, net: Network,
                                           s: Pipe, retry: nat, switches: nat)
    requires s.index < |keys| && switches < |keys|
    ensures |Keys(Run(keys, maxRetries, requestDelay, net, s, retry, switches).trace)|
            <= Budget(maxRetries, retry, switches, |keys|)
    decreases maxRetries - retry, |keys| - 1 - switches
  {
    var d := Decide(|keys|, maxRetries, net(s.attempt, keys[s.index]), AfterSend(requestDelay, s), retry, switches);
    RunStep(keys, maxRetries, requestDelay, net, s, retry, switches);
    if d.Again? {
      RequestsBounded(keys, maxRetries, requestDelay, net, d.next, d.retry, d.switches);
      if d.wait.Some? {
        assert RoundsLeft(maxRetries, retry) == RoundsLeft(maxRetries, d.retry) + 1;
      }
    }
  }

  /** From a fresh call: at most `(maxRetries + 1) * |keys|` requests. */
  lemma RequestsBoundedFromStart(keys: seq<string>, maxRetries: nat, requestDelay: int, net: Network, s: Pipe)
    requires s.index < |keys|
    ensures |Keys(Run(keys, maxRetries, requestDelay, net, s, 0, 0).trace)| <= (maxRetries + 1) * |keys|
  {
    RequestsBounded(keys, maxRetries, requestDelay, net, s, 0, 0);
    assert (maxRetries + 1) * |keys| == maxRetries * |keys| + |keys|;
  }

  /** Every request of the server is answered with a quota-limited response
      without `retry-after`. */
  ghost predicate AlwaysQuota(net: Network) {
    forall a: nat, k: string :: net(a, k).Reply? && IsQuotaLimited(net(a, k).response)
                                && net(a, k).response.retryAfter.None?
  }

  /** When every key stays quota-limited the run spends its whole budget:
      one request per key and round, the exponential waits between rounds,
      then the quota error. */
  lemma {:induction false} AllQuotaExhausts(keys: seq<string>, maxRetries: int, requestDelay: int, net: Network,
                                            s: Pipe, retry: nat, switches: nat)
    requires s.index < |keys| && switches < |keys| && AlwaysQuota(net)
    ensures var f := Run(keys, maxRetries, requestDelay, net, s, retry, switches);
      && f.result == QuotaExhausted
      && |Keys(f.trace)| == Budget(maxRetries, retry, switches, |keys|)
      && Waits(f.trace) == Schedule(maxRetries, retry)
    decreases maxRetries - retry, |keys| - 1 - switches
  {
    var d := Decide(|keys|, maxRetries, net(s.attempt, keys[s.index]), AfterSend(requestDelay, s), retry, switches);
    RunStep(keys, maxRetries, requestDelay, net, s, retry, switches);
    if d.Again? {
      AllQuotaExhausts(keys, maxRetries, requestDelay, net, d.next, d.retry, d.switches);
      if d.wait.Some? {
        assert RoundsLeft(maxRetries, retry) == RoundsLeft(maxRetries, d.retry) + 1;
      }
    }
  }

  /** Rotation before backoff: with every key quota-limited, the requests
      of a round go to the keys in turn, starting at the cursor. */
  lemma {:induction false} QuotaRoundVisitsKeys(keys: seq<string>, maxRetries: int, requestDelay: int, net: Network,
                                                s: Pipe, retry: nat, switches: nat, j: nat)
    requires s.index < |keys| && switches < |keys| && AlwaysQuota(net)
    requires j < |keys| - switches
    ensures var f := Run(keys, maxRetries, requestDelay, net, s, retry, switches);
      j < |f.trace| && f.trace[j].Sent? && f.trace[j].key == (s.index + j) % |keys|
    decreases |keys| - switches
  {
    var n := |keys|;
    if j > 0 {
      var next := QuotaSwitchStep(keys, maxRetries, requestDelay, net, s, retry, switches);
      QuotaRoundVisitsKeys(keys, maxRetries, requestDelay, net, next, retry, switches + 1, j - 1);
      ShiftedTrace(Run(keys, maxRetries, requestDelay, net, s, retry, switches).trace,
                   Run(keys, maxRetries, requestDelay, net, next, retry, switches + 1).trace,
                   Sent(s.index, PaceWait(requestDelay, s.now, s.last)), s.index, next.index, j, n);
    } else {
      ModBelow(s.index, n);
    }
  }

  /** With every key quota-limited and keys left in the round, a run is its
      request followed by the run from the next key. */
  lemma QuotaSwitchStep(keys: seq<string>, maxRetries: int, requestDelay: int, net: Network,
                        s: Pipe, retry: nat, switches: nat) returns (next: Pipe)
    requires s.index < |keys| && switches < |keys| - 1 && AlwaysQuota(net)
    ensures next.index == (s.index + 1) % |keys| && next.index < |keys|
    ensures Run(keys, maxRetries, requestDelay, net, s, retry, switches).trace
            == [Sent(s.index, PaceWait(requestDelay, s.now, s.last))]
               + Run(keys, maxRetries, requestDelay, net, next, retry, switches + 1).trace
  {
    var o := net(s.attempt, keys[s.index]);
    assert o.Reply? && IsQuotaLimited(o.response);
    var after := AfterSend(requestDelay, s);
    next := after.(index := (after.index + 1) % |keys|);
    assert Decide(|keys|, maxRetries, o, after, retry, switches) == Again(None, next, retry, switches + 1);
  }

  /** The first backoff wait comes right after the last key of the round. */
  lemma {:induction false} QuotaRoundThenWait(keys: seq<string>, maxRetries: int, requestDelay: int, net: Network,
                                              s: Pipe, retry: nat, switches: nat)
    requires s.index < |keys| && switches < |keys| && AlwaysQuota(net) && retry < maxRetries
    ensures var f := Run(keys, maxRetries, requestDelay, net, s, retry, switches);
      |keys| - switches < |f.trace| && f.trace[|keys| - switches] == BackedOff(BackoffDelay(retry))
    decreases |keys| - switches
  {
    var n := |keys|;
    var ev := Sent(s.index, PaceWait(requestDelay, s.now, s.last));
    var d := Decide(n, maxRetries, net(s.attempt, keys[s.index]), AfterSend(requestDelay, s), retry, switches);
    var g := Run(keys, maxRetries, requestDelay, net, d.next, d.retry, d.switches);
    if switches < n - 1 {
      assert Run(keys, maxRetries, requestDelay, net, s, retry, switches).trace == [ev] + g.trace;
      QuotaRoundThenWait(keys, maxRetries, requestDelay, net, d.next, retry, switches + 1);
    } else {
      assert Run(keys, maxRetries, requestDelay, net, s, retry, switches).trace
             == [ev] + ([BackedOff(d.wait.value)] + g.trace);
    }
  }

  /** The `j`-th event of a trace that starts one key earlier. */
  lemma ShiftedTrace(f: seq<Event>, g: seq<Event>, e: Event, i: nat, i': nat, j: nat, n: nat)
    requires f == [e] + g && i < n && 0 < j < n && i' == (i + 1) % n
    requires j - 1 < |g| && g[j - 1].Sent? && g[j - 1].key == (i' + (j - 1)) % n
    ensures j < |f| && f[j].Sent? && f[j].key == (i + j) % n
  {
    assert f[j] == g[j - 1];
    StepRound(i, j, n);
  }

  lemma StepRound(i: nat, j: nat, n: nat)
    requires i < n && 0 < j < n
    ensures ((i + 1) % n + (j - 1)) % n == (i + j) % n
  {
    if i + 1 == n {
      ModShift(0, n);
      assert (i + 1) % n == 0;
      ModBelow(j - 1, n);
      assert ((i + 1) % n + (j - 1)) % n == j - 1;
      ModShift(j - 1, n);
      assert i + j == (j - 1) + n;
    } else {
      ModBelow(i + 1, n);
      assert (i + 1) % n == i + 1;
    }
  }

  lemma ModBelow(x: nat, n: nat)
    requires x < n
    ensures x % n == x
  {
  }

  lemma ModShift(x: nat, n: nat)
    requires x < n
    ensures (x + n) % n == x
  {
  }

  /** Every request of a run went to the key at `k`. */
  predicate SameKey(ks: seq<nat>, k: nat) {
    forall j :: 0 <= j < |ks| ==> ks[j] == k
  }

  lemma SameKeyCons(k: nat, ks: seq<nat>)
    requires SameKey(ks, k)
    ensures SameKey([k] + ks, k)
  {
  }

  /** Every request fails with a server error. */
  ghost predicate AlwaysServerError(net: Network) {
    forall a: nat, k: string :: net(a, k).Reply? && net(a, k).response.status >= 500
  }

  /** A server error is retried on the same key with the exponential waits
      until the retries run out, then returned as it is. */
  lemma {:induction false} ServerErrorsRetried(keys: seq<string>, maxRetries: int, requestDelay: int, net: Network,
                                               s: Pipe, retry: nat, switches: nat)
    requires s.index < |keys| && switches < |keys| && AlwaysServerError(net)
    ensures var f := Run(keys, maxRetries, requestDelay, net, s, retry, switches);
      && f.result.Returned? && f.result.response.status >= 500
      && |Keys(f.trace)| == RoundsLeft(maxRetries, retry) + 1
      && SameKey(Keys(f.trace), s.index)
      && Waits(f.trace) == Schedule(maxRetries, retry)
      && f.state.index == s.index
    decreases maxRetries - retry
  {
    var o := net(s.attempt, keys[s.index]);
    assert o.Reply? && o.response.status >= 500;
    ServerErrorStep(|keys|, maxRetries, o.response, AfterSend(requestDelay, s), retry, switches);
    var d := Decide(|keys|, maxRetries, o, AfterSend(requestDelay, s), retry, switches);
    RunStep(keys, maxRetries, requestDelay, net, s, retry, switches);
    if d.Again? {
      var g := Run(keys, maxRetries, requestDelay, net, d.next, d.retry, d.switches);
      ServerErrorsRetried(keys, maxRetries, requestDelay, net, d.next, d.retry, d.switches);
      SameKeyCons(s.index, Keys(g.trace));
    }
  }

  /** A server error is never quota-limited: it is retried after the
      backoff while retries are left, on the same key, and returned after. */
  lemma ServerErrorStep(n: nat, maxRetries: int, resp: Response, next: Pipe, retry: nat, switches: nat)
    requires next.index < n && switches < n && resp.status >= 500
    ensures Decide(n, maxRetries, Reply(resp), next, retry, switches)
            == if retry < maxRetries
               then Again(Some(BackoffDelay(retry)), next.(now := next.now + BackoffDelay(retry)), retry + 1, switches)
               else Stop(Returned(resp))
  {
    assert !IsQuotaLimited(resp);
  }

  /** Every request is rejected with a retryable network error. */
  ghost predicate AlwaysTransient(net: Network) {
    forall a: nat, k: string :: net(a, k).Thrown? && IsRetryableCode(net(a, k).code)
  }

  /** A retryable network error is retried on the same key with the
      exponential waits until the retries run out, then rethrown. */
  lemma {:induction false} NetworkErrorsRetried(keys: seq<string>, maxRetries: int, requestDelay: int, net: Network,
                                                s: Pipe, retry: nat, switches: nat)
    requires s.index < |keys| && switches < |keys| && AlwaysTransient(net)
    ensures var f := Run(keys, maxRetries, requestDelay, net, s, retry, switches);
      && f.result.NetworkError? && IsRetryableCode(f.result.code)
      && |Keys(f.trace)| == RoundsLeft(maxRetries, retry) + 1
      && SameKey(Keys(f.trace), s.index)
      && Waits(f.trace) == Schedule(maxRetries, retry)
      && f.state.index == s.index
    decreases maxRetries - retry
  {
    var o := net(s.attempt, keys[s.index]);
    assert o.Thrown? && IsRetryableCode(o.code);
    var d := Decide(|keys|, maxRetries, o, AfterSend(requestDelay, s), retry, switches);
    RunStep(keys, maxRetries, requestDelay, net, s, retry, switches);
    if d.Again? {
      var g := Run(keys, maxRetries, requestDelay, net, d.next, d.retry, d.switches);
      NetworkErrorsRetried(keys, maxRetries, requestDelay, net, d.next, d.retry, d.switches);
      SameKeyCons(s.index, Keys(g.trace));
    }
  }

  /** A response that is neither quota-limited nor a retryable server error
      is returned as it is, after one request and without a key switch. */
  lemma ReturnedAtOnce(keys: seq<string>, maxRetries: int, requestDelay: int, net: Network,
                       s: Pipe, retry: nat, switches: nat, resp: Response)
    requires s.index < |keys| && switches < |keys|
    requires net(s.attempt, keys[s.index]) == Reply(resp) && !IsQuotaLimited(resp)
    requires resp.status < 500 || retry >= maxRetries
    ensures var f := Run(keys, maxRetries, requestDelay, net, s, retry, switches);
      f.result == Returned(resp) && |f.trace| == 1 && f.state == AfterSend(requestDelay, s)
  {
  }

  /** A 401 or 403 without a quota signal is neither retried nor rotated
      around: the caller gets the response after one request. */
  lemma AuthFailureReturned(keys: seq<string>, maxRetries: int, requestDelay: int, net: Network,
                            s: Pipe, retry: nat, switches: nat, resp: Response)
    requires s.index < |keys| && switches < |keys|
    requires net(s.attempt, keys[s.index]) == Reply(resp)
    requires resp.status == 401 || resp.status == 403
    requires resp.remaining != Some("0") && !MentionsQuota(Messages(resp.body))
    ensures var f := Run(keys, maxRetries, requestDelay, net, s, retry, switches);
      f.result == Returned(resp) && |f.trace| == 1 && f.state.index == s.index
  {
    ReturnedAtOnce(keys, maxRetries, requestDelay, net, s, retry, switches, resp);
  }

  /** Any other error, and a retryable one once the retries are spent, is
      rethrown after that request. */
  lemma ErrorRethrown(keys: seq<string>, maxRetries: int, requestDelay: int, net: Network,
                      s: Pipe, retry: nat, switches: nat, code: Option<string>)
    requires s.index < |keys| && switches < |keys|
    requires net(s.attempt, keys[s.index]) == Thrown(code)
    requires !IsRetryableCode(code) || retry >= maxRetries
    ensures var f := Run(keys, maxRetries, requestDelay, net, s, retry, switches);
      f.result == NetworkError(code) && |f.trace| == 1 && f.state == AfterSend(requestDelay, s)
  {
  }
}
