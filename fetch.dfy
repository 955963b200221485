/**
 * `fetchWithRetry` (actions/extract-news.ts): up to three requests, an exponential back-off
 * between them, no retry after a timeout, and a classification of the last error. The network
 * enters as the outcome of each request (`attempt(k)` for the request with retry count `k`);
 * the waits are recorded instead of slept.
 */
module Fetch {
  import opened Results
  import opened Text

  /** `MAX_RETRIES`: retries after the first request. */
  const MaxRetries: nat := 2

  /** The outcome of one request: a response (its status and `content-type` header, "" when
      the header is missing, and its body), an abort by the 15-second timer, or any other
      failure with its message. */
  datatype Attempt =
    | Response(status: nat, contentType: string, body: string)
    | Aborted
    | Failed(message: string)

  /** What one request amounts to: the page text, a timeout, or an error message. */
  datatype Try = Page(html: string) | Timeout | Error(message: string)

  /** `response.ok`: a status in the range 200-299. */
  predicate IsOk(status: nat) {
    200 <= status <= 299
  }

  predicate IsHtmlType(contentType: string) {
    Contains(contentType, "text/html") || Contains(contentType, "application/xhtml+xml")
  }

  /** The checks of one request, in order: the status, then the content type. */
  function Classify(a: Attempt): (t: Try)
    ensures t.Page? <==> a.Response? && IsOk(a.status) && IsHtmlType(a.contentType)
    ensures t.Timeout? <==> a.Aborted?
    ensures a.Response? && !IsOk(a.status) ==> t == Error(StatusMessage(a.status))
    ensures a.Response? && IsOk(a.status) && !IsHtmlType(a.contentType) ==>
      t == Error(WrongTypeMessage(a.contentType))
    ensures a.Failed? ==> t == Error(a.message)
  {
    match a
    case Response(status, contentType, body) =>
      if !IsOk(status) then Error(StatusMessage(status))
      else if !IsHtmlType(contentType) then Error(WrongTypeMessage(contentType))
      else Page(body)
    case Aborted => Timeout
    case Failed(m) => Error(m)
  }

  /** The message of an OK response that is not HTML. */
  function WrongTypeMessage(contentType: string): string {
    "Unexpected content type: " + contentType + ". Expected HTML."
  }

  /** The message of a response whose status is not OK. */
  function StatusMessage(status: nat): string {
    "HTTP error! Status: " + NatToString(status)
  }

  const TimeoutMessage := "Request timed out. " + "The website took too long to respond."
  const CorsMessage := "CORS error: " + "The website doesn't allow access from our application."
  const SslMessage := "SSL error: " + "The website has an invalid security certificate."
  const ExhaustedPrefix := "Fetch failed after 3 attempts: "

  /** The error thrown once the retries are used up, from the last request's message. */
  function FinalMessage(m: string): (r: string)
    ensures r != TimeoutMessage
  {
    if Contains(m, "CORS") then CorsMessage
    else if Contains(m, "SSL") then SslMessage
    else
      assert ExhaustedPrefix[0] == 'F' && TimeoutMessage[0] == 'R';
      assert (ExhaustedPrefix + m)[0] != TimeoutMessage[0];
      ExhaustedPrefix + m
  }

  function Pow2(k: nat): (p: nat)
    ensures p >= 1
  {
    if k == 0 then 1 else 2 * Pow2(k - 1)
  }

  /** The wait before the request with retry count `k + 1`. */
  function Backoff(k: nat): nat {
    1000 * Pow2(k)
  }

  /** A run of the retry loop: its outcome and the waits, in order. */
  datatype Run = Run(result: Result<string>, delays: seq<nat>)

  /** `fetchWithRetry(url, retries)`: a page is returned, a timeout is final, any other error is
      retried after a wait while retries remain and classified once they do not. */
  function Retry(attempt: nat -> Attempt, retries: nat): Run
    requires retries <= MaxRetries
    decreases MaxRetries - retries
  {
    match Classify(attempt(retries))
    case Page(html) => Run(Ok(html), [])
    case Timeout => Run(Err(TimeoutMessage), [])
    case Error(m) =>
      if retries < MaxRetries then
        var rest := Retry(attempt, retries + 1);
        Run(rest.result, [Backoff(retries)] + rest.delays)
      else Run(Err(FinalMessage(m)), [])
  }

  /** At most one wait per retry left, the `k`-th of them `1000 * 2^k` ms counted from the
      first request; an error is the timeout, the CORS or the SSL error, or the exhaustion
      message. */
  lemma {:induction false} RetrySpec(attempt: nat -> Attempt, retries: nat)
    requires retries <= MaxRetries
    ensures var r := Retry(attempt, retries);
      |r.delays| <= MaxRetries - retries
      && (forall k :: 0 <= k < |r.delays| ==> r.delays[k] == Backoff(retries + k))
      && (r.result.Err? ==>
            r.result.message in {TimeoutMessage, CorsMessage, SslMessage}
            || StartsWith(r.result.message, ExhaustedPrefix))
    decreases MaxRetries - retries
  {
    match Classify(attempt(retries))
    case Page(_) =>
    case Timeout =>
    case Error(m) =>
      if retries < MaxRetries {
        RetrySpec(attempt, retries + 1);
        var rest := Retry(attempt, retries + 1);
        var ds := [Backoff(retries)] + rest.delays;
        forall k | 0 <= k < |ds| ensures ds[k] == Backoff(retries + k) {
          if k > 0 { assert ds[k] == rest.delays[k - 1]; }
        }
      } else {
        var f := FinalMessage(m);
        assert f in {TimeoutMessage, CorsMessage, SslMessage} || StartsWith(f, ExhaustedPrefix) by {
          if !Contains(m, "CORS") && !Contains(m, "SSL") {
            assert f[..|ExhaustedPrefix|] == ExhaustedPrefix;
          }
        }
      }
  }

  /** The retry loop, run from the first request. Returns the page text or the error, the
      waits, and the number of requests made. */
  method FetchWithRetry(attempt: nat -> Attempt) returns (result: Result<string>, delays: seq<nat>, made: nat)
    ensures Run(result, delays) == Retry(attempt, 0)
    ensures 1 <= made <= MaxRetries + 1 && |delays| == made - 1
    ensures forall k :: 0 <= k < made - 1 ==> Classify(attempt(k)).Error?
    ensures result.Ok? ==> Classify(attempt(made - 1)) == Page(result.value)
    ensures Classify(attempt(made - 1)).Timeout? <==> result == Err(TimeoutMessage)
  {
    var retries: nat := 0;
    delays := [];
    while true
      invariant retries <= MaxRetries && |delays| == retries
      invariant forall k :: 0 <= k < retries ==> Classify(attempt(k)).Error?
      invariant Retry(attempt, 0) == Run(Retry(attempt, retries).result, delays + Retry(attempt, retries).delays)
      decreases MaxRetries - retries
    {
      var t := Classify(attempt(retries));
      match t
      case Page(html) =>
        result, made := Ok(html), retries + 1;
        assert Retry(attempt, retries) == Run(result, []);
        assert delays + [] == delays;
        return;
      case Timeout =>
        result, made := Err(TimeoutMessage), retries + 1;
        assert Retry(attempt, retries) == Run(result, []);
        assert delays + [] == delays;
        return;
      case Error(m) =>
        if retries < MaxRetries {
          ghost var rest := Retry(attempt, retries + 1);
          assert Retry(attempt, retries) == Run(rest.result, [Backoff(retries)] + rest.delays);
          assert delays + ([Backoff(retries)] + rest.delays) == (delays + [Backoff(retries)]) + rest.delays;
          delays := delays + [Backoff(retries)];
          retries := retries + 1;
        } else {
          result, made := Err(FinalMessage(m)), retries + 1;
          assert Retry(attempt, retries) == Run(result, []);
          assert delays + [] == delays;
          return;
        }
    }
  }

  /** The same failing status three times: three requests, waits of 1000 and 2000 ms, and the
      exhaustion message carrying the status (a status message never mentions CORS or SSL). */
  lemma StatusErrorsExhaust(attempt: nat -> Attempt, status: nat)
    requires !IsOk(status)
    requires forall k :: 0 <= k <= MaxRetries ==> attempt(k).Response? && attempt(k).status == status
    ensures Retry(attempt, 0) == Run(Err(ExhaustedPrefix + StatusMessage(status)), [1000, 2000])
  {
    var m := StatusMessage(status);
    StatusMessageUnflagged(status);
    assert FinalMessage(m) == ExhaustedPrefix + m;
    assert Retry(attempt, 2) == Run(Err(ExhaustedPrefix + m), []);
    assert Retry(attempt, 1) == Run(Err(ExhaustedPrefix + m), [2000]);
  }

  /** Three requests that each fail with a retryable error: waits of 1000 and 2000 ms, and the
      error classified from the third request's message alone. */
  lemma RetriesExhausted(attempt: nat -> Attempt)
    requires forall k :: 0 <= k <= MaxRetries ==> Classify(attempt(k)).Error?
    ensures Retry(attempt, 0) == Run(Err(FinalMessage(Classify(attempt(MaxRetries)).message)), [1000, 2000])
  {
    var m := Classify(attempt(2)).message;
    assert Classify(attempt(0)).Error? && Classify(attempt(1)).Error? && Classify(attempt(2)).Error?;
    assert Retry(attempt, 2) == Run(Err(FinalMessage(m)), []);
    assert Retry(attempt, 1) == Run(Err(FinalMessage(m)), [2000]);
  }

  /** A last failure mentioning CORS is reported as the CORS error, and one mentioning SSL (but
      not CORS) as the SSL error, whatever the earlier failures were. */
  lemma CorsAndSslReported(attempt: nat -> Attempt, m: string)
    requires forall k :: 0 <= k < MaxRetries ==> Classify(attempt(k)).Error?
    requires attempt(MaxRetries) == Failed(m)
    ensures Contains(m, "CORS") ==> Retry(attempt, 0).result == Err(CorsMessage)
    ensures !Contains(m, "CORS") && Contains(m, "SSL") ==> Retry(attempt, 0).result == Err(SslMessage)
    ensures !Contains(m, "CORS") && !Contains(m, "SSL") ==> Retry(attempt, 0).result == Err(ExhaustedPrefix + m)
  {
    RetriesExhausted(attempt);
  }

  /** A network failure "Failed: CORS" on every request ends in the CORS error. */
  lemma CorsExample(attempt: nat -> Attempt)
    requires forall k :: 0 <= k <= MaxRetries ==> attempt(k) == Failed("Failed: CORS")
    ensures Retry(attempt, 0) == Run(Err(CorsMessage), [1000, 2000])
  {
    var m := "Failed: CORS";
    assert StartsWith(m[8..], "CORS");
    assert Contains(m[7..], "CORS");
    assert Contains(m[6..], "CORS") && Contains(m[5..], "CORS") && Contains(m[4..], "CORS");
    assert Contains(m[3..], "CORS") && Contains(m[2..], "CORS") && Contains(m[1..], "CORS");
    assert Contains(m, "CORS");
    RetriesExhausted(attempt);
  }

  /** A status message contains neither "CORS" nor "SSL". */
  lemma StatusMessageUnflagged(status: nat)
    ensures !Contains(StatusMessage(status), "CORS") && !Contains(StatusMessage(status), "SSL")
  {
    var m := StatusMessage(status);
    var p := "HTTP error! Status: ";
    var d := NatToString(status);
    assert m == p + d;
    assert forall i :: 0 <= i < |m| ==> m[i] == (if i < |p| then p[i] else d[i - |p|]);
    assert forall i :: 0 <= i < |m| ==> m[i] != 'C';
    NotContainsUpper(m, "CORS");
    assert forall i :: 0 <= i < |m| && m[i] == 'S' ==> i == 12;
    NotContainsPair(m, "SSL");
  }

  /** `p` does not occur where its first two characters never stand side by side. */
  lemma {:induction false} NotContainsPair(s: string, p: string)
    requires |p| >= 2
    requires forall i :: 0 <= i < |s| - 1 ==> !(s[i] == p[0] && s[i + 1] == p[1])
    ensures !Contains(s, p)
    decreases |s|
  {
    if s != [] {
      if |p| <= |s| { assert s[..|p|][0] == s[0] && s[..|p|][1] == s[1]; }
      forall i | 0 <= i < |s[1..]| - 1 ensures !(s[1..][i] == p[0] && s[1..][i + 1] == p[1]) {
        assert s[1..][i] == s[i + 1] && s[1..][i + 1] == s[i + 2];
      }
      NotContainsPair(s[1..], p);
    }
  }

  /** `p` does not occur where its first character never does. */
  lemma {:induction false} NotContainsUpper(s: string, p: string)
    requires p != [] && p[0] !in s
    ensures !Contains(s, p)
    decreases |s|
  {
    if s != [] {
      if |p| <= |s| { assert s[..|p|][0] == s[0]; }
      NotContainsUpper(s[1..], p);
    }
  }

  /** A timeout ends the run with the timeout message, whatever later requests would have
      returned, once every earlier request failed with a retryable error; the run waited once
      per earlier request. */
  lemma {:induction false} TimeoutEndsRun(attempt: nat -> Attempt, retries: nat, k: nat)
    requires retries <= k <= MaxRetries && attempt(k) == Aborted
    requires forall j :: retries <= j < k ==> Classify(attempt(j)).Error?
    ensures Retry(attempt, retries) == Run(Err(TimeoutMessage), seq(k - retries, i requires 0 <= i => Backoff(retries + i)))
    decreases k - retries
  {
    if retries < k {
      TimeoutEndsRun(attempt, retries + 1, k);
      var rest := seq(k - retries - 1, i requires 0 <= i => Backoff(retries + 1 + i));
      assert [Backoff(retries)] + rest == seq(k - retries, i requires 0 <= i => Backoff(retries + i));
    } else {
      assert seq(0, i requires 0 <= i => Backoff(retries + i)) == [];
    }
  }

  /** A page with a content type that is not HTML (or no content type at all) is retried like
      any other error: the next request's page is returned after a wait of one second. */
  lemma WrongTypeRetried(attempt: nat -> Attempt, html: string)
    requires attempt(0).Response? && IsOk(attempt(0).status) && !IsHtmlType(attempt(0).contentType)
    requires attempt(1).Response? && IsOk(attempt(1).status) && IsHtmlType(attempt(1).contentType)
    requires attempt(1).body == html
    ensures Retry(attempt, 0) == Run(Ok(html), [1000])
  {
    assert Retry(attempt, 1) == Run(Ok(html), []);
  }
}
