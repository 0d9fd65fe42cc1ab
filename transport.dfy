/**
 * The rate-limited transport (`request_with_rate_limit`): it re-sends the same request while the
 * server answers 429, sleeping for the `Retry-After` header (default 1 second) between tries, and
 * returns the first other reply, raising for a 4xx/5xx status.
 *
 * The network is a script: `replies[k]` is what the server answers to the k-th identical
 * request. Sleeping is recorded as the sequence of durations slept.
 */
module Transport {
  import opened Wrappers
  import opened Text

  /** One HTTP reply: its status and the raw `Retry-After` header, if the server sent one. */
  datatype Reply = Reply(status: int, retryAfter: Option<string>)

  /** What the transport raises. */
  datatype RequestError =
    | ValueError(message: string)  // raised by the transport itself or by `int()` / `time.sleep`
    | HttpError(status: int)       // raised by `raise_for_status()`

  const TooManyRequests := 429
  const DefaultRetryAfter := 1
  const UnsupportedMethodMessage := "Unsupported HTTP method"
  const BadIntegerMessage := "invalid literal for int() with base 10"
  const NegativeSleepMessage := "sleep length must be non-negative"

  /** The two methods the transport accepts. */
  predicate IsSupportedMethod(verb: string) {
    verb == "GET" || verb == "POST"
  }

  /** `raise_for_status()` raises for client and server errors, and only for them. */
  predicate RaisesForStatus(status: int) {
    400 <= status < 600
  }

  /**
   * Python's `int()` on a string: surrounding whitespace, an optional sign, then one or more
   * decimal digits.
   */
  function ParseInt(s: string): (r: Option<int>)
    ensures AllDigits(s) && s != [] ==> r == Some(DigitsValue(s))
    ensures Trim(s) == [] ==> r.None?
  {
    var t := Trim(s);
    assert AllDigits(s) && s != [] ==> t == s by {
      if AllDigits(s) && s != [] {
        TrimDigits(s);
      }
    }
    if t == [] then None
    else
      var neg := t[0] == '-';
      var digits := if t[0] == '-' || t[0] == '+' then t[1..] else t;
      if digits != [] && AllDigits(digits) then
        Some(if neg then 0 - DigitsValue(digits) as int else DigitsValue(digits))
      else None
  }

  /** `int(resp.headers.get("Retry-After", 1))`: the header's integer value, or 1 when absent. */
  function RetryAfterSeconds(reply: Reply): (r: Result<int, RequestError>)
    ensures reply.retryAfter.None? ==> r == Success(DefaultRetryAfter)
    ensures reply.retryAfter.Some? ==> (r.Success? <==> ParseInt(reply.retryAfter.value).Some?)
  {
    match reply.retryAfter
    case None => Success(DefaultRetryAfter)
    case Some(h) =>
      match ParseInt(h)
      case Some(n) => Success(n)
      case None => Failure(ValueError(BadIntegerMessage))
  }

  /** A 429 reply whose header yields a duration `time.sleep` accepts. */
  predicate HasUsableDelay(reply: Reply) {
    RetryAfterSeconds(reply).Success? && RetryAfterSeconds(reply).value >= 0
  }

  /** The server eventually answers with something other than 429. */
  predicate EventuallyServes(replies: seq<Reply>) {
    replies != [] && (replies[0].status != TooManyRequests || EventuallyServes(replies[1..]))
  }

  /** Index of the first reply that is not a 429. */
  function FirstServed(replies: seq<Reply>): (k: nat)
    requires EventuallyServes(replies)
    ensures k < |replies| && replies[k].status != TooManyRequests
    ensures forall j :: 0 <= j < k ==> replies[j].status == TooManyRequests
  {
    if replies[0].status != TooManyRequests then 0
    else
      1 + FirstServed(replies[1..])
  }

  /**
   * What one request through the transport yields for a supported method: the reply or the
   * exception, and the sleeps taken before it.
   */
  function Serve(replies: seq<Reply>): (out: (Result<Reply, RequestError>, seq<int>))
    requires EventuallyServes(replies)
    ensures |out.1| <= FirstServed(replies)
    ensures forall j :: 0 <= j < |out.1| ==> out.1[j] >= 0
    ensures out.0.Success? ==>
      |out.1| == FirstServed(replies) && out.0.value == replies[|out.1|]
      && !RaisesForStatus(out.0.value.status)
  {
    var reply := replies[0];
    if reply.status == TooManyRequests then
      match RetryAfterSeconds(reply)
      case Failure(e) => (Failure(e), [])
      case Success(n) =>
        if n < 0 then (Failure(ValueError(NegativeSleepMessage)), [])
        else
          var rest := Serve(replies[1..]);
          (rest.0, [n] + rest.1)
    else if RaisesForStatus(reply.status) then (Failure(HttpError(reply.status)), [])
    else (Success(reply), [])
  }

  /** `request_with_rate_limit` as a function of the method and the server's script. */
  function Exchange(verb: string, replies: seq<Reply>): (r: (Result<Reply, RequestError>, seq<int>))
    requires EventuallyServes(replies)
    ensures r.0.Success? ==>
      && IsSupportedMethod(verb) && r.0.value == replies[FirstServed(replies)]
      && !RaisesForStatus(r.0.value.status)
    ensures |r.1| <= FirstServed(replies) && forall j :: 0 <= j < |r.1| ==> r.1[j] >= 0
  {
    if !IsSupportedMethod(verb) then (Failure(ValueError(UnsupportedMethodMessage)), [])
    else Serve(replies)
  }

  /** The transport loop: re-send while rate limited, then return or raise. */
  method RequestWithRateLimit(verb: string, replies: seq<Reply>)
    returns (result: Result<Reply, RequestError>, sleeps: seq<int>)
    requires EventuallyServes(replies)
    ensures result == Exchange(verb, replies).0 && sleeps == Exchange(verb, replies).1
  {
    ghost var total := Serve(replies);
    assert IsSupportedMethod(verb) ==> Exchange(verb, replies) == total;
    var i := 0;
    sleeps := [];
    assert replies[i..] == replies;
    while true
      invariant i <= FirstServed(replies)
      invariant EventuallyServes(replies[i..])
      invariant total.0 == Serve(replies[i..]).0 && total.1 == sleeps + Serve(replies[i..]).1
      invariant !IsSupportedMethod(verb) ==> i == 0 && sleeps == []
      decreases |replies| - i
    {
      if verb != "GET" && verb != "POST" {
        return Failure(ValueError(UnsupportedMethodMessage)), [];
      }
      var reply := replies[i];
      ServeStep(replies, i);
      if reply.status == TooManyRequests {
        var delay := RetryAfterSeconds(reply);
        if delay.Failure? {
          assert sleeps + [] == sleeps;
          return Failure(delay.error), sleeps;
        }
        if delay.value < 0 {
          assert sleeps + [] == sleeps;
          return Failure(ValueError(NegativeSleepMessage)), sleeps;
        }
        ghost var rest := Serve(replies[i + 1..]);
        assert sleeps + ([delay.value] + rest.1) == (sleeps + [delay.value]) + rest.1;
        sleeps := sleeps + [delay.value];
        i := i + 1;
        continue;
      }
      assert sleeps + [] == sleeps;
      if RaisesForStatus(reply.status) {
        return Failure(HttpError(reply.status)), sleeps;
      }
      return Success(reply), sleeps;
    }
  }

  /** The reply at position `i` decides what is served from there on, field by field. */
  lemma ServeStep(replies: seq<Reply>, i: nat)
    requires i < |replies| && EventuallyServes(replies[i..])
    ensures var out := Serve(replies[i..]); var reply := replies[i];
      && (reply.status == TooManyRequests ==>
            && (RetryAfterSeconds(reply).Failure? ==> out.0 == Failure(RetryAfterSeconds(reply).error) && out.1 == [])
            && (RetryAfterSeconds(reply).Success? && RetryAfterSeconds(reply).value < 0 ==>
                  out.0 == Failure(ValueError(NegativeSleepMessage)) && out.1 == [])
            && (RetryAfterSeconds(reply).Success? && RetryAfterSeconds(reply).value >= 0 ==>
                  EventuallyServes(replies[i + 1..])
                  && out.0 == Serve(replies[i + 1..]).0
                  && out.1 == [RetryAfterSeconds(reply).value] + Serve(replies[i + 1..]).1))
      && (reply.status != TooManyRequests && RaisesForStatus(reply.status) ==>
            out.0 == Failure(HttpError(reply.status)) && out.1 == [])
      && (reply.status != TooManyRequests && !RaisesForStatus(reply.status) ==>
            out.0 == Success(reply) && out.1 == [])
  {
    assert replies[i..][0] == replies[i] && replies[i..][1..] == replies[i + 1..];
  }

  /**
   * When every 429 before the first other reply carries a usable delay, the transport sleeps once
   * per such 429, for that reply's delay, and then returns or raises on the first other reply.
   */
  lemma {:induction false} ServeSleepsOncePer429(replies: seq<Reply>)
    requires EventuallyServes(replies)
    requires forall j :: 0 <= j < FirstServed(replies) ==> HasUsableDelay(replies[j])
    ensures var out := Serve(replies); var k := FirstServed(replies);
      && |out.1| == k
      && (forall j :: 0 <= j < k ==> RetryAfterSeconds(replies[j]) == Success(out.1[j]))
      && out.0 == (if RaisesForStatus(replies[k].status) then Failure(HttpError(replies[k].status))
                   else Success(replies[k]))
  {
    if replies[0].status == TooManyRequests {
      var tail := replies[1..];
      assert FirstServed(replies) == 1 + FirstServed(tail);
      forall j | 0 <= j < FirstServed(tail) ensures HasUsableDelay(tail[j]) {
        assert tail[j] == replies[j + 1];
      }
      ServeSleepsOncePer429(tail);
    }
  }

  /** A method other than GET or POST raises before any request is sent. */
  lemma UnsupportedMethodRaises(verb: string, replies: seq<Reply>)
    requires EventuallyServes(replies) && !IsSupportedMethod(verb)
    ensures Exchange(verb, replies) == (Failure(ValueError(UnsupportedMethodMessage)), [])
  {
  }

  /** A 429 without `Retry-After` followed by a success: one sleep of one second. */
  lemma DefaultDelayIsOneSecond(verb: string, ok: Reply)
    requires IsSupportedMethod(verb)
    requires ok.status != TooManyRequests && !RaisesForStatus(ok.status)
    ensures Exchange(verb, [Reply(TooManyRequests, None), ok]) == (Success(ok), [DefaultRetryAfter])
  {
    var replies := [Reply(TooManyRequests, None), ok];
    assert replies[1..] == [ok];
    assert Serve([ok]) == (Success(ok), []);
    assert RetryAfterSeconds(replies[0]) == Success(DefaultRetryAfter);
    assert EventuallyServes([ok]);
    assert EventuallyServes(replies);
    assert [DefaultRetryAfter] + [] == [DefaultRetryAfter];
    assert Serve(replies) == (Success(ok), [DefaultRetryAfter]);
  }
}
