/**
 * The HTTP client of the timetable service: the attempt loop of
 * `request_with_retry` as a state machine over a scripted sequence of
 * server replies, and the two request URLs.
 *
 * Status classes follow RFC 9110: 2xx is success (section 15.3), 404 is
 * "Not Found" (section 15.5.5), 5xx is a server error (section 15.6); 429
 * is "Too Many Requests" (RFC 6585 section 4). The back-off sleeps are
 * recorded by their exponent (the attempt number); the polite delay after
 * every request, the semaphore and the floating-point back-off factor are
 * not part of this model.
 */
module Fetcher {
  import opened Wrappers
  import opened Text

  /**
   * What the server does with one GET: an HTTP status with its body (None
   * when the body is not JSON), or a transport failure (connection refused,
   * timeout).
   */
  datatype Reply<J> = Reply(status: int, body: Option<J>) | Transport

  /** The reply to the request with index `i` (from 0); past the script's end the connection fails. */
  function ReplyAt<J>(replies: seq<Reply<J>>, i: nat): Reply<J>
  {
    if i < |replies| then replies[i] else Transport
  }

  /** A 2xx status: the only class `raise_for_status` lets through. */
  predicate IsSuccess(status: int)
  {
    200 <= status < 300
  }

  /** 429 and every 5xx status are retried after a back-off. */
  predicate IsRetryableStatus(status: int)
  {
    status == 429 || 500 <= status < 600
  }

  /** How a call ends: a JSON value is returned, or an exception propagates. */
  datatype Outcome<J> = Returned(value: J) | Raised(error: Error)

  /** The observable trace of one call: its outcome, how many requests it sent and its back-off exponents. */
  datatype Run<J> = Run(outcome: Outcome<J>, attempts: nat, backoffs: seq<nat>)

  /** What one reply means for the loop: the call ends, or the error is recorded and the loop goes on. */
  datatype Step<J> = Finish(outcome: Outcome<J>) | Again(error: Error)

  /**
   * One reply classified. `notFound` is the synthetic
   * `{"status": 404, "message": "Not found"}` as the caller reads it.
   */
  function StepOf<J>(reply: Reply<J>, notFound: J): Step<J>
  {
    match reply
    case Transport => Again(TransportError)
    case Reply(status, body) =>
      if IsSuccess(status) then
        (if body.Some? then Finish(Returned(body.value)) else Again(DecodeError))
      else if status == 404 then Finish(Returned(body.UnwrapOr(notFound)))
      else if IsRetryableStatus(status) then Again(HttpStatusError(status))
      else Finish(Raised(HttpStatusError(status)))
  }

  /** `raise last_exc` with `last_exc` still None raises a TypeError. */
  function RaiseLast(last: Option<Error>): Error
  {
    if last.Some? then last.value else TypeError("exceptions must derive from BaseException")
  }

  /** `max_retries or settings.MAX_RETRIES`: None and 0 both fall back to the configured value. */
  function EffectiveRetries(maxRetries: Option<int>, configured: int): (n: int)
    ensures maxRetries.Some? && maxRetries.value != 0 ==> n == maxRetries.value
    ensures maxRetries.None? || maxRetries.value == 0 ==> n == configured
  {
    if maxRetries.Some? && maxRetries.value != 0 then maxRetries.value else configured
  }

  /** The integers `lo, lo + 1, …, hi - 1`. */
  function Range(lo: nat, hi: nat): (r: seq<nat>)
    ensures |r| == if lo <= hi then hi - lo else 0
    ensures forall i :: 0 <= i < |r| ==> r[i] == lo + i
    decreases hi - lo
  {
    if lo >= hi then [] else [lo] + Range(lo + 1, hi)
  }

  /** `run` with `pre` sleeps in front of its own. */
  function WithBackoffs<J>(pre: seq<nat>, run: Run<J>): Run<J>
  {
    Run(run.outcome, run.attempts, pre + run.backoffs)
  }

  /** The loop from attempt number `attempt` (from 1) on, with `last` the error recorded so far. */
  function Attempts<J>(replies: seq<Reply<J>>, attempt: nat, limit: int, notFound: J, last: Option<Error>): Run<J>
    requires attempt >= 1
    decreases if attempt <= limit then limit - attempt + 1 else 0
  {
    if attempt > limit then Run(Raised(RaiseLast(last)), attempt - 1, [])
    else
      match StepOf(ReplyAt(replies, attempt - 1), notFound)
      case Finish(o) => Run(o, attempt, [])
      case Again(e) => WithBackoffs([attempt], Attempts(replies, attempt + 1, limit, notFound, Some(e)))
  }

  /** The whole call with `limit` attempts allowed. */
  function Retry<J>(replies: seq<Reply<J>>, limit: int, notFound: J): Run<J>
  {
    Attempts(replies, 1, limit, notFound, None)
  }

  /** An attempt within the limit whose reply ends the call. */
  lemma StepFinish<J>(replies: seq<Reply<J>>, attempt: nat, limit: int, notFound: J, last: Option<Error>, pre: seq<nat>, o: Outcome<J>)
    requires 1 <= attempt <= limit && StepOf(ReplyAt(replies, attempt - 1), notFound) == Finish(o)
    ensures WithBackoffs(pre, Attempts(replies, attempt, limit, notFound, last)) == Run(o, attempt, pre)
  {
  }

  /** An attempt within the limit whose reply is retried after a back-off. */
  lemma StepAgain<J>(replies: seq<Reply<J>>, attempt: nat, limit: int, notFound: J, last: Option<Error>, pre: seq<nat>, e: Error)
    requires 1 <= attempt <= limit && StepOf(ReplyAt(replies, attempt - 1), notFound) == Again(e)
    ensures WithBackoffs(pre, Attempts(replies, attempt, limit, notFound, last))
      == WithBackoffs(pre + [attempt], Attempts(replies, attempt + 1, limit, notFound, Some(e)))
  {
    assert pre + ([attempt] + Attempts(replies, attempt + 1, limit, notFound, Some(e)).backoffs)
      == (pre + [attempt]) + Attempts(replies, attempt + 1, limit, notFound, Some(e)).backoffs;
  }

  /** `request_with_retry`: the attempt loop as the client runs it. */
  method RequestWithRetry<J>(replies: seq<Reply<J>>, maxRetries: Option<int>, configured: int, notFound: J)
    returns (run: Run<J>)
    ensures run == Retry(replies, EffectiveRetries(maxRetries, configured), notFound)
  {
    var limit := EffectiveRetries(maxRetries, configured);
    var last: Option<Error> := None;
    var backoffs: seq<nat> := [];
    var attempt := 1;
    while attempt <= limit
      invariant attempt >= 1
      invariant Retry(replies, limit, notFound) == WithBackoffs(backoffs, Attempts(replies, attempt, limit, notFound, last))
      decreases limit - attempt + 1
    {
      var reply := ReplyAt(replies, attempt - 1);
      if reply.Transport? {
        StepAgain(replies, attempt, limit, notFound, last, backoffs, TransportError);
        last := Some(TransportError);
        backoffs := backoffs + [attempt];
      } else if IsSuccess(reply.status) {
        if reply.body.Some? {
          StepFinish(replies, attempt, limit, notFound, last, backoffs, Returned(reply.body.value));
          return Run(Returned(reply.body.value), attempt, backoffs);
        }
        StepAgain(replies, attempt, limit, notFound, last, backoffs, DecodeError);
        last := Some(DecodeError);
        backoffs := backoffs + [attempt];
      } else if reply.status == 404 {
        if reply.body.Some? {
          StepFinish(replies, attempt, limit, notFound, last, backoffs, Returned(reply.body.value));
          return Run(Returned(reply.body.value), attempt, backoffs);
        }
        StepFinish(replies, attempt, limit, notFound, last, backoffs, Returned(notFound));
        return Run(Returned(notFound), attempt, backoffs);
      } else if reply.status == 429 {
        StepAgain(replies, attempt, limit, notFound, last, backoffs, HttpStatusError(reply.status));
        backoffs := backoffs + [attempt];
        last := Some(HttpStatusError(reply.status));
      } else {
        if 500 <= reply.status < 600 {
          StepAgain(replies, attempt, limit, notFound, last, backoffs, HttpStatusError(reply.status));
          last := Some(HttpStatusError(reply.status));
          backoffs := backoffs + [attempt];
        } else {
          StepFinish(replies, attempt, limit, notFound, last, backoffs, Raised(HttpStatusError(reply.status)));
          last := Some(HttpStatusError(reply.status));
          return Run(Raised(HttpStatusError(reply.status)), attempt, backoffs);
        }
      }
      attempt := attempt + 1;
    }
    run := Run(Raised(RaiseLast(last)), attempt - 1, backoffs);
  }

  /** Attempts are numbered from `attempt`, never exceed the limit, and each retried one slept once. */
  lemma {:induction false} AttemptsBounds<J>(replies: seq<Reply<J>>, attempt: nat, limit: int, notFound: J, last: Option<Error>)
    requires attempt >= 1
    ensures var run := Attempts(replies, attempt, limit, notFound, last);
      attempt - 1 <= run.attempts <= (if limit >= attempt then limit else attempt - 1)
      && run.backoffs == Range(attempt, attempt + |run.backoffs|)
      && |run.backoffs| <= run.attempts - attempt + 1
    decreases if attempt <= limit then limit - attempt + 1 else 0
  {
    if attempt <= limit {
      match StepOf(ReplyAt(replies, attempt - 1), notFound)
      case Finish(o) =>
      case Again(e) =>
        AttemptsBounds(replies, attempt + 1, limit, notFound, Some(e));
    }
  }

  /**
   * At most `limit` requests are sent (none when the limit is not positive),
   * and the back-off exponents are 1, 2, … up to the last retried attempt.
   */
  lemma RetryBounds<J>(replies: seq<Reply<J>>, limit: int, notFound: J)
    ensures var run := Retry(replies, limit, notFound);
      run.attempts <= (if limit >= 1 then limit else 0)
      && run.backoffs == Range(1, |run.backoffs| + 1)
      && |run.backoffs| <= run.attempts
  {
    AttemptsBounds(replies, 1, limit, notFound, None);
  }

  /** With a limit of zero or less the loop never runs and `raise None` is a TypeError. */
  lemma NoAttempts<J>(replies: seq<Reply<J>>, limit: int, notFound: J)
    requires limit <= 0
    ensures Retry(replies, limit, notFound) == Run(Raised(TypeError("exceptions must derive from BaseException")), 0, [])
  {
  }

  lemma {:induction false} DecisiveFrom<J>(replies: seq<Reply<J>>, attempt: nat, limit: int, notFound: J, last: Option<Error>, k: nat)
    requires 1 <= attempt <= k + 1 <= limit
    requires forall j :: attempt - 1 <= j < k ==> StepOf(ReplyAt(replies, j), notFound).Again?
    requires StepOf(ReplyAt(replies, k), notFound).Finish?
    ensures Attempts(replies, attempt, limit, notFound, last)
      == Run(StepOf(ReplyAt(replies, k), notFound).outcome, k + 1, Range(attempt, k + 1))
    decreases k + 1 - attempt
  {
    if attempt <= k {
      var e := StepOf(ReplyAt(replies, attempt - 1), notFound).error;
      DecisiveFrom(replies, attempt + 1, limit, notFound, Some(e), k);
    }
  }

  /**
   * When request `k` (from 0, within the limit) is the first whose reply ends
   * the call (a 2xx with a JSON body, a 404, or a status that is not retried),
   * the call ends there with that reply's outcome, after exactly `k` back-off
   * sleeps with exponents 1..k; nothing is slept for the deciding reply.
   */
  lemma DecisiveAttempt<J>(replies: seq<Reply<J>>, limit: int, notFound: J, k: nat)
    requires k < limit
    requires forall j :: 0 <= j < k ==> StepOf(ReplyAt(replies, j), notFound).Again?
    requires StepOf(ReplyAt(replies, k), notFound).Finish?
    ensures Retry(replies, limit, notFound) == Run(StepOf(ReplyAt(replies, k), notFound).outcome, k + 1, Range(1, k + 1))
  {
    DecisiveFrom(replies, 1, limit, notFound, None, k);
  }

  lemma {:induction false} ExhaustedFrom<J>(replies: seq<Reply<J>>, attempt: nat, limit: int, notFound: J, last: Option<Error>)
    requires 1 <= attempt <= limit
    requires forall j :: attempt - 1 <= j < limit ==> StepOf(ReplyAt(replies, j), notFound).Again?
    ensures Attempts(replies, attempt, limit, notFound, last)
      == Run(Raised(StepOf(ReplyAt(replies, limit - 1), notFound).error), limit, Range(attempt, limit + 1))
    decreases limit - attempt
  {
    var e := StepOf(ReplyAt(replies, attempt - 1), notFound).error;
    if attempt < limit {
      ExhaustedFrom(replies, attempt + 1, limit, notFound, Some(e));
    }
  }

  /**
   * When every allowed attempt fails in a retried way (transport error, a 2xx
   * body that is not JSON, 429, 5xx), all `limit` requests are sent, each is
   * followed by a back-off, and the error of the last one is raised.
   */
  lemma Exhausted<J>(replies: seq<Reply<J>>, limit: int, notFound: J)
    requires limit >= 1
    requires forall j :: 0 <= j < limit ==> StepOf(ReplyAt(replies, j), notFound).Again?
    ensures Retry(replies, limit, notFound)
      == Run(Raised(StepOf(ReplyAt(replies, limit - 1), notFound).error), limit, Range(1, limit + 1))
  {
    ExhaustedFrom(replies, 1, limit, notFound, None);
  }

  lemma {:induction false} OutcomeFrom<J>(replies: seq<Reply<J>>, attempt: nat, limit: int, notFound: J, last: Option<Error>)
    requires attempt >= 1
    ensures var run := Attempts(replies, attempt, limit, notFound, last);
      (forall j :: attempt - 1 <= j < run.attempts - 1 ==> StepOf(ReplyAt(replies, j), notFound).Again?)
      && (run.outcome.Returned? ==>
            run.attempts >= attempt && StepOf(ReplyAt(replies, run.attempts - 1), notFound) == Finish(run.outcome))
    decreases if attempt <= limit then limit - attempt + 1 else 0
  {
    if attempt <= limit {
      match StepOf(ReplyAt(replies, attempt - 1), notFound)
      case Finish(o) =>
      case Again(e) =>
        OutcomeFrom(replies, attempt + 1, limit, notFound, Some(e));
    }
  }

  /**
   * The converse: every request before the last one failed in a retried way,
   * and a returned value comes from the last reply, which was either a 2xx
   * with a JSON body or a 404 (its body, or the synthetic "Not found").
   */
  lemma RetryOutcome<J>(replies: seq<Reply<J>>, limit: int, notFound: J)
    ensures var run := Retry(replies, limit, notFound);
      (forall j :: 0 <= j < run.attempts - 1 ==> StepOf(ReplyAt(replies, j), notFound).Again?)
      && (run.outcome.Returned? ==>
            run.attempts >= 1
            && var r := ReplyAt(replies, run.attempts - 1);
            r.Reply? && ((IsSuccess(r.status) && r.body == Some(run.outcome.value))
                         || (r.status == 404 && run.outcome.value == r.body.UnwrapOr(notFound))))
  {
    OutcomeFrom(replies, 1, limit, notFound, None);
  }

  // ---------------------------------------------------------------------
  // URLs
  // ---------------------------------------------------------------------

  /** The characters `quote` never encodes. */
  predicate IsUnreserved(c: char)
  {
    ('A' <= c <= 'Z') || ('a' <= c <= 'z') || ('0' <= c <= '9') || c == '_' || c == '.' || c == '-' || c == '~'
  }

  function HexDigit(d: nat): (c: char)
    requires d < 16
  {
    "0123456789ABCDEF"[d]
  }

  predicate IsHexDigit(c: char)
  {
    ('0' <= c <= '9') || ('A' <= c <= 'F')
  }

  lemma HexDigitRoundTrip(d: nat)
    requires d < 16
    ensures IsHexDigit(HexDigit(d)) && HexValue(HexDigit(d)) == d
  {
    var digits := "0123456789ABCDEF";
    assert forall i :: 0 <= i < 10 ==> digits[i] as int == '0' as int + i;
    assert forall i :: 10 <= i < 16 ==> digits[i] as int == 'A' as int + i - 10;
  }

  function HexValue(c: char): (d: nat)
    requires IsHexDigit(c)
    ensures d < 16 && HexDigit(d) == c
  {
    if c <= '9' then c as int - '0' as int else c as int - 'A' as int + 10
  }

  /** `%XX` for every byte, with upper-case hex digits. */
  function PercentBytes(bs: seq<byte>): (r: string)
    ensures |r| == 3 * |bs|
  {
    if bs == [] then [] else ['%', HexDigit(bs[0] as int / 16), HexDigit(bs[0] as int % 16)] + PercentBytes(bs[1..])
  }

  function QuoteChar(c: char): string
  {
    if IsUnreserved(c) then [c] else if c == ' ' then "+" else PercentBytes(Utf8Char(c))
  }

  /** `quote_plus(s, safe='')`: UTF-8 percent-encoding with spaces as `+`. */
  function QuotePlus(s: string): (q: string)
    ensures forall c :: c in q ==> IsUnreserved(c) || c == '+' || c == '%'
  {
    if s == [] then [] else
      var head := QuoteChar(s[0]);
      assert forall c :: c in head ==> IsUnreserved(c) || c == '+' || c == '%' by {
        if !IsUnreserved(s[0]) && s[0] != ' ' {
          PercentBytesAlphabet(Utf8Char(s[0]));
        }
      }
      head + QuotePlus(s[1..])
  }

  lemma {:induction false} PercentBytesAlphabet(bs: seq<byte>)
    ensures forall c :: c in PercentBytes(bs) ==> IsUnreserved(c) || c == '%'
  {
    if bs != [] {
      PercentBytesAlphabet(bs[1..]);
    }
  }

  /** `unquote_to_bytes` after `+` is read as a space: the decoding a server applies to a query value. */
  function UnquotePlus(q: string): seq<byte>
    decreases |q|
  {
    if q == [] then []
    else if q[0] == '%' && |q| >= 3 && IsHexDigit(q[1]) && IsHexDigit(q[2]) then
      [(16 * HexValue(q[1]) + HexValue(q[2])) as byte] + UnquotePlus(q[3..])
    else if q[0] == '+' then [0x20 as byte] + UnquotePlus(q[1..])
    else [(q[0] as int % 256) as byte] + UnquotePlus(q[1..])
  }

  lemma UnquoteEscape(b: byte, tail: string)
    ensures UnquotePlus(['%', HexDigit(b as int / 16), HexDigit(b as int % 16)] + tail) == [b] + UnquotePlus(tail)
  {
    var q := ['%', HexDigit(b as int / 16), HexDigit(b as int % 16)] + tail;
    HexDigitRoundTrip(b as int / 16);
    HexDigitRoundTrip(b as int % 16);
    assert q[3..] == tail;
    assert 16 * HexValue(q[1]) + HexValue(q[2]) == b as int;
  }

  lemma {:induction false} UnquotePercent(bs: seq<byte>, rest: string)
    ensures UnquotePlus(PercentBytes(bs) + rest) == bs + UnquotePlus(rest)
  {
    if bs == [] {
      assert PercentBytes(bs) + rest == rest;
    } else {
      var b := bs[0];
      var tail := PercentBytes(bs[1..]) + rest;
      var esc := ['%', HexDigit(b as int / 16), HexDigit(b as int % 16)];
      assert PercentBytes(bs) + rest == esc + tail;
      var u := UnquotePlus(rest);
      calc {
        UnquotePlus(PercentBytes(bs) + rest);
        UnquotePlus(esc + tail);
        { UnquoteEscape(b, tail); }
        [b] + UnquotePlus(tail);
        { UnquotePercent(bs[1..], rest); }
        [b] + (bs[1..] + u);
        { assert bs == [b] + bs[1..]; }
        bs + u;
      }
    }
  }

  lemma UnquoteChar(c: char, rest: string)
    ensures UnquotePlus(QuoteChar(c) + rest) == Utf8Char(c) + UnquotePlus(rest)
  {
    if IsUnreserved(c) {
      assert ([c] + rest)[1..] == rest;
    } else if c == ' ' {
      assert ("+" + rest)[1..] == rest;
    } else {
      UnquotePercent(Utf8Char(c), rest);
    }
  }

  /** The group name survives the trip through the URL: the server decodes exactly its UTF-8 bytes. */
  lemma {:induction false} QuotePlusRoundTrip(s: string)
    ensures UnquotePlus(QuotePlus(s)) == Utf8(s)
  {
    if s != [] {
      QuotePlusRoundTrip(s[1..]);
      UnquoteChar(s[0], QuotePlus(s[1..]));
    }
  }

  /** `TimetableClient`: the base URL and the configured retry count. */
  class TimetableClient {
    const base: string
    const configuredRetries: int

    /** `base_url or settings.TIMETABLE_API_BASE`. */
    constructor(baseUrl: Option<string>, defaultBase: string, configuredRetries: int)
      ensures base == (if baseUrl.Some? && baseUrl.value != "" then baseUrl.value else defaultBase)
      ensures this.configuredRetries == configuredRetries
    {
      base := if baseUrl.Some? && baseUrl.value != "" then baseUrl.value else defaultBase;
      this.configuredRetries := configuredRetries;
    }

    /** The catalogue URL of `fetch_groups`. */
    function GroupsUrl(): (url: string)
    {
      base + "/groups"
    }

    /** The timetable URL of `fetch_timetable_for_group`. */
    function TimetableUrl(groupName: string, typeIdx: int): (url: string)
    {
      base + "/timetable?group_name=" + QuotePlus(groupName) + "&type=" + IntToString(typeIdx)
    }

    /**
     * `fetch_groups`: one retrying GET of the catalogue URL; `server` gives
     * the replies the server sends to each URL, in order.
     */
    method FetchGroups<J>(server: string -> seq<Reply<J>>, notFound: J) returns (run: Run<J>)
      ensures run == Retry(server(GroupsUrl()), configuredRetries, notFound)
    {
      run := RequestWithRetry(server(GroupsUrl()), None, configuredRetries, notFound);
    }

    /** `fetch_timetable_for_group`. */
    method FetchTimetableForGroup<J>(server: string -> seq<Reply<J>>, groupName: string, typeIdx: int, notFound: J)
      returns (run: Run<J>)
      ensures run == Retry(server(TimetableUrl(groupName, typeIdx)), configuredRetries, notFound)
    {
      run := RequestWithRetry(server(TimetableUrl(groupName, typeIdx)), None, configuredRetries, notFound);
    }

    /**
     * The timetable URL is the base, the path and two query parameters; the
     * encoded name holds no `&`, `=`, `?` or `#`, so the name cannot spill
     * into the `type` parameter, and it decodes back to the name's UTF-8 bytes.
     */
    lemma TimetableUrlShape(groupName: string, typeIdx: int)
      ensures var q := QuotePlus(groupName);
        TimetableUrl(groupName, typeIdx) == base + "/timetable?group_name=" + q + "&type=" + IntToString(typeIdx)
        && '&' !in q && '=' !in q && '?' !in q && '#' !in q
        && UnquotePlus(q) == Utf8(groupName)
    {
      var q := QuotePlus(groupName);
      assert '&' !in q && '=' !in q && '?' !in q && '#' !in q by {
        forall c | c in q ensures c != '&' && c != '=' && c != '?' && c != '#' {
          assert IsUnreserved(c) || c == '+' || c == '%';
        }
      }
      QuotePlusRoundTrip(groupName);
    }
  }
}
