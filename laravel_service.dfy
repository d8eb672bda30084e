/** `fetchLatestArticle` of the automation script's Laravel client: ask the API for the oldest
    unprocessed article, retrying while the server refuses connections. The HTTP client is an
    abstract input giving the outcome of each request in turn; waiting is counted, not done. */
module LaravelService {
  import opened Wrappers
  import opened Seqs

  /** The default of the `retries` parameter. */
  const DefaultRetries: int := 5
  const Refused: string := "ECONNREFUSED"
  const NotFoundStatus: int := 404

  /** One `GET /articles/latest/ungenerated`: a response whose body's `success` is truthy or not,
      with the body's `data`; or an axios error with its `code`, the status of its response (if
      it has one) and its message. */
  datatype Reply<D> =
    | Answered(success: bool, data: D)
    | Failed(code: Option<string>, status: Option<int>, message: string)

  /** How the call ends: it returns the article or `null`, or throws one of its two errors. */
  datatype Ending<D> =
    | Returned(article: Option<D>)
    | FetchFailed(cause: string)  // `Failed to fetch article: ${error.message}`
    | RetriesExceeded             // `Failed to fetch article: max retries exceeded`

  function Message<D>(e: Ending<D>): Option<string> {
    match e
    case Returned(_) => None
    case FetchFailed(cause) => Some("Failed to fetch article: " + cause)
    case RetriesExceeded => Some("Failed to fetch article: max retries exceeded")
  }

  /** The ending, the number of requests sent and the milliseconds waited. */
  datatype Run<D> = Run(ending: Ending<D>, requests: nat, waitedMs: nat)

  /** A failure the loop retries when attempts are left: a refused connection without a 404. */
  predicate RefusedConnection<D>(r: Reply<D>) {
    r.Failed? && r.status != Some(NotFoundStatus) && r.code == Some(Refused)
  }

  /** The loop from the state where `attempt` failures have been counted; the next request is the
      `attempt + 1`-th, whose outcome is `reply(attempt + 1)`. */
  function Attempts<D>(reply: nat -> Reply<D>, retries: int, attempt: nat): (run: Run<D>)
    ensures attempt >= retries ==> run.requests == 0
    ensures attempt < retries ==> 1 <= run.requests <= retries - attempt
    decreases retries - attempt
  {
    if attempt >= retries then Run(RetriesExceeded, 0, 0)
    else
      match reply(attempt + 1)
      case Answered(success, data) => Run(Returned(if success then Some(data) else None), 1, 0)
      case Failed(code, status, message) =>
        var n := attempt + 1;
        if status == Some(NotFoundStatus) then Run(Returned(None), 1, 0)
        else if code == Some(Refused) && n < retries then
          var rest := Attempts(reply, retries, n);
          Run(rest.ending, rest.requests + 1, rest.waitedMs + 1000 * n)
        else Run(FetchFailed(message), 1, 0)
  }

  function SumTo(n: nat): nat {
    if n == 0 then 0 else n + SumTo(n - 1)
  }

  /** From `attempt` on, with attempts left: the loop sends requests `attempt + 1` to `last`
      (never past `retries`); every one before `last` was a refused connection; the ending is
      decided by request `last` alone (the article or `null` for a response, `null` for a 404,
      a throw for any other failure, which is a refused connection only when no attempt is
      left); and after the refusal counted as failure `n` it waited `1000 * n` ms. With no
      attempt left, nothing is sent and the loop's exit throws. */
  lemma {:induction false} AttemptsCharacterized<D>(reply: nat -> Reply<D>, retries: int, attempt: nat)
    ensures attempt >= retries ==> Attempts(reply, retries, attempt) == Run(RetriesExceeded, 0, 0)
    ensures attempt < retries ==>
              var r := Attempts(reply, retries, attempt);
              var last := attempt + r.requests;
              && r.requests >= 1 && last <= retries
              && (forall k :: attempt < k < last ==> RefusedConnection(reply(k)))
              && (reply(last).Answered? ==>
                    r.ending == Returned(if reply(last).success then Some(reply(last).data) else None))
              && (reply(last).Failed? && reply(last).status == Some(NotFoundStatus) ==> r.ending == Returned(None))
              && (reply(last).Failed? && reply(last).status != Some(NotFoundStatus) ==>
                    && r.ending == FetchFailed(reply(last).message)
                    && (RefusedConnection(reply(last)) ==> last == retries))
              && r.waitedMs + 1000 * SumTo(attempt) == 1000 * SumTo(last - 1)
    decreases retries - attempt
  {
    if attempt < retries {
      var n := attempt + 1;
      if RefusedConnection(reply(n)) && n < retries {
        AttemptsCharacterized(reply, retries, n);
      }
    }
  }

  /** What the caller can rely on: at most `retries` requests; the first request's response or
      404 ends the call at once; and the "max retries exceeded" error is thrown exactly when
      `retries` allows no request at all. */
  lemma FetchLatestContract<D>(reply: nat -> Reply<D>, retries: int)
    ensures var r := Attempts(reply, retries, 0);
            && r.requests <= Max(0, retries)
            && (r.ending == RetriesExceeded <==> retries <= 0)
            && (retries >= 1 && reply(1).Answered? ==>
                  r == Run(Returned(if reply(1).success then Some(reply(1).data) else None), 1, 0))
            && (retries >= 1 && reply(1).Failed? && reply(1).status == Some(NotFoundStatus) ==> r == Run(Returned(None), 1, 0))
  {
    AttemptsCharacterized(reply, retries, 0);
  }

  /** Three refused connections with `retries` = 3 wait 1000 + 2000 ms and then throw the third
      refusal. */
  lemma ThreeRefusals<D>(reply: nat -> Reply<D>)
    requires RefusedConnection(reply(1)) && RefusedConnection(reply(2)) && RefusedConnection(reply(3))
    ensures var r := Attempts(reply, 3, 0);
            r.requests == 3 && r.waitedMs == 3000 && r.ending == FetchFailed(reply(3).message)
  {
    AttemptsCharacterized(reply, 3, 0);
    assert SumTo(2) == 3;
  }

  /** `fetchLatestArticle(retries)`: the `while (attempt < retries)` loop with its `try`/`catch`. */
  method FetchLatestArticle<D>(reply: nat -> Reply<D>, retries: int) returns (ending: Ending<D>, requests: nat, waitedMs: nat)
    ensures Run(ending, requests, waitedMs) == Attempts(reply, retries, 0)
  {
    var attempt: nat := 0;
    requests, waitedMs := 0, 0;
    while attempt < retries
      invariant requests == attempt
      invariant var rest := Attempts(reply, retries, attempt);
                Attempts(reply, retries, 0) == Run(rest.ending, rest.requests + requests, rest.waitedMs + waitedMs)
      decreases retries - attempt
    {
      var response := reply(requests + 1);
      requests := requests + 1;
      if response.Answered? {
        if response.success {
          return Returned(Some(response.data)), requests, waitedMs;
        }
        // "Laravel returned success:false"
        return Returned(None), requests, waitedMs;
      }
      attempt := attempt + 1;
      if response.status == Some(NotFoundStatus) {
        // "No ungenerated articles available"
        return Returned(None), requests, waitedMs;
      }
      if response.code == Some(Refused) && attempt < retries {
        waitedMs := waitedMs + 1000 * attempt;
        continue;
      }
      return FetchFailed(response.message), requests, waitedMs;
    }
    ending := RetriesExceeded;
  }
}
