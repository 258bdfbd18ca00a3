/** The probe `check_email`: up to `max_retries` requests, the first
    response classified by a marker text, transport failures retried.
    The network is an oracle: the sequence of answers the attempts would
    get, in order, each either a response body or a `TransportError`,
    which stands for any `requests.exceptions.RequestException` (connection
    errors, timeouts, too many redirects and the rest of that family). */
module Probe {
  import opened Outcomes
  import Text

  /** What one request attempt gets back: a response, whatever its status
      code, or a `RequestException` of any kind. */
  datatype Attempt = Response(body: string) | TransportError

  /** What `check_email` returns (`None` when the loop runs zero times) and
      how many attempts it made. */
  datatype ProbeRun = ProbeRun(result: Option<Outcome>, attempts: nat)

  /** The checker's `max_retries`: total attempts, not extra ones. */
  const MaxRetries: int := 2

  /** The text whose presence marks the signup prompt. */
  const Marker: string := "Create account"

  /** The classification rule: a body showing the signup prompt means the
      address is not registered. */
  function Classify(body: string): (o: Outcome)
    ensures o == Valid || o == Invalid
    ensures o == Invalid <==> exists i :: Text.OccursAt(body, Marker, i)
  {
    if Text.Contains(body, Marker) then Invalid else Valid
  }

  /** Index of the first response among the first `n` answers. */
  function FirstResponse(answers: seq<Attempt>, n: nat): (r: Option<nat>)
    requires n <= |answers|
    ensures r.Some? ==> r.value < n && answers[r.value].Response?
    ensures r.Some? ==> forall j :: 0 <= j < r.value ==> answers[j].TransportError?
    ensures r.None? ==> forall j :: 0 <= j < n ==> answers[j].TransportError?
  {
    if n == 0 then None
    else match FirstResponse(answers, n - 1)
      case Some(i) => Some(i)
      case None => if answers[n - 1].Response? then Some(n - 1) else None
  }

  /** The probe's result stated without the loop: nothing when no attempt is
      allowed; otherwise the classification of the first response within the
      allowed attempts, made by the attempt that got it; otherwise `Failed`
      once every allowed attempt has failed. */
  function Expected(answers: seq<Attempt>, maxRetries: int): ProbeRun
    requires maxRetries <= |answers|
  {
    if maxRetries <= 0 then ProbeRun(None, 0)
    else match FirstResponse(answers, maxRetries)
      case Some(i) => ProbeRun(Some(Classify(answers[i].body)), i + 1)
      case None => ProbeRun(Some(Failed), maxRetries)
  }

  /** `check_email` with the request replaced by the oracle `answers`; the
      network answers every attempt, so there is an answer for each one. */
  method CheckEmail(answers: seq<Attempt>, maxRetries: int) returns (run: ProbeRun)
    requires maxRetries <= |answers|
    ensures run == Expected(answers, maxRetries)
    ensures maxRetries <= 0 ==> run == ProbeRun(None, 0)
    ensures maxRetries >= 1 ==> run.result.Some? && 1 <= run.attempts <= maxRetries
    ensures run.result != Some(Skipped)
    // no attempt follows a response
    ensures forall j :: 0 <= j < run.attempts - 1 ==> answers[j].TransportError?
    ensures run.result == Some(Failed) <==>
              maxRetries >= 1 && forall j :: 0 <= j < maxRetries ==> answers[j].TransportError?
    ensures run.result == Some(Failed) ==> run.attempts == maxRetries
    ensures run.result == Some(Valid) || run.result == Some(Invalid) ==>
              answers[run.attempts - 1].Response?
              && run.result == Some(Classify(answers[run.attempts - 1].body))
  {
    var attempt := 0;
    while attempt < maxRetries
      invariant 0 <= attempt
      invariant maxRetries >= 1 ==> attempt < maxRetries
      invariant maxRetries <= 0 ==> attempt == 0
      invariant forall j :: 0 <= j < attempt ==> answers[j].TransportError?
      invariant FirstResponse(answers, attempt) == None
      decreases maxRetries - attempt
    {
      FirstResponseExtends(answers, attempt + 1, maxRetries);
      match answers[attempt]
      case Response(body) =>
        return ProbeRun(Some(Classify(body)), attempt + 1);
      case TransportError =>
        if attempt == maxRetries - 1 {
          return ProbeRun(Some(Failed), attempt + 1);
        }
      attempt := attempt + 1;
    }
    return ProbeRun(None, 0);
  }

  /** The probe at the checker's own setting of two attempts: a response to
      the first attempt settles it after one attempt; a transport error
      followed by a response settles it after two; two transport errors give
      `failed` after exactly two attempts. */
  lemma ProbeAtMaxRetries(answers: seq<Attempt>)
    requires MaxRetries <= |answers|
    ensures answers[0].Response? ==>
              Expected(answers, MaxRetries) == ProbeRun(Some(Classify(answers[0].body)), 1)
    ensures answers[0].TransportError? && answers[1].Response? ==>
              Expected(answers, MaxRetries) == ProbeRun(Some(Classify(answers[1].body)), 2)
    ensures answers[0].TransportError? && answers[1].TransportError? ==>
              Expected(answers, MaxRetries) == ProbeRun(Some(Failed), 2)
  {
    assert FirstResponse(answers, 1) == (if answers[0].Response? then Some(0) else None);
  }

  /** A first response found among fewer answers stays the first one when
      more answers are looked at; with none found, only the later ones can
      supply it. */
  lemma {:induction false} FirstResponseExtends(answers: seq<Attempt>, n: nat, m: nat)
    requires n <= m <= |answers|
    ensures FirstResponse(answers, n).Some? ==> FirstResponse(answers, m) == FirstResponse(answers, n)
    decreases m - n
  {
    if n < m {
      FirstResponseExtends(answers, n + 1, m);
    }
  }
}
