/** The retry loop of `login_with_cookie`. The browser is an oracle: attempt
    `k` either lands on a URL or raises. The loop stops at the first attempt
    whose URL is not a login page, and it records the pause it would sleep
    after each failed attempt except the last. */
module Login {
  import opened Text
  import Cookies

  /** A landing URL that contains this text means the session was rejected. */
  const LoginMarker: string := "/login"
  /** The default of `login_with_cookie`'s `max_retries` parameter. */
  const DefaultMaxRetries: int := 2

  /** What the guarded part of one attempt (go to the dashboard, settle, read
      the URL) ends in: the URL it landed on, or an exception it raised. */
  datatype Attempt = Landed(url: string) | Raised

  /** The attempt reached the dashboard: it did not raise, and `/login` occurs
      nowhere in the URL it landed on. A raised exception is a failed attempt. */
  predicate Succeeds(a: Attempt)
    ensures Succeeds(a) <==> a.Landed? && forall i :: !SliceAt(a.url, LoginMarker, i)
  {
    a.Landed? && !Contains(a.url, LoginMarker)
  }

  /** `len(range(max_retries + 1))`: zero when `max_retries` is negative. */
  function AttemptBudget(maxRetries: int): nat {
    if maxRetries < 0 then 0 else maxRetries + 1
  }

  /** The seconds slept after failed attempt `attempt` (0-based). */
  function Pause(attempt: nat): nat {
    5 * (attempt + 1)
  }

  /** `login_with_cookie(context, cookie_string, max_retries)`. `outcomes[k]`
      is what attempt `k` ends in. Returns the cookies installed in the
      context, whether the login succeeded, how many attempts ran and the
      pauses slept between them, in order. */
  method LoginWithCookie(cookieString: string, outcomes: seq<Attempt>, maxRetries: int)
    returns (installed: seq<Cookies.Cookie>, success: bool, attempts: nat, pauses: seq<nat>)
    requires |outcomes| >= AttemptBudget(maxRetries)
    ensures installed == Cookies.Parse(cookieString)
    ensures attempts <= AttemptBudget(maxRetries)
    ensures success <==> exists k :: 0 <= k < AttemptBudget(maxRetries) && Succeeds(outcomes[k])
    ensures success ==> attempts > 0 && Succeeds(outcomes[attempts - 1])
    ensures forall k :: 0 <= k < attempts - 1 ==> !Succeeds(outcomes[k])
    ensures !success ==> attempts == AttemptBudget(maxRetries) &&
                         forall k :: 0 <= k < attempts ==> !Succeeds(outcomes[k])
    ensures |pauses| == if attempts == 0 then 0 else attempts - 1
    ensures forall k :: 0 <= k < |pauses| ==> pauses[k] == Pause(k)
    ensures !success ==> |pauses| == (if maxRetries < 0 then 0 else maxRetries) &&
                         Total(pauses) == 5 * |pauses| * (|pauses| + 1) / 2
  {
    installed := Cookies.ParseCookies(cookieString);
    var budget := AttemptBudget(maxRetries);
    pauses := [];
    var attempt := 0;
    while attempt < budget
      invariant 0 <= attempt <= budget
      invariant forall k :: 0 <= k < attempt ==> !Succeeds(outcomes[k])
      invariant |pauses| == if 0 < attempt == budget then attempt - 1 else attempt
      invariant forall k :: 0 <= k < |pauses| ==> pauses[k] == Pause(k)
    {
      if Succeeds(outcomes[attempt]) {
        return installed, true, attempt + 1, pauses;
      }
      if attempt < maxRetries {
        pauses := pauses + [Pause(attempt)];
      }
      attempt := attempt + 1;
    }
    TotalPause(pauses);
    return installed, false, budget, pauses;
  }

  /** The total of a run of pauses. */
  function Total(pauses: seq<nat>): nat {
    if pauses == [] then 0 else Total(pauses[..|pauses| - 1]) + pauses[|pauses| - 1]
  }

  /** When every attempt fails, `max_retries` pauses of 5, 10, 15, ... seconds
      are slept: `5 * m * (m + 1) / 2` seconds in all. */
  lemma {:induction false} TotalPause(pauses: seq<nat>)
    requires forall k :: 0 <= k < |pauses| ==> pauses[k] == Pause(k)
    ensures Total(pauses) == 5 * |pauses| * (|pauses| + 1) / 2
  {
    if pauses != [] {
      var m := |pauses|;
      TotalPause(pauses[..m - 1]);
      assert pauses[m - 1] == 5 * m;
      assert 5 * (m - 1) * m / 2 + 5 * m == 5 * m * (m + 1) / 2 by {
        assert 5 * m * (m + 1) == 5 * (m - 1) * m + 10 * m;
      }
    }
  }

  /** The call `login_with_cookie(context, cookie_string)` in `main`, with the
      default two retries: at most three attempts, and the pauses are a prefix
      of 5 and 10 seconds, both of them when every attempt fails. */
  method LoginAsMain(cookieString: string, outcomes: seq<Attempt>)
    returns (installed: seq<Cookies.Cookie>, success: bool, attempts: nat, pauses: seq<nat>)
    requires |outcomes| >= 3
    ensures installed == Cookies.Parse(cookieString)
    ensures 1 <= attempts <= 3
    ensures success <==> exists k :: 0 <= k < 3 && Succeeds(outcomes[k])
    ensures pauses == [5, 10][..attempts - 1]
    ensures !success ==> attempts == 3 && pauses == [5, 10]
  {
    installed, success, attempts, pauses := LoginWithCookie(cookieString, outcomes, DefaultMaxRetries);
    assert AttemptBudget(DefaultMaxRetries) == 3;
    assert 1 <= attempts && |pauses| == attempts - 1;
    assert pauses == [5, 10][..attempts - 1] by {
      forall k | 0 <= k < |pauses| ensures pauses[k] == [5, 10][k] {
        assert pauses[k] == Pause(k);
      }
    }
  }
}
