/**
 * `fetch_top_comment` (main.py) as a state machine. The browser is replaced
 * by `world`, the outcome of each attempt (navigation plus bounded wait plus
 * read of the first `.comment`), and `time.sleep` by the recorded list of
 * waits; `html.unescape` is the uninterpreted parameter `unescape`.
 */
module CommentFetch {
  import opened Wrappers
  import opened PyText

  /** What one attempt observes. */
  datatype Attempt =
    | Timeout                       // `PlaywrightTimeoutError` from `goto` or `wait_for_selector`
    | OtherError                    // any other exception
    | Loaded(text: Option<string>)  // the first comment's `text_content()`

  /** Everything the call does: pages visited, seconds slept in order, value returned. */
  datatype FetchTrace = FetchTrace(navigations: nat, sleeps: seq<nat>, result: Option<string>)

  /** `b ** e` on naturals, with `0 ** 0 == 1` as in Python. */
  function Pow(b: nat, e: nat): nat {
    if e == 0 then 1 else b * Pow(b, e - 1)
  }

  /** The backoff schedule `[b ** 0, b ** 1, ..., b ** (n - 1)]`. */
  function Backoffs(b: nat, n: nat): (r: seq<nat>)
    ensures |r| == n
  {
    seq(n, k requires 0 <= k => Pow(b, k))
  }

  /** The value returned for a loaded comment: `None` for empty text, else the unescaped stripped text. */
  function CommentValue(text: Option<string>, unescape: string -> string): (r: Option<string>)
    ensures r.None? <==> !Truthy(text)
    ensures Truthy(text) && AllSpace(text.value) ==> r == Some(unescape([]))
    ensures Truthy(text) && Strip(text.value) == text.value ==> r == Some(unescape(text.value))
  {
    if !Truthy(text) then None else Some(unescape(Strip(text.value)))
  }

  /**
   * The retry loop from attempt `attempt` on. A loaded page ends the loop; a
   * failure ends it on the last attempt and otherwise sleeps
   * `backoff ** attempt` seconds before the next one.
   */
  function RetryFrom(world: nat -> Attempt, retries: int, backoff: nat, unescape: string -> string, attempt: nat)
    : (t: FetchTrace)
    requires attempt < retries
    ensures 1 <= t.navigations <= retries - attempt
    ensures forall k :: attempt <= k < attempt + t.navigations - 1 ==> !world(k).Loaded?
    ensures attempt + t.navigations == retries || world(attempt + t.navigations - 1).Loaded?
    ensures |t.sleeps| == t.navigations - 1
    ensures forall k :: 0 <= k < |t.sleeps| ==> t.sleeps[k] == Pow(backoff, attempt + k)
    ensures t.result.Some? ==> world(attempt + t.navigations - 1).Loaded?
    ensures world(attempt + t.navigations - 1).Loaded? ==>
              t.result == CommentValue(world(attempt + t.navigations - 1).text, unescape)
    decreases retries - attempt
  {
    if world(attempt).Loaded? then FetchTrace(1, [], CommentValue(world(attempt).text, unescape))
    else if attempt == retries - 1 then FetchTrace(1, [], None)
    else
      var rest := RetryFrom(world, retries, backoff, unescape, attempt + 1);
      var sleeps := [Pow(backoff, attempt)] + rest.sleeps;
      assert forall k :: 1 <= k < |sleeps| ==> sleeps[k] == rest.sleeps[k - 1];
      FetchTrace(1 + rest.navigations, sleeps, rest.result)
  }

  /**
   * `fetch_top_comment(page, comments_url, timeout, retries, backoff_factor)`:
   * no URL or no retries means no navigation and `None`.
   */
  function FetchTopComment(url: Option<string>, world: nat -> Attempt, retries: int, backoff: nat,
                           unescape: string -> string): (t: FetchTrace)
    ensures !Truthy(url) || retries <= 0 <==> t.navigations == 0
    ensures t.navigations == 0 ==> t == FetchTrace(0, [], None)
    ensures t.navigations <= if retries < 0 then 0 else retries
  {
    if !Truthy(url) then FetchTrace(0, [], None)
    else if retries <= 0 then FetchTrace(0, [], None)
    else RetryFrom(world, retries, backoff, unescape, 0)
  }

  /** Index of the first loaded attempt among `from .. bound - 1`, or `bound` when there is none. */
  function FirstLoaded(world: nat -> Attempt, from: nat, bound: nat): (k: nat)
    requires from <= bound
    ensures from <= k <= bound
    ensures forall j :: from <= j < k ==> !world(j).Loaded?
    ensures k < bound ==> world(k).Loaded?
    decreases bound - from
  {
    if from == bound || world(from).Loaded? then from else FirstLoaded(world, from + 1, bound)
  }

  // ---------------------------------------------------------------------
  // The retry contract

  /** Attempts made: `min(retries, first success + 1)`, none when the URL is falsy or `retries <= 0`. */
  lemma AttemptCount(url: Option<string>, world: nat -> Attempt, retries: int, backoff: nat,
                     unescape: string -> string)
    requires Truthy(url) && retries > 0
    ensures var first := FirstLoaded(world, 0, retries);
            FetchTopComment(url, world, retries, backoff, unescape).navigations ==
              if first + 1 < retries then first + 1 else retries
  {
    var t := FetchTopComment(url, world, retries, backoff, unescape);
    var first := FirstLoaded(world, 0, retries);
    if t.navigations - 1 < first {
      assert world(t.navigations - 1).Loaded? || t.navigations == retries;
    }
  }

  /** The result is the first success's value, or `None` when no attempt within `retries` succeeds. */
  lemma ResultOfFirstSuccess(url: Option<string>, world: nat -> Attempt, retries: int, backoff: nat,
                             unescape: string -> string)
    requires Truthy(url) && retries > 0
    ensures var first := FirstLoaded(world, 0, retries);
            FetchTopComment(url, world, retries, backoff, unescape).result ==
              if first < retries then CommentValue(world(first).text, unescape) else None
  {
    AttemptCount(url, world, retries, backoff, unescape);
  }

  /** The waits are the prefix of `1, b, b ** 2, ...` one shorter than the attempts: none after the last. */
  lemma SleepSchedule(url: Option<string>, world: nat -> Attempt, retries: int, backoff: nat,
                      unescape: string -> string)
    ensures var t := FetchTopComment(url, world, retries, backoff, unescape);
            t.sleeps == Backoffs(backoff, if t.navigations == 0 then 0 else t.navigations - 1)
  {
  }

  /** When every attempt fails, all `retries` are used, `retries - 1` waits happen, and the result is `None`. */
  lemma AllAttemptsFail(url: Option<string>, world: nat -> Attempt, retries: int, backoff: nat,
                        unescape: string -> string)
    requires Truthy(url) && retries > 0
    requires forall k :: 0 <= k < retries ==> !world(k).Loaded?
    ensures var t := FetchTopComment(url, world, retries, backoff, unescape);
            t == FetchTrace(retries, Backoffs(backoff, retries - 1), None)
  {
    var t := FetchTopComment(url, world, retries, backoff, unescape);
    assert !world(t.navigations - 1).Loaded?;
    SleepSchedule(url, world, retries, backoff, unescape);
  }

  /** `n` failures followed by a loaded non-empty comment, with `n < retries`, return that comment. */
  lemma SuccessAfterFailures(url: Option<string>, world: nat -> Attempt, retries: int, backoff: nat,
                             unescape: string -> string, n: nat, text: string)
    requires Truthy(url) && n < retries
    requires forall k :: 0 <= k < n ==> !world(k).Loaded?
    requires world(n) == Loaded(Some(text)) && text != []
    ensures var t := FetchTopComment(url, world, retries, backoff, unescape);
            t == FetchTrace(n + 1, Backoffs(backoff, n), Some(unescape(Strip(text))))
  {
    var t := FetchTopComment(url, world, retries, backoff, unescape);
    AttemptCount(url, world, retries, backoff, unescape);
    assert FirstLoaded(world, 0, retries) == n;
    SleepSchedule(url, world, retries, backoff, unescape);
  }

  /** Timeouts and other errors are handled alike: only where the loaded attempts fall matters. */
  lemma {:induction false} FailureKindIrrelevantFrom(w1: nat -> Attempt, w2: nat -> Attempt, retries: int,
                                                     backoff: nat, unescape: string -> string, attempt: nat)
    requires attempt < retries
    requires forall k :: attempt <= k < retries ==>
               (w1(k).Loaded? || w2(k).Loaded? ==> w1(k) == w2(k))
    ensures RetryFrom(w1, retries, backoff, unescape, attempt) == RetryFrom(w2, retries, backoff, unescape, attempt)
    decreases retries - attempt
  {
    if w1(attempt).Loaded? {
      assert w1(attempt) == w2(attempt);
    } else {
      assert !w2(attempt).Loaded?;
      if attempt < retries - 1 {
        FailureKindIrrelevantFrom(w1, w2, retries, backoff, unescape, attempt + 1);
      }
    }
  }

  /** The whole call is the same for two worlds that differ only in the kind of their failures. */
  lemma FailureKindIrrelevant(url: Option<string>, w1: nat -> Attempt, w2: nat -> Attempt, retries: int,
                              backoff: nat, unescape: string -> string)
    requires forall k :: 0 <= k < retries ==> (w1(k).Loaded? || w2(k).Loaded? ==> w1(k) == w2(k))
    ensures FetchTopComment(url, w1, retries, backoff, unescape) ==
            FetchTopComment(url, w2, retries, backoff, unescape)
  {
    if Truthy(url) && retries > 0 {
      FailureKindIrrelevantFrom(w1, w2, retries, backoff, unescape, 0);
    }
  }

  /** A loaded comment with absent or empty text returns `None`; whitespace-only text is tested before stripping. */
  lemma EmptyCommentValue(text: Option<string>, unescape: string -> string)
    ensures !Truthy(text) ==> CommentValue(text, unescape) == None
    ensures Truthy(text) && AllSpace(text.value) ==> CommentValue(text, unescape) == Some(unescape([]))
  {
  }

  /** With the default factor 2 and three attempts that all time out, the waits are 1 and 2 seconds. */
  lemma DefaultScheduleExample(url: Option<string>, unescape: string -> string)
    requires Truthy(url)
    ensures FetchTopComment(url, _ => Timeout, 3, 2, unescape) == FetchTrace(3, [1, 2], None)
  {
    AllAttemptsFail(url, _ => Timeout, 3, 2, unescape);
    assert Backoffs(2, 2) == [1, 2];
  }
}
