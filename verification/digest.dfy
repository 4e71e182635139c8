/**
 * The summary computations of `write_outputs` (main.py) for `digest.md`:
 * the points total and the divisor of the average, the "most commented"
 * story, and the blockquote snippet of each top comment. The floating-point
 * average itself and all file output are outside the model.
 */
module Digest {
  import opened Wrappers
  import opened PyText
  import opened Listing

  /** Characters of a top comment kept in the digest's blockquote. */
  const SnippetLength: nat := 300

  /** `sum(s["points"] for s in stories)`. */
  function SumPoints(stories: seq<Story>): (r: int)
    ensures |stories| == 0 ==> r == 0
    ensures (forall k :: 0 <= k < |stories| ==> stories[k].points >= 0) ==> r >= 0
    ensures (forall k :: 0 <= k < |stories| ==> stories[k].points <= 0) ==> r <= 0
  {
    if |stories| == 0 then 0 else stories[0].points + SumPoints(stories[1..])
  }

  /** A single story's total is its own points; with `SumPointsAppend` this fixes the total of every list. */
  lemma SumPointsSingleton(s: Story)
    ensures SumPoints([s]) == s.points
  {
  }

  /** `max(len(stories), 1)`: the divisor of the average. */
  function AverageDivisor(stories: seq<Story>): (d: nat)
    ensures d >= 1
    ensures |stories| > 0 ==> d == |stories|
  {
    if |stories| == 0 then 1 else |stories|
  }

  /** Story `i` is the first one with the largest comment count. */
  ghost predicate IsFirstMax(stories: seq<Story>, i: int) {
    && 0 <= i < |stories|
    && (forall j :: 0 <= j < |stories| ==> stories[j].commentsCount <= stories[i].commentsCount)
    && (forall j :: 0 <= j < i ==> stories[j].commentsCount < stories[i].commentsCount)
  }

  /**
   * Python's `max` scan: `best` is the maximum of the first `next` stories,
   * and a later story replaces it only with a strictly larger count.
   */
  function MaxScan(stories: seq<Story>, next: nat, best: nat): (r: nat)
    requires best < next <= |stories|
    requires forall j :: 0 <= j < next ==> stories[j].commentsCount <= stories[best].commentsCount
    requires forall j :: 0 <= j < best ==> stories[j].commentsCount < stories[best].commentsCount
    ensures IsFirstMax(stories, r)
    decreases |stories| - next
  {
    if next == |stories| then best
    else if stories[next].commentsCount > stories[best].commentsCount then MaxScan(stories, next + 1, next)
    else MaxScan(stories, next + 1, best)
  }

  /**
   * `max(stories, key=comments_count, default=None)`, as the index of the
   * chosen story. A story dictionary is never falsy, so the digest prints
   * the "Most commented" line exactly when this is present.
   */
  function MostCommented(stories: seq<Story>): (r: Option<nat>)
    ensures r.None? <==> |stories| == 0
    ensures r.Some? ==> IsFirstMax(stories, r.value)
  {
    if |stories| == 0 then None else Some(MaxScan(stories, 1, 0))
  }

  /**
   * The blockquote for a top comment: emitted only for a truthy comment; its
   * first 300 characters with every newline turned into a space, then "...".
   */
  function Snippet(topComment: Option<string>): (r: Option<string>)
    ensures r.Some? <==> Truthy(topComment)
    ensures r.Some? ==>
              var c := topComment.value;
              var n := if |c| < SnippetLength then |c| else SnippetLength;
              && |r.value| == n + 3
              && r.value[n..] == "..."
              && forall k :: 0 <= k < n ==> r.value[k] == if c[k] == '\n' then ' ' else c[k]
  {
    if !Truthy(topComment) then None
    else
      var c := topComment.value;
      var kept := if |c| < SnippetLength then c else c[..SnippetLength];
      Some(ReplaceChar(kept, '\n', ' ') + "...")
  }

  // ---------------------------------------------------------------------
  // Properties of the summary

  /** The total is additive over concatenation, so it does not depend on how the list is split. */
  lemma {:induction false} SumPointsAppend(a: seq<Story>, b: seq<Story>)
    ensures SumPoints(a + b) == SumPoints(a) + SumPoints(b)
    decreases |a|
  {
    if |a| == 0 {
      assert a + b == b;
    } else {
      assert (a + b)[1..] == a[1..] + b;
      SumPointsAppend(a[1..], b);
    }
  }

  /** An empty digest averages 0 over divisor 1: no division by zero. */
  lemma EmptyAverage()
    ensures SumPoints([]) == 0 && AverageDivisor([]) == 1
  {
  }

  /** The first maximum is unique, so `MostCommented` is fully determined by `IsFirstMax`. */
  lemma FirstMaxUnique(stories: seq<Story>, i: int, j: int)
    requires IsFirstMax(stories, i) && IsFirstMax(stories, j)
    ensures i == j
  {
    assert stories[i].commentsCount == stories[j].commentsCount;
  }

  /** Ties go to the earliest story: counts 5, 12, 12, 3 select the second story. */
  lemma MostCommentedTieExample(stories: seq<Story>)
    requires |stories| == 4
    requires stories[0].commentsCount == 5 && stories[1].commentsCount == 12
    requires stories[2].commentsCount == 12 && stories[3].commentsCount == 3
    ensures MostCommented(stories) == Some(1)
  {
    FirstMaxUnique(stories, MostCommented(stories).value, 1);
  }

  /** The quoted part of a snippet is one line of at most 300 characters. */
  lemma SnippetIsOneLine(topComment: Option<string>)
    requires Truthy(topComment)
    ensures var body := Snippet(topComment).value[..|Snippet(topComment).value| - 3];
            |body| <= SnippetLength && forall k :: 0 <= k < |body| ==> body[k] != '\n'
  {
  }

  /** A short single-line comment is quoted verbatim, followed by "...". */
  lemma SnippetOfShortLine(c: string)
    requires c != [] && |c| <= SnippetLength
    requires forall k :: 0 <= k < |c| ==> c[k] != '\n'
    ensures Snippet(Some(c)) == Some(c + "...")
  {
    var r := Snippet(Some(c)).value;
    assert r[..|c|] == c;
    assert r == r[..|c|] + r[|c|..];
  }
}
