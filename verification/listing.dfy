/**
 * `extract_top_stories` (main.py): the front-page listing turned into story
 * records. The page is abstracted into the sequence of `tr.athing` rows, each
 * already read into the values the extractor queries from it and from its
 * subtext row; the per-row logic (defaults, leading-number parsing, the
 * "comment" gate, the discussion-URL join) and the count/rank handling follow
 * the code, with `int()` read as the grammar of `PyInt.IsIntLiteral`.
 */
module Listing {
  import opened Wrappers
  import opened PyText
  import opened PyInt

  /** `HN_URL`, the site the listing is read from. */
  const HnUrl: string := "https://news.ycombinator.com"

  /** One anchor of a subtext row: its `text_content()` and its `href` attribute. */
  datatype Link = Link(text: Option<string>, href: Option<string>)

  /**
   * One listing row as the extractor sees it: the row's `id` attribute, the
   * title anchor's `inner_text()` and `href`, and from the subtext row the
   * score and author `text_content()` and the anchors in document order.
   */
  datatype Row = Row(
    id: Option<string>,
    titleText: string,
    titleHref: Option<string>,
    scoreText: Option<string>,
    authorText: Option<string>,
    subtextLinks: seq<Link>)

  /** The story record, with the fields of the emitted dictionary in order. */
  datatype Story = Story(
    rank: int,
    id: Option<string>,
    title: string,
    url: Option<string>,
    hnCommentsUrl: Option<string>,
    points: int,
    author: string,
    commentsCount: int,
    topComment: Option<string>)

  /** The one way extraction fails: `split()[0]` on a blank score text raises `IndexError` at that rank. */
  datatype ExtractError = BlankScoreText(rank: int)

  /** Number of rows processed: `range(min(count, limit))`, empty for a non-positive limit. */
  function StoryCount(rowCount: nat, limit: int): (n: nat)
    ensures n <= rowCount
    ensures limit <= 0 ==> n == 0
    ensures limit > 0 ==> n <= limit && (n == rowCount || n == limit)
  {
    if limit <= 0 then 0 else if rowCount < limit then rowCount else limit
  }

  /** The score text as read: absent or empty stands for "0 points". */
  function ScoreText(scoreText: Option<string>): (r: string)
    ensures r != []
    ensures Truthy(scoreText) ==> r == scoreText.value
    ensures !Truthy(scoreText) ==> r == "0 points"
  {
    OrElse(scoreText, "0 points")
  }

  /** `split()[0]` succeeds on the score text, so the row yields a record. */
  predicate ScoreReadable(row: Row) {
    !AllSpace(ScoreText(row.scoreText))
  }

  /** Points: `safe_int` of the first whitespace-separated token of the score text. */
  function Points(scoreText: Option<string>): (r: int)
    requires !AllSpace(ScoreText(scoreText))
    ensures IsIntLiteral(FirstToken(ScoreText(scoreText)).value) ==>
              Some(r) == ParseInt(FirstToken(ScoreText(scoreText)).value)
    ensures !IsIntLiteral(FirstToken(ScoreText(scoreText)).value) ==> r == 0
  {
    SafeInt(FirstToken(ScoreText(scoreText)).value, 0)
  }

  /** The last subtext anchor's text, `""` when absent or empty. */
  function LastLinkText(links: seq<Link>): string
    requires |links| > 0
  {
    OrElse(links[|links| - 1].text, "")
  }

  /** Comment count: the leading number of the last anchor's text when it mentions "comment", else 0. */
  function CommentsCount(links: seq<Link>): (r: int)
    ensures r != 0 ==> |links| > 0 && Contains(LastLinkText(links), "comment")
    ensures |links| == 0 || !Contains(LastLinkText(links), "comment") ==> r == 0
    ensures |links| > 0 && Contains(LastLinkText(links), "comment") ==>
              FirstToken(LastLinkText(links)).Some? && r == SafeInt(FirstToken(LastLinkText(links)).value, 0)
  {
    if |links| == 0 then 0
    else
      var text := LastLinkText(links);
      if Contains(text, "comment") then
        ContainsWordNotBlank(text, "comment");
        SafeInt(FirstToken(text).value, 0)
      else 0
  }

  /** The relative href of the discussion page: the last anchor's `href`, absent when there are no anchors. */
  function CommentsHref(links: seq<Link>): (r: Option<string>)
    ensures |links| == 0 ==> r == None
    ensures |links| > 0 ==> r == links[|links| - 1].href
  {
    if |links| == 0 then None else links[|links| - 1].href
  }

  /** `HN_URL + '/' + href` when the href is truthy, else `None`. */
  function DiscussionUrl(href: Option<string>): (r: Option<string>)
    ensures r.Some? <==> Truthy(href)
    ensures r.Some? ==> |r.value| == |HnUrl| + 1 + |href.value| && r.value[|HnUrl|] == '/'
  {
    if Truthy(href) then Some(HnUrl + "/" + href.value) else None
  }

  /** The record built from one row at a given 1-based rank. */
  function ExtractRow(row: Row, rank: int): (r: Result<Story, ExtractError>)
    ensures r.Err? <==> !ScoreReadable(row)
    ensures r.Err? ==> r.error == BlankScoreText(rank)
    ensures r.Ok? ==>
              && r.value.rank == rank
              && r.value.id == row.id
              && r.value.title == Strip(row.titleText)
              && r.value.url == row.titleHref
              && r.value.hnCommentsUrl == DiscussionUrl(CommentsHref(row.subtextLinks))
              && r.value.points == Points(row.scoreText)
              && r.value.author == OrElse(row.authorText, "")
              && r.value.commentsCount == CommentsCount(row.subtextLinks)
              && r.value.topComment == None
  {
    if !ScoreReadable(row) then Err(BlankScoreText(rank))
    else
      Ok(Story(
        rank := rank,
        id := row.id,
        title := Strip(row.titleText),
        url := row.titleHref,
        hnCommentsUrl := DiscussionUrl(CommentsHref(row.subtextLinks)),
        points := Points(row.scoreText),
        author := OrElse(row.authorText, ""),
        commentsCount := CommentsCount(row.subtextLinks),
        topComment := None))
  }

  /**
   * The loop of `extract_top_stories`, over any per-row step `f`: row `k` of
   * `rows` is handed its rank `offset + k + 1`, and the first failing row
   * aborts the whole loop with its error.
   */
  function RankedLoop<R, S, E(==)>(rows: seq<R>, f: (R, int) -> Result<S, E>, offset: nat): (r: Result<seq<S>, E>)
    ensures r.Ok? <==> forall k :: 0 <= k < |rows| ==> f(rows[k], offset + k + 1).Ok?
    ensures r.Ok? ==> |r.value| == |rows|
    ensures r.Ok? ==> forall k :: 0 <= k < |rows| ==> r.value[k] == f(rows[k], offset + k + 1).value
    ensures r.Err? ==> exists k :: FirstFailure(rows, f, offset, k) && r.error == f(rows[k], offset + k + 1).error
    decreases |rows|
  {
    if |rows| == 0 then Ok([])
    else
      var head := f(rows[0], offset + 1);
      if head.Err? then
        assert FirstFailure(rows, f, offset, 0);
        Err(head.error)
      else
        var rest := RankedLoop(rows[1..], f, offset + 1);
        assert forall k :: 0 <= k < |rows| - 1 ==> rows[1..][k] == rows[k + 1];
        if rest.Err? then
          var k :| FirstFailure(rows[1..], f, offset + 1, k) &&
                   rest.error == f(rows[1..][k], offset + 1 + k + 1).error;
          assert FirstFailure(rows, f, offset, k + 1);
          Err(rest.error)
        else
          Ok([head.value] + rest.value)
  }

  /** Row `k` is the first of `rows` (ranked from `offset + 1`) on which `f` fails. */
  predicate FirstFailure<R, S, E>(rows: seq<R>, f: (R, int) -> Result<S, E>, offset: nat, k: int) {
    && 0 <= k < |rows|
    && f(rows[k], offset + k + 1).Err?
    && forall j :: 0 <= j < k ==> f(rows[j], offset + j + 1).Ok?
  }

  /**
   * `extract_top_stories(page, limit, _)`: at most `limit` records, one per
   * row in listing order, ranked densely from 1, or the `IndexError` raised by
   * the first row with a blank score text.
   */
  function ExtractTopStories(rows: seq<Row>, limit: int): (r: Result<seq<Story>, ExtractError>)
    ensures limit <= 0 ==> r == Ok([])
    ensures r.Ok? <==> forall k :: 0 <= k < StoryCount(|rows|, limit) ==> ScoreReadable(rows[k])
    ensures r.Ok? ==> |r.value| == StoryCount(|rows|, limit)
    ensures r.Ok? ==> forall k :: 0 <= k < |r.value| ==>
                        r.value[k].rank == k + 1 && r.value[k] == ExtractRow(rows[k], k + 1).value
    ensures r.Err? ==> exists k :: 0 <= k < StoryCount(|rows|, limit) &&
                        r.error == BlankScoreText(k + 1) && !ScoreReadable(rows[k]) &&
                        forall j :: 0 <= j < k ==> ScoreReadable(rows[j])
  {
    var n := StoryCount(|rows|, limit);
    var prefix := rows[..n];
    var r := RankedLoop(prefix, ExtractRow, 0);
    assert forall k :: 0 <= k < n ==> prefix[k] == rows[k];
    if r.Err? then
      var k :| FirstFailure(prefix, ExtractRow, 0, k) && r.error == ExtractRow(prefix[k], k + 1).error;
      assert !ScoreReadable(rows[k]) && r.error == BlankScoreText(k + 1);
      r
    else r
  }

  // ---------------------------------------------------------------------
  // Field-level properties of one extracted row

  /** A rendered integer is a single non-empty word. */
  lemma RenderedIntIsWord(n: int)
    ensures IntToString(n) != [] && NoSpace(IntToString(n))
  {
  }

  /** A text that starts with the renderable integer `n`, followed by nothing or whitespace, has leading number `n`. */
  lemma LeadingNumber(text: string, n: int, rest: string)
    requires text == IntToString(n) + rest
    requires Renderable(n)
    requires rest == [] || IsSpace(rest[0])
    ensures FirstToken(text) == Some(IntToString(n))
    ensures SafeInt(FirstToken(text).value, 0) == n
  {
    RenderedIntIsWord(n);
    assert WordFramed(text, [], IntToString(n), rest);
    FirstTokenOfFramed(text, [], IntToString(n), rest);
    SafeIntOfIntToString(n, 0);
  }

  /** An absent or empty score text reads as "0 points", so the row yields a record with 0 points. */
  lemma PointsOfMissingScore(row: Row, rank: int)
    requires !Truthy(row.scoreText)
    ensures ExtractRow(row, rank).Ok? && ExtractRow(row, rank).value.points == 0
  {
    assert ScoreText(row.scoreText) == IntToString(0) + " points";
    LeadingNumber(ScoreText(row.scoreText), 0, " points");
  }

  /** A score text starting with a renderable integer `n` and then whitespace yields a record with exactly `n` points. */
  lemma PointsOfRenderedScore(row: Row, rank: int, n: int, rest: string)
    requires row.scoreText == Some(IntToString(n) + rest)
    requires rest == [] || IsSpace(rest[0])
    requires Renderable(n)
    ensures ExtractRow(row, rank).Ok? && ExtractRow(row, rank).value.points == n
  {
    LeadingNumber(row.scoreText.value, n, rest);
  }

  /** The score is not range-checked: a score text "-3 points" yields -3 points. */
  lemma NegativePointsAccepted(row: Row, rank: int)
    requires row.scoreText == Some("-3 points")
    ensures ExtractRow(row, rank).Ok? && ExtractRow(row, rank).value.points == -3
  {
    assert IntToString(-3) + " points" == "-3 points";
    PointsOfRenderedScore(row, rank, -3, " points");
  }

  /**
   * A leading digit run longer than `MaxStrDigits` makes `int()` raise inside
   * `safe_int`, so the row yields a record with 0 points.
   */
  lemma PointsOfOverlongScore(row: Row, rank: int, digits: string, rest: string)
    requires row.scoreText == Some(digits + rest)
    requires IsDigits(digits) && |digits| > MaxStrDigits
    requires rest == [] || IsSpace(rest[0])
    ensures ExtractRow(row, rank).Ok? && ExtractRow(row, rank).value.points == 0
  {
    var text := row.scoreText.value;
    assert text == [] + digits + rest;
    FirstTokenOfFramed(text, [], digits, rest);
    OverlongDigitsRejected(digits, 0);
  }

  /** A row whose author text is absent or empty gets the empty author. */
  lemma MissingAuthorIsEmpty(row: Row, rank: int)
    requires ScoreReadable(row) && !Truthy(row.authorText)
    ensures ExtractRow(row, rank).Ok? && ExtractRow(row, rank).value.author == ""
  {
  }

  /** A row whose author text is present and non-empty keeps it as the author. */
  lemma PresentAuthorKept(row: Row, rank: int)
    requires ScoreReadable(row) && Truthy(row.authorText)
    ensures ExtractRow(row, rank).Ok? && ExtractRow(row, rank).value.author == row.authorText.value
  {
  }

  /** A truthy `href` on the last subtext anchor gives the record the discussion URL `HN_URL + "/" + href`. */
  lemma DiscussionUrlOfRecord(row: Row, rank: int)
    requires ScoreReadable(row) && |row.subtextLinks| > 0
    requires Truthy(row.subtextLinks[|row.subtextLinks| - 1].href)
    ensures ExtractRow(row, rank).Ok?
    ensures ExtractRow(row, rank).value.hnCommentsUrl ==
              Some(HnUrl + "/" + row.subtextLinks[|row.subtextLinks| - 1].href.value)
  {
  }

  /** A non-empty all-whitespace score text makes `split()[0]` raise, aborting at that rank. */
  lemma BlankScoreAborts(row: Row, rank: int)
    requires row.scoreText.Some? && row.scoreText.value != [] && AllSpace(row.scoreText.value)
    ensures ExtractRow(row, rank) == Err(BlankScoreText(rank))
  {
  }

  /** A row without subtext anchors yields a record with no comments and no discussion page. */
  lemma NoLinksNoComments(row: Row, rank: int)
    requires ScoreReadable(row) && |row.subtextLinks| == 0
    ensures ExtractRow(row, rank).Ok?
    ensures ExtractRow(row, rank).value.commentsCount == 0
    ensures ExtractRow(row, rank).value.hnCommentsUrl == None
  {
  }

  /** Whatever digits it starts with, a last anchor whose text lacks "comment" gives a record with 0 comments. */
  lemma CommentsCountNeedsWord(row: Row, rank: int)
    requires ScoreReadable(row) && |row.subtextLinks| > 0
    requires !Contains(LastLinkText(row.subtextLinks), "comment")
    ensures ExtractRow(row, rank).Ok? && ExtractRow(row, rank).value.commentsCount == 0
  {
  }

  /** A "discuss" anchor gives a record with 0 comments. */
  lemma DiscussCountsZero(row: Row, rank: int)
    requires ScoreReadable(row) && |row.subtextLinks| > 0
    requires row.subtextLinks[|row.subtextLinks| - 1].text == Some("discuss")
    ensures ExtractRow(row, rank).Ok? && ExtractRow(row, rank).value.commentsCount == 0
  {
    var text := LastLinkText(row.subtextLinks);
    assert text == "discuss";
    assert text[..7] != "comment" by { assert text[..7][0] == 'd'; }
    assert !Contains(text[1..], "comment");
    CommentsCountNeedsWord(row, rank);
  }

  /**
   * A last anchor reading `n`, a whitespace separator, then a word mentioning
   * "comment", gives a record with `n` comments.
   */
  lemma CommentsOfRenderedCount(row: Row, rank: int, n: int, sep: char, word: string)
    requires ScoreReadable(row) && |row.subtextLinks| > 0
    requires IsSpace(sep) && Contains(word, "comment") && Renderable(n)
    requires row.subtextLinks[|row.subtextLinks| - 1].text == Some(IntToString(n) + [sep] + word)
    ensures ExtractRow(row, rank).Ok? && ExtractRow(row, rank).value.commentsCount == n
  {
    var text := LastLinkText(row.subtextLinks);
    assert text == IntToString(n) + ([sep] + word);
    ContainsInSuffix(IntToString(n) + [sep], word, "comment");
    assert IntToString(n) + [sep] + word == (IntToString(n) + [sep]) + word;
    LeadingNumber(text, n, [sep] + word);
  }

  /** The discussion URL exists exactly for a truthy href, and removing the `HN_URL + "/"` prefix gives the href back. */
  lemma DiscussionUrlJoin(href: Option<string>)
    ensures DiscussionUrl(href).Some? <==> Truthy(href)
    ensures DiscussionUrl(href).Some? ==>
              && DiscussionUrl(href).value[..|HnUrl| + 1] == HnUrl + "/"
              && DiscussionUrl(href).value[|HnUrl| + 1..] == href.value
  {
  }
}
