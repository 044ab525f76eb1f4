/**
 * The scorer (`Crawler.process`): the primary score of one candidate row from
 * twelve fuzzy keyword criteria, a penalty for a missing label, a bonus for a
 * label that matches a piece of the page title and a penalty for a URL without
 * an image marker; and the secondary score from the dimensions the URL mentions.
 */
module Scoring {
  import opened Wrappers
  import opened Strings
  import opened Numbers
  import opened Document

  /** `fuzz.partial_ratio`: some similarity of two strings in 0..100; its algorithm is not modelled. */
  type Similarity = f: (string, string) -> int | forall a, b :: 0 <= f(a, b) <= 100
    witness (a: string, b: string) => 0

  /** The fields of the crawler that `process` reads: `site_name`, `bare_url`, `title`. */
  datatype Context = Context(siteName: string, bareUrl: string, title: string)

  datatype Field = RefField | UrlField | SourceField

  /** One entry of `scoring_criteria`: a keyword, its points, and the column it is matched against. */
  datatype Criterion = Criterion(keyword: string, points: int, field: Field)

  /** `scoring_criteria`, in the order of the source. */
  function Criteria(ctx: Context): seq<Criterion> {
    [ Criterion("logo", 10, RefField),
      Criterion(ctx.siteName, 50, RefField),
      Criterion("logo", 10, UrlField),
      Criterion("official", 30, RefField),
      Criterion(ctx.siteName, 35, UrlField),
      Criterion(ctx.bareUrl, 20, RefField),
      Criterion("icon", 5, RefField),
      Criterion("main", 2, UrlField),
      Criterion("alt", 1, SourceField),
      Criterion("company", 5, RefField),
      Criterion("company", 5, UrlField),
      Criterion("svg", 20, UrlField) ]
  }

  function Total(cs: seq<Criterion>): int {
    if cs == [] then 0 else cs[0].points + Total(cs[1..])
  }

  predicate PositivePoints(cs: seq<Criterion>) {
    forall i :: 0 <= i < |cs| ==> cs[i].points > 0
  }

  /** Every one of the twelve criteria is worth something. */
  lemma CriteriaPositive(ctx: Context)
    ensures PositivePoints(Criteria(ctx))
  {
  }

  /** The last six criteria are worth 38 points. */
  lemma CriteriaTailTotal(ctx: Context)
    ensures Total(Criteria(ctx)[6..]) == 38
  {
    var cs := Criteria(ctx)[6..];
    assert cs[5..][1..] == [];
    assert Total(cs[5..]) == 20;
    assert Total(cs[4..]) == 25 by { assert cs[4..][1..] == cs[5..]; }
    assert Total(cs[3..]) == 30 by { assert cs[3..][1..] == cs[4..]; }
    assert Total(cs[2..]) == 31 by { assert cs[2..][1..] == cs[3..]; }
    assert Total(cs[1..]) == 33 by { assert cs[1..][1..] == cs[2..]; }
  }

  /** Together the twelve criteria are worth 193 points. */
  lemma CriteriaTotal(ctx: Context)
    ensures Total(Criteria(ctx)) == 193
  {
    var cs := Criteria(ctx);
    CriteriaTailTotal(ctx);
    assert Total(cs[5..]) == 58 by { assert cs[5..][1..] == cs[6..]; }
    assert Total(cs[4..]) == 93 by { assert cs[4..][1..] == cs[5..]; }
    assert Total(cs[3..]) == 123 by { assert cs[3..][1..] == cs[4..]; }
    assert Total(cs[2..]) == 133 by { assert cs[2..][1..] == cs[3..]; }
    assert Total(cs[1..]) == 183 by { assert cs[1..][1..] == cs[2..]; }
  }

  /** The copy of the row that `process` scores: hyphens dropped from a non-empty `ref`. */
  function WithoutHyphens(row: Row): Row {
    if Truthy(row.ref) then row.(ref := Some(RemoveChar(row.ref.value, '-'))) else row
  }

  /** `row[field]` */
  function FieldValue(row: Row, f: Field): Option<string> {
    match f
    case RefField => row.ref
    case UrlField => Some(row.url)
    case SourceField => Some(row.source.Name())
  }

  /** `row[field] is not None and fuzz.partial_ratio(row[field].lower(), keyword) >= 90` */
  predicate Fires(c: Criterion, row: Row, sim: Similarity) {
    var v := FieldValue(row, c.field);
    v.Some? && sim(Lower(v.value), c.keyword) >= 90
  }

  /** The sum of the points of the criteria that fire. */
  function Points(cs: seq<Criterion>, row: Row, sim: Similarity): int {
    if cs == [] then 0
    else (if Fires(cs[0], row, sim) then cs[0].points else 0) + Points(cs[1..], row, sim)
  }

  /** With positive points, the sum lies between 0 and the total of all criteria. */
  lemma {:induction false} PointsRange(cs: seq<Criterion>, row: Row, sim: Similarity)
    requires PositivePoints(cs)
    ensures 0 <= Points(cs, row, sim) <= Total(cs)
  {
    if cs != [] {
      PointsRange(cs[1..], row, sim);
    }
  }

  /**
   * With positive points the sum is 0 exactly when no criterion fires, and the
   * whole total exactly when every criterion fires.
   */
  lemma {:induction false} PointsExtremes(cs: seq<Criterion>, row: Row, sim: Similarity)
    requires PositivePoints(cs)
    ensures Points(cs, row, sim) == 0 <==> forall i :: 0 <= i < |cs| ==> !Fires(cs[i], row, sim)
    ensures Points(cs, row, sim) == Total(cs) <==> forall i :: 0 <= i < |cs| ==> Fires(cs[i], row, sim)
  {
    if cs != [] {
      PointsExtremes(cs[1..], row, sim);
      PointsRange(cs[1..], row, sim);
      assert forall i :: 1 <= i < |cs| ==> cs[i] == cs[1..][i - 1];
    }
  }

  /** The characters of the title-splitting class: U+00E2, U+20AC, U+201C, '-', '|', ':'. */
  const TitleSeparators: set<char> := {'\U{00E2}', '\U{20AC}', '\U{201C}', '-', '|', ':'}

  /** `re.split(separators, title) + [title]` */
  function Segments(title: string): (r: seq<string>)
    ensures |r| >= 2 && r[|r| - 1] == title
  {
    SplitOn(title, TitleSeparators) + [title]
  }

  /** `fuzz.partial_ratio(ref, title.strip())` for every segment, in segment order. */
  function Matches(segments: seq<string>, ref: string, sim: Similarity): (ms: seq<int>)
    ensures |ms| == |segments|
    ensures forall k :: 0 <= k < |segments| ==> ms[k] == sim(ref, Strip(segments[k])) && 0 <= ms[k] <= 100
  {
    seq(|segments|, k requires 0 <= k < |segments| => sim(ref, Strip(segments[k])))
  }

  predicate Percentages(ms: seq<int>) {
    forall k :: 0 <= k < |ms| ==> 0 <= ms[k] <= 100
  }

  /** What a matching segment contributes: `int(45 * title_match / 100)`, between 38 and 45. */
  function Bonus(m: int): (r: int)
    ensures 85 <= m <= 100 ==> 38 <= r <= 45
  {
    BonusRange(m);
    45 * m / 100
  }

  /** 45% of a similarity of at least 85, truncated, lies in 38..45. */
  lemma BonusRange(m: int)
    ensures 85 <= m <= 100 ==> 38 <= 45 * m / 100 <= 45
  {
    if 85 <= m <= 100 {
      assert 45 * 85 <= 45 * m <= 45 * 100;
    }
  }

  /**
   * The title loop over the segments' similarities: the first one of at least
   * 85 contributes its bonus and ends the loop; without one the bonus is 0.
   */
  function TitleBonus(ms: seq<int>): (r: int)
    requires Percentages(ms)
    ensures r == 0 || 38 <= r <= 45
  {
    if ms == [] then 0
    else if ms[0] >= 85 then Bonus(ms[0])
    else TitleBonus(ms[1..])
  }

  /** Where the title loop stops: the first similarity of at least 85, or `|ms|` when there is none. */
  function FirstHitIndex(ms: seq<int>): (k: nat)
    ensures k <= |ms|
    ensures forall j :: 0 <= j < k ==> ms[j] < 85
    ensures k < |ms| ==> ms[k] >= 85
  {
    if ms == [] || ms[0] >= 85 then 0
    else
      var k := FirstHitIndex(ms[1..]);
      assert forall j :: 1 <= j < |ms| ==> ms[j] == ms[1..][j - 1];
      1 + k
  }

  /**
   * The bonus is the contribution of the first matching segment alone, and 0
   * exactly when no segment matches.
   */
  lemma {:induction false} TitleBonusFirstHit(ms: seq<int>)
    requires Percentages(ms)
    ensures var k := FirstHitIndex(ms);
      && (TitleBonus(ms) == if k < |ms| then Bonus(ms[k]) else 0)
      && (TitleBonus(ms) == 0 <==> k == |ms|)
  {
    if ms != [] && ms[0] < 85 {
      TitleBonusFirstHit(ms[1..]);
    }
  }

  /** A row without a label: `ref` is None or empty (after hyphen removal). */
  predicate Unlabelled(c: Row) {
    c.ref.None? || c.ref.value == ""
  }

  /** The separator class of the URL dimension pattern `(\d+)[x-](\d+)`. */
  const UrlSeparators: set<char> := {'x', '-'}

  lemma UrlSeparatorsDigitFree()
    ensures DigitFree(UrlSeparators)
  {
  }

  datatype Scores = Scores(score: int, score2: int)

  function Max(a: int, b: int): int {
    if a >= b then a else b
  }

  /** `process(row)`: the pair `(score, score2)`, computed on the hyphen-free copy of the row. */
  function Score(row: Row, ctx: Context, sim: Similarity): Scores {
    CopyScore(WithoutHyphens(row), ctx, sim)
  }

  /** The scores of the copy `c` that `process` works on. */
  function CopyScore(c: Row, ctx: Context, sim: Similarity): Scores {
    Scores(Points(Criteria(ctx), c, sim) + LabelPoints(c, ctx, sim) + MarkerPenalty(c.url), SizeScore(c))
  }

  /** The missing-label penalty of -10, or the title bonus of a labelled row. */
  function LabelPoints(c: Row, ctx: Context, sim: Similarity): int {
    if Unlabelled(c) then -10
    else TitleBonus(Matches(Segments(ctx.title), Lower(c.ref.value), sim))
  }

  /** -100 for a URL without an image marker. */
  function MarkerPenalty(url: string): int {
    if HasMarker(url) then 0 else -100
  }

  /** `score2`: the larger of the URL's `WxH` product and the size. */
  function SizeScore(c: Row): int {
    UrlSeparatorsDigitFree();
    Max(PairProduct(c.url, UrlSeparators), c.size)
  }

  /**
   * The primary score lies in -110..238: at best all 193 criterion points plus
   * the full title bonus; at worst no criterion, no label and no marker.
   */
  lemma ScoreBounds(row: Row, ctx: Context, sim: Similarity)
    ensures -110 <= Score(row, ctx, sim).score <= 238
  {
    CriteriaPositive(ctx);
    PointsRange(Criteria(ctx), WithoutHyphens(row), sim);
    CriteriaTotal(ctx);
  }

  /**
   * An unlabelled row that matches no criterion scores at most -10, so the
   * `score > 10` filter always drops it; if its URL also lacks a marker it
   * scores exactly -110.
   */
  lemma UnlabelledUnmatchedDropped(row: Row, ctx: Context, sim: Similarity)
    requires Unlabelled(WithoutHyphens(row))
    requires forall i :: 0 <= i < 12 ==> !Fires(Criteria(ctx)[i], WithoutHyphens(row), sim)
    ensures Score(row, ctx, sim).score <= -10
    ensures !HasMarker(row.url) ==> Score(row, ctx, sim).score == -110
  {
    CriteriaPositive(ctx);
    PointsExtremes(Criteria(ctx), WithoutHyphens(row), sim);
    CriteriaTotal(ctx);
  }

  /** The title bonus and the missing-label penalty exclude each other: an unlabelled row scores at most 183. */
  lemma UnlabelledCapped(row: Row, ctx: Context, sim: Similarity)
    requires Unlabelled(WithoutHyphens(row))
    ensures Score(row, ctx, sim).score <= 183
  {
    CriteriaPositive(ctx);
    PointsRange(Criteria(ctx), WithoutHyphens(row), sim);
    CriteriaTotal(ctx);
  }

  /**
   * Hyphens in `ref` do not matter: two rows that agree except on `ref`, whose
   * labels agree once hyphens are removed, get the same scores. The row itself
   * is not changed by scoring (the hyphen-free row is a copy).
   */
  lemma ScoreIgnoresHyphens(row: Row, a: string, b: string, ctx: Context, sim: Similarity)
    requires RemoveChar(a, '-') == RemoveChar(b, '-')
    ensures Score(row.(ref := Some(a)), ctx, sim) == Score(row.(ref := Some(b)), ctx, sim)
  {
    assert WithoutHyphens(row.(ref := Some(a))) == WithoutHyphens(row.(ref := Some(b)));
  }

  /**
   * The secondary score is the larger of `size` and the product of the first
   * `WxH` (separator `x` or `-`) in the URL, 1 without one: never below `size`
   * and never negative.
   */
  lemma Score2Meaning(row: Row, ctx: Context, sim: Similarity)
    ensures var s2 := Score(row, ctx, sim).score2;
      && s2 >= row.size && s2 >= 0
      && s2 >= PairProduct(row.url, UrlSeparators)
      && (s2 == row.size || s2 == PairProduct(row.url, UrlSeparators))
      && (FirstMatch(row.url, UrlSeparators).None? ==> s2 == Max(1, row.size))
  {
  }

  /**
   * The title loop of `process`: the segments' similarities to the label in
   * order, stopping at the first of at least 85 and adding its bonus. It
   * computes exactly `TitleBonus` of those similarities.
   */
  method TitleLoop(titles: seq<string>, refLower: string, sim: Similarity) returns (bonus: int)
    ensures bonus == TitleBonus(Matches(titles, refLower, sim))
  {
    ghost var ms := Matches(titles, refLower, sim);
    assert Percentages(ms);
    bonus := 0;
    var i := 0;
    while i < |titles|
      invariant 0 <= i <= |titles|
      invariant TitleBonus(ms) == TitleBonus(ms[i..])
    {
      var titleMatch := sim(refLower, Strip(titles[i]));
      TitleBonusStep(ms, i);
      if titleMatch >= 85 {
        bonus := 45 * titleMatch / 100;
        return;
      }
      i := i + 1;
    }
  }

  /** One step of the title loop: the bonus of a suffix is decided by its first similarity or by the rest. */
  lemma TitleBonusStep(ms: seq<int>, i: int)
    requires Percentages(ms) && 0 <= i < |ms|
    ensures TitleBonus(ms[i..]) == if ms[i] >= 85 then Bonus(ms[i]) else TitleBonus(ms[i + 1..])
  {
    assert ms[i..][0] == ms[i];
    assert ms[i..][1..] == ms[i + 1..];
  }

  /**
   * The label branch of `process`: -10 for a row without a label, otherwise
   * the bonus of the title loop. It computes exactly `LabelPoints`.
   */
  method LabelAdjustment(c: Row, ctx: Context, sim: Similarity) returns (delta: int)
    ensures delta == LabelPoints(c, ctx, sim)
  {
    if Unlabelled(c) {
      delta := -10;
    } else {
      delta := TitleLoop(Segments(ctx.title), Lower(c.ref.value), sim);
    }
  }

  /**
   * `process` written as the source writes it: the criteria sum, the label
   * adjustment, the marker penalty and the secondary score. It computes
   * exactly `Score`.
   */
  method Process(row: Row, ctx: Context, sim: Similarity) returns (score: int, score2: int)
    ensures Scores(score, score2) == Score(row, ctx, sim)
  {
    var c := WithoutHyphens(row);
    score := Points(Criteria(ctx), c, sim);
    var delta := LabelAdjustment(c, ctx, sim);
    score := score + delta;
    if !HasMarker(c.url) {
      score := score - 100;
    }
    UrlSeparatorsDigitFree();
    score2 := Max(PairProduct(c.url, UrlSeparators), c.size);
  }
}
