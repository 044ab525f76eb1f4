/**
 * What `crawl` does with the collected table: drop repeated `(ref, url)` pairs
 * keeping the first, score every row, sort by `(score, score2)` descending,
 * keep the rows scoring above 10 (outside debug mode), make relative URLs
 * absolute, drop the `size` column, and answer with the best URL or the table.
 */
module Ranking {
  import opened Wrappers
  import opened Strings
  import opened Document
  import opened Scoring

  // ---------------------------------------------------------------------------
  // drop_duplicates(subset=["ref", "url"])
  // ---------------------------------------------------------------------------

  /** No earlier row has the same `(ref, url)` as row `i`. */
  predicate IsFirst(rows: seq<Row>, i: nat)
    requires i < |rows|
  {
    forall j :: 0 <= j < i ==> Key(rows[j]) != Key(rows[i])
  }

  /** The positions below `n` that hold the first occurrence of their key, in increasing order. */
  function FirstIndices(rows: seq<Row>, n: nat): (r: seq<nat>)
    requires n <= |rows|
    ensures |r| <= n
    ensures forall k :: 0 <= k < |r| ==> r[k] < n && IsFirst(rows, r[k])
    ensures forall i :: 0 <= i < n && IsFirst(rows, i) ==> i in r
    ensures forall k, l :: 0 <= k < l < |r| ==> r[k] < r[l]
  {
    if n == 0 then []
    else if IsFirst(rows, n - 1) then FirstIndices(rows, n - 1) + [n - 1]
    else FirstIndices(rows, n - 1)
  }

  /** `drop_duplicates(subset=["ref", "url"])`: the first row of every key, in table order. */
  function Dedupe(rows: seq<Row>): seq<Row> {
    var idx := FirstIndices(rows, |rows|);
    seq(|idx|, k requires 0 <= k < |idx| => rows[idx[k]])
  }

  /** Every key has a first occurrence at or before any of its occurrences. */
  lemma {:induction false} FirstOccurrence(rows: seq<Row>, i: nat)
    requires i < |rows|
    ensures exists f :: 0 <= f <= i && IsFirst(rows, f) && Key(rows[f]) == Key(rows[i])
    decreases i
  {
    if !IsFirst(rows, i) {
      var j :| 0 <= j < i && Key(rows[j]) == Key(rows[i]);
      FirstOccurrence(rows, j);
    }
  }

  /** The deduplicated table is empty only when the input is, and never longer. */
  lemma DedupeSize(rows: seq<Row>)
    ensures |Dedupe(rows)| <= |rows|
    ensures Dedupe(rows) == [] <==> rows == []
  {
    if rows != [] {
      assert IsFirst(rows, 0);
      assert 0 in FirstIndices(rows, |rows|);
    }
  }

  /** No two rows of the deduplicated table share `(ref, url)`. */
  lemma DedupeDistinct(rows: seq<Row>)
    ensures var d := Dedupe(rows);
      forall i, j :: 0 <= i < j < |d| ==> Key(d[i]) != Key(d[j])
  {
  }

  /** Every key of the input survives deduplication. */
  lemma DedupeKeepsKeys(rows: seq<Row>)
    ensures var d := Dedupe(rows);
      forall i :: 0 <= i < |rows| ==> exists k :: 0 <= k < |d| && Key(d[k]) == Key(rows[i])
  {
    var idx := FirstIndices(rows, |rows|);
    var d := Dedupe(rows);
    forall i | 0 <= i < |rows|
      ensures exists k :: 0 <= k < |d| && Key(d[k]) == Key(rows[i])
    {
      FirstOccurrence(rows, i);
      var f :| 0 <= f <= i && IsFirst(rows, f) && Key(rows[f]) == Key(rows[i]);
      assert f in idx;
      var k :| 0 <= k < |idx| && idx[k] == f;
      assert d[k] == rows[f];
    }
  }

  /** Each surviving row is the first row of the input with its key. */
  lemma DedupeKeepsFirst(rows: seq<Row>)
    ensures forall x :: x in Dedupe(rows) ==> exists i :: 0 <= i < |rows| && x == rows[i] && IsFirst(rows, i)
  {
    var idx := FirstIndices(rows, |rows|);
    var d := Dedupe(rows);
    forall x | x in d ensures exists i :: 0 <= i < |rows| && x == rows[i] && IsFirst(rows, i) {
      var k :| 0 <= k < |d| && d[k] == x;
      var i := idx[k];
      assert x == rows[i] && IsFirst(rows, i);
    }
  }

  /** Survivors appear in the order of the input: `d[k]` is the row at position `FirstIndices(rows, |rows|)[k]`, increasing in `k`. */
  lemma DedupeOrder(rows: seq<Row>)
    ensures var idx := FirstIndices(rows, |rows|);
      && |Dedupe(rows)| == |idx|
      && (forall k :: 0 <= k < |idx| ==> Dedupe(rows)[k] == rows[idx[k]])
      && (forall k, l :: 0 <= k < l < |idx| ==> idx[k] < idx[l])
  {
  }

  // ---------------------------------------------------------------------------
  // apply(process) and sort_values(by=["score", "score2"], ascending=False)
  // ---------------------------------------------------------------------------

  /** A row together with the two columns `process` adds. */
  datatype Scored = Scored(row: Row, score: int, score2: int)

  /** `urls[["score", "score2"]] = urls.apply(process, axis=1)` */
  function ScoreAll(rows: seq<Row>, ctx: Context, sim: Similarity): (r: seq<Scored>)
    ensures |r| == |rows|
    ensures forall i :: 0 <= i < |rows| ==>
      r[i].row == rows[i] && Scores(r[i].score, r[i].score2) == Score(rows[i], ctx, sim)
  {
    seq(|rows|, i requires 0 <= i < |rows| =>
      var s := Score(rows[i], ctx, sim); Scored(rows[i], s.score, s.score2))
  }

  /** `a` comes strictly before `b` in the descending order of `(score, score2)`. */
  predicate Above(a: Scored, b: Scored) {
    a.score > b.score || (a.score == b.score && a.score2 > b.score2)
  }

  function RankKey(x: Scored): (int, int) {
    (x.score, x.score2)
  }

  predicate Sorted(s: seq<Scored>) {
    forall i, j :: 0 <= i < j < |s| ==> !Above(s[j], s[i])
  }

  /** Puts `x` after every element of `t` that is not strictly below it. */
  function Insert(x: Scored, t: seq<Scored>): seq<Scored> {
    if t == [] then [x]
    else if Above(x, t[0]) then [x] + t
    else [t[0]] + Insert(x, t[1..])
  }

  /** The stable descending sort: later elements are inserted behind equal ones. */
  function SortDesc(s: seq<Scored>): seq<Scored> {
    if s == [] then [] else Insert(s[|s| - 1], SortDesc(s[..|s| - 1]))
  }

  /** The elements of `s` with rank key `k`, in order. */
  function WithKey(s: seq<Scored>, k: (int, int)): seq<Scored> {
    if s == [] then []
    else (if RankKey(s[0]) == k then [s[0]] else []) + WithKey(s[1..], k)
  }

  /** Inserting adds exactly `x`. */
  lemma {:induction false} InsertPermutation(x: Scored, t: seq<Scored>)
    ensures multiset(Insert(x, t)) == multiset(t) + multiset{x}
    ensures |Insert(x, t)| == |t| + 1
  {
    if t != [] && !Above(x, t[0]) {
      InsertPermutation(x, t[1..]);
      assert t == [t[0]] + t[1..];
    }
  }

  /** Inserting keeps a bound: if neither `x` nor any element of `t` is above `h`, no element of the result is. */
  lemma {:induction false} InsertBounded(x: Scored, t: seq<Scored>, h: Scored)
    requires !Above(x, h) && forall i :: 0 <= i < |t| ==> !Above(t[i], h)
    ensures forall i :: 0 <= i < |Insert(x, t)| ==> !Above(Insert(x, t)[i], h)
  {
    if t != [] && !Above(x, t[0]) {
      InsertBounded(x, t[1..], h);
      var tail := Insert(x, t[1..]);
      assert Insert(x, t) == [t[0]] + tail;
      forall i | 0 <= i < |Insert(x, t)| ensures !Above(Insert(x, t)[i], h) {
        if i > 0 { assert Insert(x, t)[i] == tail[i - 1]; }
      }
    }
  }

  /** Inserting into a sorted sequence keeps it sorted. */
  lemma {:induction false} InsertSorted(x: Scored, t: seq<Scored>)
    requires Sorted(t)
    ensures Sorted(Insert(x, t))
  {
    if t != [] && !Above(x, t[0]) {
      InsertSorted(x, t[1..]);
      assert forall i :: 0 <= i < |t[1..]| ==> t[1..][i] == t[i + 1];
      InsertBounded(x, t[1..], t[0]);
      var r := Insert(x, t);
      var tail := Insert(x, t[1..]);
      assert r == [t[0]] + tail;
      forall i, j | 0 <= i < j < |r| ensures !Above(r[j], r[i]) {
        assert r[j] == tail[j - 1];
        if i > 0 { assert r[i] == tail[i - 1]; }
      }
    }
  }

  /** The sort orders its input and is a permutation of it. */
  lemma {:induction false} SortDescProperties(s: seq<Scored>)
    ensures Sorted(SortDesc(s))
    ensures multiset(SortDesc(s)) == multiset(s)
    ensures |SortDesc(s)| == |s|
  {
    if s != [] {
      SortDescProperties(s[..|s| - 1]);
      InsertSorted(s[|s| - 1], SortDesc(s[..|s| - 1]));
      InsertPermutation(s[|s| - 1], SortDesc(s[..|s| - 1]));
      assert s == s[..|s| - 1] + [s[|s| - 1]];
    }
  }

  lemma {:induction false} WithKeyAppend(s: seq<Scored>, t: seq<Scored>, k: (int, int))
    ensures WithKey(s + t, k) == WithKey(s, k) + WithKey(t, k)
  {
    if s == [] {
      assert s + t == t;
    } else {
      calc {
        WithKey(s + t, k);
        { assert (s + t)[0] == s[0]; assert (s + t)[1..] == s[1..] + t; }
        (if RankKey(s[0]) == k then [s[0]] else []) + WithKey(s[1..] + t, k);
        { WithKeyAppend(s[1..], t, k); }
        (if RankKey(s[0]) == k then [s[0]] else []) + (WithKey(s[1..], k) + WithKey(t, k));
      }
    }
  }

  /** In a sorted sequence below `x`, no element shares `x`'s key. */
  lemma {:induction false} WithKeyBelow(x: Scored, t: seq<Scored>)
    requires Sorted(t) && (t == [] || Above(x, t[0]))
    ensures WithKey(t, RankKey(x)) == []
  {
    if t != [] {
      assert t[1..] == [] || Above(x, t[1..][0]) by {
        if t[1..] != [] { assert t[1..][0] == t[1]; assert !Above(t[1], t[0]); }
      }
      WithKeyBelow(x, t[1..]);
    }
  }

  lemma {:induction false} InsertStable(x: Scored, t: seq<Scored>, k: (int, int))
    requires Sorted(t)
    ensures WithKey(Insert(x, t), k) == WithKey(t, k) + (if RankKey(x) == k then [x] else [])
  {
    if t == [] {
    } else if Above(x, t[0]) {
      if RankKey(x) == k {
        WithKeyBelow(x, t);
      }
      assert !(RankKey(t[0]) == k && RankKey(x) == k);
      if RankKey(x) != k {
        assert WithKey([x] + t, k) == WithKey(t, k) by {
          assert ([x] + t)[1..] == t;
        }
      } else {
        assert WithKey([x] + t, k) == [x] + WithKey(t, k) by {
          assert ([x] + t)[1..] == t;
        }
      }
    } else {
      InsertStable(x, t[1..], k);
      assert ([t[0]] + Insert(x, t[1..]))[1..] == Insert(x, t[1..]);
    }
  }

  /** Stability: the elements that tie on `(score, score2)` keep their relative order. */
  lemma {:induction false} SortDescStable(s: seq<Scored>, k: (int, int))
    ensures WithKey(SortDesc(s), k) == WithKey(s, k)
  {
    if s != [] {
      var init, x := s[..|s| - 1], s[|s| - 1];
      SortDescStable(init, k);
      SortDescProperties(init);
      InsertStable(x, SortDesc(init), k);
      assert s == init + [x];
      WithKeyAppend(init, [x], k);
    }
  }

  /** The index of the first element no other element is strictly above. */
  function Best(s: seq<Scored>): (b: nat)
    requires s != []
    ensures b < |s|
    ensures forall j :: 0 <= j < |s| ==> !Above(s[j], s[b])
    ensures forall j :: 0 <= j < b ==> Above(s[b], s[j])
  {
    if |s| == 1 then 0
    else
      var b := Best(s[..|s| - 1]);
      assert forall j :: 0 <= j < |s| - 1 ==> s[j] == s[..|s| - 1][j];
      if Above(s[|s| - 1], s[b]) then |s| - 1 else b
  }

  /** The first element with key `k` of a sequence is its first element whose key is `k`. */
  lemma {:induction false} WithKeyHead(s: seq<Scored>, i: nat)
    requires i < |s|
    requires forall j :: 0 <= j < i ==> RankKey(s[j]) != RankKey(s[i])
    ensures WithKey(s, RankKey(s[i])) != [] && WithKey(s, RankKey(s[i]))[0] == s[i]
  {
    if i > 0 {
      WithKeyHead(s[1..], i - 1);
    }
  }

  /**
   * The head of the sorted table is the first row, in table order, among those
   * with the greatest `(score, score2)`.
   */
  lemma SortDescHead(s: seq<Scored>)
    requires s != []
    ensures SortDesc(s) != [] && SortDesc(s)[0] == s[Best(s)]
  {
    var t := SortDesc(s);
    SortDescProperties(s);
    var b := Best(s);
    assert t[0] in multiset(s);
    var p :| 0 <= p < |s| && s[p] == t[0];
    assert s[b] in multiset(t);
    var q :| 0 <= q < |t| && t[q] == s[b];
    assert RankKey(t[0]) == RankKey(s[b]) by {
      assert !Above(s[p], s[b]);
      if q > 0 { assert !Above(t[q], t[0]); }
    }
    WithKeyHead(t, 0);
    WithKeyHead(s, b);
    SortDescStable(s, RankKey(s[b]));
  }

  // ---------------------------------------------------------------------------
  // urls[urls["score"] > 10]
  // ---------------------------------------------------------------------------

  /** The rows scoring above 10 (the boolean mask of `urls["score"] > 10`). */
  function KeepAbove(t: seq<Scored>): (r: seq<Scored>)
    ensures |r| <= |t|
    ensures forall x :: x in r <==> x in t && x.score > 10
  {
    if t == [] then []
    else if t[0].score > 10 then [t[0]] + KeepAbove(t[1..])
    else KeepAbove(t[1..])
  }

  /** The mask works row by row: filtering a concatenation filters each part, so survivors keep their order. */
  lemma {:induction false} KeepAboveAppend(a: seq<Scored>, b: seq<Scored>)
    ensures KeepAbove(a + b) == KeepAbove(a) + KeepAbove(b)
    decreases |a|
  {
    if a == [] {
      assert a + b == b;
    } else {
      assert (a + b)[0] == a[0] && (a + b)[1..] == a[1..] + b;
      KeepAboveAppend(a[1..], b);
    }
  }

  /** Filtering a sorted table leaves it sorted, and every survivor scores above 10. */
  lemma {:induction false} KeepAboveKeepsSorted(t: seq<Scored>)
    requires Sorted(t)
    ensures Sorted(KeepAbove(t))
    ensures forall x :: x in KeepAbove(t) ==> x.score > 10
  {
    if t != [] {
      var rest := KeepAbove(t[1..]);
      KeepAboveKeepsSorted(t[1..]);
      if t[0].score > 10 {
        forall y | y in rest ensures !Above(y, t[0]) {
          var i :| 0 <= i < |t[1..]| && t[1..][i] == y;
          assert t[i + 1] == y;
        }
      }
    }
  }

  /**
   * On a sorted table the filter keeps a prefix: nothing survives exactly when
   * the head scores 10 or less, and otherwise the head survives in front.
   */
  lemma KeepAboveSorted(t: seq<Scored>)
    requires Sorted(t)
    ensures KeepAbove(t) == [] <==> t == [] || t[0].score <= 10
    ensures t != [] && t[0].score > 10 ==> KeepAbove(t)[0] == t[0]
  {
    if t != [] && t[0].score <= 10 {
      forall x | x in t ensures x.score <= 10 {
        var i :| 0 <= i < |t| && t[i] == x;
        if i > 0 { assert !Above(t[i], t[0]); }
      }
    }
  }

  // ---------------------------------------------------------------------------
  // URL fix-up
  // ---------------------------------------------------------------------------

  /** Protocol-relative URLs (`//host/...`) get `https:` in front. */
  function FixProtocol(u: string): string {
    if HasPrefix(u, "//") then "https:" + u else u
  }

  /** Anything not starting with `http` or `data:` is put behind `https://<bare url>`, without a separator. */
  function FixRelative(u: string, bare: string): string {
    if HasPrefix(u, "http") || HasPrefix(u, "data:") then u else "https://" + bare + u
  }

  /** Both passes, in the order `crawl` applies them. */
  function FixUrl(u: string, bare: string): string {
    FixRelative(FixProtocol(u), bare)
  }

  predicate Absolute(u: string) {
    HasPrefix(u, "http") || HasPrefix(u, "data:")
  }

  lemma PrefixOfConcat(a: string, b: string, p: string)
    requires HasPrefix(a, p)
    ensures HasPrefix(a + b, p)
  {
    assert (a + b)[..|p|] == a[..|p|];
  }

  /**
   * Every fixed URL starts with `http` or `data:`; one that already did is left
   * alone, so fixing twice is fixing once.
   */
  lemma FixUrlMeaning(u: string, bare: string)
    ensures Absolute(FixUrl(u, bare))
    ensures Absolute(u) ==> FixUrl(u, bare) == u
    ensures FixUrl(FixUrl(u, bare), bare) == FixUrl(u, bare)
  {
    assert HasPrefix("https:", "http");
    assert HasPrefix("https://" + bare, "http") by { PrefixOfConcat("https://", bare, "http"); }
    if HasPrefix(u, "//") {
      PrefixOfConcat("https:", u, "http");
    } else if !Absolute(u) {
      PrefixOfConcat("https://" + bare, u, "http");
    }
    var f := FixUrl(u, bare);
    assert !HasPrefix(f, "//") by {
      if HasPrefix(f, "http") { assert f[0] == 'h'; } else { assert f[0] == 'd'; }
    }
  }

  lemma Differs(s: string, p: string, i: nat)
    requires i < |p| && i < |s| && s[i] != p[i]
    ensures !HasPrefix(s, p)
  {
  }

  /** A protocol-relative URL keeps its host: `//cdn.example.org/a.png` becomes `https://cdn.example.org/a.png`. */
  lemma FixProtocolRelative()
    ensures FixUrl("//cdn.example.org/a.png", "example.org") == "https://cdn.example.org/a.png"
  {
    var u, f := "//cdn.example.org/a.png", "https://cdn.example.org/a.png";
    assert HasPrefix(u, "//") by { assert u[..2] == "//"; }
    assert FixProtocol(u) == f;
    assert HasPrefix(f, "http") by { assert f[..4] == "http"; }
  }

  /** A root-relative path is put behind the site: `/img/logo.png` becomes `https://example.org/img/logo.png`. */
  lemma FixRootRelative()
    ensures FixUrl("/img/logo.png", "example.org") == "https://example.org/img/logo.png"
  {
    var u, b := "/img/logo.png", "example.org";
    Differs(u, "//", 1);
    assert FixProtocol(u) == u;
    Differs(u, "http", 0);
    Differs(u, "data:", 0);
    assert FixRelative(u, b) == "https://" + b + u;
    assert "https://" + b + u == "https://example.org/img/logo.png";
  }

  /** A relative path without a leading slash is glued to the site name with no slash between. */
  lemma FixDocumentRelative()
    ensures FixUrl("logo.png", "example.org") == "https://example.orglogo.png"
  {
    var u, b := "logo.png", "example.org";
    Differs(u, "//", 0);
    assert FixProtocol(u) == u;
    Differs(u, "http", 0);
    Differs(u, "data:", 0);
    assert FixRelative(u, b) == "https://" + b + u;
    assert "https://" + b + u == "https://example.orglogo.png";
  }

  /** `urls['url'] = urls['url'].apply(...)`, both passes: only the URL column changes. */
  function FixUrls(t: seq<Scored>, bare: string): (r: seq<Scored>)
    ensures |r| == |t|
    ensures forall i :: 0 <= i < |t| ==>
      r[i] == t[i].(row := t[i].row.(url := FixUrl(t[i].row.url, bare)))
  {
    seq(|t|, i requires 0 <= i < |t| => t[i].(row := t[i].row.(url := FixUrl(t[i].row.url, bare))))
  }

  /** The fix-up touches no score, so a sorted table stays sorted. */
  lemma FixUrlsSorted(t: seq<Scored>, bare: string)
    requires Sorted(t)
    ensures Sorted(FixUrls(t, bare))
  {
    var r := FixUrls(t, bare);
    forall i, j | 0 <= i < j < |r| ensures !Above(r[j], r[i]) {
      assert !Above(t[j], t[i]);
    }
  }

  // ---------------------------------------------------------------------------
  // The answer of crawl
  // ---------------------------------------------------------------------------

  /** A row of the returned table: the `size` column is dropped. */
  datatype Entry = Entry(website: string, ref: Option<string>, url: string, source: Source, score: int, score2: int)

  function EntryOf(x: Scored): Entry {
    Entry(x.row.website, x.row.ref, x.row.url, x.row.source, x.score, x.score2)
  }

  function Entries(t: seq<Scored>): (r: seq<Entry>)
    ensures |r| == |t| && forall i :: 0 <= i < |t| ==> r[i] == EntryOf(t[i])
  {
    seq(|t|, i requires 0 <= i < |t| => EntryOf(t[i]))
  }

  /**
   * What `crawl` answers once the page was read: None (no candidate, or none
   * left after filtering), the best URL, the whole table in debug mode, or the
   * IndexError a `<link>` with an empty `rel` raises.
   */
  datatype Outcome = NoLogo | Logo(url: string) | Table(entries: seq<Entry>) | RelError

  /**
   * The table `crawl` holds at the end, from the collected rows: deduplicated,
   * scored, sorted, filtered outside debug mode, URLs fixed.
   */
  function Ranked(rows: seq<Row>, ctx: Context, sim: Similarity, debug: bool, bare: string): seq<Scored> {
    var sorted := SortDesc(ScoreAll(Dedupe(rows), ctx, sim));
    FixUrls(if debug then sorted else KeepAbove(sorted), bare)
  }

  /** The `website, ref, url, source, size` columns of a scored table. */
  function RowsOf(t: seq<Scored>): seq<Row> {
    seq(|t|, i requires 0 <= i < |t| => t[i].row)
  }

  /**
   * The final table is sorted by `(score, score2)` descending; outside debug
   * mode every row in it scores above 10, and in debug mode it keeps every
   * deduplicated row.
   */
  lemma RankedSorted(rows: seq<Row>, ctx: Context, sim: Similarity, debug: bool, bare: string)
    ensures Sorted(Ranked(rows, ctx, sim, debug, bare))
    ensures !debug ==> forall x :: x in Ranked(rows, ctx, sim, debug, bare) ==> x.score > 10
    ensures debug ==> |Ranked(rows, ctx, sim, debug, bare)| == |Dedupe(rows)|
  {
    var sorted := SortDesc(ScoreAll(Dedupe(rows), ctx, sim));
    SortDescProperties(ScoreAll(Dedupe(rows), ctx, sim));
    if debug {
      FixUrlsSorted(sorted, bare);
    } else {
      KeepAboveKeepsSorted(sorted);
      FixUrlsSorted(KeepAbove(sorted), bare);
      var f := KeepAbove(sorted);
      var r := FixUrls(f, bare);
      forall x | x in r ensures x.score > 10 {
        var i :| 0 <= i < |r| && r[i] == x;
        assert f[i] in f;
      }
    }
  }

  /** What `crawl` answers for the collected rows `rows`. */
  function Rank(rows: seq<Row>, ctx: Context, sim: Similarity, debug: bool, bare: string): Outcome {
    if rows == [] then NoLogo
    else
      var t := Ranked(rows, ctx, sim, debug, bare);
      if t == [] then NoLogo
      else if debug then Table(Entries(t))
      else Logo(t[0].row.url)
  }

  /**
   * Outside debug mode `crawl` answers with the URL of the first row, in
   * collection order after deduplication, among those with the greatest
   * `(score, score2)`, made absolute, provided that row scores above 10; and
   * with None otherwise.
   */
  lemma RankPicksBest(rows: seq<Row>, ctx: Context, sim: Similarity, bare: string)
    ensures var sc := ScoreAll(Dedupe(rows), ctx, sim);
      Rank(rows, ctx, sim, false, bare) ==
        if sc != [] && sc[Best(sc)].score > 10 then Logo(FixUrl(sc[Best(sc)].row.url, bare)) else NoLogo
  {
    var sc := ScoreAll(Dedupe(rows), ctx, sim);
    DedupeSize(rows);
    if sc != [] {
      SortDescProperties(sc);
      SortDescHead(sc);
      KeepAboveSorted(SortDesc(sc));
    }
  }

  /** The best row scores above 10 exactly when some row does. */
  lemma BestPassesFilter(sc: seq<Scored>)
    requires sc != []
    ensures sc[Best(sc)].score > 10 <==> exists x :: x in sc && x.score > 10
  {
    if exists x :: x in sc && x.score > 10 {
      var x :| x in sc && x.score > 10;
      var i :| 0 <= i < |sc| && sc[i] == x;
      assert !Above(sc[i], sc[Best(sc)]);
    }
  }

  /** Hence, outside debug mode, there is an answer exactly when some deduplicated row scores above 10. */
  lemma RankFindsLogo(rows: seq<Row>, ctx: Context, sim: Similarity, bare: string)
    ensures Rank(rows, ctx, sim, false, bare).Logo? <==>
      exists x :: x in ScoreAll(Dedupe(rows), ctx, sim) && x.score > 10
    ensures Rank(rows, ctx, sim, false, bare).Logo? ==> Absolute(Rank(rows, ctx, sim, false, bare).url)
  {
    var sc := ScoreAll(Dedupe(rows), ctx, sim);
    RankPicksBest(rows, ctx, sim, bare);
    if sc != [] {
      BestPassesFilter(sc);
      FixUrlMeaning(sc[Best(sc)].row.url, bare);
    }
  }

  /** In debug mode nothing is filtered: the answer is None exactly for an empty table, and a table otherwise. */
  lemma RankDebugAnswers(rows: seq<Row>, ctx: Context, sim: Similarity, bare: string)
    ensures Rank(rows, ctx, sim, true, bare) == NoLogo <==> rows == []
    ensures rows != [] ==> Rank(rows, ctx, sim, true, bare).Table?
  {
    DedupeSize(rows);
    SortDescProperties(ScoreAll(Dedupe(rows), ctx, sim));
  }

  /** In debug mode the answer is the whole scored table, sorted, with its URLs fixed. */
  lemma RankDebugTable(rows: seq<Row>, ctx: Context, sim: Similarity, bare: string)
    requires rows != []
    ensures Rank(rows, ctx, sim, true, bare) == Table(DebugTable(ScoreAll(Dedupe(rows), ctx, sim), bare))
  {
    DedupeSize(rows);
    SortDescProperties(ScoreAll(Dedupe(rows), ctx, sim));
  }

  /** The table the debug answer shows for the scored rows `sc`. */
  function DebugTable(sc: seq<Scored>, bare: string): seq<Entry> {
    Entries(FixUrls(SortDesc(sc), bare))
  }

  /** The debug table has one entry per scored row, sorted by `(score, score2)` descending. */
  lemma DebugTableSorted(sc: seq<Scored>, bare: string)
    ensures |DebugTable(sc, bare)| == |sc|
    ensures var es := DebugTable(sc, bare);
      forall i, j :: 0 <= i < j < |es| ==>
        es[j].score < es[i].score || (es[j].score == es[i].score && es[j].score2 <= es[i].score2)
  {
    SortDescProperties(sc);
    var t := SortDesc(sc);
    var es := DebugTable(sc, bare);
    forall i, j | 0 <= i < j < |es|
      ensures es[j].score < es[i].score || (es[j].score == es[i].score && es[j].score2 <= es[i].score2)
    {
      assert !Above(t[j], t[i]);
    }
  }

  /** Every URL in the debug table is absolute. */
  lemma DebugTableAbsolute(sc: seq<Scored>, bare: string)
    ensures forall e :: e in DebugTable(sc, bare) ==> Absolute(e.url)
  {
    SortDescProperties(sc);
    var t := SortDesc(sc);
    var es := DebugTable(sc, bare);
    forall e | e in es ensures Absolute(e.url) {
      var i :| 0 <= i < |es| && es[i] == e;
      FixUrlMeaning(t[i].row.url, bare);
    }
  }

  /** Every scored row appears in the debug table, with its URL fixed. */
  lemma DebugTableComplete(sc: seq<Scored>, bare: string)
    ensures forall x :: x in sc ==> EntryOf(x.(row := x.row.(url := FixUrl(x.row.url, bare)))) in DebugTable(sc, bare)
  {
    SortDescProperties(sc);
    var t := SortDesc(sc);
    var es := DebugTable(sc, bare);
    forall x | x in sc ensures EntryOf(x.(row := x.row.(url := FixUrl(x.row.url, bare)))) in es {
      assert x in multiset(t);
      var i :| 0 <= i < |t| && t[i] == x;
      assert es[i] == EntryOf(x.(row := x.row.(url := FixUrl(x.row.url, bare))));
    }
  }
}
