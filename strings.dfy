/** The Option type used for attributes and values that may be absent (Python's None). */
module Wrappers {
  datatype Option<+T> = None | Some(value: T)
}

/**
 * The handful of Python `str` operations the crawler relies on, written out over
 * `seq<char>`: `lower`, `startswith`, `endswith`, `in`, `replace`, `strip`,
 * and the two splits it performs (a single-character regex class and the
 * whitespace tokenising the HTML parser applies to `rel`).
 */
module Strings {
  import opened Wrappers

  /** `str.lower` restricted to ASCII: 'A'..'Z' become 'a'..'z', every other character is kept. */
  function LowerChar(c: char): char {
    if 'A' <= c <= 'Z' then (c as int + 32) as char else c
  }

  function Lower(s: string): (r: string)
    ensures |r| == |s|
    ensures forall i :: 0 <= i < |s| ==> r[i] == LowerChar(s[i])
  {
    seq(|s|, i requires 0 <= i < |s| => LowerChar(s[i]))
  }

  predicate IsLower(s: string) {
    forall i :: 0 <= i < |s| ==> !('A' <= s[i] <= 'Z')
  }

  /** Lowering yields a lower-case string and is idempotent. */
  lemma LowerIsLower(s: string)
    ensures IsLower(Lower(s))
    ensures Lower(Lower(s)) == Lower(s)
  {
  }

  /** `s.startswith(p)` */
  predicate HasPrefix(s: string, p: string) {
    |p| <= |s| && s[..|p|] == p
  }

  /** `s.endswith(p)` */
  predicate HasSuffix(s: string, p: string) {
    |p| <= |s| && s[|s| - |p|..] == p
  }

  /** `p in s`: `p` occurs in `s` as a contiguous substring. */
  predicate Contains(s: string, p: string)
    decreases |s|
  {
    HasPrefix(s, p) || (s != [] && Contains(s[1..], p))
  }

  /** `p` occurs in `s` starting at position `k`. */
  predicate OccursAt(s: string, p: string, k: nat) {
    k + |p| <= |s| && s[k..k + |p|] == p
  }

  /** An occurrence of `p` at some position of `s` makes `Contains(s, p)` hold; `ContainsOccurs` is the converse. */
  lemma {:induction false} ContainsAt(s: string, p: string, k: nat)
    requires OccursAt(s, p, k)
    ensures Contains(s, p)
    decreases k
  {
    if k == 0 {
      assert s[..|p|] == s[0..0 + |p|];
    } else {
      assert s[1..][k - 1..k - 1 + |p|] == s[k..k + |p|];
      ContainsAt(s[1..], p, k - 1);
    }
  }

  /** A suffix is in particular a substring. */
  lemma SuffixIsContained(s: string, p: string)
    requires HasSuffix(s, p)
    ensures Contains(s, p)
  {
    ContainsAt(s, p, |s| - |p|);
  }

  /** `Contains(s, p)` holds only when `p` occurs in `s` at some position. */
  lemma {:induction false} ContainsOccurs(s: string, p: string)
    requires Contains(s, p)
    ensures exists k: nat :: OccursAt(s, p, k)
    decreases |s|
  {
    if HasPrefix(s, p) {
      assert s[0..0 + |p|] == p;
      assert OccursAt(s, p, 0);
    } else {
      ContainsOccurs(s[1..], p);
      var k: nat :| OccursAt(s[1..], p, k);
      assert s[k + 1..k + 1 + |p|] == s[1..][k..k + |p|];
      assert OccursAt(s, p, k + 1);
    }
  }

  /** `s.replace(pat, rep)`: every non-overlapping occurrence, scanned left to right. */
  function ReplaceAll(s: string, pat: string, rep: string): string
    requires pat != []
    decreases |s|
  {
    if |s| < |pat| then s
    else if s[..|pat|] == pat then rep + ReplaceAll(s[|pat|..], pat, rep)
    else [s[0]] + ReplaceAll(s[1..], pat, rep)
  }

  /**
   * `s.replace(c, "")` for a single character `c`: no `c` is left, a string
   * without `c` is kept, and (`RemoveCharAppend`) the removal works piece by
   * piece, so the other characters stay in their order.
   */
  function RemoveChar(s: string, c: char): (r: string)
    ensures c !in r
    ensures |r| <= |s|
    ensures c !in s ==> r == s
  {
    if s == [] then []
    else if s[0] == c then RemoveChar(s[1..], c)
    else [s[0]] + RemoveChar(s[1..], c)
  }

  /**
   * Exactly the occurrences of `c` are dropped: the result is shorter than the
   * input by their number, so no `c` is replaced by another character.
   */
  lemma {:induction false} RemoveCharCount(s: string, c: char)
    ensures |RemoveChar(s, c)| == |s| - multiset(s)[c]
    decreases |s|
  {
    if s != [] {
      assert s == [s[0]] + s[1..];
      assert multiset(s) == multiset([s[0]]) + multiset(s[1..]);
      RemoveCharCount(s[1..], c);
    }
  }

  /** Removing `c` from a concatenation removes it from each part. */
  lemma {:induction false} RemoveCharAppend(a: string, b: string, c: char)
    ensures RemoveChar(a + b, c) == RemoveChar(a, c) + RemoveChar(b, c)
    decreases |a|
  {
    if a == [] {
      assert a + b == b;
    } else {
      assert (a + b)[0] == a[0] && (a + b)[1..] == a[1..] + b;
      RemoveCharAppend(a[1..], b, c);
      if a[0] == c {
        assert RemoveChar(a + b, c) == RemoveChar(a[1..] + b, c);
      } else {
        assert RemoveChar(a + b, c) == [a[0]] + RemoveChar(a[1..] + b, c);
      }
    }
  }

  /**
   * The characters Python's `str.strip()` and the regular expression class
   * `\s` treat as whitespace (`str.isspace`).
   */
  predicate IsSpace(c: char) {
    var n := c as int;
    (9 <= n <= 13) || (28 <= n <= 32) || n == 0x85 || n == 0xA0 || n == 0x1680
    || (0x2000 <= n <= 0x200A) || n == 0x2028 || n == 0x2029 || n == 0x202F
    || n == 0x205F || n == 0x3000
  }

  predicate NoSpace(s: string) {
    forall i :: 0 <= i < |s| ==> !IsSpace(s[i])
  }

  predicate AllSpace(s: string) {
    forall i :: 0 <= i < |s| ==> IsSpace(s[i])
  }

  function TrimStart(s: string): (r: string)
    ensures |r| <= |s| && r == s[|s| - |r|..]
    ensures r == [] || !IsSpace(r[0])
    ensures forall i :: 0 <= i < |s| - |r| ==> IsSpace(s[i])
  {
    if s != [] && IsSpace(s[0]) then TrimStart(s[1..]) else s
  }

  function TrimEnd(s: string): (r: string)
    ensures |r| <= |s| && r == s[..|r|]
    ensures r == [] || !IsSpace(r[|r| - 1])
  {
    if s != [] && IsSpace(s[|s| - 1]) then TrimEnd(s[..|s| - 1]) else s
  }

  /** `r` is the slice of `s` at `i`, with only whitespace before and after it. */
  predicate SpaceAround(s: string, i: nat, r: string) {
    i + |r| <= |s| && r == s[i..i + |r|] && AllSpace(s[..i]) && AllSpace(s[i + |r|..])
  }

  /** `s.strip()`; `StripMeaning` states which slice of `s` it is. */
  function Strip(s: string): (r: string)
    ensures r == [] || (!IsSpace(r[0]) && !IsSpace(r[|r| - 1]))
  {
    TrimEnd(TrimStart(s))
  }

  /**
   * The strip of `s` is a slice of `s` with only whitespace cut off on either
   * side (and, by `Strip`'s contract, no whitespace at its own ends).
   */
  lemma StripMeaning(s: string)
    ensures exists i: nat :: SpaceAround(s, i, Strip(s))
  {
    var t := TrimStart(s);
    var i := |s| - |t|;
    var r := TrimEnd(t);
    SpacePrefix(s, i);
    TrimEndSpace(t);
    TrimSlices(s, i, t, r);
    assert SpaceAround(s, i, Strip(s));
  }

  /** What `TrimEnd` cut off is whitespace. */
  lemma {:induction false} TrimEndSpace(s: string)
    ensures AllSpace(s[|TrimEnd(s)|..])
    decreases |s|
  {
    if s != [] && IsSpace(s[|s| - 1]) {
      var p := s[..|s| - 1];
      TrimEndSpace(p);
      assert s[|TrimEnd(p)|..] == p[|TrimEnd(p)|..] + [s[|s| - 1]];
    }
  }

  lemma SpacePrefix(s: string, n: nat)
    requires n <= |s| && forall i :: 0 <= i < n ==> IsSpace(s[i])
    ensures AllSpace(s[..n])
  {
    assert forall k :: 0 <= k < n ==> s[..n][k] == s[k];
  }

  /** The trimmed slice, from the two facts the trimming functions give. */
  lemma {:induction false} TrimSlices(s: string, i: nat, t: string, r: string)
    requires i <= |s| && t == s[i..] && |r| <= |t| && r == t[..|r|]
    requires AllSpace(s[..i]) && AllSpace(t[|r|..])
    ensures SpaceAround(s, i, r)
  {
    SliceOfSuffix(s, i, |r|);
  }

  /** Slicing the suffix of `s` from `i` is slicing `s` itself, shifted by `i`. */
  lemma SliceOfSuffix(s: string, i: nat, n: nat)
    requires i + n <= |s|
    ensures s[i..][..n] == s[i..i + n] && s[i..][n..] == s[i + n..]
  {
  }

  /** A string without whitespace is its own strip. */
  lemma StripNoSpace(s: string)
    requires NoSpace(s)
    ensures Strip(s) == s
  {
    assert TrimStart(s) == s;
    assert TrimEnd(s) == s;
  }

  /** The longest prefix of `s` holding no whitespace. */
  function TakeToken(s: string): (r: string)
    ensures |r| <= |s| && r == s[..|r|] && NoSpace(r)
    ensures |r| == |s| || IsSpace(s[|r|])
  {
    if s == [] || IsSpace(s[0]) then [] else [s[0]] + TakeToken(s[1..])
  }

  /** `tok` is a maximal run of non-whitespace starting at `k`, preceded only by whitespace. */
  predicate StartsTokenAt(s: string, k: nat, tok: string) {
    k + |tok| <= |s| && s[k..k + |tok|] == tok
    && (forall i :: 0 <= i < k ==> IsSpace(s[i]))
    && (k + |tok| == |s| || IsSpace(s[k + |tok|]))
  }

  /**
   * First element of the whitespace tokens of `s` (the regular expression `\S+`
   * applied with `findall`); None when `s` holds no token.
   */
  function FirstToken(s: string): (r: Option<string>)
    ensures r.None? <==> forall i :: 0 <= i < |s| ==> IsSpace(s[i])
    ensures r.Some? ==> r.value != [] && NoSpace(r.value)
    ensures r.Some? ==> exists k :: StartsTokenAt(s, k, r.value)
  {
    var t := TrimStart(s);
    if t == [] then None
    else
      var tok, k := TakeToken(t), |s| - |t|;
      assert s[k..k + |tok|] == t[..|tok|];
      assert StartsTokenAt(s, k, tok);
      Some(tok)
  }

  /**
   * `re.split` with a pattern that is a single character class: the pieces
   * between successive separators, empty pieces included.
   */
  function SplitOn(s: string, seps: set<char>): (r: seq<string>)
    ensures |r| >= 1
    ensures forall k :: 0 <= k < |r| ==> forall i :: 0 <= i < |r[k]| ==> r[k][i] !in seps
  {
    if s == [] then [[]]
    else
      var rest := SplitOn(s[1..], seps);
      if s[0] in seps then [[]] + rest
      else [[s[0]] + rest[0]] + rest[1..]
  }

  /** Joining the pieces back with the separators that were removed gives back `s`. */
  function SeparatorsOf(s: string, seps: set<char>): (r: string)
    ensures forall i :: 0 <= i < |r| ==> r[i] in seps
  {
    if s == [] then []
    else if s[0] in seps then [s[0]] + SeparatorsOf(s[1..], seps)
    else SeparatorsOf(s[1..], seps)
  }

  function Interleave(pieces: seq<string>, joints: string): string
    requires |pieces| == |joints| + 1
  {
    if joints == [] then pieces[0]
    else pieces[0] + [joints[0]] + Interleave(pieces[1..], joints[1..])
  }

  /** A character glued to the front of the first piece ends up in front of the joined string. */
  lemma InterleaveCons(c: char, pieces: seq<string>, joints: string)
    requires |pieces| == |joints| + 1
    ensures Interleave([[c] + pieces[0]] + pieces[1..], joints) == [c] + Interleave(pieces, joints)
  {
    var q := [[c] + pieces[0]] + pieces[1..];
    assert q[0] == [c] + pieces[0];
    if joints != [] {
      var rest := Interleave(pieces[1..], joints[1..]);
      assert Interleave(q, joints) == ([c] + pieces[0]) + ([joints[0]] + rest) by {
        assert q[1..] == pieces[1..];
      }
      assert Interleave(pieces, joints) == pieces[0] + ([joints[0]] + rest);
    }
  }

  /** Splitting loses nothing: one more piece than separators, and they interleave back to `s`. */
  lemma {:induction false} SplitOnRejoins(s: string, seps: set<char>)
    ensures |SplitOn(s, seps)| == |SeparatorsOf(s, seps)| + 1
    ensures Interleave(SplitOn(s, seps), SeparatorsOf(s, seps)) == s
  {
    if s != [] {
      SplitOnRejoins(s[1..], seps);
      var rest := SplitOn(s[1..], seps);
      if s[0] in seps {
        assert SplitOn(s, seps)[1..] == rest;
        assert s == [] + [s[0]] + s[1..];
      } else {
        InterleaveCons(s[0], rest, SeparatorsOf(s[1..], seps));
        assert s == [s[0]] + s[1..];
      }
    }
  }
}
