/**
 * The reset-link scanner of the password-reset helper: a hand-written
 * matcher for the one regular expression
 *     (https?://[^\s<>"]+reset[^\s<>"]+)
 * searched for the way Python's `re.search` does (leftmost start, greedy
 * repetition with backtracking), and the declarative meaning of that search.
 */
module ResetLink {
  import opened Wrappers
  import opened PyStr

  /** A character that `[^\s<>"]` accepts. */
  predicate LinkChar(c: char) {
    !IsSpace(c) && c != '<' && c != '>' && c != '"'
  }

  predicate AllLinkChars(t: string) {
    forall m :: 0 <= m < |t| ==> LinkChar(t[m])
  }

  /** `t` starts with the scheme `http://` (n == 7) or `https://` (n == 8). */
  predicate SchemeOfLength(t: string, n: nat) {
    (n == 7 && OccursAt(t, "http://", 0)) || (n == 8 && OccursAt(t, "https://", 0))
  }

  /** `t` splits as scheme (length n), at least one link character, `reset`
      at index k, and at least one more link character. */
  predicate PatternSplit(t: string, n: nat, k: nat) {
    SchemeOfLength(t, n) && n < k && k + 5 < |t| && OccursAt(t, "reset", k) && AllLinkChars(t[n..])
  }

  /** `t` is matched, as a whole, by the reset-link pattern. */
  ghost predicate InPattern(t: string) {
    exists n: nat, k: nat :: PatternSplit(t, n, k)
  }

  /** What `re.search(...).group(1)` returns: body[i..j] is a match that
      starts as early as any match can and that the greedy repetition
      stretched as far as the link characters go. */
  ghost predicate LeftmostGreedy(body: string, i: nat, j: nat) {
    && i <= j <= |body|
    && InPattern(body[i..j])
    && (j == |body| || !LinkChar(body[j]))
    && forall i': nat, j': nat :: i' < i && i' <= j' <= |body| ==> !InPattern(body[i'..j'])
  }

  // ---------------------------------------------------------------------
  // The matcher
  // ---------------------------------------------------------------------

  /** Where the scheme starting at i ends. The regex tries `https` first and
      falls back to `http`; `http` followed by `s` cannot go on with `://`. */
  function SchemeEnd(body: string, i: nat): (r: Option<nat>)
    ensures r.Some? ==> i + 7 <= r.value <= |body|
  {
    if OccursAt(body, "https://", i) then Some(i + 8)
    else if OccursAt(body, "http://", i) then Some(i + 7)
    else None
  }

  /** The end of the longest run of link characters starting at p. */
  function RunEnd(body: string, p: nat): (e: nat)
    requires p <= |body|
    ensures p <= e <= |body|
    ensures forall m :: p <= m < e ==> LinkChar(body[m])
    ensures e == |body| || !LinkChar(body[e])
    decreases |body| - p
  {
    if p == |body| || !LinkChar(body[p]) then p else RunEnd(body, p + 1)
  }

  /** The `reset` that backtracking settles on: the last one in [lo, hi)
      that leaves at least one character before hi. */
  function LastReset(body: string, lo: nat, hi: nat): (r: Option<nat>)
    requires hi <= |body|
    ensures r.Some? ==> lo <= r.value && r.value + 6 <= hi && OccursAt(body, "reset", r.value)
    ensures r.Some? ==> forall k :: r.value < k && k + 6 <= hi ==> !OccursAt(body, "reset", k)
    ensures r.None? ==> forall k :: lo <= k && k + 6 <= hi ==> !OccursAt(body, "reset", k)
    decreases hi
  {
    if hi < lo + 6 then None
    else if OccursAt(body, "reset", hi - 6) then Some(hi - 6)
    else LastReset(body, lo, hi - 1)
  }

  /** A match found by the regex engine: where it starts, where the chosen
      `reset` starts, and where it ends. */
  datatype Match = Match(start: nat, reset: nat, end: nat)

  /** The match the pattern makes at position i, if any. */
  function MatchAt(body: string, i: nat): Option<Match>
  {
    match SchemeEnd(body, i)
    case None => None
    case Some(p) =>
      var e := RunEnd(body, p);
      match LastReset(body, p + 1, e)
      case None => None
      case Some(k) => Some(Match(i, k, e))
  }

  /** `re.search` from position `from`: the first position that admits a match. */
  function Search(body: string, from: nat): (r: Option<Match>)
    ensures r.Some? ==> from <= r.value.start <= |body| && MatchAt(body, r.value.start) == r
    ensures r.Some? ==> forall i :: from <= i < r.value.start ==> MatchAt(body, i).None?
    ensures r.None? ==> forall i :: from <= i <= |body| ==> MatchAt(body, i).None?
    decreases |body| + 1 - from
  {
    if from > |body| then None
    else if MatchAt(body, from).Some? then MatchAt(body, from)
    else Search(body, from + 1)
  }

  datatype LinkError = NoResetLink

  /** `extract_reset_link`: the first reset link of the body, or the
      ValueError "No reset link found in email body". */
  function ExtractResetLink(body: string): Result<string, LinkError>
  {
    match Search(body, 0)
    case None => Err(NoResetLink)
    case Some(m) => Ok(body[m.start..m.end])
  }

  // ---------------------------------------------------------------------
  // The matcher agrees with the pattern
  // ---------------------------------------------------------------------

  /** The scheme the matcher reads at i is the scheme of every stretch
      that starts at i and extends past it. */
  lemma SchemeInSlice(body: string, i: nat, j: nat, n: nat)
    requires SchemeEnd(body, i) == Some(i + n) && i + n <= j <= |body|
    ensures SchemeOfLength(body[i..j], n)
  {
    if OccursAt(body, "https://", i) {
      SliceOfSlice(body, i, j, 0, 8);
    } else {
      SliceOfSlice(body, i, j, 0, 7);
    }
  }

  /** An occurrence inside a stretch of the body is an occurrence in the body. */
  lemma OccursInSlice(body: string, sub: string, i: nat, j: nat, x: nat)
    requires i <= x && x + |sub| <= j <= |body|
    ensures OccursAt(body[i..j], sub, x - i) <==> OccursAt(body, sub, x)
  {
    SliceOfSlice(body, i, j, x - i, x - i + |sub|);
  }

  /** A run of link characters seen through a stretch of the body. */
  lemma LinkCharsInSlice(body: string, i: nat, p: nat, j: nat)
    requires i <= p <= j <= |body|
    requires forall m :: p <= m < j ==> LinkChar(body[m])
    ensures AllLinkChars(body[i..j][p - i..])
  {
    var t := body[i..j][p - i..];
    forall x | 0 <= x < |t| ensures LinkChar(t[x]) {
      assert t[x] == body[p + x];
    }
  }

  /** The pieces of the match at i, as the matcher computes them. */
  lemma MatchAtPieces(body: string, i: nat, m: Match)
    requires MatchAt(body, i) == Some(m)
    ensures SchemeEnd(body, i).Some? && m.start == i
    ensures m.end == RunEnd(body, SchemeEnd(body, i).value)
    ensures Some(m.reset) == LastReset(body, SchemeEnd(body, i).value + 1, m.end)
  {
  }

  /** What the matcher finds at i is a match of the pattern, with at
      least one link character on each side of the chosen `reset`. */
  lemma MatchAtSound(body: string, i: nat, m: Match)
    requires MatchAt(body, i) == Some(m)
    ensures m.start == i && i < m.reset && m.reset + 6 <= m.end <= |body|
    ensures PatternSplit(body[i..m.end], SchemeEnd(body, i).value - i, m.reset - i)
    ensures InPattern(body[i..m.end])
  {
    MatchAtPieces(body, i, m);
    var p := SchemeEnd(body, i).value;
    PatternOfPieces(body, i, p, m.reset, m.end);
  }

  /** The match at i is greedy: it ends where the link characters end, and
      no later `reset` would still leave a character after it. */
  lemma MatchAtGreedy(body: string, i: nat, m: Match)
    requires MatchAt(body, i) == Some(m)
    ensures m.end == |body| || !LinkChar(body[m.end])
    ensures forall k :: m.reset < k && k + 6 <= m.end ==> !OccursAt(body, "reset", k)
  {
    MatchAtPieces(body, i, m);
  }

  /** Scheme, run of link characters and `reset` inside the run make a
      stretch of the body that the pattern matches. */
  lemma PatternOfPieces(body: string, i: nat, p: nat, k: nat, e: nat)
    requires SchemeEnd(body, i) == Some(p) && p < k && k + 6 <= e <= |body|
    requires OccursAt(body, "reset", k)
    requires forall m :: p <= m < e ==> LinkChar(body[m])
    ensures PatternSplit(body[i..e], p - i, k - i) && InPattern(body[i..e])
  {
    SchemeInSlice(body, i, e, p - i);
    OccursInSlice(body, "reset", i, e, k);
    LinkCharsInSlice(body, i, p, e);
    assert PatternSplit(body[i..e], p - i, k - i);
  }

  /** Whatever the pattern matches at i, the matcher finds a match at i
      that reaches at least as far. */
  lemma MatchAtComplete(body: string, i: nat, j: nat)
    requires i <= j <= |body| && InPattern(body[i..j])
    ensures MatchAt(body, i).Some? && j <= MatchAt(body, i).value.end
  {
    var n: nat, k: nat :| PatternSplit(body[i..j], n, k);
    CompleteFromSplit(body, i, j, n, k);
  }

  lemma CompleteFromSplit(body: string, i: nat, j: nat, n: nat, k: nat)
    requires i <= j <= |body| && PatternSplit(body[i..j], n, k)
    ensures MatchAt(body, i).Some? && j <= MatchAt(body, i).value.end
  {
    SchemeOfSlice(body, i, j, n);
    RunOfSlice(body, i, j, n);
    OccursInSlice(body, "reset", i, j, i + k);
    MatchAtFromPieces(body, i, i + n, i + k, j);
  }

  /** A scheme, then link characters up to j with a `reset` among them:
      the matcher finds a match at i that reaches j or further. */
  lemma MatchAtFromPieces(body: string, i: nat, p: nat, k: nat, j: nat)
    requires SchemeEnd(body, i) == Some(p) && p < k && k + 6 <= j <= |body|
    requires j <= RunEnd(body, p) && OccursAt(body, "reset", k)
    ensures MatchAt(body, i).Some? && j <= MatchAt(body, i).value.end
  {
    LastResetFinds(body, p + 1, RunEnd(body, p), k);
  }

  /** A scheme at the head of a stretch starting at i is what the matcher reads at i. */
  lemma SchemeOfSlice(body: string, i: nat, j: nat, n: nat)
    requires i <= j <= |body| && SchemeOfLength(body[i..j], n)
    ensures SchemeEnd(body, i) == Some(i + n)
  {
    if n == 8 {
      SliceOfSlice(body, i, j, 0, 8);
    } else {
      SliceOfSlice(body, i, j, 0, 7);
      assert body[i + 4] == body[i..i + 7][4];
      MismatchRulesOut(body, "https://", i, 4);
    }
  }

  /** Link characters to the end of a stretch keep the run going that far. */
  lemma RunOfSlice(body: string, i: nat, j: nat, n: nat)
    requires i + n <= j <= |body| && AllLinkChars(body[i..j][n..])
    ensures j <= RunEnd(body, i + n)
  {
    forall x | i + n <= x < j ensures LinkChar(body[x]) {
      assert body[x] == body[i..j][n..][x - i - n];
    }
  }

  /** LastReset finds a `reset` whenever one lies in its window. */
  lemma LastResetFinds(body: string, lo: nat, hi: nat, k: nat)
    requires hi <= |body| && lo <= k && k + 6 <= hi && OccursAt(body, "reset", k)
    ensures LastReset(body, lo, hi).Some?
  {
  }

  // ---------------------------------------------------------------------
  // The meaning of extract_reset_link
  // ---------------------------------------------------------------------

  /** A link is returned exactly when some stretch of the body matches the
      pattern, and then it is the leftmost, greedy match. */
  lemma ExtractResetLinkSpec(body: string)
    ensures ExtractResetLink(body).Err? <==>
      forall i: nat, j: nat :: i <= j <= |body| ==> !InPattern(body[i..j])
    ensures ExtractResetLink(body).Ok? ==>
      exists i: nat, j: nat :: LeftmostGreedy(body, i, j) && ExtractResetLink(body).value == body[i..j]
  {
    match Search(body, 0)
    case None =>
      forall i: nat, j: nat | i <= j <= |body| ensures !InPattern(body[i..j]) {
        if InPattern(body[i..j]) {
          MatchAtComplete(body, i, j);
        }
      }
    case Some(m) =>
      var i, j := m.start, m.end;
      MatchAtSound(body, i, m);
      MatchAtGreedy(body, i, m);
      forall i': nat, j': nat | i' < i && i' <= j' <= |body| ensures !InPattern(body[i'..j']) {
        if InPattern(body[i'..j']) {
          MatchAtComplete(body, i', j');
        }
      }
      assert LeftmostGreedy(body, i, j);
  }

  /** The leftmost greedy match is unique, so the link is determined. */
  lemma LeftmostGreedyUnique(body: string, i: nat, j: nat, i': nat, j': nat)
    requires LeftmostGreedy(body, i, j) && LeftmostGreedy(body, i', j')
    ensures i == i' && j == j'
  {
    assert i == i';
    // Past the scheme's first four letters every character of a match is a
    // link character, and each greedy end is the first that is not one.
    LinkCharsInside(body, i, j);
    LinkCharsInside(body, i, j');
  }

  /** Inside a match every character after the first four (`http`) is a
      link character: `:`, `/`, `s` are, and so is the rest by the pattern. */
  lemma LinkCharsInside(body: string, i: nat, j: nat)
    requires i <= j <= |body| && InPattern(body[i..j])
    ensures i + 14 <= j
    ensures forall x :: i + 4 <= x < j ==> LinkChar(body[x])
  {
    var t := body[i..j];
    var n: nat, k: nat :| PatternSplit(t, n, k);
    forall x | i + 4 <= x < j ensures LinkChar(body[x]) {
      assert body[x] == t[x - i];
      if x - i >= n {
        assert t[x - i] == t[n..][x - i - n];
      } else if n == 8 {
        assert t[x - i] == t[..8][x - i];
      } else {
        assert t[x - i] == t[..7][x - i];
      }
    }
  }

  /** The shape of anything the pattern matches: it starts with `http://`
      or `https://`, contains `reset`, and past the four letters `http` it
      has no white space, `<`, `>` or `"`. */
  lemma PatternShape(t: string)
    requires InPattern(t)
    ensures OccursAt(t, "http://", 0) || OccursAt(t, "https://", 0)
    ensures Contains(t, "reset")
    ensures forall x :: 4 <= x < |t| ==> LinkChar(t[x])
  {
    var n: nat, k: nat :| PatternSplit(t, n, k);
    ContainsIff(t, "reset");
    assert t[0..|t|] == t;
    LinkCharsInside(t, 0, |t|);
  }

  /** A returned link has that shape, with at least one link character
      between the scheme and the chosen `reset` and at least one after it. */
  lemma LinkShape(body: string)
    requires ExtractResetLink(body).Ok?
    ensures var link := ExtractResetLink(body).value;
      && (OccursAt(link, "http://", 0) || OccursAt(link, "https://", 0))
      && Contains(link, "reset")
      && (exists n: nat, k: nat :: PatternSplit(link, n, k))
      && (forall x :: 4 <= x < |link| ==> LinkChar(link[x]))
  {
    var m := Search(body, 0).value;
    MatchAtSound(body, m.start, m);
    PatternShape(body[m.start..m.end]);
  }
}
