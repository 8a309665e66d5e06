/**
 * The few Python `str` operations the report helpers and the mail poller
 * are built from, with CPython's semantics: `sub in s`, `s.split(sep)`,
 * `s.split(sep, 1)`, `sep.join(parts)`, `s.strip()`, `s.rstrip(c)`,
 * `s.replace(c, r)` for a one-character `c`, and the slice `s[-n:]`.
 */
module PyStr {
  import opened Wrappers

  /** The code points for which CPython's `str.isspace()` holds; they are
      also exactly what `\s` matches in a `str` regular expression. */
  predicate IsSpace(c: char) {
    || c == ' '
    || ('\t' <= c <= '\r')
    || ('\U{1C}' <= c <= '\U{1F}')
    || c == '\U{85}' || c == '\U{A0}' || c == '\U{1680}'
    || ('\U{2000}' <= c <= '\U{200A}')
    || c == '\U{2028}' || c == '\U{2029}' || c == '\U{202F}'
    || c == '\U{205F}' || c == '\U{3000}'
  }

  predicate OccursAt(s: string, sub: string, k: int) {
    0 <= k && k + |sub| <= |s| && s[k..k + |sub|] == sub
  }

  /** `s.find(sub, from)`: the first occurrence of `sub` at or after `from`. */
  function Find(s: string, sub: string, from: nat): (r: Option<nat>)
    ensures r.Some? ==> from <= r.value && OccursAt(s, sub, r.value)
    ensures r.Some? ==> forall j :: from <= j < r.value ==> !OccursAt(s, sub, j)
    ensures r.None? ==> forall j :: from <= j ==> !OccursAt(s, sub, j)
    decreases |s| - from
  {
    if from + |sub| > |s| then None
    else if s[from..from + |sub|] == sub then Some(from)
    else Find(s, sub, from + 1)
  }

  /** One character that differs rules an occurrence out. */
  lemma MismatchRulesOut(s: string, sub: string, k: nat, x: nat)
    requires x < |sub| && k + x < |s| && s[k + x] != sub[x]
    ensures !OccursAt(s, sub, k)
  {
    if k + |sub| <= |s| {
      assert s[k..k + |sub|][x] == s[k + x];
    }
  }

  /** A slice of a slice is a slice. */
  lemma SliceOfSlice(s: string, i: nat, j: nat, a: nat, b: nat)
    requires i <= j <= |s| && a <= b <= j - i
    ensures s[i..j][a..b] == s[i + a..i + b]
  {
    forall x | 0 <= x < b - a ensures s[i..j][a..b][x] == s[i + a..i + b][x] {
    }
  }

  /** Python's `sub in s`. */
  predicate Contains(s: string, sub: string) {
    Find(s, sub, 0).Some?
  }

  lemma ContainsIff(s: string, sub: string)
    ensures Contains(s, sub) <==> exists k :: OccursAt(s, sub, k)
  {
    if Contains(s, sub) {
      assert OccursAt(s, sub, Find(s, sub, 0).value);
    }
  }

  /** `s.split(sep)` for a non-empty separator: pieces between the
      non-overlapping occurrences found from left to right. */
  function Split(s: string, sep: string): (r: seq<string>)
    requires sep != []
    ensures |r| >= 1
    decreases |s|
  {
    match Find(s, sep, 0)
    case None => [s]
    case Some(k) => [s[..k]] + Split(s[k + |sep|..], sep)
  }

  /** `s.split(sep, 1)`: at most one cut, at the first occurrence. */
  function SplitOnce(s: string, sep: string): (r: seq<string>)
    requires sep != []
    ensures |r| == 1 || |r| == 2
    ensures |r| == 2 <==> Contains(s, sep)
    ensures |r| == 1 ==> r[0] == s
    ensures |r| == 2 ==> s == r[0] + sep + r[1] && !Contains(r[0], sep)
  {
    match Find(s, sep, 0)
    case None => [s]
    case Some(k) =>
      assert s == s[..k] + sep + s[k + |sep|..];
      NoEarlierOccurrence(s, sep, k);
      [s[..k], s[k + |sep|..]]
  }

  /** `s.split(sep, 1)` cuts at the first occurrence, wherever it is. */
  lemma SplitOnceAt(s: string, sep: string, k: nat)
    requires sep != [] && OccursAt(s, sep, k)
    requires forall j :: 0 <= j < k ==> !OccursAt(s, sep, j)
    ensures SplitOnce(s, sep) == [s[..k], s[k + |sep|..]]
  {
    assert Find(s, sep, 0) == Some(k);
  }

  /** An occurrence inside a prefix is an occurrence in the whole string. */
  lemma NoEarlierOccurrence(s: string, sep: string, k: nat)
    requires sep != [] && k <= |s|
    requires forall j :: 0 <= j < k ==> !OccursAt(s, sep, j)
    ensures !Contains(s[..k], sep)
  {
    if Contains(s[..k], sep) {
      var j := Find(s[..k], sep, 0).value;
      assert s[..k][j..j + |sep|] == s[j..j + |sep|];
      assert OccursAt(s, sep, j);
    }
  }

  /** `sep.join(parts)`. */
  function Join(parts: seq<string>, sep: string): (r: string)
    decreases |parts|
  {
    if |parts| == 0 then []
    else if |parts| == 1 then parts[0]
    else parts[0] + sep + Join(parts[1..], sep)
  }

  function Last<T>(xs: seq<T>): T
    requires |xs| > 0
  {
    xs[|xs| - 1]
  }

  lemma LastOfCons<T>(x: T, xs: seq<T>)
    requires xs != []
    ensures Last([x] + xs) == Last(xs)
  {
  }

  /** Splitting and joining with the same separator gives the string back. */
  lemma {:induction false} JoinSplit(s: string, sep: string)
    requires sep != []
    ensures Join(Split(s, sep), sep) == s
    decreases |s|
  {
    match Find(s, sep, 0)
    case None =>
    case Some(k) =>
      var rest := s[k + |sep|..];
      var parts := Split(rest, sep);
      JoinSplit(rest, sep);
      var all := [s[..k]] + parts;
      assert Split(s, sep) == all;
      assert all[1..] == parts;
      calc {
        Join(all, sep);
        all[0] + sep + Join(all[1..], sep);
        s[..k] + sep + rest;
        { assert s == s[..k] + s[k..k + |sep|] + rest; }
        s;
      }
  }

  /** No piece of a split contains the separator. */
  lemma {:induction false} SplitPiecesFree(s: string, sep: string)
    requires sep != []
    ensures forall i :: 0 <= i < |Split(s, sep)| ==> !Contains(Split(s, sep)[i], sep)
    decreases |s|
  {
    match Find(s, sep, 0)
    case None =>
    case Some(k) =>
      var rest := s[k + |sep|..];
      SplitPiecesFree(rest, sep);
      NoEarlierOccurrence(s, sep, k);
      assert Split(s, sep) == [s[..k]] + Split(rest, sep);
  }

  /** `Split(s, sep)[0]` is what `SplitOnce` cuts off first. */
  lemma SplitHeadIsSplitOnceHead(s: string, sep: string)
    requires sep != []
    ensures Split(s, sep)[0] == SplitOnce(s, sep)[0]
  {
  }

  /** The last piece of `s.split(sep)` is a suffix of `s`. */
  lemma {:induction false} SplitLastIsSuffix(s: string, sep: string)
    requires sep != []
    ensures |Last(Split(s, sep))| <= |s|
    ensures Last(Split(s, sep)) == s[|s| - |Last(Split(s, sep))|..]
    decreases |s|
  {
    match Find(s, sep, 0)
    case None =>
    case Some(k) =>
      var rest := s[k + |sep|..];
      SplitLastIsSuffix(rest, sep);
      assert Split(s, sep) == [s[..k]] + Split(rest, sep);
      assert Last(Split(s, sep)) == Last(Split(rest, sep));
  }

  /** When `sep` occurs at `p`, no later occurrence exists and none
      straddles `p` from the left, the last piece of `s.split(sep)` is what
      follows that occurrence. */
  lemma {:induction false} SplitLastAfter(s: string, sep: string, p: nat)
    requires sep != [] && OccursAt(s, sep, p)
    requires !Contains(s[p + |sep|..], sep)
    requires forall j :: p - |sep| < j < p ==> !OccursAt(s, sep, j)
    ensures Last(Split(s, sep)) == s[p + |sep|..]
    decreases p
  {
    var k := Find(s, sep, 0).value;
    SplitLastSkipsFirst(s, sep, k);
    var rest := s[k + |sep|..];
    if k < p {
      var p' := ShiftOccurrence(s, sep, k, p, rest);
      SplitLastAfter(rest, sep, p');
    } else {
      assert k == p;
      SplitWithoutSep(rest, sep);
    }
  }

  lemma SplitWithoutSep(s: string, sep: string)
    requires sep != [] && !Contains(s, sep)
    ensures Split(s, sep) == [s]
  {
  }

  /** The last piece does not depend on what comes before the first cut. */
  lemma SplitLastSkipsFirst(s: string, sep: string, k: nat)
    requires sep != [] && Find(s, sep, 0) == Some(k)
    ensures Last(Split(s, sep)) == Last(Split(s[k + |sep|..], sep))
  {
    var tail := Split(s[k + |sep|..], sep);
    assert Split(s, sep) == [s[..k]] + tail;
    LastOfCons(s[..k], tail);
  }

  /** The occurrence at `p`, seen from just after an earlier first cut at `k`. */
  lemma ShiftOccurrence(s: string, sep: string, k: nat, p: nat, rest: string) returns (p': nat)
    requires sep != [] && Find(s, sep, 0) == Some(k) && k < p && OccursAt(s, sep, p)
    requires rest == s[k + |sep|..]
    requires forall j :: p - |sep| < j < p ==> !OccursAt(s, sep, j)
    ensures p' == p - k - |sep| && p' < p
    ensures OccursAt(rest, sep, p')
    ensures rest[p' + |sep|..] == s[p + |sep|..]
    ensures forall j :: p' - |sep| < j < p' ==> !OccursAt(rest, sep, j)
  {
    p' := p - k - |sep|;
    SliceOfSlice(s, k + |sep|, |s|, p', p' + |sep|);
    DropKeepsNoOccurrence(s, k + |sep|, sep, p' - |sep|, p');
  }

  /** Occurrences in a suffix `s[off..]` are occurrences in `s`. */
  lemma DropKeepsNoOccurrence(s: string, off: nat, sep: string, lo: int, hi: int)
    requires off <= |s|
    requires forall i :: off + lo < i < off + hi ==> !OccursAt(s, sep, i)
    ensures forall j :: lo < j < hi ==> !OccursAt(s[off..], sep, j)
  {
    forall j | lo < j < hi ensures !OccursAt(s[off..], sep, j) {
      assert !OccursAt(s, sep, off + j);
      if 0 <= j && j + |sep| <= |s| - off {
        SliceOfSlice(s, off, |s|, j, j + |sep|);
      }
    }
  }

  /** Number of leading characters `str.lstrip()` removes. */
  function LeadingSpaces(s: string): (n: nat)
    ensures n <= |s|
    ensures forall k :: 0 <= k < n ==> IsSpace(s[k])
    ensures n == |s| || !IsSpace(s[n])
    decreases |s|
  {
    if s == [] || !IsSpace(s[0]) then 0 else 1 + LeadingSpaces(s[1..])
  }

  /** Number of trailing characters `str.rstrip()` removes. */
  function TrailingSpaces(s: string): (n: nat)
    ensures n <= |s|
    ensures forall k :: |s| - n <= k < |s| ==> IsSpace(s[k])
    ensures n == |s| || !IsSpace(s[|s| - 1 - n])
    decreases |s|
  {
    if s == [] || !IsSpace(s[|s| - 1]) then 0 else 1 + TrailingSpaces(s[..|s| - 1])
  }

  /** `s.strip()`. */
  function Strip(s: string): (r: string)
    ensures |r| <= |s|
    ensures r == [] || (!IsSpace(r[0]) && !IsSpace(r[|r| - 1]))
  {
    var a := LeadingSpaces(s);
    var t := s[a..];
    t[..|t| - TrailingSpaces(t)]
  }

  predicate AllSpace(s: string) {
    forall k :: 0 <= k < |s| ==> IsSpace(s[k])
  }

  /** `s.strip()` is the slice of `s` between the leading and the
      trailing white space. */
  lemma StripIsSlice(s: string)
    ensures LeadingSpaces(s) + |Strip(s)| <= |s|
    ensures Strip(s) == s[LeadingSpaces(s)..LeadingSpaces(s) + |Strip(s)|]
  {
    var a := LeadingSpaces(s);
    var t := s[a..];
    var m := |t| - TrailingSpaces(t);
    assert Strip(s) == t[..m];
    SliceOfSlice(s, a, |s|, 0, m);
  }

  /** `s.strip()` removes white space only, from both ends, and keeps the
      middle of `s` as it is. */
  lemma StripDecomposes(s: string)
    ensures LeadingSpaces(s) + |Strip(s)| <= |s|
    ensures s == s[..LeadingSpaces(s)] + Strip(s) + s[LeadingSpaces(s) + |Strip(s)|..]
    ensures AllSpace(s[..LeadingSpaces(s)])
    ensures AllSpace(s[LeadingSpaces(s) + |Strip(s)|..])
  {
    StripIsSlice(s);
    var a := LeadingSpaces(s);
    var m := Strip(s);
    ThreePieces(s, a, a + |m|, m);
    LeadingRemovedIsSpace(s);
    TrailingRemovedIsSpace(s);
  }

  /** A string is its head, a middle slice and its tail. */
  lemma ThreePieces(s: string, a: nat, e: nat, m: string)
    requires a <= e <= |s| && m == s[a..e]
    ensures s == s[..a] + m + s[e..]
  {
    assert s == s[..a] + s[a..e] + s[e..];
  }

  /** What `strip()` drops at the start is white space. */
  lemma LeadingRemovedIsSpace(s: string)
    ensures AllSpace(s[..LeadingSpaces(s)])
  {
    var head := s[..LeadingSpaces(s)];
    forall k | 0 <= k < |head| ensures IsSpace(head[k]) {
      assert head[k] == s[k];
    }
  }

  /** What `strip()` drops at the end is white space. */
  lemma TrailingRemovedIsSpace(s: string)
    ensures LeadingSpaces(s) + |Strip(s)| <= |s|
    ensures AllSpace(s[LeadingSpaces(s) + |Strip(s)|..])
  {
    var a := LeadingSpaces(s);
    var t := s[a..];
    var b := TrailingSpaces(t);
    var tail := s[a + |Strip(s)|..];
    assert tail == t[|t| - b..];
    forall k | 0 <= k < |tail| ensures IsSpace(tail[k]) {
      assert tail[k] == t[|t| - b + k];
    }
  }

  lemma StripIdempotent(s: string)
    ensures Strip(Strip(s)) == Strip(s)
  {
    var r := Strip(s);
    assert LeadingSpaces(r) == 0;
    assert r[0..] == r;
    assert TrailingSpaces(r) == 0;
  }

  /** A slice of a string that has no `sub` has no `sub` either. */
  lemma SliceKeepsAbsence(s: string, i: nat, j: nat, sub: string)
    requires i <= j <= |s| && !Contains(s, sub)
    ensures !Contains(s[i..j], sub)
  {
    ContainsIff(s[i..j], sub);
    ContainsIff(s, sub);
    if Contains(s[i..j], sub) {
      var k :| OccursAt(s[i..j], sub, k);
      SliceOfSlice(s, i, j, k, k + |sub|);
      assert OccursAt(s, sub, i + k);
    }
  }

  /** A character is in `s` exactly when the one-character string is. */
  lemma NoCharNoString(s: string, c: char)
    requires !Contains(s, [c])
    ensures c !in s
  {
    ContainsIff(s, [c]);
    forall k | 0 <= k < |s| ensures s[k] != c {
      assert !OccursAt(s, [c], k);
      assert s[k..k + 1] == [s[k]];
    }
  }

  /** The stripped form of a slice still occurs in the whole string. */
  lemma StripOfSliceOccurs(s: string, a: nat, b: nat, t: string)
    requires a <= b <= |s| && t == s[a..b]
    ensures Contains(s, Strip(t))
  {
    StripIsSlice(t);
    var n := LeadingSpaces(t);
    SliceOfSlice(s, a, b, n, n + |Strip(t)|);
    assert OccursAt(s, Strip(t), a + n);
    ContainsIff(s, Strip(t));
  }

  /** Stripping keeps a character out if it was out before. */
  lemma StripKeepsCharOut(s: string, c: char)
    requires !Contains(s, [c])
    ensures c !in Strip(s)
  {
    StripIsSlice(s);
    SliceKeepsAbsence(s, LeadingSpaces(s), LeadingSpaces(s) + |Strip(s)|, [c]);
    NoCharNoString(Strip(s), c);
  }

  /** `s.rstrip(c)` for one character `c`. */
  function RStripChar(s: string, c: char): (r: string)
    ensures |r| <= |s| && r == s[..|r|]
    ensures r == [] || r[|r| - 1] != c
    ensures forall k :: |r| <= k < |s| ==> s[k] == c
    decreases |s|
  {
    if s != [] && s[|s| - 1] == c then RStripChar(s[..|s| - 1], c) else s
  }

  /** `s.replace(c, rep)` for a one-character `c`. */
  function ReplaceChar(s: string, c: char, rep: string): (r: string)
    ensures c !in rep ==> c !in r
    ensures forall d :: d in r ==> (d in s && d != c) || d in rep
    decreases |s|
  {
    if s == [] then []
    else (if s[0] == c then rep else [s[0]]) + ReplaceChar(s[1..], c, rep)
  }

  /** A single character is replaced by `rep` when it is `c` and kept otherwise. */
  lemma ReplaceCharOne(d: char, c: char, rep: string)
    ensures ReplaceChar([d], c, rep) == if d == c then rep else [d]
  {
    assert [d][1..] == [];
  }

  /** `replace` works piecewise: the pieces of a concatenation are replaced apart. */
  lemma {:induction false} ReplaceCharAppend(a: string, b: string, c: char, rep: string)
    ensures ReplaceChar(a + b, c, rep) == ReplaceChar(a, c, rep) + ReplaceChar(b, c, rep)
    decreases |a|
  {
    if a == [] {
      assert a + b == b;
    } else {
      assert (a + b)[0] == a[0];
      assert (a + b)[1..] == a[1..] + b;
      ReplaceCharAppend(a[1..], b, c, rep);
    }
  }

  /** A string without `c` is left as it is. */
  lemma {:induction false} ReplaceCharAbsent(s: string, c: char, rep: string)
    requires c !in s
    ensures ReplaceChar(s, c, rep) == s
    decreases |s|
  {
    if s != [] {
      assert c !in s[1..] by {
        forall k | 0 <= k < |s[1..]| ensures s[1..][k] != c { assert s[1..][k] == s[k + 1]; }
      }
      ReplaceCharAbsent(s[1..], c, rep);
      assert [s[0]] + s[1..] == s;
    }
  }

  /** The slice `s[-n:]`: the last `n` characters, or all of a shorter `s`. */
  function TakeLast(s: string, n: nat): (r: string)
    ensures |r| == if |s| <= n then |s| else n
    ensures r == s[|s| - |r|..]
  {
    if |s| <= n then s else s[|s| - n..]
  }
}
