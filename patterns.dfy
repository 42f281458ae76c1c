/**
 * The regular expressions the worker runs with the global flag, each written
 * as a deterministic matcher at one position, and the left-to-right scan that
 * `RegExp.prototype.exec` in a loop and `String.prototype.match` perform:
 * leftmost match first, the next search resuming where the last match ended.
 *
 * None of these expressions backtracks into a different result: every
 * repetition is either followed by a character it cannot itself match or ends
 * the expression, so the greedy maximal run is the only run that can succeed.
 */
module Patterns {
  import opened Wrappers
  import opened Text

  /** One match: its span `[start, end)` and its first capture group. */
  datatype Hit = Hit(start: nat, end: nat, group: string)

  datatype Pattern =
    /** `\includegraphics`, an optional `[...]` with no `]` inside, then a
        non-empty `{...}` group with no `}` inside (arxiv-handler.js:206). */
    | Graphics
    /** `\caption{...}` / `\label{...}`: the command, then a non-empty group
        with no `}` inside (arxiv-handler.js:207-208). */
    | Command(name: string)
    /** Case-insensitive `fig`, optionally followed by `ure`, one or more
        colons or white-space characters, then a non-empty run of ASCII
        letters, digits, `_` or `-` (session-answer.js:118). */
    | FigureRef

  /** ASCII case-insensitive comparison, as a non-Unicode `/i` regex does. */
  predicate StartsAtIgnoreCase(s: string, i: nat, pat: string) {
    i + |pat| <= |s| && Lower(s[i..i + |pat|]) == Lower(pat)
  }

  predicate IsRefSeparator(c: char) { c == ':' || IsSpace(c) }

  predicate IsRefChar(c: char) { IsAsciiLetter(c) || IsDigit(c) || c == '_' || c == '-' }

  /** The end of the maximal run of separators starting at `i`. */
  function SeparatorRunEnd(s: string, i: nat): (e: nat)
    requires i <= |s|
    decreases |s| - i
    ensures i <= e <= |s|
    ensures forall k | i <= k < e :: IsRefSeparator(s[k])
    ensures e < |s| ==> !IsRefSeparator(s[e])
  {
    if i < |s| && IsRefSeparator(s[i]) then SeparatorRunEnd(s, i + 1) else i
  }

  /** The end of the maximal run of label characters starting at `i`. */
  function RefRunEnd(s: string, i: nat): (e: nat)
    requires i <= |s|
    decreases |s| - i
    ensures i <= e <= |s|
    ensures forall k | i <= k < e :: IsRefChar(s[k])
    ensures e < |s| ==> !IsRefChar(s[e])
  {
    if i < |s| && IsRefChar(s[i]) then RefRunEnd(s, i + 1) else i
  }

  /** A `{`, one or more characters other than `}`, and the closing `}`, with
      the `{` at position `b`: the index of the closing `}`. */
  function BraceGroup(s: string, b: nat): (r: Option<nat>)
    ensures r.Some? ==> b + 1 < r.value < |s| && s[b] == '{' && s[r.value] == '}'
    ensures r.Some? ==> forall k | b < k < r.value :: s[k] != '}'
    ensures r.None? && b < |s| && s[b] == '{' ==>
      forall j | b + 1 < j < |s| && s[j] == '}' :: exists k | b < k < j :: s[k] == '}'
  {
    if b < |s| && s[b] == '{' then
      FindCharFirst(s, '}', b + 1);
      match FindChar(s, '}', b + 1)
      case Some(j) => if j > b + 1 then Some(j) else None
      case None => None
    else None
  }

  /** The position of the `{` that follows `\includegraphics` ending at `q`,
      past an optional bracketed part. */
  function AfterOptions(s: string, q: nat): (r: Option<nat>)
    ensures r.Some? ==> q <= r.value
  {
    if q < |s| && s[q] == '[' then
      match FindChar(s, ']', q + 1)
      case Some(k) => Some(k + 1)
      case None => None
    else Some(q)
  }

  /** Where the bracketed part ends: with no `[` at `q` there is none and
      the group starts at `q`; with a `[` the group starts just after the
      first `]` that follows it, and there is no match without such a `]`. */
  lemma AfterOptionsFacts(s: string, q: nat)
    ensures !(q < |s| && s[q] == '[') ==> AfterOptions(s, q) == Some(q)
    ensures q < |s| && s[q] == '[' && AfterOptions(s, q).Some? ==>
      var e := AfterOptions(s, q).value;
      q + 1 < e <= |s| && s[e - 1] == ']' && forall k | q < k < e - 1 :: s[k] != ']'
    ensures q < |s| && s[q] == '[' && AfterOptions(s, q).None? ==>
      forall k | q < k < |s| :: s[k] != ']'
  {
    if q < |s| && s[q] == '[' {
      FindCharFirst(s, ']', q + 1);
    }
  }

  /** The match of `pat` that starts exactly at `p`, if any. */
  function MatchAt(pat: Pattern, s: string, p: nat): (h: Option<Hit>)
    ensures h.Some? ==> h.value.start == p < h.value.end <= |s|
    ensures h.Some? ==> h.value.group != []
  {
    match pat
    case Graphics =>
      if !StartsAt(s, p, "\\includegraphics") then None
      else (
        match AfterOptions(s, p + 16)
        case None => None
        case Some(b) =>
          match BraceGroup(s, b)
          case Some(j) => Some(Hit(p, j + 1, s[b + 1..j]))
          case None => None)
    case Command(name) =>
      if !StartsAt(s, p, ['\\'] + name) then None
      else (
        var b := p + 1 + |name|;
        match BraceGroup(s, b)
        case Some(j) => Some(Hit(p, j + 1, s[b + 1..j]))
        case None => None)
    case FigureRef =>
      if !StartsAtIgnoreCase(s, p, "fig") then None
      else
        var q := if StartsAtIgnoreCase(s, p + 3, "ure") then p + 6 else p + 3;
        var k := SeparatorRunEnd(s, q);
        if k == q then None
        else
          var e := RefRunEnd(s, k);
          if e == k then None else Some(Hit(p, e, s[k..e]))
  }

  /** A matcher over a text of length `n`: a match it reports starts where it
      was asked to, is not empty, and ends within the text. */
  ghost predicate IsMatcher(at: nat -> Option<Hit>, n: nat) {
    forall p: nat | at(p).Some? :: p == at(p).value.start < at(p).value.end <= n
  }

  /** The `exec` loop of a global expression over a text of length `n`, from
      `lastIndex == i`: try the matcher at each position in turn; after a
      match, resume where it ended. */
  function Scan(at: nat -> Option<Hit>, n: nat, i: nat): seq<Hit>
    requires IsMatcher(at, n) && i <= n
    decreases n - i
  {
    if i == n then []
    else
      match at(i)
      case Some(h) => [h] + Scan(at, n, h.end)
      case None => Scan(at, n, i + 1)
  }

  /** Every hit of the scan is a match the matcher reports at its own start,
      at or after where the scan began. */
  lemma {:induction false} ScanSound(at: nat -> Option<Hit>, n: nat, i: nat)
    requires IsMatcher(at, n) && i <= n
    ensures forall h | h in Scan(at, n, i) :: i <= h.start && at(h.start) == Some(h)
    decreases n - i
  {
    if i < n {
      match at(i)
      case Some(h) => ScanSound(at, n, h.end);
      case None => ScanSound(at, n, i + 1);
    }
  }

  /** The hits come in increasing order, and none overlaps the next. */
  lemma {:induction false} ScanOrdered(at: nat -> Option<Hit>, n: nat, i: nat)
    requires IsMatcher(at, n) && i <= n
    ensures forall k | 0 <= k < |Scan(at, n, i)| - 1 :: Scan(at, n, i)[k].end <= Scan(at, n, i)[k + 1].start
    decreases n - i
  {
    if i < n {
      var all := Scan(at, n, i);
      match at(i)
      case Some(h) =>
        ScanOrdered(at, n, h.end);
        ScanSound(at, n, h.end);
        var rest := Scan(at, n, h.end);
        assert all == [h] + rest;
        forall k | 0 <= k < |all| - 1 ensures all[k].end <= all[k + 1].start {
          assert all[k + 1] == rest[k] && rest[k] in rest;
          if k > 0 {
            assert all[k] == rest[k - 1];
          }
        }
      case None =>
        ScanOrdered(at, n, i + 1);
    }
  }

  /** No match is missed: every position at or after `i` where the matcher
      reports a match lies inside the span of one of the scan's hits. */
  lemma {:induction false} ScanComplete(at: nat -> Option<Hit>, n: nat, i: nat, p: nat)
    requires IsMatcher(at, n) && i <= p && at(p).Some?
    ensures exists h | h in Scan(at, n, i) :: h.start <= p < h.end
    decreases n - i
  {
    assert p < n;
    var all := Scan(at, n, i);
    match at(i)
    case Some(h) =>
      assert all == [h] + Scan(at, n, h.end);
      if p < h.end {
        assert h in all;
      } else {
        ScanComplete(at, n, h.end, p);
        var g :| g in Scan(at, n, h.end) && g.start <= p < g.end;
        assert g in all;
      }
    case None =>
      ScanComplete(at, n, i + 1, p);
  }

  /** The matcher of `pat` over `s`. */
  function MatcherOf(pat: Pattern, s: string): (at: nat -> Option<Hit>)
    ensures IsMatcher(at, |s|)
  {
    (p: nat) => MatchAt(pat, s, p)
  }

  /** All matches of `pat` in `s` at or after `i`, leftmost first, none
      overlapping. */
  function MatchesFrom(pat: Pattern, s: string, i: nat): seq<Hit>
    requires i <= |s|
  {
    Scan(MatcherOf(pat, s), |s|, i)
  }

  /** `s.match(re)` for a global `re`: the full text of every match, in order
      (an empty list where JavaScript returns `null`). */
  function MatchTexts(pat: Pattern, s: string): (r: seq<string>)
    ensures |r| == |MatchesFrom(pat, s, 0)|
  {
    var hits := MatchesFrom(pat, s, 0);
    seq(|hits|, k requires 0 <= k < |hits| =>
      (MatchesSound(pat, s, 0); assert hits[k] in hits; s[hits[k].start..hits[k].end]))
  }

  /** Each text `s.match` returns is the span of the corresponding hit,
      which is a genuine match of `pat` at its own start. */
  lemma MatchTextsAre(pat: Pattern, s: string)
    ensures forall k | 0 <= k < |MatchTexts(pat, s)| ::
      var h := MatchesFrom(pat, s, 0)[k];
      h.start < h.end <= |s| && MatchAt(pat, s, h.start) == Some(h) &&
      MatchTexts(pat, s)[k] == s[h.start..h.end]
  {
    var hits := MatchesFrom(pat, s, 0);
    MatchesSound(pat, s, 0);
    forall k | 0 <= k < |hits|
      ensures hits[k].start < hits[k].end <= |s| && MatchAt(pat, s, hits[k].start) == Some(hits[k])
    {
      assert hits[k] in hits;
    }
  }

  /** Every hit found in `s` is a genuine match of `pat` at its own start. */
  lemma MatchesSound(pat: Pattern, s: string, i: nat)
    requires i <= |s|
    ensures forall h | h in MatchesFrom(pat, s, i) ::
      i <= h.start < h.end <= |s| && MatchAt(pat, s, h.start) == Some(h)
  {
    ScanSound(MatcherOf(pat, s), |s|, i);
  }

  /** Every position at or after `i` where `pat` matches lies inside one of
      the hits. */
  lemma MatchesComplete(pat: Pattern, s: string, i: nat, p: nat)
    requires i <= p < |s| && MatchAt(pat, s, p).Some?
    ensures exists h | h in MatchesFrom(pat, s, i) :: h.start <= p < h.end
  {
    ScanComplete(MatcherOf(pat, s), |s|, i, p);
  }
}
