/**
 * The JavaScript string primitives the worker relies on, on strings modelled
 * as sequences of characters: `trim`, `\s`, `includes`, `indexOf`,
 * `startsWith`, `endsWith`, `toLowerCase`, the last-dot split and the
 * decimal rendering of a count.
 */
module Text {
  import opened Wrappers

  /** The WhiteSpace and LineTerminator characters of ECMAScript: what `\s`
      matches and what `trim` removes. */
  predicate IsSpace(c: char) {
    || c == '\t' || c == '\n' || c == '\U{B}' || c == '\U{C}' || c == '\r' || c == ' '
    || c == '\U{A0}' || c == '\U{1680}' || ('\U{2000}' <= c <= '\U{200A}')
    || c == '\U{2028}' || c == '\U{2029}' || c == '\U{202F}' || c == '\U{205F}'
    || c == '\U{3000}' || c == '\U{FEFF}'
  }

  predicate IsAsciiLetter(c: char) { ('a' <= c <= 'z') || ('A' <= c <= 'Z') }

  predicate IsDigit(c: char) { '0' <= c <= '9' }

  /** Lower-casing of one character. Only ASCII letters are mapped: the two
      non-ASCII characters whose lower case contains an ASCII letter (U+212A
      and U+0130) never change the outcome of a comparison this system makes. */
  function LowerChar(c: char): (r: char)
    ensures 'A' <= c <= 'Z' ==> 'a' <= r <= 'z' && r as int == c as int + 32
    ensures !('A' <= c <= 'Z') ==> r == c
  {
    if 'A' <= c <= 'Z' then (c as int + 32) as char else c
  }

  /** `s.toLowerCase()`. */
  function Lower(s: string): (r: string)
    ensures |r| == |s|
    ensures forall k | 0 <= k < |s| :: r[k] == LowerChar(s[k])
  {
    seq(|s|, k requires 0 <= k < |s| => LowerChar(s[k]))
  }

  /** What lower-casing means for a caller: no upper-case ASCII letter is
      left, only upper-case letters change, and lower-casing twice is
      lower-casing once. */
  lemma LowerFacts(s: string)
    ensures |Lower(s)| == |s|
    ensures forall k | 0 <= k < |s| :: !('A' <= Lower(s)[k] <= 'Z')
    ensures forall k | 0 <= k < |s| :: Lower(s)[k] == s[k] <==> !('A' <= s[k] <= 'Z')
    ensures Lower(Lower(s)) == Lower(s)
  {
  }

  /** `pat` occurs in `s` at position `i`. */
  predicate StartsAt(s: string, i: nat, pat: string) {
    i + |pat| <= |s| && s[i..i + |pat|] == pat
  }

  /** `s.indexOf(pat, from)`: the first occurrence of `pat` at or after `from`. */
  function IndexOf(s: string, pat: string, from: nat): (r: Option<nat>)
    decreases |s| - from
    ensures r.Some? ==> from <= r.value && StartsAt(s, r.value, pat)
    ensures r.Some? ==> forall k | from <= k < r.value :: !StartsAt(s, k, pat)
    ensures r.None? ==> forall k | from <= k :: !StartsAt(s, k, pat)
    ensures StartsAt(s, from, pat) ==> r == Some(from)
  {
    if from + |pat| > |s| then None
    else if s[from..from + |pat|] == pat then Some(from)
    else IndexOf(s, pat, from + 1)
  }

  /** A text that opens with the pattern finds it at 0. */
  lemma IndexOfAtStart(s: string, pat: string)
    requires StartsAt(s, 0, pat)
    ensures IndexOf(s, pat, 0) == Some(0)
  {
  }

  /** `s.includes(pat)`. */
  predicate Contains(s: string, pat: string) {
    IndexOf(s, pat, 0).Some?
  }

  /** Every occurrence makes `includes` true, and `includes` names one. */
  lemma ContainsAt(s: string, pat: string, i: nat)
    requires StartsAt(s, i, pat)
    ensures Contains(s, pat)
  {
  }

  /** An occurrence survives putting text on either side. */
  lemma {:induction false} ContainsExtend(a: string, s: string, b: string, pat: string)
    requires Contains(s, pat)
    ensures Contains(a + s + b, pat)
  {
    var i := IndexOf(s, pat, 0).value;
    var t := a + s + b;
    assert t[|a| + i..|a| + i + |pat|] == s[i..i + |pat|];
    ContainsAt(t, pat, |a| + i);
  }

  /** Containment is transitive. */
  lemma ContainsTrans(s: string, mid: string, pat: string)
    requires Contains(s, mid) && Contains(mid, pat)
    ensures Contains(s, pat)
  {
    var i := IndexOf(s, mid, 0).value;
    var j := IndexOf(mid, pat, 0).value;
    assert s[i..i + |mid|] == mid;
    forall k | 0 <= k < |pat| ensures s[i + j + k] == pat[k] {
      assert s[i + j + k] == s[i..i + |mid|][j + k];
      assert mid[j + k] == mid[j..j + |pat|][k];
    }
    assert s[i + j..i + j + |pat|] == pat;
    ContainsAt(s, pat, i + j);
  }

  /** `s.startsWith(pat)`. */
  predicate StartsWith(s: string, pat: string) { StartsAt(s, 0, pat) }

  /** `s.endsWith(pat)`. */
  predicate EndsWith(s: string, pat: string) {
    |pat| <= |s| && StartsAt(s, |s| - |pat|, pat)
  }

  /** The first index at or after `from` holding `c`. */
  function FindChar(s: string, c: char, from: nat): (r: Option<nat>)
    decreases |s| - from
    ensures r.Some? ==> from <= r.value < |s| && s[r.value] == c
  {
    if from >= |s| then None
    else if s[from] == c then Some(from)
    else FindChar(s, c, from + 1)
  }

  /** What `FindChar` finds is the first occurrence: none lies before it, and
      none at all when it finds nothing. */
  lemma {:induction false} FindCharFirst(s: string, c: char, from: nat)
    decreases |s| - from
    ensures FindChar(s, c, from).Some? ==> forall k | from <= k < FindChar(s, c, from).value :: s[k] != c
    ensures FindChar(s, c, from).None? ==> forall k | from <= k < |s| :: s[k] != c
  {
    if from < |s| && s[from] != c {
      FindCharFirst(s, c, from + 1);
    }
  }

  /** How many leading characters of `s` are white space. */
  function LeadingSpaces(s: string): (n: nat)
    ensures n <= |s|
    ensures n < |s| ==> !IsSpace(s[n])
  {
    if s == [] || !IsSpace(s[0]) then 0 else 1 + LeadingSpaces(s[1..])
  }

  /** How many trailing characters of `s` are white space. */
  function TrailingSpaces(s: string): (n: nat)
    ensures n <= |s|
    ensures n < |s| ==> !IsSpace(s[|s| - n - 1])
  {
    if s == [] || !IsSpace(s[|s| - 1]) then 0 else 1 + TrailingSpaces(s[..|s| - 1])
  }

  /** The counted runs are white space throughout. */
  lemma {:induction false} SpaceRuns(s: string)
    ensures forall k | 0 <= k < LeadingSpaces(s) :: IsSpace(s[k])
    ensures forall k | |s| - TrailingSpaces(s) <= k < |s| :: IsSpace(s[k])
  {
    if s != [] {
      if IsSpace(s[0]) {
        SpaceRuns(s[1..]);
        assert forall k | 1 <= k < LeadingSpaces(s) :: s[k] == s[1..][k - 1];
      }
      if IsSpace(s[|s| - 1]) {
        var init := s[..|s| - 1];
        SpaceRuns(init);
        assert forall k | |s| - TrailingSpaces(s) <= k < |s| - 1 :: s[k] == init[k];
      }
    }
  }

  /** No two white-space characters are adjacent. */
  predicate NoSpaceRuns(s: string) {
    forall k | 0 <= k < |s| - 1 :: !(IsSpace(s[k]) && IsSpace(s[k + 1]))
  }

  /** `s.trim()`: the slice left once white space is removed from both ends. */
  function Trim(s: string): (r: string)
    ensures r == [] || (!IsSpace(r[0]) && !IsSpace(r[|r| - 1]))
    ensures |r| <= |s|
  {
    var a := LeadingSpaces(s);
    if a == |s| then [] else
    var b := TrailingSpaces(s);
    SpaceRuns(s);
    assert !IsSpace(s[a]);
    s[a..|s| - b]
  }

  /** Trimming keeps a contiguous part of the text: no character is new and
      no run of white space appears. */
  lemma TrimFacts(s: string)
    ensures forall c | c in Trim(s) :: c in s
    ensures NoSpaceRuns(s) ==> NoSpaceRuns(Trim(s))
  {
    var a := LeadingSpaces(s);
    if a < |s| {
      var b := TrailingSpaces(s);
      SpaceRuns(s);
      assert !IsSpace(s[a]);
      var r := Trim(s);
      assert r == s[a..|s| - b];
      forall c | c in r ensures c in s {
        var k :| 0 <= k < |r| && r[k] == c;
        assert s[a + k] == c;
      }
      if NoSpaceRuns(s) {
        forall k | 0 <= k < |r| - 1 ensures !(IsSpace(r[k]) && IsSpace(r[k + 1])) {
          assert r[k] == s[a + k] && r[k + 1] == s[a + k + 1];
        }
      }
    }
  }

  /** Trimming cuts off exactly the white space at both ends and keeps the
      middle as it was: `s` is a white-space run, the result, and another
      white-space run. */
  lemma TrimKeepsMiddle(s: string)
    ensures LeadingSpaces(s) + |Trim(s)| <= |s|
    ensures Trim(s) == s[LeadingSpaces(s)..LeadingSpaces(s) + |Trim(s)|]
    ensures forall k | 0 <= k < LeadingSpaces(s) :: IsSpace(s[k])
    ensures forall k | LeadingSpaces(s) + |Trim(s)| <= k < |s| :: IsSpace(s[k])
    ensures Trim(s) == [] || (!IsSpace(Trim(s)[0]) && !IsSpace(Trim(s)[|Trim(s)| - 1]))
  {
    SpaceRuns(s);
    var a := LeadingSpaces(s);
    if a < |s| {
      var b := TrailingSpaces(s);
      assert !IsSpace(s[a]);
      assert Trim(s) == s[a..|s| - b];
    }
  }

  /** Text without white space at either end is left as it is; in
      particular, trimming twice is trimming once. */
  lemma TrimNoEdges(s: string)
    requires s == [] || (!IsSpace(s[0]) && !IsSpace(s[|s| - 1]))
    ensures Trim(s) == s
  {
    if s != [] {
      assert LeadingSpaces(s) == 0;
      assert TrailingSpaces(s) == 0;
      assert s[0..|s|] == s;
    }
  }

  /** `s.replace(/c/g, '')`: every occurrence of `c` removed. */
  function Remove(s: string, c: char): (r: string)
    ensures c !in r
  {
    if s == [] then []
    else if s[0] == c then Remove(s[1..], c)
    else [s[0]] + Remove(s[1..], c)
  }

  /** Removal keeps exactly the other characters, each as often as it
      occurred, and leaves text without `c` unchanged. */
  lemma {:induction false} RemoveFacts(s: string, c: char)
    ensures forall d :: d in Remove(s, c) <==> d in s && d != c
    ensures multiset(Remove(s, c)) == multiset(s)[c := 0]
    ensures c !in s ==> Remove(s, c) == s
  {
    if s != [] {
      RemoveFacts(s[1..], c);
      assert s == [s[0]] + s[1..];
      assert multiset(s) == multiset([s[0]]) + multiset(s[1..]);
    }
  }

  /** Removing the only character a text holds leaves nothing. */
  lemma {:induction false} RemoveOnly(s: string, c: char)
    requires forall k | 0 <= k < |s| :: s[k] == c
    ensures Remove(s, c) == []
  {
    if s != [] {
      RemoveOnly(s[1..], c);
    }
  }

  /** Removal works piece by piece, so it keeps the order of what
      remains. */
  lemma {:induction false} RemoveConcat(a: string, b: string, c: char)
    ensures Remove(a + b, c) == Remove(a, c) + Remove(b, c)
  {
    if a != [] {
      RemoveConcat(a[1..], b, c);
      assert (a + b)[1..] == a[1..] + b;
    } else {
      assert a + b == b;
    }
  }

  /** Removal on one character: `c` vanishes, any other character stays. */
  lemma RemoveOne(x: char, c: char)
    ensures Remove([x], c) == if x == c then [] else [x]
  {
    assert [x][1..] == [];
  }

  /** `name.split('.').pop()`: the text after the last dot, or the whole
      name when it has no dot. */
  function AfterLastDot(name: string): (r: string)
    ensures '.' !in r
    ensures EndsWith(name, r)
    ensures |r| < |name| ==> name[|name| - |r| - 1] == '.'
  {
    if name == [] then []
    else if name[|name| - 1] == '.' then []
    else
      var init := name[..|name| - 1];
      var r := AfterLastDot(init) + [name[|name| - 1]];
      assert init[|init| - |r| + 1..] == AfterLastDot(init);
      assert name[|name| - |r|..] == init[|init| - |r| + 1..] + [name[|name| - 1]];
      r
  }

  /** The text after the last dot is what follows the dot that has no other
      dot after it. */
  lemma {:induction false} AfterLastDotAt(name: string, i: nat)
    requires i < |name| && name[i] == '.' && '.' !in name[i + 1..]
    ensures AfterLastDot(name) == name[i + 1..]
  {
    var n := |name|;
    if i < n - 1 {
      var init := name[..n - 1];
      assert name[n - 1] in name[i + 1..];
      assert init[i + 1..] == name[i + 1..n - 1];
      assert '.' !in init[i + 1..];
      AfterLastDotAt(init, i);
      assert AfterLastDot(name) == AfterLastDot(init) + [name[n - 1]];
      assert name[i + 1..] == name[i + 1..n - 1] + [name[n - 1]];
    } else {
      assert AfterLastDot(name) == [];
    }
  }

  function DigitChar(d: nat): (c: char)
    requires d < 10
    ensures IsDigit(c)
  {
    ('0' as int + d) as char
  }

  /** The decimal rendering of a count, as a template literal writes it. */
  function Decimal(n: nat): (r: string)
    ensures r != []
    ensures forall c | c in r :: IsDigit(c)
  {
    if n < 10 then [DigitChar(n)] else Decimal(n / 10) + [DigitChar(n % 10)]
  }

  /** The value of a string of decimal digits. */
  function DecimalValue(s: string): nat
    requires forall c | c in s :: IsDigit(c)
  {
    if s == [] then 0
    else
      var last := s[|s| - 1];
      assert last in s && IsDigit(last);
      10 * DecimalValue(s[..|s| - 1]) + (last as int - '0' as int)
  }

  /** Reading back the decimal rendering gives the count: distinct counts have
      distinct renderings, so synthetic figure labels never collide. */
  lemma {:induction false} DecimalRoundTrip(n: nat)
    ensures DecimalValue(Decimal(n)) == n
  {
    if n >= 10 {
      DecimalRoundTrip(n / 10);
      var r := Decimal(n);
      assert r[..|r| - 1] == Decimal(n / 10);
    }
  }

  /** Concatenation is associative; stated once so that loop proofs over
      accumulated sequences can cite it. */
  lemma ConcatAssoc<T>(a: seq<T>, b: seq<T>, c: seq<T>)
    ensures (a + b) + c == a + (b + c)
  {
  }
}
