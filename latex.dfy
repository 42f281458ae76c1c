/**
 * The structure extractor of the worker (`extractLatexStructure`,
 * worker/src/arxiv-handler.js): the concatenated `.tex` text, the title found
 * by a brace-depth scan and cleaned by a fixed chain of rewrites, and the
 * figures collected from every `\includegraphics` and resolved against the
 * archive's images.
 */
module Latex {
  import opened Wrappers
  import opened Text
  import opened Patterns
  import opened Tar

  /** A figure of the paper. `label` and `caption` are element 1 of the list
      of full matches in the surrounding window: absent when the window holds
      exactly one match. */
  datatype Figure = Figure(labelText: Option<string>, caption: Option<string>, path: string, format: string, base64: string)

  datatype Structure = Structure(mainFile: string, title: string, figures: seq<Figure>, allTexContent: string)

  const TitleMarker: string := "\\title{"
  /** How far the caption and label search reaches on each side of a match. */
  const WindowRadius: nat := 500

  // ----- the `.tex` corpus -----

  predicate IsTexText(f: FileRecord) { f.IsText() && f.extension == "tex" }

  /** `files.filter(f => f.type === 'text' && f.extension === 'tex')`. */
  function TexFiles(files: seq<FileRecord>): (r: seq<FileRecord>)
    ensures |r| <= |files|
  {
    if files == [] then []
    else (if IsTexText(files[0]) then [files[0]] else []) + TexFiles(files[1..])
  }

  /** The filter keeps exactly the text `.tex` files. */
  lemma {:induction false} TexFilesMembers(files: seq<FileRecord>)
    ensures forall f | f in TexFiles(files) :: IsTexText(f) && f in files
    ensures forall f | f in files && IsTexText(f) :: f in TexFiles(files)
  {
    if files != [] {
      TexFilesMembers(files[1..]);
      assert files == [files[0]] + files[1..];
    }
  }

  /** The filter keeps the order and the multiplicity of the files it keeps:
      it works piece by piece, one file at a time. */
  lemma {:induction false} TexFilesConcat(a: seq<FileRecord>, b: seq<FileRecord>)
    ensures TexFiles(a + b) == TexFiles(a) + TexFiles(b)
    ensures |a| == 1 ==> TexFiles(a) == if IsTexText(a[0]) then a else []
  {
    if a != [] {
      TexFilesConcat(a[1..], b);
      var head := if IsTexText(a[0]) then [a[0]] else [];
      assert (a + b)[0] == a[0];
      assert (a + b)[1..] == a[1..] + b;
      assert TexFiles(a + b) == head + TexFiles(a[1..] + b);
      ConcatAssoc(head, TexFiles(a[1..]), TexFiles(b));
      if |a| == 1 {
        assert a[1..] == [];
        assert TexFiles(a) == head + TexFiles([]);
      }
    } else {
      assert a + b == b;
    }
  }

  /** The text of a text record; the corpus only ever holds text records. */
  function ContentOf(f: FileRecord): string {
    if f.IsText() then f.payload.content else ""
  }

  /** One file's part of the corpus: a provenance line, then its text. */
  function Section(f: FileRecord): string {
    "% File: " + f.path + "\n" + ContentOf(f)
  }

  /** The sections joined with blank lines. */
  function JoinSections(texFiles: seq<FileRecord>): string {
    if texFiles == [] then []
    else if |texFiles| == 1 then Section(texFiles[0])
    else JoinSections(texFiles[..|texFiles| - 1]) + "\n\n" + Section(texFiles[|texFiles| - 1])
  }

  /** The corpus holds the whole text of every file joined into it. */
  lemma {:induction false} JoinSectionsContains(texFiles: seq<FileRecord>, k: nat)
    requires k < |texFiles|
    ensures Contains(JoinSections(texFiles), ContentOf(texFiles[k]))
  {
    var c := ContentOf(texFiles[k]);
    var last := texFiles[|texFiles| - 1];
    var init := texFiles[..|texFiles| - 1];
    if |texFiles| == 1 {
      SectionContains(last);
    } else {
      var head := JoinSections(init);
      var tail := Section(last);
      assert JoinSections(texFiles) == head + "\n\n" + tail;
      if k == |texFiles| - 1 {
        SectionContains(last);
        ContainsExtend(head + "\n\n", tail, [], c);
        assert head + "\n\n" + tail + [] == head + "\n\n" + tail;
      } else {
        assert init[k] == texFiles[k];
        JoinSectionsContains(init, k);
        ContainsExtend([], head, "\n\n" + tail, c);
        assert [] + head + ("\n\n" + tail) == head + "\n\n" + tail;
      }
    }
  }

  lemma SectionContains(f: FileRecord)
    ensures Contains(Section(f), ContentOf(f))
  {
    var c := ContentOf(f);
    ContainsAt(c, c, 0);
    ContainsExtend("% File: " + f.path + "\n", c, [], c);
    assert Section(f) == "% File: " + f.path + "\n" + c + [];
  }

  // ----- the title -----

  function BraceDelta(c: char): int {
    if c == '{' then 1 else if c == '}' then -1 else 0
  }

  /** The brace depth at the end of `t`: opening minus closing braces. */
  function Depth(t: string): int {
    if t == [] then 0 else Depth(t[..|t| - 1]) + BraceDelta(t[|t| - 1])
  }

  /** The `}` at `k` closes the group opened just before `from`. */
  predicate ClosesAt(s: string, from: nat, k: nat) {
    from <= k < |s| && s[k] == '}' && Depth(s[from..k]) == 0
  }

  /** The first closing brace of the group opened just before `from`, looked
      for at or after `i`. */
  function MatchingBrace(s: string, from: nat, i: nat): (r: Option<nat>)
    requires from <= i <= |s|
    decreases |s| - i
    ensures r.Some? ==> i <= r.value && ClosesAt(s, from, r.value)
    ensures r.Some? ==> forall k | i <= k < r.value :: !ClosesAt(s, from, k)
    ensures r.None? ==> forall k | i <= k < |s| :: !ClosesAt(s, from, k)
  {
    if i == |s| then None
    else if ClosesAt(s, from, i) then Some(i)
    else MatchingBrace(s, from, i + 1)
  }

  /** The `braceCount` loop: scan from `from`, counting `{` up and `}` down,
      until a `}` arrives at depth 0. */
  method ScanTitleEnd(s: string, from: nat) returns (titleEnd: Option<nat>)
    requires from <= |s|
    ensures titleEnd == MatchingBrace(s, from, from)
  {
    var braceCount := 0;
    var i := from;
    titleEnd := None;
    while i < |s|
      invariant from <= i <= |s|
      invariant braceCount == Depth(s[from..i])
      invariant forall k | from <= k < i :: !ClosesAt(s, from, k)
    {
      assert s[from..i + 1][..i - from] == s[from..i];
      if s[i] == '{' {
        braceCount := braceCount + 1;
      } else if s[i] == '}' {
        if braceCount == 0 {
          assert ClosesAt(s, from, i);
          titleEnd := Some(i);
          break;
        }
        braceCount := braceCount - 1;
      }
      i := i + 1;
    }
  }

  /** `t.replace(/\n/g, ' ')`. */
  function NewlinesToSpaces(t: string): (r: string)
    ensures |r| == |t| && '\n' !in r
    ensures forall k | 0 <= k < |t| :: r[k] == if t[k] == '\n' then ' ' else t[k]
  {
    seq(|t|, k requires 0 <= k < |t| => if t[k] == '\n' then ' ' else t[k])
  }

  /** `t.replace(/\s+/g, ' ')`: every maximal run of white space becomes one
      space. */
  function CollapseSpaces(t: string): string
    decreases |t|
  {
    if t == [] then []
    else if IsSpace(t[0]) then [' '] + CollapseSpaces(t[LeadingSpaces(t)..])
    else [t[0]] + CollapseSpaces(t[1..])
  }

  /** After collapsing, the only white space left is single plain spaces, and
      the text starts with white space exactly when it did before. */
  lemma {:induction false} CollapseSpacesFacts(t: string)
    decreases |t|
    ensures var r := CollapseSpaces(t);
      && (r == [] <==> t == [])
      && (r != [] ==> (IsSpace(r[0]) <==> IsSpace(t[0])))
      && NoSpaceRuns(r)
      && (forall k | 0 <= k < |r| :: IsSpace(r[k]) ==> r[k] == ' ')
  {
    if t != [] {
      var head, k := CollapseHead(t);
      CollapseSpacesFacts(t[k..]);
      ConsSpaceFacts(head, CollapseSpaces(t[k..]));
    }
  }

  /** One step of the collapse: the character it emits for the start of `t`
      and where it resumes; after a run of white space comes none. */
  lemma CollapseHead(t: string) returns (head: char, k: nat)
    requires t != []
    ensures 0 < k <= |t| && CollapseSpaces(t) == [head] + CollapseSpaces(t[k..])
    ensures (IsSpace(head) <==> IsSpace(t[0])) && (IsSpace(head) ==> head == ' ')
    ensures IsSpace(t[0]) && k < |t| ==> !IsSpace(t[k])
  {
    if IsSpace(t[0]) {
      head, k := ' ', LeadingSpaces(t);
    } else {
      head, k := t[0], 1;
    }
  }

  /** Putting a character in front of a collapsed text keeps it collapsed
      unless both are white space. */
  lemma ConsSpaceFacts(head: char, tail: string)
    requires NoSpaceRuns(tail) && forall k | 0 <= k < |tail| :: IsSpace(tail[k]) ==> tail[k] == ' '
    requires IsSpace(head) ==> head == ' '
    requires IsSpace(head) && tail != [] ==> !IsSpace(tail[0])
    ensures var r := [head] + tail;
      NoSpaceRuns(r) && forall k | 0 <= k < |r| :: IsSpace(r[k]) ==> r[k] == ' '
  {
    var r := [head] + tail;
    assert forall k | 1 <= k < |r| :: r[k] == tail[k - 1];
  }

  /** Collapsing adds no character except the space. */
  lemma {:induction false} CollapseSpacesChars(t: string)
    decreases |t|
    ensures forall c | c in CollapseSpaces(t) :: c in t || c == ' '
  {
    if t != [] {
      var rest := if IsSpace(t[0]) then t[LeadingSpaces(t)..] else t[1..];
      CollapseSpacesChars(rest);
      assert forall c | c in rest :: c in t;
      assert CollapseSpaces(t) == [if IsSpace(t[0]) then ' ' else t[0]] + CollapseSpaces(rest);
    }
  }

  /** The end of the run of ASCII letters starting at `i`. */
  function LetterRunEnd(t: string, i: nat): (e: nat)
    requires i <= |t|
    decreases |t| - i
    ensures i <= e <= |t|
    ensures e < |t| ==> !IsAsciiLetter(t[e])
  {
    if i < |t| && IsAsciiLetter(t[i]) then LetterRunEnd(t, i + 1) else i
  }

  /** Everything the run covers is a letter. */
  lemma {:induction false} LetterRunFacts(t: string, i: nat)
    requires i <= |t|
    decreases |t| - i
    ensures forall k | i <= k < LetterRunEnd(t, i) :: IsAsciiLetter(t[k])
  {
    if i < |t| && IsAsciiLetter(t[i]) {
      LetterRunFacts(t, i + 1);
    }
  }

  /** The argument of a command group: it lies in `t[arg..close]`, and
      `t[close]` is the closing brace. */
  datatype Group = Group(arg: nat, close: nat)

  /** When `t` starts with a backslash, one or more letters, `{`, then text
      without `}` and a `}`: where that text lies. */
  function CommandGroup(t: string): (r: Option<Group>)
    ensures r.Some? ==> 0 < r.value.arg <= r.value.close < |t|
  {
    if t != [] && t[0] == '\\' then
      var k := LetterRunEnd(t, 1);
      if k > 1 && k < |t| && t[k] == '{' then
        match FindChar(t, '}', k + 1)
        case Some(j) => Some(Group(k + 1, j))
        case None => None
      else None
    else None
  }

  /** A group is a backslash, a command name of one or more letters and
      `{`, then the argument: text without `}` up to the first `}`. */
  lemma CommandGroupShape(t: string)
    requires CommandGroup(t).Some?
    ensures var g := CommandGroup(t).value;
      && t[0] == '\\' && g.arg >= 3 && t[g.arg - 1] == '{'
      && (forall k | 1 <= k < g.arg - 1 :: IsAsciiLetter(t[k]))
      && '}' !in t[g.arg..g.close] && t[g.close] == '}'
  {
    var k := LetterRunEnd(t, 1);
    LetterRunFacts(t, 1);
    FindCharFirst(t, '}', k + 1);
  }

  /** `t.replace(/\\[a-zA-Z]+\{([^}]*)\}/g, '$1')`: one pass, each command
      with a braced argument replaced by the argument. */
  function UnwrapCommands(t: string): string
    decreases |t|
  {
    if t == [] then []
    else
      var g := CommandGroup(t);
      if g.Some? then t[g.value.arg..g.value.close] + UnwrapCommands(t[g.value.close + 1..])
      else [t[0]] + UnwrapCommands(t[1..])
  }

  /** Unwrapping adds no character. */
  lemma {:induction false} UnwrapCommandsChars(t: string)
    decreases |t|
    ensures forall c | c in UnwrapCommands(t) :: c in t
  {
    if t != [] {
      var head, rest := UnwrapCommandsStep(t);
      UnwrapCommandsChars(rest);
      ConcatChars(head, UnwrapCommands(rest), rest, t);
    }
  }

  /** One step of the unwrapping: a piece of `t` (the argument of a leading
      group, or the first character), then the unwrapping of a suffix. */
  lemma UnwrapCommandsStep(t: string) returns (head: string, rest: string)
    requires t != []
    ensures |rest| < |t|
    ensures UnwrapCommands(t) == head + UnwrapCommands(rest)
    ensures forall c | c in head :: c in t
    ensures forall c | c in rest :: c in t
  {
    var g := CommandGroup(t);
    if g.Some? {
      head, rest := t[g.value.arg..g.value.close], t[g.value.close + 1..];
      SliceChars(t, g.value.arg, g.value.close);
      SliceChars(t, g.value.close + 1, |t|);
    } else {
      head, rest := [t[0]], t[1..];
      SliceChars(t, 1, |t|);
    }
  }

  /** A piece of `t` followed by a text made of characters of a suffix of
      `t` holds only characters of `t`. */
  lemma ConcatChars(a: string, b: string, rest: string, t: string)
    requires forall c | c in a :: c in t
    requires forall c | c in b :: c in rest
    requires forall c | c in rest :: c in t
    ensures forall c | c in a + b :: c in t
  {
  }

  /** A slice holds only characters of the text it is cut from. */
  lemma SliceChars(t: string, i: nat, j: nat)
    requires i <= j <= |t|
    ensures forall c | c in t[i..j] :: c in t
  {
    forall c | c in t[i..j] ensures c in t {
      var k :| i <= k < j && t[k] == c;
    }
  }

  /** A text without a backslash is left as it is. */
  lemma {:induction false} UnwrapCommandsPlain(t: string)
    requires '\\' !in t
    decreases |t|
    ensures UnwrapCommands(t) == t
  {
    if t != [] {
      assert CommandGroup(t).None?;
      assert '\\' !in t[1..];
      UnwrapCommandsPlain(t[1..]);
      assert t == [t[0]] + t[1..];
    }
  }

  /** `t.replace(/\\[a-zA-Z]+/g, '')`: every remaining command name deleted. */
  function DropCommands(t: string): string
    decreases |t|
  {
    if t == [] then []
    else if t[0] == '\\' && LetterRunEnd(t, 1) > 1 then DropCommands(t[LetterRunEnd(t, 1)..])
    else [t[0]] + DropCommands(t[1..])
  }

  /** Dropping adds no character. */
  lemma {:induction false} DropCommandsChars(t: string)
    decreases |t|
    ensures forall c | c in DropCommands(t) :: c in t
  {
    if t != [] {
      if t[0] == '\\' && LetterRunEnd(t, 1) > 1 {
        var e := LetterRunEnd(t, 1);
        DropCommandsChars(t[e..]);
        assert DropCommands(t) == DropCommands(t[e..]);
        forall c | c in DropCommands(t) ensures c in t {
          var k :| e <= k < |t| && t[k] == c;
        }
      } else {
        DropCommandsChars(t[1..]);
        assert DropCommands(t) == [t[0]] + DropCommands(t[1..]);
        assert forall c | c in t[1..] :: c in t;
      }
    }
  }

  /** A text without a backslash is left as it is. */
  lemma {:induction false} DropCommandsPlain(t: string)
    requires '\\' !in t
    decreases |t|
    ensures DropCommands(t) == t
  {
    if t != [] {
      assert t[0] != '\\';
      assert '\\' !in t[1..];
      DropCommandsPlain(t[1..]);
      assert t == [t[0]] + t[1..];
    }
  }

  /** A cleaned title has no newline and no brace, no white space at either
      end, and no run of white space. */
  predicate IsCleanTitle(title: string) {
    && '\n' !in title && '{' !in title && '}' !in title
    && (title == [] || (!IsSpace(title[0]) && !IsSpace(title[|title| - 1])))
    && NoSpaceRuns(title)
  }

  /** The cleanup chain applied to the raw title text: newlines to spaces,
      white-space runs collapsed, `\cmd{x}` unwrapped to `x`, remaining
      command names deleted, braces removed, runs collapsed again, trimmed.
      Whatever the raw text, the result is clean. */
  function CleanTitle(raw: string): string
  {
    var spaced := CollapseSpaces(NewlinesToSpaces(raw));
    var plain := DropCommands(UnwrapCommands(spaced));
    Trim(CollapseSpaces(Remove(Remove(plain, '{'), '}')))
  }

  /** The cleaned title has no newline and no brace, no white space at
      either end, and no run of white space. */
  lemma CleanTitleIsClean(raw: string)
    ensures IsCleanTitle(CleanTitle(raw))
  {
    var spaced := CollapseSpaces(NewlinesToSpaces(raw));
    var plain := DropCommands(UnwrapCommands(spaced));
    var open := Remove(plain, '{');
    RemoveFacts(open, '}');
    CollapsedTrimIsClean(Remove(open, '}'));
  }

  /** The last two steps of the cleanup make any brace-free text clean. */
  lemma CollapsedTrimIsClean(t: string)
    requires '{' !in t && '}' !in t
    ensures IsCleanTitle(Trim(CollapseSpaces(t)))
  {
    var c := CollapseSpaces(t);
    CollapseSpacesFacts(t);
    CollapseSpacesChars(t);
    assert '\n' !in c && '{' !in c && '}' !in c by {
      forall k | 0 <= k < |c| ensures c[k] != '\n' && c[k] != '{' && c[k] != '}' {
        assert c[k] in c;
        if IsSpace(c[k]) { assert c[k] == ' '; }
      }
    }
    TrimFacts(c);
  }

  /** Text whose white space is single plain spaces is left as it is. */
  lemma {:induction false} CollapseSpacesKeeps(t: string)
    requires NoSpaceRuns(t) && forall k | 0 <= k < |t| :: IsSpace(t[k]) ==> t[k] == ' '
    decreases |t|
    ensures CollapseSpaces(t) == t
  {
    if t != [] {
      assert NoSpaceRuns(t[1..]);
      CollapseSpacesKeeps(t[1..]);
      if IsSpace(t[0]) {
        assert LeadingSpaces(t) == 1 + LeadingSpaces(t[1..]);
        assert LeadingSpaces(t[1..]) == 0;
      }
      assert t == [t[0]] + t[1..];
    }
  }

  /** The cleanup keeps the words: a title that is already clean, without a
      backslash, and whose white space is plain spaces, comes out unchanged. */
  lemma CleanTitleKeepsCleanText(t: string)
    requires IsCleanTitle(t) && '\\' !in t
    requires forall k | 0 <= k < |t| :: IsSpace(t[k]) ==> t[k] == ' '
    ensures CleanTitle(t) == t
  {
    assert NewlinesToSpaces(t) == t;
    CollapseSpacesKeeps(t);
    UnwrapCommandsPlain(t);
    DropCommandsPlain(t);
    RemoveFacts(t, '{');
    RemoveFacts(t, '}');
    TrimNoEdges(t);
  }

  /** The depth of a concatenation is the sum of the depths. */
  lemma {:induction false} DepthConcat(a: string, b: string)
    ensures Depth(a + b) == Depth(a) + Depth(b)
    decreases |b|
  {
    if b != [] {
      DepthConcat(a, b[..|b| - 1]);
      assert (a + b)[..|a + b| - 1] == a + b[..|b| - 1];
    } else {
      assert a + b == a;
    }
  }

  /** Text without braces has depth 0. */
  lemma {:induction false} DepthPlain(t: string)
    requires '{' !in t && '}' !in t
    ensures Depth(t) == 0
    decreases |t|
  {
    if t != [] {
      assert t[|t| - 1] in t;
      assert forall c | c in t[..|t| - 1] :: c in t;
      DepthPlain(t[..|t| - 1]);
    }
  }

  /** No brace and no backslash. */
  predicate NoBraceOrCommand(t: string) {
    '{' !in t && '}' !in t && '\\' !in t
  }

  /** The only white space is the plain space. */
  predicate PlainSpaces(t: string) {
    forall k | 0 <= k < |t| :: IsSpace(t[k]) ==> t[k] == ' '
  }

  lemma PlainSpacesConcat(x: string, y: string)
    requires PlainSpaces(x) && PlainSpaces(y)
    ensures PlainSpaces(x + y)
  {
    forall k | 0 <= k < |x + y| && IsSpace((x + y)[k]) ensures (x + y)[k] == ' ' {
      if k >= |x| {
        assert (x + y)[k] == y[k - |x|];
      }
    }
  }

  /** A title with a nested group, `\title{a{b}c}`: the scan passes the
      inner `}` and stops at the one that closes the title, and the cleanup
      drops the inner braces and keeps the words `a`, `b` and `c` as they
      were, in order. */
  lemma NestedGroupTitle(a: string, b: string, c: string, rest: string)
    requires NoBraceOrCommand(a) && NoBraceOrCommand(b) && NoBraceOrCommand(c)
    requires PlainSpaces(a) && PlainSpaces(b) && PlainSpaces(c)
    requires IsCleanTitle(a + b + c) && NoSpaceRuns(a + "{" + b + "}" + c)
    ensures TitleIn(TitleMarker + (a + "{" + b + "}" + c) + "}" + rest) == Some(a + b + c)
  {
    NestedGroupSplice(a, b, c, rest);
    NestedGroupCleanup(a, b, c);
  }

  /** The title search on `\title{a{b}c}` hands `a{b}c` to the cleanup. */
  lemma NestedGroupSplice(a: string, b: string, c: string, rest: string)
    requires NoBraceOrCommand(a) && NoBraceOrCommand(b) && NoBraceOrCommand(c)
    ensures TitleIn(TitleMarker + (a + "{" + b + "}" + c) + "}" + rest) == Some(CleanTitle(a + "{" + b + "}" + c))
  {
    var raw := a + "{" + b + "}" + c;
    var content := TitleMarker + raw + "}" + rest;
    NestedGroupScan(a, b, c, rest);
    assert content[0..7] == TitleMarker;
    TitleInAt(content, 7 + |raw|);
    assert content[7..7 + |raw|] == raw;
  }

  /** A text that opens with `\title{` whose group closes at `end` has the
      cleaned group as its title. */
  lemma TitleInAt(content: string, end: nat)
    requires StartsAt(content, 0, TitleMarker)
    requires 7 <= |content| && MatchingBrace(content, 7, 7) == Some(end)
    ensures TitleIn(content) == Some(CleanTitle(content[7..end]))
  {
    IndexOfAtStart(content, TitleMarker);
    var raw := content[0 + 7..end];
    assert raw == content[7..end];
    assert TitleIn(content) == Some(CleanTitle(raw));
  }

  /** The brace scan over `a{b}c}`: the group closes at the last brace. */
  lemma NestedGroupScan(a: string, b: string, c: string, rest: string)
    requires NoBraceOrCommand(a) && NoBraceOrCommand(b) && NoBraceOrCommand(c)
    ensures var content := TitleMarker + (a + "{" + b + "}" + c) + "}" + rest;
      MatchingBrace(content, 7, 7) == Some(7 + |a| + |b| + |c| + 2)
  {
    var raw := a + "{" + b + "}" + c;
    var content := TitleMarker + raw + "}" + rest;
    var inner := 7 + |a| + 1 + |b|;
    var end := 7 + |raw|;
    DepthPlain(a);
    DepthPlain(b);
    DepthPlain(c);
    DepthConcat(a, "{");
    DepthConcat(a + "{", b);
    DepthConcat(a + "{" + b, "}");
    DepthConcat(a + "{" + b + "}", c);
    assert content[7..end] == raw;
    assert content[7..inner] == a + "{" + b;
    assert ClosesAt(content, 7, end);
    forall k | 7 <= k < end ensures !ClosesAt(content, 7, k) {
      assert content[k] == raw[k - 7];
      if k < 7 + |a| {
        assert raw[k - 7] == a[k - 7];
        assert a[k - 7] in a;
      } else if 7 + |a| < k < inner {
        assert raw[k - 7] == b[k - 8 - |a|];
        assert b[k - 8 - |a|] in b;
      } else if k > inner {
        assert raw[k - 7] == c[k - inner - 1];
        assert c[k - inner - 1] in c;
      }
    }
  }

  /** The cleanup of `a{b}c`: the braces go, nothing else changes. */
  lemma NestedGroupCleanup(a: string, b: string, c: string)
    requires NoBraceOrCommand(a) && NoBraceOrCommand(b) && NoBraceOrCommand(c)
    requires PlainSpaces(a) && PlainSpaces(b) && PlainSpaces(c)
    requires IsCleanTitle(a + b + c) && NoSpaceRuns(a + "{" + b + "}" + c)
    ensures CleanTitle(a + "{" + b + "}" + c) == a + b + c
  {
    var raw := a + "{" + b + "}" + c;
    var t := a + b + c;
    PlainSpacesConcat(a, "{");
    PlainSpacesConcat(a + "{", b);
    PlainSpacesConcat(a + "{" + b, "}");
    PlainSpacesConcat(a + "{" + b + "}", c);
    assert '\n' !in raw by {
      forall k | 0 <= k < |raw| ensures raw[k] != '\n' {
        assert IsSpace('\n');
      }
    }
    assert '\\' !in raw;
    assert NewlinesToSpaces(raw) == raw;
    CollapseSpacesKeeps(raw);
    UnwrapCommandsPlain(raw);
    DropCommandsPlain(raw);
    RemoveBraces(a, b, c);
    PlainSpacesConcat(a, b);
    PlainSpacesConcat(a + b, c);
    CollapseSpacesKeeps(t);
    TrimNoEdges(t);
  }

  lemma RemoveBraces(a: string, b: string, c: string)
    requires NoBraceOrCommand(a) && NoBraceOrCommand(b) && NoBraceOrCommand(c)
    ensures Remove(Remove(a + "{" + b + "}" + c, '{'), '}') == a + b + c
  {
    RemoveConcat(a + "{" + b + "}", c, '{');
    RemoveConcat(a + "{" + b, "}", '{');
    RemoveConcat(a + "{", b, '{');
    RemoveConcat(a, "{", '{');
    RemoveFacts(a, '{');
    RemoveFacts(b, '{');
    RemoveFacts(c, '{');
    RemoveOne('{', '{');
    RemoveOne('}', '{');
    assert a + [] == a;
    var open := a + b + "}" + c;
    assert Remove(a + "{" + b + "}" + c, '{') == open;
    RemoveConcat(a + b + "}", c, '}');
    RemoveConcat(a + b, "}", '}');
    RemoveConcat(a, b, '}');
    RemoveFacts(a, '}');
    RemoveFacts(b, '}');
    RemoveFacts(c, '}');
    RemoveOne('}', '}');
    assert a + b + [] == a + b;
  }

  /** `\title{A {nested} B}` gives the title "A nested B". */
  lemma NestedTitleExample(content: string)
    requires content == "\\title{A {nested} B}"
    ensures TitleIn(content) == Some("A nested B")
  {
    var a, b, c := "A ", "nested", " B";
    NestedTitleParts(a, b, c);
    NestedGroupTitle(a, b, c, "");
    NestedTitleJoin(a, b, c, content);
  }

  lemma NestedTitleParts(a: string, b: string, c: string)
    requires a == "A " && b == "nested" && c == " B"
    ensures NoBraceOrCommand(a) && NoBraceOrCommand(b) && NoBraceOrCommand(c)
    ensures PlainSpaces(a) && PlainSpaces(b) && PlainSpaces(c)
    ensures IsCleanTitle(a + b + c) && NoSpaceRuns(a + "{" + b + "}" + c)
  {
    assert a + "{" + b + "}" + c == "A {nested} B";
    assert a + b + c == "A nested B";
    ExampleSpaces();
  }

  /** The white-space facts of the example, one literal at a time. */
  lemma ExampleSpaces()
    ensures PlainSpaces("A ") && PlainSpaces("nested") && PlainSpaces(" B")
    ensures NoSpaceRuns("A {nested} B")
    ensures IsCleanTitle("A nested B")
  {
    var t := "A nested B";
    assert t[0] == 'A' && t[|t| - 1] == 'B';
    forall k | 0 <= k < |t| - 1 ensures !(IsSpace(t[k]) && IsSpace(t[k + 1])) {
      assert IsSpace(t[k]) ==> k == 1 || k == 8;
    }
    var u := "A {nested} B";
    forall k | 0 <= k < |u| - 1 ensures !(IsSpace(u[k]) && IsSpace(u[k + 1])) {
      assert IsSpace(u[k]) ==> k == 1 || k == 10;
    }
  }

  lemma NestedTitleJoin(a: string, b: string, c: string, content: string)
    requires a == "A " && b == "nested" && c == " B" && content == "\\title{A {nested} B}"
    ensures TitleMarker + (a + "{" + b + "}" + c) + "}" + "" == content
    ensures a + b + c == "A nested B"
  {
  }

  /** The cleaned title of one file: the text between its first `\title{`
      and the brace that closes it; nothing when either is missing. */
  function TitleIn(content: string): Option<string>
  {
    match IndexOf(content, TitleMarker, 0)
    case None => None
    case Some(start) =>
      match MatchingBrace(content, start + 7, start + 7)
      case None => None
      case Some(end) => Some(CleanTitle(content[start + 7..end]))
  }

  /** The title of the first `.tex` file that has one; the empty string when
      none has. The title is always clean, the empty one included. */
  function TitleOf(texFiles: seq<FileRecord>): string
  {
    if texFiles == [] then ""
    else
      match TitleIn(ContentOf(texFiles[0]))
      case Some(t) => t
      case None => TitleOf(texFiles[1..])
  }

  /** A title found in one file is clean. */
  lemma TitleInIsClean(content: string)
    ensures TitleIn(content).Some? ==> IsCleanTitle(TitleIn(content).value)
  {
    match IndexOf(content, TitleMarker, 0)
    case None =>
    case Some(start) =>
      match MatchingBrace(content, start + 7, start + 7)
      case None =>
      case Some(end) => CleanTitleIsClean(content[start + 7..end]);
  }

  /** The extracted title is always clean, including the empty title. */
  lemma {:induction false} TitleOfIsClean(texFiles: seq<FileRecord>)
    ensures IsCleanTitle(TitleOf(texFiles))
  {
    if texFiles != [] {
      TitleInIsClean(ContentOf(texFiles[0]));
      TitleOfIsClean(texFiles[1..]);
    }
  }

  /** With no `\title{` in any file the title is empty, which is not an error. */
  lemma {:induction false} NoTitleMarkerGivesEmpty(texFiles: seq<FileRecord>)
    requires forall f | f in texFiles :: !Contains(ContentOf(f), TitleMarker)
    ensures TitleOf(texFiles) == ""
  {
    if texFiles != [] {
      NoTitleMarkerGivesEmpty(texFiles[1..]);
    }
  }

  /** The title search in one file: `indexOf`, then the brace scan. */
  method FindTitle(content: string) returns (title: Option<string>)
    ensures title == TitleIn(content)
  {
    var titleStart := IndexOf(content, TitleMarker, 0);
    title := None;
    if titleStart.Some? {
      var from := titleStart.value + 7;
      var titleEnd := ScanTitleEnd(content, from);
      if titleEnd.Some? {
        var raw := content[from..titleEnd.value];
        title := Some(CleanTitle(raw));
        assert TitleIn(content) == Some(CleanTitle(raw));
      } else {
        assert TitleIn(content) == None;
      }
    } else {
      assert TitleIn(content) == None;
    }
  }

  /** The title loop over the `.tex` files, leaving at the first closed title. */
  method ExtractTitle(texFiles: seq<FileRecord>) returns (title: string)
    ensures title == TitleOf(texFiles)
  {
    title := "";
    var n := 0;
    while n < |texFiles|
      invariant 0 <= n <= |texFiles|
      invariant TitleOf(texFiles) == TitleOf(texFiles[n..])
    {
      assert texFiles[n..][1..] == texFiles[n + 1..];
      var found := FindTitle(ContentOf(texFiles[n]));
      if found.Some? {
        title := found.value;
        return;
      }
      n := n + 1;
    }
  }

  // ----- the figures -----

  /** The surrounding text: up to 500 characters on each side of `at`. */
  function Window(s: string, at: nat): (w: string)
    requires at <= |s|
    ensures |w| <= 2 * WindowRadius
    ensures var before := if at < WindowRadius then at else WindowRadius;
      var after := if |s| - at < WindowRadius then |s| - at else WindowRadius;
      w == s[at - before..at + after]
  {
    var lo := if at >= WindowRadius then at - WindowRadius else 0;
    var hi := if at + WindowRadius <= |s| then at + WindowRadius else |s|;
    s[lo..hi]
  }

  /** `m ? m[1] : fallback` for `m = text.match(re)` with a global `re`:
      `null` when nothing matches, else the list of full matches. */
  function SecondMatch(matches: seq<string>, fallback: string): (r: Option<string>)
    ensures r == None <==> |matches| == 1
    ensures |matches| == 0 ==> r == Some(fallback)
    ensures |matches| >= 2 ==> r == Some(matches[1])
  {
    if |matches| == 0 then Some(fallback)
    else if |matches| == 1 then None
    else Some(matches[1])
  }

  /** `figurePath.replace(/^\.\//, '')`. */
  function StripDotSlash(p: string): (r: string)
    ensures StartsWith(p, "./") ==> p == "./" + r
    ensures !StartsWith(p, "./") ==> r == p
  {
    if StartsWith(p, "./") then p[2..] else p
  }

  /** The test `files.find` applies to each file, as written. */
  predicate ImageMatches(f: FileRecord, ref: string) {
    f.IsImage() && (f.path == ref || StartsWith(f.path, ref) || EndsWith(f.path, "/" + ref) || Contains(f.path, ref))
  }

  /** Containment subsumes the other three tests: an image matches exactly
      when its path contains the reference. */
  lemma ImageMatchesIsContainment(f: FileRecord, ref: string)
    ensures ImageMatches(f, ref) <==> f.IsImage() && Contains(f.path, ref)
  {
    if f.path == ref {
      assert StartsAt(f.path, 0, ref);
      ContainsAt(f.path, ref, 0);
    }
    if StartsWith(f.path, ref) {
      ContainsAt(f.path, ref, 0);
    }
    if EndsWith(f.path, "/" + ref) {
      var i := |f.path| - |ref|;
      var slashed := "/" + ref;
      assert f.path[i - 1..i + |ref|] == slashed;
      assert f.path[i..i + |ref|] == f.path[i - 1..i + |ref|][1..];
      assert slashed[1..] == ref;
      assert StartsAt(f.path, i, ref);
      ContainsAt(f.path, ref, i);
    }
  }

  /** The first image of the archive the reference resolves to. */
  function FindImage(files: seq<FileRecord>, ref: string): (r: Option<nat>)
    ensures r.Some? ==> r.value < |files| && ImageMatches(files[r.value], ref)
    ensures r.Some? ==> forall k | 0 <= k < r.value :: !ImageMatches(files[k], ref)
    ensures r.None? ==> forall k | 0 <= k < |files| :: !ImageMatches(files[k], ref)
  {
    if files == [] then None
    else if ImageMatches(files[0], ref) then Some(0)
    else
      match FindImage(files[1..], ref)
      case Some(k) => Some(k + 1)
      case None => None
  }

  /** The figure pushed for one `\includegraphics` match when `count` figures
      were pushed before it; `None` when no image resolves. */
  function FigureFor(files: seq<FileRecord>, s: string, m: Hit, count: nat): Option<Figure>
    requires m.start <= |s|
  {
    match FindImage(files, StripDotSlash(m.group))
    case None => None
    case Some(i) =>
      var image := files[i];
      var w := Window(s, m.start);
      var caption := SecondMatch(MatchTexts(Command("caption"), w), "");
      var labelText := SecondMatch(MatchTexts(Command("label"), w), "fig:" + Decimal(count));
      Some(Figure(labelText, caption, image.path, image.extension, image.payload.base64))
  }

  /** The matches whose reference resolves to an image, in match order. */
  function Resolved(files: seq<FileRecord>, ms: seq<Hit>): (r: seq<Hit>)
    ensures |r| <= |ms|
  {
    if ms == [] then []
    else
      var init := ms[..|ms| - 1];
      var last := ms[|ms| - 1];
      Resolved(files, init) + (if FindImage(files, StripDotSlash(last.group)).Some? then [last] else [])
  }

  /** The kept matches are exactly the matches whose reference resolves to
      an image. */
  lemma {:induction false} ResolvedMembers(files: seq<FileRecord>, ms: seq<Hit>)
    ensures forall m | m in Resolved(files, ms) :: m in ms
    ensures forall m | m in ms :: m in Resolved(files, ms) <==> FindImage(files, StripDotSlash(m.group)).Some?
  {
    if ms != [] {
      var init := ms[..|ms| - 1];
      ResolvedMembers(files, init);
      assert ms == init + [ms[|ms| - 1]];
    }
  }

  /** The filter works match by match in match order: one more match is
      appended after the kept ones when it resolves, and adds nothing
      otherwise. */
  lemma ResolvedSnoc(files: seq<FileRecord>, ms: seq<Hit>, m: Hit)
    ensures Resolved(files, ms + [m]) ==
      Resolved(files, ms) + if FindImage(files, StripDotSlash(m.group)).Some? then [m] else []
  {
    var t := ms + [m];
    assert t[..|t| - 1] == ms;
    assert t[|t| - 1] == m;
  }



  /** The figures of the matches, in match order. */
  function FiguresOf(files: seq<FileRecord>, s: string, ms: seq<Hit>): seq<Figure>
    requires forall m | m in ms :: m.start <= |s|
  {
    if ms == [] then []
    else
      var before := FiguresOf(files, s, ms[..|ms| - 1]);
      match FigureFor(files, s, ms[|ms| - 1], |before|)
      case Some(f) => before + [f]
      case None => before
  }

  /** The `figureRegex.exec` loop: every `\includegraphics` of the corpus, in
      order. */
  method CollectGraphics(s: string) returns (matches: seq<Hit>)
    ensures matches == MatchesFrom(Graphics, s, 0)
  {
    matches := [];
    var lastIndex := 0;
    while lastIndex < |s|
      invariant lastIndex <= |s|
      invariant matches + MatchesFrom(Graphics, s, lastIndex) == MatchesFrom(Graphics, s, 0)
      decreases |s| - lastIndex
    {
      var m := MatchAt(Graphics, s, lastIndex);
      ghost var before := matches;
      if m.Some? {
        matches := matches + [m.value];
        ConcatAssoc(before, [m.value], MatchesFrom(Graphics, s, m.value.end));
        lastIndex := m.value.end;
      } else {
        lastIndex := lastIndex + 1;
      }
    }
  }

  /** The loop over the matches that pushes a figure for each one resolved. */
  method BuildFigures(files: seq<FileRecord>, s: string, ms: seq<Hit>) returns (figures: seq<Figure>)
    requires forall m | m in ms :: m.start <= |s|
    ensures figures == FiguresOf(files, s, ms)
  {
    figures := [];
    for n := 0 to |ms|
      invariant figures == FiguresOf(files, s, ms[..n])
    {
      assert ms[..n + 1][..n] == ms[..n];
      var m := ms[n];
      var figurePath := StripDotSlash(m.group);
      var imageIndex := FindImage(files, figurePath);
      if imageIndex.Some? {
        var image := files[imageIndex.value];
        var w := Window(s, m.start);
        var captionMatch := MatchTexts(Command("caption"), w);
        var labelMatch := MatchTexts(Command("label"), w);
        figures := figures + [Figure(
          SecondMatch(labelMatch, "fig:" + Decimal(|figures|)),
          SecondMatch(captionMatch, ""),
          image.path, image.extension, image.payload.base64)];
      }
    }
    assert ms[..|ms|] == ms;
  }

  /** What every figure satisfies: it comes from an image of the archive (its
      path, its extension as format, its base64 data); its label is absent,
      the synthetic `fig:<index>` of its own position, or a full `\label{...}`
      match; its caption is absent, empty, or a full `\caption{...}` match. */
  predicate FigureFrom(files: seq<FileRecord>, f: Figure, index: nat) {
    && (exists image | image in files :: image.IsImage() && image.path == f.path
          && image.extension == f.format && image.payload.base64 == f.base64)
    && (f.labelText.None? || f.labelText == Some("fig:" + Decimal(index)) || StartsWith(f.labelText.value, "\\label{"))
    && (f.caption.None? || f.caption == Some("") || StartsWith(f.caption.value, "\\caption{"))
  }

  /** Every full match of a command starts with that command and its `{`. */
  lemma MatchTextsStart(name: string, w: string)
    ensures forall t | t in MatchTexts(Command(name), w) :: StartsWith(t, ['\\'] + name + ['{'])
  {
    var hits := MatchesFrom(Command(name), w, 0);
    var texts := MatchTexts(Command(name), w);
    MatchesSound(Command(name), w, 0);
    var pre := ['\\'] + name + ['{'];
    forall k | 0 <= k < |hits| ensures StartsWith(texts[k], pre) {
      var h := hits[k];
      assert StartsAt(w, h.start, ['\\'] + name);
      assert w[h.start + 1 + |name|] == '{';
      assert w[h.start..h.start + |pre|] == pre;
      assert texts[k][..|pre|] == w[h.start..h.start + |pre|];
    }
  }

  /** The label or caption taken from a window: absent, the fallback, or a
      full match of the command. */
  lemma SecondMatchStarts(name: string, w: string, fallback: string)
    ensures var r := SecondMatch(MatchTexts(Command(name), w), fallback);
      r.None? || r == Some(fallback) || StartsWith(r.value, ['\\'] + name + ['{'])
  {
    var texts := MatchTexts(Command(name), w);
    MatchTextsStart(name, w);
    if |texts| >= 2 {
      assert texts[1] in texts;
    }
  }

  /** The figure built for one match: there is one exactly when the
      reference resolves to an image; it carries that image's path, extension
      and base64 data; its label is the synthetic `fig:<count>` exactly when
      the window holds no `\label{...}`, and absent exactly when it holds one;
      likewise its caption is `""` without a `\caption{...}` and absent with
      exactly one. It satisfies `FigureFrom` at its index. */
  lemma FigureForFacts(files: seq<FileRecord>, s: string, m: Hit, count: nat)
    requires m.start <= |s|
    ensures FigureFor(files, s, m, count).Some? <==> FindImage(files, StripDotSlash(m.group)).Some?
    ensures FigureFor(files, s, m, count).Some? ==>
      var f := FigureFor(files, s, m, count).value;
      var image := files[FindImage(files, StripDotSlash(m.group)).value];
      var labels := MatchTexts(Command("label"), Window(s, m.start));
      var captions := MatchTexts(Command("caption"), Window(s, m.start));
      && f.path == image.path && f.format == image.extension && f.base64 == image.payload.base64
      && (f.labelText == Some("fig:" + Decimal(count)) <==> labels == [])
      && (f.labelText.None? <==> |labels| == 1)
      && (|labels| >= 2 ==> f.labelText == Some(labels[1]))
      && (captions == [] ==> f.caption == Some(""))
      && (f.caption.None? <==> |captions| == 1)
      && (|captions| >= 2 ==> f.caption == Some(captions[1]))
    ensures FigureFor(files, s, m, count).Some? ==> FigureFrom(files, FigureFor(files, s, m, count).value, count)
  {
    var r := FigureFor(files, s, m, count);
    if r.Some? {
      var i := FindImage(files, StripDotSlash(m.group)).value;
      var w := Window(s, m.start);
      SecondMatchStarts("caption", w, "");
      SecondMatchStarts("label", w, "fig:" + Decimal(count));
      var labels := MatchTexts(Command("label"), w);
      if |labels| >= 2 {
        MatchTextsStart("label", w);
        assert labels[1] in labels;
        assert ['\\'] + "label" + ['{'] == "\\label{";
        assert labels[1][0] == '\\';
        assert labels[1] != "fig:" + Decimal(count);
      }
      assert ['\\'] + "caption" + ['{'] == "\\caption{";
      assert ['\\'] + "label" + ['{'] == "\\label{";
      assert files[i] in files;
    }
  }

  /** Appending a figure that satisfies `FigureFrom` at the next index keeps
      every figure of the list satisfying it at its own index. */
  lemma FiguresFromSnoc(files: seq<FileRecord>, before: seq<Figure>, f: Figure)
    requires forall k | 0 <= k < |before| :: FigureFrom(files, before[k], k)
    requires FigureFrom(files, f, |before|)
    ensures forall k | 0 <= k < |before| + 1 :: FigureFrom(files, (before + [f])[k], k)
  {
    forall k | 0 <= k < |before| + 1 ensures FigureFrom(files, (before + [f])[k], k) {
      if k < |before| {
        assert (before + [f])[k] == before[k];
      }
    }
  }

  lemma {:induction false} FiguresOfFacts(files: seq<FileRecord>, s: string, ms: seq<Hit>)
    requires forall m | m in ms :: m.start <= |s|
    ensures |FiguresOf(files, s, ms)| <= |ms|
    ensures forall k | 0 <= k < |FiguresOf(files, s, ms)| :: FigureFrom(files, FiguresOf(files, s, ms)[k], k)
  {
    if ms != [] {
      var init := ms[..|ms| - 1];
      assert forall m | m in init :: m in ms;
      var before := FiguresOf(files, s, init);
      FiguresOfFacts(files, s, init);
      var r := FigureFor(files, s, ms[|ms| - 1], |before|);
      FigureForFacts(files, s, ms[|ms| - 1], |before|);
      if r.Some? {
        assert FiguresOf(files, s, ms) == before + [r.value];
        FiguresFromSnoc(files, before, r.value);
      } else {
        assert FiguresOf(files, s, ms) == before;
      }
    }
  }

  /** The figures are exactly one per resolved match, in match order: figure
      `k` is the one built for the `k`-th resolved match, numbered `k`. */
  lemma FiguresOfResolved(files: seq<FileRecord>, s: string, ms: seq<Hit>)
    requires forall m | m in ms :: m.start <= |s|
    ensures |FiguresOf(files, s, ms)| == |Resolved(files, ms)|
    ensures forall k | 0 <= k < |Resolved(files, ms)| ::
      Resolved(files, ms)[k].start <= |s| &&
      FigureFor(files, s, Resolved(files, ms)[k], k) == Some(FiguresOf(files, s, ms)[k])
  {
    FiguresOfCount(files, s, ms);
    forall k | 0 <= k < |Resolved(files, ms)|
      ensures Resolved(files, ms)[k].start <= |s|
      ensures FigureFor(files, s, Resolved(files, ms)[k], k) == Some(FiguresOf(files, s, ms)[k])
    {
      FiguresOfAt(files, s, ms, k);
    }
  }

  /** Unresolved matches add nothing and resolved ones add one figure each. */
  lemma {:induction false} FiguresOfCount(files: seq<FileRecord>, s: string, ms: seq<Hit>)
    requires forall m | m in ms :: m.start <= |s|
    ensures |FiguresOf(files, s, ms)| == |Resolved(files, ms)|
  {
    if ms != [] {
      var init := ms[..|ms| - 1];
      var last := ms[|ms| - 1];
      assert forall m | m in init :: m in ms;
      FiguresOfCount(files, s, init);
      assert FigureFor(files, s, last, |FiguresOf(files, s, init)|).Some?
        <==> FindImage(files, StripDotSlash(last.group)).Some?;
    }
  }

  /** Figure `k` is the one built from the `k`-th resolved match. */
  lemma {:induction false} FiguresOfAt(files: seq<FileRecord>, s: string, ms: seq<Hit>, k: nat)
    requires forall m | m in ms :: m.start <= |s|
    requires k < |Resolved(files, ms)|
    ensures Resolved(files, ms)[k].start <= |s|
    ensures k < |FiguresOf(files, s, ms)|
    ensures FigureFor(files, s, Resolved(files, ms)[k], k) == Some(FiguresOf(files, s, ms)[k])
    decreases |ms|
  {
    var r := Resolved(files, ms);
    assert r[k] in r;
    FiguresOfCount(files, s, ms);
    var init := ms[..|ms| - 1];
    var last := ms[|ms| - 1];
    assert forall m | m in init :: m in ms;
    var rInit := Resolved(files, init);
    var before := FiguresOf(files, s, init);
    FiguresOfCount(files, s, init);
    assert FigureFor(files, s, last, |before|).Some? <==> FindImage(files, StripDotSlash(last.group)).Some?;
    if k < |rInit| {
      FiguresOfAt(files, s, init, k);
      assert r[k] == rInit[k];
      assert FiguresOf(files, s, ms)[k] == before[k];
    }
  }


  /** `extractLatexStructure(files, mainFile)`. */
  function StructureOf(files: seq<FileRecord>, mainFile: FileRecord): Structure {
    var texFiles := TexFiles(files);
    var all := JoinSections(texFiles);
    var ms := MatchesFrom(Graphics, all, 0);
    MatchesSound(Graphics, all, 0);
    Structure(mainFile.path, TitleOf(texFiles), FiguresOf(files, all, ms), all)
  }

  method ExtractStructure(files: seq<FileRecord>, mainFile: FileRecord) returns (structure: Structure)
    ensures structure == StructureOf(files, mainFile)
  {
    var texFiles := TexFiles(files);
    var allTexContent := JoinSections(texFiles);
    var title := ExtractTitle(texFiles);
    var figureMatches := CollectGraphics(allTexContent);
    MatchesSound(Graphics, allTexContent, 0);
    var figures := BuildFigures(files, allTexContent, figureMatches);
    structure := Structure(mainFile.path, title, figures, allTexContent);
  }

  /** The extracted structure: a clean title, the text of every `.tex` file
      in the corpus, and no more figures than `\includegraphics` matches, each
      drawn from an image of the archive. */
  lemma StructureFacts(files: seq<FileRecord>, mainFile: FileRecord)
    ensures IsCleanTitle(StructureOf(files, mainFile).title)
    ensures forall f | f in files && IsTexText(f) :: Contains(StructureOf(files, mainFile).allTexContent, ContentOf(f))
    ensures |StructureOf(files, mainFile).figures| <= |MatchesFrom(Graphics, StructureOf(files, mainFile).allTexContent, 0)|
    ensures forall k | 0 <= k < |StructureOf(files, mainFile).figures| ::
      FigureFrom(files, StructureOf(files, mainFile).figures[k], k)
    ensures var all := StructureOf(files, mainFile).allTexContent;
      var resolved := Resolved(files, MatchesFrom(Graphics, all, 0));
      && |StructureOf(files, mainFile).figures| == |resolved|
      && forall k | 0 <= k < |resolved| ::
           resolved[k].start <= |all| &&
           FigureFor(files, all, resolved[k], k) == Some(StructureOf(files, mainFile).figures[k])
  {
    var texFiles := TexFiles(files);
    var all := JoinSections(texFiles);
    TexFilesMembers(files);
    TitleOfIsClean(texFiles);
    forall f | f in files && IsTexText(f) ensures Contains(all, ContentOf(f)) {
      var k :| 0 <= k < |texFiles| && texFiles[k] == f;
      JoinSectionsContains(texFiles, k);
    }
    MatchesSound(Graphics, all, 0);
    FiguresOfFacts(files, all, MatchesFrom(Graphics, all, 0));
    FiguresOfResolved(files, all, MatchesFrom(Graphics, all, 0));
  }
}
