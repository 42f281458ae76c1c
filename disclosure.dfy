/**
 * Figure disclosure in a tutor turn (`extractReferencedFigures`,
 * worker/src/session-answer.js): every `fig:<ref>` / `Figure <ref>` mention
 * in the tutor's message is resolved against the paper's figures, and each
 * resolved figure is disclosed once, in order of its first resolving mention.
 */
module Disclosure {
  import opened Wrappers
  import opened Text
  import opened Patterns
  import opened Latex

  /** What `allFigures.find(...)` yields for one reference. A figure whose
      label is undefined makes the test call `includes` on `undefined`, which
      throws a `TypeError`. */
  datatype Lookup = Found(figure: Figure) | NotFound | Throws

  /** The message a V8 runtime gives that `TypeError`. */
  const UndefinedLabelMessage: string := "Cannot read properties of undefined (reading 'includes')"

  /** The test the search applies to a figure with a defined label. */
  predicate LabelMatches(labelText: string, ref: string) {
    labelText == ref || labelText == "fig:" + ref || Contains(labelText, ref)
  }

  /** `allFigures.find(f => f.label === ref || f.label === 'fig:' + ref ||
      f.label.includes(ref))`, scanning in inventory order. */
  function FindFigure(figures: seq<Figure>, ref: string): (r: Lookup)
    ensures r.Found? ==> r.figure in figures && r.figure.labelText.Some?
                         && LabelMatches(r.figure.labelText.value, ref)
  {
    if figures == [] then NotFound
    else
      match figures[0].labelText
      case None => Throws
      case Some(l) =>
        if LabelMatches(l, ref) then Found(figures[0]) else FindFigure(figures[1..], ref)
  }

  /** The label test reduces to containment: a label equal to the reference,
      or to `fig:` and the reference, contains it. */
  lemma LabelMatchesIsContainment(labelText: string, ref: string)
    ensures LabelMatches(labelText, ref) <==> Contains(labelText, ref)
  {
    if labelText == ref {
      ContainsAt(labelText, ref, 0);
    } else if labelText == "fig:" + ref {
      assert labelText[4..4 + |ref|] == ref;
      ContainsAt(labelText, ref, 4);
    }
  }

  /** One disclosed figure, as the answer response carries it. */
  datatype Disclosed = Disclosed(labelText: string, caption: Option<string>, format: string, data: string)

  function DisclosedOf(f: Figure): Disclosed
    requires f.labelText.Some?
  {
    Disclosed(f.labelText.value, f.caption, f.format, f.base64)
  }

  predicate HasLabel(ds: seq<Disclosed>, labelText: string) {
    exists k | 0 <= k < |ds| :: ds[k].labelText == labelText
  }

  /** One pass of the loop body for reference `ref`, after `acc`. */
  function Step(figures: seq<Figure>, acc: Result<seq<Disclosed>>, ref: string): Result<seq<Disclosed>> {
    match acc
    case Err(m) => Err(m)
    case Ok(ds) =>
      match FindFigure(figures, ref)
      case Throws => Err(UndefinedLabelMessage)
      case NotFound => Ok(ds)
      case Found(f) => if HasLabel(ds, f.labelText.value) then Ok(ds) else Ok(ds + [DisclosedOf(f)])
  }

  /** The loop over the references `refs`, in order: the list accumulated, or
      the error that escapes it. */
  function DiscloseAll(figures: seq<Figure>, refs: seq<string>): Result<seq<Disclosed>> {
    if refs == [] then Ok([])
    else Step(figures, DiscloseAll(figures, refs[..|refs| - 1]), refs[|refs| - 1])
  }

  /** The captures of a list of matches. */
  function Groups(hits: seq<Hit>): (r: seq<string>)
    ensures |r| == |hits| && forall k | 0 <= k < |hits| :: r[k] == hits[k].group
  {
    seq(|hits|, k requires 0 <= k < |hits| => hits[k].group)
  }

  /** The references a message mentions: the capture of each match of
      `/fig(?:ure)?[:\s]+([a-zA-Z0-9_-]+)/gi`, in order. */
  function Refs(message: string): seq<string> {
    Groups(MatchesFrom(FigureRef, message, 0))
  }

  /** One more match extends the loop by one step. */
  lemma DiscloseAllSnoc(figures: seq<Figure>, hits: seq<Hit>, h: Hit)
    ensures DiscloseAll(figures, Groups(hits + [h])) == Step(figures, DiscloseAll(figures, Groups(hits)), h.group)
  {
    var refs := Groups(hits + [h]);
    assert refs[..|refs| - 1] == Groups(hits);
  }

  /** An error met by the references scanned so far is the loop's result. */
  lemma ThrowEscapes(figures: seq<Figure>, message: string, hits: seq<Hit>, i: nat)
    requires i <= |message|
    requires hits + MatchesFrom(FigureRef, message, i) == MatchesFrom(FigureRef, message, 0)
    requires DiscloseAll(figures, Groups(hits)) == Err(UndefinedLabelMessage)
    ensures DiscloseAll(figures, Refs(message)) == Err(UndefinedLabelMessage)
  {
    var refs := Refs(message);
    assert refs[..|hits|] == Groups(hits);
    DiscloseAllErrPrefix(figures, refs, |hits|);
  }

  /** `extractReferencedFigures(message, allFigures)`: the `exec` loop. */
  method ExtractReferencedFigures(message: string, figures: seq<Figure>) returns (r: Result<seq<Disclosed>>)
    ensures r == DiscloseAll(figures, Refs(message))
  {
    var referenced: seq<Disclosed> := [];
    ghost var hits: seq<Hit> := [];
    var lastIndex := 0;
    while lastIndex < |message|
      invariant lastIndex <= |message|
      invariant hits + MatchesFrom(FigureRef, message, lastIndex) == MatchesFrom(FigureRef, message, 0)
      invariant DiscloseAll(figures, Groups(hits)) == Ok(referenced)
      decreases |message| - lastIndex
    {
      var m := MatchAt(FigureRef, message, lastIndex);
      if m.Some? {
        var ref := m.value.group;
        DiscloseAllSnoc(figures, hits, m.value);
        ConcatAssoc(hits, [m.value], MatchesFrom(FigureRef, message, m.value.end));
        hits := hits + [m.value];
        var figure := FindFigure(figures, ref);
        if figure.Throws? {
          ThrowEscapes(figures, message, hits, m.value.end);
          r := Err(UndefinedLabelMessage);
          return;
        }
        if figure.Found? && !HasLabel(referenced, figure.figure.labelText.value) {
          referenced := referenced + [DisclosedOf(figure.figure)];
        }
        lastIndex := m.value.end;
      } else {
        lastIndex := lastIndex + 1;
      }
    }
    assert MatchesFrom(FigureRef, message, lastIndex) == [];
    assert hits == hits + [];
    r := Ok(referenced);
  }

  /** A thrown error stays thrown: once the search has met an undefined label,
      later references cannot undo it. */
  lemma {:induction false} DiscloseAllErrPrefix(figures: seq<Figure>, refs: seq<string>, n: nat)
    requires n <= |refs| && DiscloseAll(figures, refs[..n]).Err?
    ensures DiscloseAll(figures, refs) == DiscloseAll(figures, refs[..n])
    decreases |refs| - n
  {
    if n < |refs| {
      assert refs[..n + 1][..n] == refs[..n];
      DiscloseAllErrPrefix(figures, refs, n + 1);
    } else {
      assert refs[..n] == refs;
    }
  }

  /** The disclosed figures have pairwise distinct labels, and each is an
      inventory figure with its label, caption, format and data. */
  lemma {:induction false} DisclosedDistinctFromInventory(figures: seq<Figure>, refs: seq<string>)
    requires DiscloseAll(figures, refs).Ok?
    ensures var ds := DiscloseAll(figures, refs).value;
      forall i, j | 0 <= i < j < |ds| :: ds[i].labelText != ds[j].labelText
    ensures forall d | d in DiscloseAll(figures, refs).value ::
      exists f | f in figures :: f.labelText == Some(d.labelText) && DisclosedOf(f) == d
  {
    if refs != [] {
      var init := refs[..|refs| - 1];
      DisclosedDistinctFromInventory(figures, init);
    }
  }

  /** Reference `ref` resolves to the inventory figure labelled `labelText`. */
  predicate Resolves(figures: seq<Figure>, ref: string, labelText: string) {
    FindFigure(figures, ref).Found? && FindFigure(figures, ref).figure.labelText == Some(labelText)
  }

  lemma HasLabelSnoc(ds: seq<Disclosed>, d: Disclosed, labelText: string)
    ensures HasLabel(ds + [d], labelText) <==> HasLabel(ds, labelText) || d.labelText == labelText
  {
    if HasLabel(ds, labelText) {
      var k :| 0 <= k < |ds| && ds[k].labelText == labelText;
      assert (ds + [d])[k] == ds[k];
    }
    if HasLabel(ds + [d], labelText) {
      var k :| 0 <= k < |ds + [d]| && (ds + [d])[k].labelText == labelText;
      if k < |ds| {
        assert (ds + [d])[k] == ds[k];
      }
    }
    if d.labelText == labelText {
      assert (ds + [d])[|ds|] == d;
    }
  }

  /** Completeness: when the loop succeeds, a label is disclosed exactly when
      some reference of the message resolves to the figure carrying it. */
  lemma {:induction false} DiscloseAllLabels(figures: seq<Figure>, refs: seq<string>)
    requires DiscloseAll(figures, refs).Ok?
    ensures forall labelText :: HasLabel(DiscloseAll(figures, refs).value, labelText) <==>
      exists i | 0 <= i < |refs| :: Resolves(figures, refs[i], labelText)
  {
    if refs != [] {
      var init := refs[..|refs| - 1];
      var last := refs[|refs| - 1];
      assert DiscloseAll(figures, init).Ok?;
      DiscloseAllLabels(figures, init);
      var before := DiscloseAll(figures, init).value;
      var after := DiscloseAll(figures, refs).value;
      assert DiscloseAll(figures, refs) == Step(figures, Ok(before), last);
      forall labelText
        ensures HasLabel(after, labelText) <==> exists i | 0 <= i < |refs| :: Resolves(figures, refs[i], labelText)
      {
        StepLabels(figures, before, last, labelText);
        if exists i | 0 <= i < |init| :: Resolves(figures, init[i], labelText) {
          var i :| 0 <= i < |init| && Resolves(figures, init[i], labelText);
          assert refs[i] == init[i];
        }
        if exists i | 0 <= i < |refs| :: Resolves(figures, refs[i], labelText) {
          var i :| 0 <= i < |refs| && Resolves(figures, refs[i], labelText);
          if i < |init| {
            assert init[i] == refs[i];
          }
        }
      }
    }
  }

  /** One pass of the loop body discloses a label iff it was disclosed
      before or the reference resolves to the figure carrying it. */
  lemma StepLabels(figures: seq<Figure>, before: seq<Disclosed>, ref: string, labelText: string)
    requires Step(figures, Ok(before), ref).Ok?
    ensures HasLabel(Step(figures, Ok(before), ref).value, labelText) <==>
      HasLabel(before, labelText) || Resolves(figures, ref, labelText)
  {
    var found := FindFigure(figures, ref);
    if found.Found? {
      HasLabelSnoc(before, DisclosedOf(found.figure), labelText);
    }
  }

  /** The list only grows: what the first `n` references disclose is a prefix
      of what the whole message discloses. */
  lemma {:induction false} DiscloseAllPrefix(figures: seq<Figure>, refs: seq<string>, n: nat)
    requires n <= |refs| && DiscloseAll(figures, refs).Ok?
    ensures DiscloseAll(figures, refs[..n]).Ok?
    ensures DiscloseAll(figures, refs[..n]).value <= DiscloseAll(figures, refs).value
    decreases |refs| - n
  {
    if n < |refs| {
      DiscloseAllPrefix(figures, refs, n + 1);
      var p := refs[..n + 1];
      assert p[..n] == refs[..n];
    } else {
      assert refs[..n] == refs;
    }
  }

  /** Order of disclosure: a figure disclosed before another is resolved by
      a strictly earlier reference than any that resolves the later one. */
  lemma DiscloseAllOrder(figures: seq<Figure>, refs: seq<string>, k1: nat, k2: nat, i: nat)
    requires DiscloseAll(figures, refs).Ok?
    requires k1 < k2 < |DiscloseAll(figures, refs).value|
    requires i < |refs| && Resolves(figures, refs[i], DiscloseAll(figures, refs).value[k2].labelText)
    ensures exists j | 0 <= j < i :: Resolves(figures, refs[j], DiscloseAll(figures, refs).value[k1].labelText)
  {
    var ds := DiscloseAll(figures, refs).value;
    var l1 := ds[k1].labelText;
    var l2 := ds[k2].labelText;
    DisclosedDistinctFromInventory(figures, refs);
    var upTo := refs[..i + 1];
    DiscloseAllPrefix(figures, refs, i + 1);
    var early := DiscloseAll(figures, upTo).value;
    DiscloseAllLabels(figures, upTo);
    assert upTo[i] == refs[i];
    assert HasLabel(early, l2);
    var p :| 0 <= p < |early| && early[p].labelText == l2;
    assert early[p] == ds[p];
    assert p == k2;
    assert early[k1] == ds[k1];
    assert HasLabel(early, l1);
    var j :| 0 <= j < |upTo| && Resolves(figures, upTo[j], l1);
    assert refs[j] == upTo[j];
    assert j != i;
  }

  /** What a match of the reference pattern captures: a non-empty run of
      letters, digits, `_` and `-` that closes the match. */
  lemma FigureRefCapture(s: string, p: nat)
    requires MatchAt(FigureRef, s, p).Some?
    ensures var h := MatchAt(FigureRef, s, p).value;
      && h.group != [] && |h.group| <= h.end - h.start
      && h.group == s[h.end - |h.group|..h.end]
      && forall k | 0 <= k < |h.group| :: IsRefChar(h.group[k])
  {
  }

  /** The references of a message are the captures of its matches, in order,
      one per match. */
  lemma RefsShape(message: string)
    ensures |Refs(message)| == |MatchesFrom(FigureRef, message, 0)|
    ensures forall k | 0 <= k < |Refs(message)| ::
      var h := MatchesFrom(FigureRef, message, 0)[k];
      && Refs(message)[k] == h.group && h.group != []
      && |h.group| <= h.end <= |message|
      && h.group == message[h.end - |h.group|..h.end]
      && forall c | c in h.group :: IsRefChar(c)
  {
    var hits := MatchesFrom(FigureRef, message, 0);
    MatchesSound(FigureRef, message, 0);
    forall k | 0 <= k < |hits|
      ensures hits[k].group != [] && |hits[k].group| <= hits[k].end <= |message|
      ensures hits[k].group == message[hits[k].end - |hits[k].group|..hits[k].end]
      ensures forall c | c in hits[k].group :: IsRefChar(c)
    {
      assert hits[k] in hits;
      FigureRefCapture(message, hits[k].start);
    }
  }

  /** Every figure of the inventory has a label: the search never throws. */
  predicate AllLabelled(figures: seq<Figure>) {
    forall f | f in figures :: f.labelText.Some?
  }

  /** With every label defined the search never throws. */
  lemma {:induction false} FindFigureNeverThrows(figures: seq<Figure>, ref: string)
    requires AllLabelled(figures)
    ensures !FindFigure(figures, ref).Throws?
  {
    if figures != [] {
      assert forall f | f in figures[1..] :: f in figures;
      FindFigureNeverThrows(figures[1..], ref);
    }
  }

  /** The resolution rule, stated without the search: with every label
      defined, a reference resolves to nothing exactly when no label contains
      it (equality with the reference or with `fig:` + reference implies
      containment). */
  lemma {:induction false} FindFigureNotFound(figures: seq<Figure>, ref: string)
    requires AllLabelled(figures)
    ensures FindFigure(figures, ref).NotFound? <==>
      forall k | 0 <= k < |figures| :: !Contains(figures[k].labelText.value, ref)
  {
    if figures != [] {
      var l := figures[0].labelText.value;
      assert forall f | f in figures[1..] :: f in figures;
      FindFigureNotFound(figures[1..], ref);
      LabelMatchesIsContainment(l, ref);
      if !Contains(l, ref) {
        assert FindFigure(figures, ref) == FindFigure(figures[1..], ref);
        assert forall k | 1 <= k < |figures| :: figures[k] == figures[1..][k - 1];
      }
    }
  }

  /** ... and otherwise to the first figure whose label contains it. */
  lemma {:induction false} FindFigureFirstContaining(figures: seq<Figure>, ref: string)
    requires AllLabelled(figures)
    ensures FindFigure(figures, ref).Found? ==> exists i | 0 <= i < |figures| ::
      && figures[i] == FindFigure(figures, ref).figure
      && Contains(figures[i].labelText.value, ref)
      && forall k | 0 <= k < i :: !Contains(figures[k].labelText.value, ref)
  {
    if figures != [] {
      var l := figures[0].labelText.value;
      LabelMatchesIsContainment(l, ref);
      if !Contains(l, ref) {
        var rest := FindFigure(figures[1..], ref);
        assert FindFigure(figures, ref) == rest;
        if rest.Found? {
          assert forall f | f in figures[1..] :: f in figures;
          FindFigureFirstContaining(figures[1..], ref);
          var i :| 0 <= i < |figures[1..]| && figures[1..][i] == rest.figure
            && Contains(figures[1..][i].labelText.value, ref)
            && forall k | 0 <= k < i :: !Contains(figures[1..][k].labelText.value, ref);
          FirstContainingShift(figures, ref, i);
        }
      }
    }
  }

  /** The first containing label of the tail, behind a head that does not
      contain the reference, is the first of the whole inventory. */
  lemma FirstContainingShift(figures: seq<Figure>, ref: string, i: nat)
    requires AllLabelled(figures) && i + 1 < |figures|
    requires !Contains(figures[0].labelText.value, ref)
    requires Contains(figures[1..][i].labelText.value, ref)
    requires forall k | 0 <= k < i :: !Contains(figures[1..][k].labelText.value, ref)
    ensures figures[i + 1] == figures[1..][i] && Contains(figures[i + 1].labelText.value, ref)
    ensures forall k | 0 <= k < i + 1 :: !Contains(figures[k].labelText.value, ref)
  {
    forall k | 1 <= k < i + 1 ensures !Contains(figures[k].labelText.value, ref) {
      assert figures[k] == figures[1..][k - 1];
    }
  }

  /** The search throws exactly when it reaches a figure with an undefined
      label before any figure that matches. */
  lemma {:induction false} FindFigureThrows(figures: seq<Figure>, ref: string)
    ensures FindFigure(figures, ref).Throws? <==> exists i | 0 <= i < |figures| ::
      && figures[i].labelText.None?
      && forall k | 0 <= k < i :: figures[k].labelText.Some? && !LabelMatches(figures[k].labelText.value, ref)
  {
    if figures != [] && figures[0].labelText.Some? {
      FindFigureThrows(figures[1..], ref);
      var l := figures[0].labelText.value;
      if !LabelMatches(l, ref) {
        if FindFigure(figures[1..], ref).Throws? {
          var i :| 0 <= i < |figures[1..]| && figures[1..][i].labelText.None?
            && forall k | 0 <= k < i :: figures[1..][k].labelText.Some? && !LabelMatches(figures[1..][k].labelText.value, ref);
          assert figures[i + 1].labelText.None?;
          assert forall k | 1 <= k < i + 1 :: figures[k] == figures[1..][k - 1];
        } else {
          forall i | 0 <= i < |figures| && figures[i].labelText.None?
            ensures exists k | 0 <= k < i :: !(figures[k].labelText.Some? && !LabelMatches(figures[k].labelText.value, ref))
          {
            assert i > 0 && figures[1..][i - 1] == figures[i];
            var k :| 0 <= k < i - 1 && !(figures[1..][k].labelText.Some? && !LabelMatches(figures[1..][k].labelText.value, ref));
            assert figures[k + 1] == figures[1..][k];
          }
        }
      }
    }
  }

  /** With every label defined the whole loop succeeds. */
  lemma {:induction false} LabelledNeverFails(figures: seq<Figure>, refs: seq<string>)
    requires AllLabelled(figures)
    ensures DiscloseAll(figures, refs).Ok?
  {
    if refs != [] {
      LabelledNeverFails(figures, refs[..|refs| - 1]);
      FindFigureNeverThrows(figures, refs[|refs| - 1]);
    }
  }
}
