/**
 * The two pure pieces of the browser client (main.js): reading an arXiv id
 * out of what the user typed, and the markup chosen to show a disclosed
 * figure.
 */
module Client {
  import opened Wrappers
  import opened Text
  import opened Patterns
  import opened Disclosure

  // ----- extractArxivId -----

  const AbsPrefix: string := "arxiv.org/abs/"
  const PdfPrefix: string := "arxiv.org/pdf/"

  /** The end of the run of decimal digits starting at `i`. */
  function DigitRunEnd(s: string, i: nat): (e: nat)
    requires i <= |s|
    decreases |s| - i
    ensures i <= e <= |s|
    ensures forall k | i <= k < e :: IsDigit(s[k])
    ensures e < |s| ==> !IsDigit(s[e])
  {
    if i < |s| && IsDigit(s[i]) then DigitRunEnd(s, i + 1) else i
  }

  /** `digits.digits`: one or more digits, a dot, one or more digits. */
  predicate IsIdShape(id: string) {
    exists k | 0 < k < |id| - 1 :: id[k] == '.' && forall j | 0 <= j < |id| && j != k :: IsDigit(id[j])
  }

  /** The match of `\d+\.\d+` that starts at `i`: its end. */
  function IdEnd(s: string, i: nat): (r: Option<nat>)
    requires i <= |s|
    ensures r.Some? ==> i < r.value <= |s|
    ensures r.Some? ==> r.value == |s| || !IsDigit(s[r.value])
  {
    var d := DigitRunEnd(s, i);
    if d > i && d < |s| && s[d] == '.' then
      var e := DigitRunEnd(s, d + 1);
      if e > d + 1 then Some(e) else None
    else None
  }

  /** What `IdEnd` delimits is an id. */
  lemma IdEndShape(s: string, i: nat)
    requires i <= |s| && IdEnd(s, i).Some?
    ensures IsIdShape(s[i..IdEnd(s, i).value])
  {
    var d := DigitRunEnd(s, i);
    var e := DigitRunEnd(s, d + 1);
    var id := s[i..e];
    assert id[d - i] == '.';
    forall j | 0 <= j < |id| && j != d - i ensures IsDigit(id[j]) {
      assert id[j] == s[i + j];
    }
  }

  /** The leftmost match of `prefix` (ignoring ASCII case) followed by
      `\d+\.\d+`, searched from position `p`: the captured id. */
  function UrlId(prefix: string, s: string, p: nat): (r: Option<string>)
    requires p <= |s|
    decreases |s| - p
    ensures r.Some? ==> IsIdShape(r.value)
  {
    if p == |s| then None
    else if StartsAtIgnoreCase(s, p, prefix) && IdEnd(s, p + |prefix|).Some? then
      IdEndShape(s, p + |prefix|);
      Some(s[p + |prefix|..IdEnd(s, p + |prefix|).value])
    else UrlId(prefix, s, p + 1)
  }

  /** At `q` the text holds `prefix` (in any case) followed by an id. */
  predicate UrlAt(prefix: string, s: string, q: nat) {
    q < |s| && StartsAtIgnoreCase(s, q, prefix) && IdEnd(s, q + |prefix|).Some?
  }

  /** The search finds nothing exactly when no position from `p` on holds the
      URL form; otherwise it captures the id after the leftmost such position. */
  lemma {:induction false} UrlIdLeftmost(prefix: string, s: string, p: nat)
    requires p <= |s|
    ensures UrlId(prefix, s, p).None? <==> forall q | p <= q < |s| :: !UrlAt(prefix, s, q)
    ensures UrlId(prefix, s, p).Some? ==> exists q | p <= q < |s| ::
      && UrlAt(prefix, s, q)
      && (forall j | p <= j < q :: !UrlAt(prefix, s, j))
      && UrlId(prefix, s, p).value == s[q + |prefix|..IdEnd(s, q + |prefix|).value]
    ensures UrlId(prefix, s, p).Some? ==> IsIdShape(UrlId(prefix, s, p).value)
    decreases |s| - p
  {
    if p < |s| && !UrlAt(prefix, s, p) {
      UrlIdLeftmost(prefix, s, p + 1);
      assert UrlId(prefix, s, p) == UrlId(prefix, s, p + 1);
      if UrlId(prefix, s, p).Some? {
        var q :| p + 1 <= q < |s| && UrlAt(prefix, s, q)
          && (forall j | p + 1 <= j < q :: !UrlAt(prefix, s, j))
          && UrlId(prefix, s, p).value == s[q + |prefix|..IdEnd(s, q + |prefix|).value];
        assert forall j | p <= j < q :: !UrlAt(prefix, s, j);
      }
    }
  }

  /** `extractArxivId(input)`: the `abs` URL form, else the `pdf` URL form,
      else the whole input when it is a bare id; `null` otherwise. */
  function ExtractArxivId(input: string): (id: Option<string>)
    ensures id.Some? ==> IsIdShape(id.value)
  {
    match UrlId(AbsPrefix, input, 0)
    case Some(id) => Some(id)
    case None =>
      match UrlId(PdfPrefix, input, 0)
      case Some(id) => Some(id)
      case None =>
        if IdEnd(input, 0) == Some(|input|) then
          IdEndShape(input, 0);
          assert input[0..|input|] == input;
          Some(input)
        else None
  }

  /** The order of the patterns: the `abs` URL form wins, then the `pdf`
      URL form, and without either the bare form is taken exactly when the
      whole input is an id. */
  lemma ExtractArxivIdShape(input: string)
    ensures ExtractArxivId(input).Some? ==> IsIdShape(ExtractArxivId(input).value)
    ensures UrlId(AbsPrefix, input, 0).Some? ==> ExtractArxivId(input) == UrlId(AbsPrefix, input, 0)
    ensures UrlId(AbsPrefix, input, 0).None? && UrlId(PdfPrefix, input, 0).Some? ==>
      ExtractArxivId(input) == UrlId(PdfPrefix, input, 0)
    ensures UrlId(AbsPrefix, input, 0).None? && UrlId(PdfPrefix, input, 0).None? ==>
      (ExtractArxivId(input).Some? <==> IsIdShape(input))
    ensures ExtractArxivId(input).Some? && UrlId(AbsPrefix, input, 0).None? && UrlId(PdfPrefix, input, 0).None? ==>
      ExtractArxivId(input) == Some(input)
  {
    if UrlId(AbsPrefix, input, 0).None? && UrlId(PdfPrefix, input, 0).None? {
      if IsIdShape(input) {
        BareIdMatches(input);
      }
      if IdEnd(input, 0) == Some(|input|) {
        IdEndShape(input, 0);
        assert input[0..|input|] == input;
      }
    }
  }

  /** A bare id is matched whole by `\d+\.\d+`. */
  lemma BareIdMatches(id: string)
    requires IsIdShape(id)
    ensures IdEnd(id, 0) == Some(|id|)
  {
    var k :| 0 < k < |id| - 1 && id[k] == '.' && forall j | 0 <= j < |id| && j != k :: IsDigit(id[j]);
    BareIdRun(id, k, 0);
    BareIdRun(id, |id|, k + 1);
  }

  /** Inside an id the digit run from `i` stops at the next non-digit. */
  lemma {:induction false} BareIdRun(id: string, stop: nat, i: nat)
    requires i <= stop <= |id|
    requires forall j | i <= j < stop :: IsDigit(id[j])
    requires stop == |id| || !IsDigit(id[stop])
    ensures DigitRunEnd(id, i) == stop
    decreases stop - i
  {
    if i < stop {
      BareIdRun(id, stop, i + 1);
    }
  }

  /** A bare id is returned unchanged: an id holds no letter, so neither URL
      form can match in it. */
  lemma BareIdReturned(id: string)
    requires IsIdShape(id)
    ensures ExtractArxivId(id) == Some(id)
  {
    NoUrlInId(AbsPrefix, id, 0);
    NoUrlInId(PdfPrefix, id, 0);
    BareIdMatches(id);
  }

  lemma {:induction false} NoUrlInId(prefix: string, id: string, p: nat)
    requires IsIdShape(id) && p <= |id| && prefix != [] && IsAsciiLetter(prefix[0])
    ensures UrlId(prefix, id, p) == None
    decreases |id| - p
  {
    if p < |id| {
      var k :| 0 < k < |id| - 1 && id[k] == '.' && forall j | 0 <= j < |id| && j != k :: IsDigit(id[j]);
      assert IsDigit(id[p]) || id[p] == '.';
      if p + |prefix| <= |id| {
        assert Lower(id[p..p + |prefix|])[0] == LowerChar(id[p]);
        assert Lower(prefix)[0] == LowerChar(prefix[0]);
        assert Lower(id[p..p + |prefix|]) != Lower(prefix);
      }
      NoUrlInId(prefix, id, p + 1);
    }
  }

  /** Two strings that differ at most in the case of ASCII letters. */
  predicate SameUpToCase(s: string, t: string) {
    |s| == |t| && forall k | 0 <= k < |s| :: LowerChar(s[k]) == LowerChar(t[k])
  }

  /** Every string differs from its lower-cased copy only in case. */
  lemma LowerSameUpToCase(s: string)
    ensures SameUpToCase(s, Lower(s))
  {
  }

  /** The result ignores case: inputs that differ only in the case of their
      letters give the same id, or both none. The URL forms match their
      prefix in any case, and an id holds no letter. */
  lemma ExtractArxivIdIgnoresCase(s: string, t: string)
    requires SameUpToCase(s, t)
    ensures ExtractArxivId(t) == ExtractArxivId(s)
  {
    UrlIdIgnoresCase(AbsPrefix, s, t, 0);
    UrlIdIgnoresCase(PdfPrefix, s, t, 0);
    IdEndIgnoresCase(s, t, 0);
    if IdEnd(s, 0) == Some(|s|) {
      CaptureIgnoresCase(s, t, 0);
      assert s[0..|s|] == s && t[0..|t|] == t;
    }
  }

  lemma {:induction false} UrlIdIgnoresCase(prefix: string, s: string, t: string, p: nat)
    requires SameUpToCase(s, t) && p <= |s|
    ensures UrlId(prefix, t, p) == UrlId(prefix, s, p)
    decreases |s| - p
  {
    if p < |s| {
      UrlIdIgnoresCase(prefix, s, t, p + 1);
      TestIgnoresCase(prefix, s, t, p);
      UrlIdUnfold(prefix, s, t, p);
    }
  }


  /** The URL test at `p` and what it would capture ignore case. */
  lemma TestIgnoresCase(prefix: string, s: string, t: string, p: nat)
    requires SameUpToCase(s, t) && p < |s|
    ensures p + |prefix| <= |s| ==>
      && StartsAtIgnoreCase(t, p, prefix) == StartsAtIgnoreCase(s, p, prefix)
      && IdEnd(t, p + |prefix|) == IdEnd(s, p + |prefix|)
      && (IdEnd(s, p + |prefix|).Some? ==>
            t[p + |prefix|..IdEnd(s, p + |prefix|).value] == s[p + |prefix|..IdEnd(s, p + |prefix|).value])
  {
    var q := p + |prefix|;
    if q <= |s| {
      PrefixIgnoresCase(prefix, s, t, p);
      IdEndIgnoresCase(s, t, q);
      if IdEnd(s, q).Some? {
        CaptureIgnoresCase(s, t, q);
      }
    }
  }

  /** The search from `p` is decided by the test at `p`, what it would
      capture, and the search from `p + 1`. */
  lemma UrlIdUnfold(prefix: string, s: string, t: string, p: nat)
    requires p < |s| == |t|
    requires UrlId(prefix, t, p + 1) == UrlId(prefix, s, p + 1)
    requires p + |prefix| <= |s| ==>
      && StartsAtIgnoreCase(t, p, prefix) == StartsAtIgnoreCase(s, p, prefix)
      && IdEnd(t, p + |prefix|) == IdEnd(s, p + |prefix|)
      && (IdEnd(s, p + |prefix|).Some? ==>
            t[p + |prefix|..IdEnd(s, p + |prefix|).value] == s[p + |prefix|..IdEnd(s, p + |prefix|).value])
    ensures UrlId(prefix, t, p) == UrlId(prefix, s, p)
  {
  }

  /** The case-blind comparison of characters that the two strings share. */
  lemma CharIgnoresCase(s: string, t: string, k: nat)
    requires SameUpToCase(s, t) && k < |s|
    ensures |t| == |s| && LowerChar(t[k]) == LowerChar(s[k])
    ensures IsDigit(t[k]) <==> IsDigit(s[k])
    ensures IsDigit(s[k]) || s[k] == '.' ==> t[k] == s[k]
  {
  }

  lemma PrefixIgnoresCase(prefix: string, s: string, t: string, p: nat)
    requires SameUpToCase(s, t) && p + |prefix| <= |s|
    ensures StartsAtIgnoreCase(t, p, prefix) == StartsAtIgnoreCase(s, p, prefix)
  {
    var q := p + |prefix|;
    forall k | 0 <= k < |prefix| ensures Lower(t[p..q])[k] == Lower(s[p..q])[k] {
      CharIgnoresCase(s, t, p + k);
    }
    assert Lower(t[p..q]) == Lower(s[p..q]);
  }

  /** Inside a matched id every character is a digit or the dot, which has no
      other case. */
  lemma CaptureIgnoresCase(s: string, t: string, i: nat)
    requires SameUpToCase(s, t) && i <= |s| && IdEnd(s, i).Some?
    ensures t[i..IdEnd(s, i).value] == s[i..IdEnd(s, i).value]
  {
    var e := IdEnd(s, i).value;
    forall j | i <= j < e ensures t[j] == s[j] {
      DigitsInId(s, i, j);
      CharIgnoresCase(s, t, j);
    }
  }

  /** Every character of a matched id is a digit or the dot. */
  lemma DigitsInId(s: string, i: nat, j: nat)
    requires i <= |s| && IdEnd(s, i).Some? && i <= j < IdEnd(s, i).value
    ensures IsDigit(s[j]) || s[j] == '.'
  {
    var d := DigitRunEnd(s, i);
    if j > d {
      assert j < DigitRunEnd(s, d + 1);
    }
  }

  lemma {:induction false} DigitRunIgnoresCase(s: string, t: string, i: nat)
    requires SameUpToCase(s, t) && i <= |s|
    ensures |t| == |s| && DigitRunEnd(t, i) == DigitRunEnd(s, i)
    decreases |s| - i
  {
    assert |Lower(t)| == |Lower(s)|;
    if i < |s| {
      CharIgnoresCase(s, t, i);
      DigitRunIgnoresCase(s, t, i + 1);
    }
  }

  lemma IdEndIgnoresCase(s: string, t: string, i: nat)
    requires SameUpToCase(s, t) && i <= |s|
    ensures |t| == |s| && IdEnd(t, i) == IdEnd(s, i)
  {
    DigitRunIgnoresCase(s, t, i);
    var d := DigitRunEnd(s, i);
    if d < |s| {
      CharIgnoresCase(s, t, d);
      DigitRunIgnoresCase(s, t, d + 1);
    }
  }

  // ----- renderFigure -----

  /** The MIME type chosen for a figure's format: PDF, JPEG for both JPEG
      extensions, and PNG for `png` and for every format not named. */
  function MimeType(format: string): (mime: string)
    ensures mime in {"application/pdf", "image/png", "image/jpeg"}
    ensures mime == "application/pdf" <==> format == "pdf"
    ensures mime == "image/jpeg" <==> format == "jpg" || format == "jpeg"
    ensures mime == "image/png" <==> format !in {"pdf", "jpg", "jpeg"}
  {
    if format == "pdf" then "application/pdf"
    else if format == "png" then "image/png"
    else if format == "jpg" || format == "jpeg" then "image/jpeg"
    else "image/png"
  }

  /** The media element of the figure: an `<object>` embedding a PDF, with a
      fallback text, or an `<img>` with its alternative text. */
  datatype Media =
    | EmbeddedObject(source: string, mimeType: string, fallbackText: string)
    | Picture(source: string, alt: string)

  /** The markup of a figure: the media element, then the caption block when
      there is one. */
  datatype FigureMarkup = FigureMarkup(media: Media, captionBlock: Option<string>)

  function DataUri(mimeType: string, data: string): string {
    "data:" + mimeType + ";base64," + data
  }

  /** A non-empty caption (JavaScript truthiness). */
  predicate HasCaption(f: Disclosed) {
    f.caption.Some? && f.caption.value != ""
  }

  /** `renderFigure(figureData)`: a PDF is embedded as an object and
      anything else is shown as an image; the data is carried as a base64
      data URI of the chosen MIME type; an embedded PDF falls back to the
      text "PDF figure: " and its label; an image's alternative text is its
      caption, or its label without one; the caption block appears exactly
      when the caption is non-empty. */
  function RenderFigure(f: Disclosed): (m: FigureMarkup)
    ensures m.media.EmbeddedObject? <==> f.format == "pdf"
    ensures m.media.source == "data:" + MimeType(f.format) + ";base64," + f.data
    ensures m.media.EmbeddedObject? ==> m.media.mimeType == "application/pdf"
    ensures m.media.EmbeddedObject? ==> m.media.fallbackText == "PDF figure: " + f.labelText
    ensures m.media.Picture? ==> m.media.alt == (if HasCaption(f) then f.caption.value else f.labelText)
    ensures m.captionBlock.Some? <==> HasCaption(f)
    ensures m.captionBlock.Some? ==> m.captionBlock.value == f.caption.value
  {
    var mime := MimeType(f.format);
    var media :=
      if f.format == "pdf" then EmbeddedObject(DataUri(mime, f.data), mime, "PDF figure: " + f.labelText)
      else Picture(DataUri(mime, f.data), if HasCaption(f) then f.caption.value else f.labelText);
    FigureMarkup(media, if HasCaption(f) then Some(f.caption.value) else None)
  }
}
