/**
 The backend's `parseFactCheckResponse`: an ordered cascade that turns the
 language model's free-text answer into a verdict record. It tries, in order,
 the whole text as JSON, the labelled-section form `VERDICT:` /
 `EXPLANATION:` / `CORRECTIONS:`, and a keyword heuristic; the first stage
 that applies decides the result.

 `JSON.parse` is not modelled as a grammar: the parser receives it as an
 oracle `jsonParse` that reports only what the code looks at afterwards.
 Exceptions are values of `Completion`, so that the two `try`/`catch` blocks
 of the source can be followed exactly.
 */
module FactCheckParser {
  import opened Strings
  import opened Sanitizer

  /** The structured answer; all three fields are always present. */
  datatype FactCheckResult = FactCheckResult(verdict: string, explanation: string, corrections: string)

  /** How a JavaScript expression finished: with a value, or by throwing. */
  datatype Completion<T> = Normal(value: T) | Thrown

  /** A property of a parsed JSON value, as JavaScript sees it after `JSON.parse`. */
  datatype JsonField =
    | Undefined               // the property is absent (or the value is not an object)
    | JsonString(value: string)
    | JsonNumber(number: real)
    | JsonBool(truth: bool)
    | JsonNull
    | JsonComposite           // an object or an array

  /** What `JSON.parse(text)` yields, reduced to the three properties read afterwards. */
  datatype JsonDoc =
    | Unparsable              // `JSON.parse` throws a SyntaxError
    | NullDocument            // the text is `null`: reading a property of it throws a TypeError
    | Document(verdict: JsonField, explanation: JsonField, corrections: JsonField)

  const VerdictMarker := "VERDICT:"
  const ExplanationMarker := "EXPLANATION:"
  const CorrectionsMarker := "CORRECTIONS:"
  const ParagraphBreak := "\n\n"

  const Undetermined := "Undetermined"
  const NoCorrectionsProvided := "No corrections provided."
  const LikelyTrue := "Likely True"
  const LikelyFalse := "Likely False"
  const NoCorrectionsNeeded := "No corrections needed."
  const UnableToDetermine := "Unable to determine specific corrections."
  const ErrorVerdict := "Error"
  const ErrorCorrections := "Error parsing the fact-check response."

  // ---------------------------------------------------------------------------
  // Stage 1: JSON

  /** JavaScript truthiness of a property value. */
  predicate Truthy(v: JsonField) {
    match v
    case Undefined => false
    case JsonString(s) => s != []
    case JsonNumber(n) => n != 0.0
    case JsonBool(b) => b
    case JsonNull => false
    case JsonComposite => true
  }

  /** `cleanText(v)` on an arbitrary value: `v.replace` exists only on strings,
      so any other value throws a TypeError. */
  function CleanValue(v: JsonField): Completion<string> {
    match v
    case JsonString(s) => Normal(CleanText(s))
    case _ => Thrown
  }

  /** The body of the inner `try`: parse, test the three properties for
      truthiness, and build the cleaned record. */
  function JsonBlock(doc: JsonDoc): Completion<Option<FactCheckResult>> {
    match doc
    case Unparsable => Thrown
    case NullDocument => Thrown
    case Document(v, e, c) =>
      if !(Truthy(v) && Truthy(e) && Truthy(c)) then Normal(None)
      else
        match (CleanValue(v), CleanValue(e), CleanValue(c))
        case (Normal(cv), Normal(ce), Normal(cc)) => Normal(Some(FactCheckResult(cv, ce, cc)))
        case _ => Thrown
  }

  predicate IsNonEmptyString(v: JsonField) {
    v.JsonString? && v.value != []
  }

  /** The JSON stage answers exactly for documents whose three properties are non-empty strings. */
  predicate JsonAccepted(doc: JsonDoc) {
    doc.Document? && IsNonEmptyString(doc.verdict)
    && IsNonEmptyString(doc.explanation) && IsNonEmptyString(doc.corrections)
  }

  /** `t` begins, after leading whitespace, with the `{` of an object. */
  predicate OpensObject(t: string) {
    TrimStart(t) != [] && TrimStart(t)[0] == '{'
  }

  /** What the oracle shares with the real `JSON.parse`: only an object can
      carry the three string properties, and JSON's own whitespace (space, tab,
      line feed, carriage return) is JavaScript whitespace too, so every text
      the JSON stage accepts opens an object. */
  ghost predicate ParsesObjectsOnly(jsonParse: string -> JsonDoc) {
    forall t :: JsonAccepted(jsonParse(t)) ==> OpensObject(t)
  }

  /** A text that starts with `VERDICT:` does not open an object, so the JSON
      stage lets it through to the labelled stage. */
  lemma MarkedTextIsNotJson(text: string, jsonParse: string -> JsonDoc)
    requires ParsesObjectsOnly(jsonParse)
    requires StartsAt(text, VerdictMarker, 0)
    ensures !JsonAccepted(jsonParse(text))
  {
    assert text[0] == 'V' by {
      assert text[..|VerdictMarker|][0] == text[0];
    }
    var r := TrimStart(text);
    if |r| < |text| {
      assert false;
    }
    assert r[0] == 'V';
  }

  /** The inner `try`/`catch`: any exception means "fall through". The stage
      returns exactly when all three properties are non-empty strings, and
      then returns each of them cleaned. */
  function JsonStage(doc: JsonDoc): (r: Option<FactCheckResult>)
    ensures r.Some? <==> JsonAccepted(doc)
    ensures r.Some? ==> r.value == FactCheckResult(CleanText(doc.verdict.value),
                                                   CleanText(doc.explanation.value),
                                                   CleanText(doc.corrections.value))
  {
    match JsonBlock(doc)
    case Normal(o) => o
    case Thrown => None
  }

  /** The inner `catch` is reached exactly for unparsable text, a `null`
      document, and a document whose three properties are truthy but not all
      strings (`cleanText` then calls `replace` on a non-string). */
  lemma InnerCatchCases(doc: JsonDoc)
    ensures JsonBlock(doc).Thrown? <==>
            || doc.Unparsable? || doc.NullDocument?
            || (doc.Document? && Truthy(doc.verdict) && Truthy(doc.explanation) && Truthy(doc.corrections)
                && !(doc.verdict.JsonString? && doc.explanation.JsonString? && doc.corrections.JsonString?))
  {
  }

  // ---------------------------------------------------------------------------
  // Stage 2: labelled sections

  predicate HasAllMarkers(text: string) {
    Contains(text, VerdictMarker) && Contains(text, ExplanationMarker) && Contains(text, CorrectionsMarker)
  }

  /** `p` and `q` bound the first match of `open(.*?)(?=close|$)` under the
      `s` flag: `p` is the first occurrence of `open`, and the lazy group stops
      at the first position `q` after it where `close` occurs or the text ends. */
  predicate IsLazyCapture(text: string, open: string, close: string, p: nat, q: nat) {
    && IsFirstOccurrence(text, open, p)
    && p + |open| <= q <= |text|
    && (q == |text| || StartsAt(text, close, q))
    && forall k: nat :: p + |open| <= k < q ==> !StartsAt(text, close, k)
  }

  /** `text.match(/open(.*?)(?=close|$)/s)`, reduced to group 1. */
  function CaptureBefore(text: string, open: string, close: string): (r: Option<string>)
    ensures r.None? <==> !Contains(text, open)
    ensures forall p: nat, q: nat :: IsLazyCapture(text, open, close, p, q) ==> r == Some(text[p + |open|..q])
    ensures r.Some? ==> exists p: nat, q: nat :: IsLazyCapture(text, open, close, p, q)
  {
    match IndexOf(text, open)
    case None => None
    case Some(p) =>
      var q := match IndexFrom(text, close, p + |open|) case Some(q) => q case None => |text|;
      assert IsLazyCapture(text, open, close, p, q);
      Some(text[p + |open|..q])
  }

  /** `text.match(/open(.*?)(?=$)/s)`, reduced to group 1: everything after
      the first occurrence of `open`. */
  function CaptureRest(text: string, open: string): (r: Option<string>)
    ensures r.None? <==> !Contains(text, open)
    ensures forall p: nat :: IsFirstOccurrence(text, open, p) ==> r == Some(text[p + |open|..])
  {
    match IndexOf(text, open)
    case None => None
    case Some(p) => Some(text[p + |open|..])
  }

  /** The labelled-section stage, defaults included. */
  function LabelledStage(text: string): FactCheckResult {
    var verdict := CaptureBefore(text, VerdictMarker, ExplanationMarker);
    var explanation := CaptureBefore(text, ExplanationMarker, CorrectionsMarker);
    var corrections := CaptureRest(text, CorrectionsMarker);
    FactCheckResult(
      if verdict.Some? then CleanText(Trim(verdict.value)) else Undetermined,
      if explanation.Some? then CleanText(Trim(explanation.value)) else CleanText(text),
      if corrections.Some? then CleanText(Trim(corrections.value)) else NoCorrectionsProvided)
  }

  /** Once the three markers are present every expression matches, so no
      default is used: each field is the trimmed, cleaned text between its
      first marker and the next marker after it (or the end). */
  lemma LabelledCaptures(text: string)
    requires HasAllMarkers(text)
    ensures CaptureBefore(text, VerdictMarker, ExplanationMarker).Some?
    ensures CaptureBefore(text, ExplanationMarker, CorrectionsMarker).Some?
    ensures CaptureRest(text, CorrectionsMarker).Some?
    ensures forall p: nat, q: nat :: IsLazyCapture(text, VerdictMarker, ExplanationMarker, p, q) ==>
              LabelledStage(text).verdict == CleanText(Trim(text[p + |VerdictMarker|..q]))
    ensures forall p: nat, q: nat :: IsLazyCapture(text, ExplanationMarker, CorrectionsMarker, p, q) ==>
              LabelledStage(text).explanation == CleanText(Trim(text[p + |ExplanationMarker|..q]))
    ensures forall p: nat :: IsFirstOccurrence(text, CorrectionsMarker, p) ==>
              LabelledStage(text).corrections == CleanText(Trim(text[p + |CorrectionsMarker|..]))
  {
  }

  // ---------------------------------------------------------------------------
  // Stage 3: keyword heuristic

  /** The affirming test, applied to the lower-cased text. */
  predicate Affirming(lower: string) {
    Contains(lower, "true") || Contains(lower, "accurate") || Contains(lower, "correct") || Contains(lower, "factual")
  }

  /** The negating test, applied to the lower-cased text. */
  predicate Negating(lower: string) {
    Contains(lower, "false") || Contains(lower, "inaccurate") || Contains(lower, "incorrect") || Contains(lower, "misleading")
  }

  /** "incorrect" and "inaccurate" contain "correct" and "accurate": any text
      with a negating token of that kind is already affirming. */
  lemma NegatedAffirmationsAffirm(lower: string)
    ensures Contains(lower, "incorrect") || Contains(lower, "inaccurate") ==> Affirming(lower)
  {
    NegationsContainRoots(lower);
  }

  /** The heuristic stage. Affirming tokens win over negating ones, so
      "Likely False" needs "false" or "misleading" and no affirming token. */
  function HeuristicStage(text: string): (r: FactCheckResult)
    ensures r.verdict == LikelyTrue <==> Affirming(ToLower(text))
    ensures r.verdict == LikelyFalse <==>
              !Affirming(ToLower(text)) && (Contains(ToLower(text), "false") || Contains(ToLower(text), "misleading"))
    ensures r.verdict == Undetermined <==> !Affirming(ToLower(text)) && !Negating(ToLower(text))
    ensures r.verdict == LikelyTrue ==> r.corrections == NoCorrectionsNeeded
    ensures r.verdict == Undetermined ==> r.explanation == CleanText(text) && r.corrections == UnableToDetermine
  {
    var lower := ToLower(text);
    NegatedAffirmationsAffirm(lower);
    if Affirming(lower) then
      var paragraphs := Split(text, ParagraphBreak);
      var last := paragraphs[|paragraphs| - 1];
      SplitLastFits(text, ParagraphBreak);
      FactCheckResult(LikelyTrue, CleanText(Trim(text[..|text| - |last|])), NoCorrectionsNeeded)
    else if Negating(lower) then
      var first := Split(text, ParagraphBreak)[0];
      FactCheckResult(LikelyFalse, CleanText(first), CleanText(Trim(text[|first|..])))
    else
      FactCheckResult(Undetermined, CleanText(text), UnableToDetermine)
  }

  /** "Likely True" explains with everything before the last paragraph of the
      split on blank lines (separator included, then trimmed): nothing at all
      when the text has no blank line. */
  lemma LikelyTrueExplanation(text: string)
    requires Affirming(ToLower(text))
    ensures !Contains(text, ParagraphBreak) ==> HeuristicStage(text).explanation == []
    ensures Contains(text, ParagraphBreak) ==>
              var ps := Split(text, ParagraphBreak);
              HeuristicStage(text).explanation
                == CleanText(Trim(Join(ps[..|ps| - 1], ParagraphBreak) + ParagraphBreak))
  {
    var ps := Split(text, ParagraphBreak);
    SplitFirstPiece(text, ParagraphBreak);
    if Contains(text, ParagraphBreak) {
      SplitLastPiece(text, ParagraphBreak);
      var init := Join(ps[..|ps| - 1], ParagraphBreak) + ParagraphBreak;
      SuffixOfConcat(init, ps[|ps| - 1]);
    } else {
      assert text[..|text| - |text|] == [];
    }
  }

  /** "Likely False" explains with the text before the first blank line and
      corrects with the trimmed rest from that blank line on; without a blank
      line the whole text explains and the corrections are empty. */
  lemma LikelyFalseParagraphs(text: string)
    requires !Affirming(ToLower(text)) && Negating(ToLower(text))
    ensures match IndexOf(text, ParagraphBreak)
            case None =>
              HeuristicStage(text).explanation == CleanText(text) && HeuristicStage(text).corrections == []
            case Some(i) =>
              HeuristicStage(text).explanation == CleanText(text[..i])
              && HeuristicStage(text).corrections == CleanText(Trim(text[i..]))
  {
    SplitFirstPiece(text, ParagraphBreak);
    assert text[|text|..] == [];
  }

  // ---------------------------------------------------------------------------
  // The cascade

  /** The body of the outer `try`: the three stages in order. */
  function Cascade(text: string, jsonParse: string -> JsonDoc): Completion<FactCheckResult> {
    match JsonStage(jsonParse(text))
    case Some(r) => Normal(r)
    case None =>
      if HasAllMarkers(text) then Normal(LabelledStage(text)) else Normal(HeuristicStage(text))
  }

  /** What the outer `catch` returns. */
  function ErrorResult(text: string): FactCheckResult {
    FactCheckResult(ErrorVerdict, CleanText(text), ErrorCorrections)
  }

  /** `parseFactCheckResponse(text)`, with `JSON.parse` supplied as `jsonParse`:
      the first stage that applies decides the result. */
  function ParseFactCheckResponse(text: string, jsonParse: string -> JsonDoc): (r: FactCheckResult)
    ensures JsonAccepted(jsonParse(text)) ==>
              var doc := jsonParse(text);
              r == FactCheckResult(CleanText(doc.verdict.value), CleanText(doc.explanation.value),
                                   CleanText(doc.corrections.value))
    ensures !JsonAccepted(jsonParse(text)) && HasAllMarkers(text) ==> r == LabelledStage(text)
    ensures !JsonAccepted(jsonParse(text)) && !HasAllMarkers(text) ==> r == HeuristicStage(text)
  {
    match Cascade(text, jsonParse)
    case Normal(r) => r
    case Thrown => ErrorResult(text)
  }

  /** The outer `catch` is dead. Every exception of the JSON stage is
      swallowed by the inner `catch`. The labelled stage calls `trim` only on
      group 1 of a match, and that group takes part in every match, so it is
      always a string (`CaptureBefore` and `CaptureRest` return a string
      whenever they match). The heuristic stage calls `trim` on what `pop`
      returns, and `split` never returns an empty array (`Split` ensures at
      least one piece), so that is a string too. An "Error" verdict can
      therefore only be text copied from the JSON document or from the
      labelled sections, never the outer handler's record. */
  lemma OuterCatchUnreachable(text: string, jsonParse: string -> JsonDoc)
    ensures Cascade(text, jsonParse).Normal?
    ensures ParseFactCheckResponse(text, jsonParse).verdict == ErrorVerdict ==>
              JsonAccepted(jsonParse(text)) || HasAllMarkers(text)
  {
  }

  /** A JSON answer whose three properties are non-empty strings without
      citations or surrounding whitespace is taken over unchanged. */
  lemma JsonTakenAsIs(text: string, jsonParse: string -> JsonDoc, v: string, e: string, c: string)
    requires jsonParse(text) == Document(JsonString(v), JsonString(e), JsonString(c))
    requires v != [] && e != [] && c != []
    requires forall k :: 0 <= k < |v| ==> v[k] != '['
    requires forall k :: 0 <= k < |e| ==> e[k] != '['
    requires forall k :: 0 <= k < |c| ==> c[k] != '['
    requires IsTrimmed(v) && IsTrimmed(e) && IsTrimmed(c)
    ensures ParseFactCheckResponse(text, jsonParse) == FactCheckResult(v, e, c)
  {
    assert JsonAccepted(jsonParse(text));
    var r := ParseFactCheckResponse(text, jsonParse);
    assert r == FactCheckResult(CleanText(v), CleanText(e), CleanText(c));
    CleanPlainText(v);
    CleanPlainText(e);
    CleanPlainText(c);
  }

  predicate NoColon(s: string) {
    forall k :: 0 <= k < |s| ==> s[k] != ':'
  }

  /** Each marker ends with its only colon, so an occurrence of it ends on a colon of the text. */
  lemma MarkerEndsOnColon(text: string, marker: string, j: nat)
    requires marker == VerdictMarker || marker == ExplanationMarker || marker == CorrectionsMarker
    requires StartsAt(text, marker, j)
    ensures text[j + |marker| - 1] == ':'
    ensures forall k :: j <= k < j + |marker| - 1 ==> text[k] != ':'
  {
    assert text[j..j + |marker|] == marker;
    forall k | j <= k < j + |marker| - 1 ensures text[k] != ':' {
      assert text[k] == marker[k - j];
    }
  }

  /** In `VERDICT:v EXPLANATION:e CORRECTIONS:c` (no spaces) with colon-free
      sections, the only colons are the ones closing the markers. */
  lemma ColonsOfLabelledText(v: string, e: string, c: string)
    requires NoColon(v) && NoColon(e) && NoColon(c)
    ensures var text := VerdictMarker + v + ExplanationMarker + e + CorrectionsMarker + c;
            var pE := |VerdictMarker| + |v|;
            var pC := pE + |ExplanationMarker| + |e|;
            forall i :: 0 <= i < |text| && text[i] == ':' ==> i == 7 || i == pE + 11 || i == pC + 11
  {
  }

  /** A labelled answer whose sections hold no colon splits into exactly
      those sections, each trimmed and cleaned. */
  lemma LabelledSections(v: string, e: string, c: string)
    requires NoColon(v) && NoColon(e) && NoColon(c)
    ensures var text := VerdictMarker + v + ExplanationMarker + e + CorrectionsMarker + c;
            HasAllMarkers(text)
            && LabelledStage(text) == FactCheckResult(CleanText(Trim(v)), CleanText(Trim(e)), CleanText(Trim(c)))
  {
    var text := VerdictMarker + v + ExplanationMarker + e + CorrectionsMarker + c;
    var pE := |VerdictMarker| + |v|;
    var pC := pE + |ExplanationMarker| + |e|;
    ColonsOfLabelledText(v, e, c);
    assert text[0..8] == VerdictMarker;
    assert text[pE..pE + 12] == ExplanationMarker;
    assert text[pC..pC + 12] == CorrectionsMarker;
    assert StartsAt(text, VerdictMarker, 0);
    assert StartsAt(text, ExplanationMarker, pE);
    assert StartsAt(text, CorrectionsMarker, pC);
    assert text[8..pE] == v;
    assert text[pE + 12..pC] == e;
    assert text[pC + 12..] == c;
    forall j: nat | j < pE ensures !StartsAt(text, ExplanationMarker, j) {
      if StartsAt(text, ExplanationMarker, j) {
        MarkerEndsOnColon(text, ExplanationMarker, j);
      }
    }
    forall j: nat | j < pC ensures !StartsAt(text, CorrectionsMarker, j) {
      if StartsAt(text, CorrectionsMarker, j) {
        MarkerEndsOnColon(text, CorrectionsMarker, j);
      }
    }
    assert IsLazyCapture(text, VerdictMarker, ExplanationMarker, 0, pE);
    assert IsLazyCapture(text, ExplanationMarker, CorrectionsMarker, pE, pC);
    assert IsFirstOccurrence(text, CorrectionsMarker, pC);
  }

  /** Whitespace padding adds no colon. */
  lemma NoColonPadded(pre: string, x: string, post: string)
    requires AllWhitespace(pre) && AllWhitespace(post) && NoColon(x)
    ensures NoColon(pre + x + post)
  {
    var t := pre + x + post;
    forall k | 0 <= k < |t| ensures t[k] != ':' {
      if k < |pre| {
        assert t[k] == pre[k];
      } else if k < |pre| + |x| {
        assert t[k] == x[k - |pre|];
      } else {
        assert t[k] == post[k - |pre| - |x|];
      }
    }
  }

  /** A section that is plain text padded with whitespace comes out as the plain text. */
  lemma PaddedSectionCleans(pre: string, x: string, post: string)
    requires AllWhitespace(pre) && AllWhitespace(post) && IsTrimmed(x)
    requires forall k :: 0 <= k < |x| ==> x[k] != '['
    ensures CleanText(Trim(pre + x + post)) == x
  {
    TrimPadded(pre, x, post);
    CleanPlainText(x);
  }

  /** A labelled answer in the usual layout, such as
      "VERDICT: False\n\nEXPLANATION: reasons\n\nCORRECTIONS: fix it"
      (`pre` a space, `post` a blank line), gives back its three sections
      when they are plain text: no colon, no `[`, no surrounding whitespace. */
  lemma LabelledAnswerTakenAsIs(text: string, jsonParse: string -> JsonDoc,
                                v: string, e: string, c: string, pre: string, post: string)
    requires AllWhitespace(pre) && AllWhitespace(post)
    requires NoColon(v) && NoColon(e) && NoColon(c)
    requires forall k :: 0 <= k < |v| ==> v[k] != '['
    requires forall k :: 0 <= k < |e| ==> e[k] != '['
    requires forall k :: 0 <= k < |c| ==> c[k] != '['
    requires IsTrimmed(v) && IsTrimmed(e) && IsTrimmed(c)
    requires text == VerdictMarker + (pre + v + post) + ExplanationMarker + (pre + e + post)
                     + CorrectionsMarker + (pre + c + [])
    requires ParsesObjectsOnly(jsonParse)
    ensures ParseFactCheckResponse(text, jsonParse) == FactCheckResult(v, e, c)
  {
    var sv, se, sc := pre + v + post, pre + e + post, pre + c + [];
    assert StartsAt(text, VerdictMarker, 0);
    MarkedTextIsNotJson(text, jsonParse);
    assert AllWhitespace([]);
    assert HasAllMarkers(text)
           && LabelledStage(text) == FactCheckResult(CleanText(Trim(sv)), CleanText(Trim(se)), CleanText(Trim(sc))) by {
      NoColonPadded(pre, v, post);
      NoColonPadded(pre, e, post);
      NoColonPadded(pre, c, []);
      LabelledSections(sv, se, sc);
    }
    PaddedSectionCleans(pre, v, post);
    PaddedSectionCleans(pre, e, post);
    PaddedSectionCleans(pre, c, []);
  }

  /** An empty verdict section yields an empty verdict, not "Undetermined":
      the default is taken only when the expression does not match at all,
      and with the three markers present it always matches. */
  lemma EmptyVerdictSectionStaysEmpty(e: string, c: string)
    requires NoColon(e) && NoColon(c)
    ensures var text := VerdictMarker + ExplanationMarker + e + CorrectionsMarker + c;
            HasAllMarkers(text) && LabelledStage(text).verdict == []
  {
    LabelledSections([], e, c);
    assert VerdictMarker + [] == VerdictMarker;
    assert Trim([]) == [];
    assert RemoveCitationRuns([]) == [];
  }
}
