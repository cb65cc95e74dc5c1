/**
 The three pieces of logic in the frontend's `App` component: the colour class
 of a verdict, whether a result's corrections panel is shown, and the guard
 that ignores blank submissions and disables the button.
 */
module App {
  import opened Strings
  import opened FactCheckParser

  /** The four CSS classes a verdict can get. */
  datatype VerdictColor = Green | Red | Yellow | Gray {
    function ClassName(): string {
      match this
      case Green => "green-verdict"
      case Red => "red-verdict"
      case Yellow => "yellow-verdict"
      case Gray => "gray-verdict"
    }
  }

  /** The green test, applied to the lower-cased verdict. */
  predicate GreenToken(lower: string) {
    Contains(lower, "true") || Contains(lower, "correct") || Contains(lower, "accurate")
  }

  /** The red test, applied to the lower-cased verdict. */
  predicate RedToken(lower: string) {
    Contains(lower, "false") || Contains(lower, "incorrect") || Contains(lower, "inaccurate")
  }

  /** `getVerdictColor`: the first of the green, red and yellow tests that the
      lower-cased verdict passes decides, and gray is the rest. Because
      "incorrect" and "inaccurate" contain green tokens, red comes down to
      "false" without any green token. */
  function GetVerdictColor(verdict: string): (c: VerdictColor)
    ensures c == Green <==> GreenToken(ToLower(verdict))
    ensures c == Red <==> !GreenToken(ToLower(verdict)) && Contains(ToLower(verdict), "false")
    ensures c == Yellow <==>
              && !GreenToken(ToLower(verdict)) && !Contains(ToLower(verdict), "false")
              && Contains(ToLower(verdict), "partially")
    ensures c == Gray <==>
              && !GreenToken(ToLower(verdict)) && !Contains(ToLower(verdict), "false")
              && !Contains(ToLower(verdict), "partially")
  {
    var lower := ToLower(verdict);
    NegatedTokensAreGreen(lower);
    if GreenToken(lower) then Green
    else if RedToken(lower) then Red
    else if Contains(lower, "partially") then Yellow
    else Gray
  }

  /** "incorrect" and "inaccurate" contain the green tokens "correct" and "accurate". */
  lemma NegatedTokensAreGreen(lower: string)
    ensures Contains(lower, "incorrect") || Contains(lower, "inaccurate") ==> GreenToken(lower)
  {
    NegationsContainRoots(lower);
  }

  /** The colour depends on the verdict only up to letter case. */
  lemma VerdictColorIgnoresCase(verdict: string)
    ensures GetVerdictColor(ToLower(verdict)) == GetVerdictColor(verdict)
  {
    ToLowerIdempotent(verdict);
  }

  /** Distinct colours get distinct class names. */
  lemma ClassNamesDistinct(a: VerdictColor, b: VerdictColor)
    ensures a.ClassName() == b.ClassName() <==> a == b
  {
    if a != b {
      assert a.ClassName()[2] != b.ClassName()[2];
    }
  }

  /** A green token beats "false" and "partially": any verdict with "True"
      in it is green, "Partially True" (`pre` = "Partially ") among them. */
  lemma TrueVerdictIsGreen(pre: string, post: string)
    ensures GetVerdictColor(pre + "True" + post) == Green
  {
    var v := pre + "True" + post;
    var lower := ToLower(v);
    var i := |pre|;
    forall k | 0 <= k < 4 ensures lower[i + k] == "true"[k] {
      assert v[i + k] == "True"[k];
    }
    assert lower[i..i + 4] == "true";
    assert StartsAt(lower, "true", i);
  }

  // ---------------------------------------------------------------------------
  // The corrections panel

  /** The condition that renders the corrections panel: the string is truthy
      (non-empty) and not the heuristic's "nothing to correct" text. */
  predicate ShowCorrections(corrections: string) {
    corrections != [] && corrections != NoCorrectionsNeeded
  }

  /** A "Likely True" answer of the keyword heuristic never shows corrections. */
  lemma LikelyTrueHidesCorrections(text: string, jsonParse: string -> JsonDoc)
    requires !JsonAccepted(jsonParse(text)) && !HasAllMarkers(text)
    requires Affirming(ToLower(text))
    ensures ParseFactCheckResponse(text, jsonParse).verdict == LikelyTrue
    ensures !ShowCorrections(ParseFactCheckResponse(text, jsonParse).corrections)
  {
  }

  /** An "Undetermined" answer of the keyword heuristic always shows its
      fixed corrections text. */
  lemma UndeterminedShowsCorrections(text: string, jsonParse: string -> JsonDoc)
    requires !JsonAccepted(jsonParse(text)) && !HasAllMarkers(text)
    requires !Affirming(ToLower(text)) && !Negating(ToLower(text))
    ensures ShowCorrections(ParseFactCheckResponse(text, jsonParse).corrections)
  {
    var r := ParseFactCheckResponse(text, jsonParse);
    assert r.corrections == UnableToDetermine;
    assert r.corrections[0] != NoCorrectionsNeeded[0];
  }

  /** A "Likely False" answer of the keyword heuristic from a single paragraph
      has empty corrections, so the panel stays hidden. */
  lemma SingleParagraphFalseHidesCorrections(text: string, jsonParse: string -> JsonDoc)
    requires !JsonAccepted(jsonParse(text)) && !HasAllMarkers(text)
    requires !Affirming(ToLower(text)) && Negating(ToLower(text))
    requires !Contains(text, ParagraphBreak)
    ensures ParseFactCheckResponse(text, jsonParse).verdict == LikelyFalse
    ensures !ShowCorrections(ParseFactCheckResponse(text, jsonParse).corrections)
  {
    IndexOfFirst(text, ParagraphBreak);
    LikelyFalseParagraphs(text);
  }

  // ---------------------------------------------------------------------------
  // The blank-input guard

  /** `input.trim() === ''`. */
  function IsBlank(input: string): (b: bool)
    ensures b <==> AllWhitespace(input)
  {
    TrimKeepsMiddle(input);
    Trim(input) == []
  }

  /** `handleFactCheck`'s entry: a blank input is ignored; otherwise the
      submission carries the input exactly as typed, untrimmed. */
  function AcceptSubmission(input: string): (r: Option<string>)
    ensures r.None? <==> AllWhitespace(input)
    ensures r.Some? ==> r.value == input
  {
    if IsBlank(input) then None else Some(input)
  }

  /** The button's `disabled` attribute. */
  function SubmitDisabled(isLoading: bool, input: string): (b: bool)
    ensures b <==> isLoading || AllWhitespace(input)
  {
    isLoading || IsBlank(input)
  }

  /** While no check is running, the button is disabled exactly for the
      inputs the handler would ignore. */
  lemma ButtonMatchesHandler(input: string)
    ensures SubmitDisabled(false, input) <==> AcceptSubmission(input).None?
  {
  }
}
