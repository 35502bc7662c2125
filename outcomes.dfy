/** The four outcome categories of a trial and `normalize_result` of
    gpufi-instinject/analysis_fault.py. */
module Outcomes {
  import opened Strings

  datatype Outcome = Masked | SDC | DUE | Others

  /** The result text mentions `word`, ignoring case. */
  predicate Mentions(s: string, word: string)
  {
    Contains(Lower(s), word)
  }

  /** `normalize_result(s)`: lower-case the stripped text and test it for
      "sdc", then "due", then "masked"; none of them gives Others. */
  function NormalizeResult(s: string): (o: Outcome)
  {
    var x := Lower(Strip(s));
    if Contains(x, "sdc") then SDC
    else if Contains(x, "due") then DUE
    else if Contains(x, "masked") then Masked
    else Others
  }

  /** The first of "sdc", "due", "masked" that the text mentions,
      case-insensitively and wherever it stands, decides the category. */
  lemma NormalizeResultCategories(s: string)
    ensures NormalizeResult(s) == SDC <==> Mentions(s, "sdc")
    ensures NormalizeResult(s) == DUE <==> !Mentions(s, "sdc") && Mentions(s, "due")
    ensures NormalizeResult(s) == Masked <==> !Mentions(s, "sdc") && !Mentions(s, "due") && Mentions(s, "masked")
    ensures NormalizeResult(s) == Others <==> !Mentions(s, "sdc") && !Mentions(s, "due") && !Mentions(s, "masked")
  {
    var x := Lower(Strip(s));
    ContainsLowerStrip(s, "sdc");
    ContainsLowerStrip(s, "due");
    ContainsLowerStrip(s, "masked");
    assert Contains(x, "sdc") == Mentions(s, "sdc");
    assert Contains(x, "due") == Mentions(s, "due");
    assert Contains(x, "masked") == Mentions(s, "masked");
  }
}
