/**
 * `color_status`: the style given to a cell of the history table's status
 * column. The value is lower-cased and compared for equality with four
 * condition labels; anything else, and a missing value, gets no style.
 */
module Status {

  import opened Wrappers

  datatype Tier = Excellent | Acceptable | RequiresEvaluation | Unacceptable | Unstyled

  /** The lower-case label that selects a tier. */
  function Label(t: Tier): string
    requires t != Unstyled
  {
    match t
    case Excellent => "excellent"
    case Acceptable => "acceptable"
    case RequiresEvaluation => "requires evaluation"
    case Unacceptable => "unacceptable"
  }

  /** The CSS declarations of a tier; the empty string means "no style". */
  function Style(t: Tier): string {
    match t
    case Excellent => "background-color: rgba(0, 128, 0, 0.7); color: white;"
    case Acceptable => "background-color: rgba(144, 238, 144, 0.7); color: black;"
    case RequiresEvaluation => "background-color: rgba(255, 255, 0, 0.7); color: black;"
    case Unacceptable => "background-color: rgba(255, 0, 0, 0.7); color: white;"
    case Unstyled => ""
  }

  function LowerChar(c: char): char {
    if 'A' <= c <= 'Z' then (c as int - 'A' as int + 'a' as int) as char else c
  }

  /** `str.lower()` restricted to the ASCII letters. */
  function Lower(s: string): (r: string)
    ensures |r| == |s|
    ensures forall i :: 0 <= i < |s| ==> r[i] == LowerChar(s[i])
  {
    seq(|s|, i requires 0 <= i < |s| => LowerChar(s[i]))
  }

  /** The tier of a status value: exact match of its lower-cased text, in a fixed order. */
  function Classify(val: Option<string>): (t: Tier)
    ensures t != Unstyled ==> val.Some? && Lower(val.value) == Label(t)
    ensures t == Unstyled <==>
      (val.None? || Lower(val.value) !in ["excellent", "acceptable", "requires evaluation", "unacceptable"])
  {
    match val
    case None => Unstyled
    case Some(s) =>
      var v := Lower(s);
      if v == "excellent" then Excellent
      else if v == "acceptable" then Acceptable
      else if v == "requires evaluation" then RequiresEvaluation
      else if v == "unacceptable" then Unacceptable
      else Unstyled
  }

  /** `color_status(val)`. */
  function ColorStatus(val: Option<string>): (style: string)
    ensures style == "" <==>
      (val.None? || Lower(val.value) !in ["excellent", "acceptable", "requires evaluation", "unacceptable"])
  {
    Style(Classify(val))
  }

  /** A styled tier is chosen exactly by its own label. */
  lemma ClassifyMatchesLabel(val: Option<string>, t: Tier)
    requires t != Unstyled
    ensures Classify(val) == t <==> val.Some? && Lower(val.value) == Label(t)
  {
  }

  /** Each label, in any letter case, selects its tier. */
  lemma {:induction false} ClassifyLabel(s: string, t: Tier)
    requires t != Unstyled && Lower(s) == Label(t)
    ensures Classify(Some(s)) == t && ColorStatus(Some(s)) == Style(t)
  {
  }

  /** Values that differ only in letter case get the same style. */
  lemma {:induction false} ClassifyIgnoresCase(a: string, b: string)
    requires |a| == |b|
    requires forall i :: 0 <= i < |a| ==> LowerChar(a[i]) == LowerChar(b[i])
    ensures Classify(Some(a)) == Classify(Some(b))
    ensures ColorStatus(Some(a)) == ColorStatus(Some(b))
  {
    assert Lower(a) == Lower(b);
  }

  /** Lower-casing an already lower-cased value changes nothing, so neither does its style. */
  lemma {:induction false} ClassifyLowered(s: string)
    ensures Classify(Some(Lower(s))) == Classify(Some(s))
  {
    assert Lower(Lower(s)) == Lower(s);
  }

  /** The four labelled tiers have four different, non-empty styles. */
  lemma StylesDistinct(t: Tier, u: Tier)
    requires t != Unstyled && u != Unstyled
    ensures Style(t) != ""
    ensures Style(t) == Style(u) <==> t == u
  {
  }

  /** Containing a label is not enough: the comparison is equality, not substring search. */
  lemma NotAcceptableIsUnstyled()
    ensures ColorStatus(Some("Not acceptable")) == ""
  {
    assert |Lower("Not acceptable")| == 14;
  }

  /** An upper-case label is styled like the label itself. */
  lemma UpperCaseLabelIsStyled()
    ensures ColorStatus(Some("UNACCEPTABLE")) == Style(Unacceptable)
  {
    var s := "UNACCEPTABLE";
    assert forall i :: 0 <= i < |s| ==> Lower(s)[i] == "unacceptable"[i];
    assert Lower(s) == "unacceptable";
  }

}
