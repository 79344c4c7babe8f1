/**
  The affiliation heuristic of the paper fetcher: an author counts as
  non-academic when the lower-cased affiliation text mentions a company-like
  keyword and no academic one.  Matching is by plain substring, so a keyword
  may match inside a longer word.
*/
module Affiliation {
  import opened PyStr

  const NonAcademicKeywords: seq<string> := [
    "pharma", "biotech", "inc", "ltd", "company", "corp", "gmbh", "s.a.", "llc", "plc", "co.", "industries"
  ]

  const AcademicKeywords: seq<string> := [
    "university", "institute", "hospital", "college", "school", "center", "centre", "academy", "faculty",
    "department", "research foundation", "clinic"
  ]

  /** `any(kw in text for kw in keywords)` */
  predicate ContainsAny(text: string, keywords: seq<string>) {
    exists k | 0 <= k < |keywords| :: Contains(text, keywords[k])
  }

  /** The classification test applied to each author's affiliation text. */
  predicate IsNonAcademic(affiliation: string) {
    var lower := Lower(affiliation);
    ContainsAny(lower, NonAcademicKeywords) && !ContainsAny(lower, AcademicKeywords)
  }

  /** The classification rule written out with the quantifiers of `ContainsAny`
      unfolded: this restates the definition of `IsNonAcademic` for reference;
      the properties drawn from it follow. */
  lemma ClassificationIff(affiliation: string)
    ensures IsNonAcademic(affiliation) <==>
      (exists k :: 0 <= k < |NonAcademicKeywords| && Contains(Lower(affiliation), NonAcademicKeywords[k])) &&
      (forall k :: 0 <= k < |AcademicKeywords| ==> !Contains(Lower(affiliation), AcademicKeywords[k]))
  {
  }

  /** An academic keyword anywhere in the affiliation vetoes the non-academic
      classification, whatever company keywords it also mentions. */
  lemma AcademicVeto(affiliation: string, keyword: string)
    requires keyword in AcademicKeywords
    requires Contains(Lower(affiliation), keyword)
    ensures !IsNonAcademic(affiliation)
  {
    ClassificationIff(affiliation);
  }

  /** Text that mentions an academic keyword stays academic whatever is written
      before or after it. */
  lemma AcademicPhraseVetoes(before: string, phrase: string, after: string, keyword: string)
    requires keyword in AcademicKeywords
    requires Contains(Lower(phrase), keyword)
    ensures !IsNonAcademic(before + phrase + after)
  {
    LowerAppend(before + phrase, after);
    LowerAppend(before, phrase);
    ContainsWithin(Lower(before), Lower(phrase), Lower(after), keyword);
    AcademicVeto(before + phrase + after, keyword);
  }

  /** The classification ignores letter case: it sees only the lower-cased text. */
  lemma ClassificationIgnoresCase(affiliation: string)
    ensures IsNonAcademic(Lower(affiliation)) == IsNonAcademic(affiliation)
  {
    LowerIdempotent(affiliation);
  }
}
