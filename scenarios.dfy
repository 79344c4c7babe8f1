/**
  Worked examples of the heuristic on concrete affiliations and author lists.
*/
module Scenarios {
  import opened Wrappers
  import opened PyStr
  import opened Affiliation
  import opened Paper

  /** A text mentions no academic keyword when, for each academic keyword in
      turn, `missing` holds a character of that keyword the text lacks. */
  lemma NoAcademicKeyword(lower: string, missing: string)
    requires |missing| == |AcademicKeywords|
    requires forall j :: 0 <= j < |missing| ==> missing[j] in AcademicKeywords[j]
    requires forall j :: 0 <= j < |missing| ==> missing[j] !in lower
    ensures !ContainsAny(lower, AcademicKeywords)
  {
    forall j | 0 <= j < |AcademicKeywords| ensures !Contains(lower, AcademicKeywords[j]) {
      AbsentChar(lower, AcademicKeywords[j], missing[j]);
    }
  }

  lemma NovartisLower()
    ensures Lower("Novartis Pharma AG") == "novartis pharma ag"
  {
    var lower := "novartis pharma ag";
    forall i | 0 <= i < |lower| ensures Lower("Novartis Pharma AG")[i] == lower[i] {
      assert "Novartis Pharma AG"[i] == lower[i] || i in {0, 9, 16, 17};
    }
  }

  lemma NovartisNotAcademic()
    ensures !ContainsAny("novartis pharma ag", AcademicKeywords)
  {
    var missing := "uulllccyudul";
    assert forall j :: 0 <= j < |missing| ==> missing[j] in AcademicKeywords[j];
    assert forall j :: 0 <= j < |missing| ==> missing[j] !in "novartis pharma ag";
    NoAcademicKeyword("novartis pharma ag", missing);
  }

  /** "Novartis Pharma AG" is a company affiliation: it mentions "pharma" and
      nothing academic. */
  lemma NovartisIsCompany()
    ensures IsNonAcademic("Novartis Pharma AG")
  {
    NovartisLower();
    NovartisNotAcademic();
    assert OccursAt("novartis pharma ag", NonAcademicKeywords[0], 9);
  }

  lemma BiotechCorpLower()
    ensures Lower("Biotech Corp") == "biotech corp"
  {
    var lower := "biotech corp";
    forall i | 0 <= i < |lower| ensures Lower("Biotech Corp")[i] == lower[i] {
      assert "Biotech Corp"[i] == lower[i] || i in {0, 8};
    }
  }

  lemma BiotechCorpNotAcademic()
    ensures !ContainsAny("biotech corp", AcademicKeywords)
  {
    var missing := "uulllnnyunul";
    assert forall j :: 0 <= j < |missing| ==> missing[j] in AcademicKeywords[j];
    assert forall j :: 0 <= j < |missing| ==> missing[j] !in "biotech corp";
    NoAcademicKeyword("biotech corp", missing);
  }

  /** "Biotech Corp" is a company affiliation. */
  lemma BiotechCorpIsCompany()
    ensures IsNonAcademic("Biotech Corp")
  {
    BiotechCorpLower();
    BiotechCorpNotAcademic();
    assert OccursAt("biotech corp", NonAcademicKeywords[1], 0);
  }

  /** "Dept. of Medicine, Johns Hopkins University" is academic: "university" vetoes it. */
  lemma HopkinsIsAcademic()
    ensures !IsNonAcademic("Dept. of Medicine, Johns Hopkins University")
  {
    var before := "Dept. of Medicine, Johns Hopkins ";
    var phrase := "University";
    forall i | 0 <= i < |phrase| ensures Lower(phrase)[i] == "university"[i] {
      assert phrase[i] == "university"[i] || i == 0;
    }
    assert OccursAt(Lower(phrase), "university", 0);
    AcademicPhraseVetoes(before, phrase, "", "university");
    assert before + phrase + "" == "Dept. of Medicine, Johns Hopkins University";
  }

  lemma IncreaseNotAcademic()
    ensures !ContainsAny("increase", AcademicKeywords)
  {
    var missing := "uulllttyudul";
    assert forall j :: 0 <= j < |missing| ==> missing[j] in AcademicKeywords[j];
    assert forall j :: 0 <= j < |missing| ==> missing[j] !in "increase";
    NoAcademicKeyword("increase", missing);
  }

  /** Matching is unanchored: "inc" inside "Increase" is enough to classify it
      as a company. */
  lemma IncInsideIncrease()
    ensures IsNonAcademic("Increase")
  {
    assert Lower("Increase") == "increase" by {
      forall i | 0 <= i < 8 ensures Lower("Increase")[i] == "increase"[i] {
        assert "Increase"[i] == "increase"[i] || i == 0;
      }
    }
    IncreaseNotAcademic();
    assert OccursAt("increase", NonAcademicKeywords[2], 0);
  }

  /** Text made of visible ASCII characters holds no white space. */
  lemma VisibleText(s: string)
    requires forall k :: 0 <= k < |s| ==> '!' <= s[k] <= '~'
    ensures forall k :: 0 <= k < |s| ==> s[k] !in Whitespace
  {
  }

  /** Two words, each followed by a separator, are the first two fields. */
  lemma FieldsTwoWords(w0: string, w1: string, sep: char, rest: string, cs: set<char>)
    requires w0 != [] && forall k :: 0 <= k < |w0| ==> w0[k] !in cs
    requires w1 != [] && forall k :: 0 <= k < |w1| ==> w1[k] !in cs
    requires sep in cs
    ensures Fields(w0 + [sep] + (w1 + [sep] + rest), cs) == [w0, w1] + Fields(rest, cs)
  {
    var tail := Fields(rest, cs);
    calc {
      Fields(w0 + [sep] + (w1 + [sep] + rest), cs);
    ==  { FieldsWord(w0, sep, w1 + [sep] + rest, cs); }
      [w0] + Fields(w1 + [sep] + rest, cs);
    ==  { FieldsWord(w1, sep, rest, cs); }
      [w0] + ([w1] + tail);
    ==  { assert [w0] + [w1] == [w0, w1]; }
      [w0, w1] + tail;
    }
  }

  /** An address after a leading word, closed by one punctuation mark, is
      captured without that mark. */
  lemma EmailAfterTag(tag: string, address: string, p: char, rest: string)
    requires tag != [] && forall k :: 0 <= k < |tag| ==> '!' <= tag[k] <= '~'
    requires '@' !in tag
    requires address != [] && forall k :: 0 <= k < |address| ==> '!' <= address[k] <= '~'
    requires IsAddress(address)
    requires p in EmailPunctuation
    ensures EmailIn(tag + " " + (address + [p] + " " + rest)) == address
  {
    VisibleText(tag);
    VisibleText(address);
    var w1 := address + [p];
    var affiliation := tag + [' '] + (w1 + [' '] + rest);
    assert Split(affiliation) == [tag, w1] + Split(rest) by {
      FieldsTwoWords(tag, w1, ' ', rest, Whitespace);
    }
    assert forall j :: 0 <= j < 1 ==> '@' !in Split(affiliation)[j];
    EmailInFirstWord(affiliation, 1);
    assert Strip(w1, EmailPunctuation) == address by {
      assert w1[..|address|] == address;
      StripUnique(w1, EmailPunctuation, 0, address);
    }
  }

  /** The address in "Contact: jane.doe@biotech-corp.com; Biotech Corp" is
      captured without its trailing semicolon.  The affiliation is written as
      its pieces: the solver unfolds the splitting functions on a whole literal. */
  lemma ContactAddress(affiliation: string)
    requires affiliation == "Contact:" + " " + ("jane.doe@biotech-corp.com" + [';'] + " " + "Biotech Corp")
    ensures EmailIn(affiliation) == "jane.doe@biotech-corp.com"
  {
    EmailAfterTag("Contact:", "jane.doe@biotech-corp.com", ';', "Biotech Corp");
  }

  /** Lower-casing the contact affiliation piece by piece. */
  lemma ContactLower(affiliation: string)
    requires affiliation == "Contact:" + " " + ("jane.doe@biotech-corp.com" + [';'] + " " + "Biotech Corp")
    ensures Lower(affiliation) == "contact:" + " " + ("jane.doe@biotech-corp.com" + [';'] + " " + "biotech corp")
  {
    var tag, address, name := "Contact:", "jane.doe@biotech-corp.com", "Biotech Corp";
    assert Lower(tag) == "contact:" by {
      forall i | 0 <= i < |tag| ensures Lower(tag)[i] == "contact:"[i] {
        assert tag[i] == "contact:"[i] || i == 0;
      }
    }
    assert Lower(address) == address by {
      forall i | 0 <= i < |address| ensures Lower(address)[i] == address[i] {
        assert !IsUpper(address[i]);
      }
    }
    assert Lower(" ") == " " && Lower([';']) == [';'];
    BiotechCorpLower();
    LowerAppend(tag, " ");
    LowerAppend(tag + " ", address + [';'] + " " + name);
    LowerAppend(address + [';'] + " ", name);
    LowerAppend(address + [';'], " ");
    LowerAppend(address, [';']);
  }

  /** Neither "ce" nor "de" occurs in the lower-cased contact affiliation. */
  lemma ContactNoPair(lower: string, x: char)
    requires lower == "contact:" + " " + ("jane.doe@biotech-corp.com" + [';'] + " " + "biotech corp")
    requires x == 'c' || x == 'd'
    ensures NoPair(lower, x, 'e')
  {
    var tag, address, name := "contact:", "jane.doe@biotech-corp.com", "biotech corp";
    assert NoPair(tag, x, 'e') && NoPair(address, x, 'e') && NoPair(name, x, 'e');
    assert NoPair(" ", x, 'e') && NoPair([';'], x, 'e');
    NoPairAppend(tag, " ", x, 'e');
    NoPairAppend(address, [';'], x, 'e');
    NoPairAppend(address + [';'], " ", x, 'e');
    NoPairAppend(address + [';'] + " ", name, x, 'e');
    NoPairAppend(tag + " ", address + [';'] + " " + name, x, 'e');
  }

  /** Letters the lower-cased contact affiliation lacks. */
  lemma ContactLacks(lower: string, c: char)
    requires lower == "contact:" + " " + ("jane.doe@biotech-corp.com" + [';'] + " " + "biotech corp")
    requires c in "uslyf"
    ensures c !in lower
  {
    var tag, address, name := "contact:", "jane.doe@biotech-corp.com", "biotech corp";
    assert forall k :: 0 <= k < |tag| ==> tag[k] != c;
    assert forall k :: 0 <= k < |address| ==> address[k] != c;
    assert forall k :: 0 <= k < |name| ==> name[k] != c;
  }

  /** No academic keyword occurs in the lower-cased contact affiliation: most
      use a letter it lacks, and "center", "centre" and "department" need a
      "ce" or a "de" it never has. */
  lemma ContactNotAcademic(lower: string)
    requires lower == "contact:" + " " + ("jane.doe@biotech-corp.com" + [';'] + " " + "biotech corp")
    ensures !ContainsAny(lower, AcademicKeywords)
  {
    ContactNoPair(lower, 'c');
    ContactNoPair(lower, 'd');
    var missing := "usslsccyfdsl";
    assert forall j :: 0 <= j < |missing| ==> missing[j] in AcademicKeywords[j];
    forall j | 0 <= j < |AcademicKeywords| ensures !Contains(lower, AcademicKeywords[j]) {
      if j == 5 || j == 6 || j == 9 {
        AbsentPair(lower, AcademicKeywords[j], 0);
      } else {
        ContactLacks(lower, missing[j]);
        AbsentChar(lower, AcademicKeywords[j], missing[j]);
      }
    }
  }

  /** "Contact: jane.doe@biotech-corp.com; Biotech Corp" is also a company
      affiliation: "biotech" occurs in it and no academic keyword does. */
  lemma ContactIsCompany(affiliation: string)
    requires affiliation == "Contact:" + " " + ("jane.doe@biotech-corp.com" + [';'] + " " + "Biotech Corp")
    ensures IsNonAcademic(affiliation)
  {
    var lower := "contact:" + " " + ("jane.doe@biotech-corp.com" + [';'] + " " + "biotech corp");
    ContactLower(affiliation);
    ContactNotAcademic(lower);
    var before := "contact:" + " " + ("jane.doe@biotech-corp.com" + [';'] + " ");
    assert lower == before + "biotech corp" + "";
    assert Contains("biotech corp", NonAcademicKeywords[1]) by {
      assert OccursAt("biotech corp", NonAcademicKeywords[1], 0);
    }
    ContainsWithin(before, "biotech corp", "", NonAcademicKeywords[1]);
  }

  /** With addresses in the affiliations of authors 2 and 4 only, the record
      takes the one of author 2, whatever the classification of either. */
  lemma SecondAuthorWithAddressWins(authors: seq<AuthorEntry>)
    requires |authors| == 5
    requires forall j :: 0 <= j < 5 ==> ('@' in AffiliationText(authors[j]) <==> j == 2 || j == 4)
    ensures FirstEmail(authors) == EmailIn(AffiliationText(authors[2]))
    ensures FirstEmail(authors) != ""
  {
    FirstEmailIsFirstAddress(authors, 2);
  }

  /** A failed fetch of record "999" gives the placeholder row. */
  lemma FailedFetchRow(cause: string)
    ensures var row := Render(PaperDetails("999", FetchFailed(cause)));
      row.title == "Error fetching details" && row.nonAcademicAuthors == "" &&
      row.companyAffiliations == "" && row.email[..7] == "Error: "
  {
  }
}
