/**
  Building one paper record from a parsed PubMed article: the title and year
  with their defaults, the scan over the author list that collects the
  non-academic authors with their affiliations and the first e-mail address,
  and the placeholder record returned when the article could not be fetched
  or parsed.  The HTTP request and the XML parser are not modelled: their
  outcome is an input, either the parsed document or the failure's message.
*/
module Paper {
  import opened Wrappers
  import opened PyStr
  import opened Affiliation

  /** One `Author` element: the texts of `ForeName`, `LastName` and the first
      `AffiliationInfo/Affiliation`, each absent when the element is missing. */
  datatype AuthorEntry = AuthorEntry(foreName: Option<string>, lastName: Option<string>, affiliation: Option<string>)

  /** What the fetcher reads from a parsed article: the first `ArticleTitle`,
      the first `PubDate/Year`, and every `Author` in document order. */
  datatype Document = Document(title: Option<string>, year: Option<string>, authors: seq<AuthorEntry>)

  /** The outcome of the request and the XML parse: the document, or the
      message of the exception that either of them raised. */
  datatype FetchOutcome = Fetched(doc: Document) | FetchFailed(cause: string)

  /** The record built for one PubMed identifier, its two author columns kept as lists. */
  datatype PaperRecord = PaperRecord(
    pubmedId: string,
    title: string,
    publicationDate: string,
    nonAcademicAuthors: seq<string>,
    companyAffiliations: seq<string>,
    email: string)

  /** The record as one output row, every column a string. */
  datatype Row = Row(
    pubmedId: string,
    title: string,
    publicationDate: string,
    nonAcademicAuthors: string,
    companyAffiliations: string,
    email: string)

  const ErrorTitle: string := "Error fetching details"
  const UnknownYear: string := "Unknown"
  const ErrorPrefix: string := "Error: "

  /** The characters stripped from both ends of a captured e-mail token. */
  const EmailPunctuation: set<char> := {';', ',', '.', '(', ')', '[', ']'}

  /** Python's `text or default` on the result of `findtext`: a missing element
      and an empty one both give the default. */
  function OrDefault(text: Option<string>, default: string): (r: string)
    ensures r == default || (text.Some? && r == text.value && r != "")
    ensures text.Some? && text.value != "" ==> r == text.value
  {
    if text.Some? && text.value != "" then text.value else default
  }

  function AffiliationText(author: AuthorEntry): string {
    OrDefault(author.affiliation, "")
  }

  /** `f"{fore_name} {last_name}".strip()` */
  function FullName(author: AuthorEntry): string {
    Strip(OrDefault(author.foreName, "") + " " + OrDefault(author.lastName, ""), Whitespace)
  }

  predicate Trimmed(s: string) {
    s == [] || (s[0] !in Whitespace && s[|s| - 1] !in Whitespace)
  }

  /** With both parts present and already trimmed, the name is the two parts
      joined by one space; with one part missing it is the other part alone. */
  lemma FullNameParts(author: AuthorEntry)
    requires author.foreName.Some? ==> Trimmed(author.foreName.value)
    requires author.lastName.Some? ==> Trimmed(author.lastName.value)
    ensures var fore := OrDefault(author.foreName, "");
            var last := OrDefault(author.lastName, "");
            FullName(author) == if fore == "" then last else if last == "" then fore else fore + " " + last
  {
    var fore := OrDefault(author.foreName, "");
    var last := OrDefault(author.lastName, "");
    var s := fore + " " + last;
    if fore == "" {
      StripUnique(s, Whitespace, 1, last);
    } else if last == "" {
      StripUnique(s, Whitespace, 0, fore);
    } else {
      StripUnique(s, Whitespace, 0, s);
    }
  }

  // ---------------------------------------------------------------------------
  // The specification of the author scan

  /** The authors the heuristic classifies as non-academic, in document order. */
  function Flagged(authors: seq<AuthorEntry>): seq<AuthorEntry>
  {
    if authors == [] then []
    else (if IsNonAcademic(AffiliationText(authors[0])) then [authors[0]] else []) + Flagged(authors[1..])
  }

  lemma {:induction false} FlaggedAppend(xs: seq<AuthorEntry>, ys: seq<AuthorEntry>)
    ensures Flagged(xs + ys) == Flagged(xs) + Flagged(ys)
    decreases |xs|
  {
    if xs == [] {
      assert xs + ys == ys;
    } else {
      var x := xs[0];
      var head := if IsNonAcademic(AffiliationText(x)) then [x] else [];
      assert (xs + ys)[0] == x && (xs + ys)[1..] == xs[1..] + ys;
      FlaggedAppend(xs[1..], ys);
      calc {
        Flagged(xs + ys);
        head + Flagged(xs[1..] + ys);
        head + (Flagged(xs[1..]) + Flagged(ys));
        (head + Flagged(xs[1..])) + Flagged(ys);
        Flagged(xs) + Flagged(ys);
      }
    }
  }

  /** The positions of the flagged authors: the `i`-th flagged author is the
      author at position `ps[i]`. */
  function FlaggedPositions(authors: seq<AuthorEntry>): (ps: seq<nat>)
    ensures |ps| == |Flagged(authors)|
    ensures forall i :: 0 <= i < |ps| ==> ps[i] < |authors| && Flagged(authors)[i] == authors[ps[i]]
    decreases |authors|
  {
    if authors == [] then []
    else
      var n := |authors| - 1;
      var front := authors[..n];
      var rest := FlaggedPositions(front);
      var flagged := IsNonAcademic(AffiliationText(authors[n]));
      assert Flagged(authors) == Flagged(front) + (if flagged then [authors[n]] else []) by {
        assert authors == front + [authors[n]];
        FlaggedSnoc(front, authors[n]);
      }
      assert forall i :: 0 <= i < |rest| ==> front[rest[i]] == authors[rest[i]];
      rest + if flagged then [n] else []
  }

  /** Appending one author appends it to the flagged ones exactly when it is flagged. */
  lemma FlaggedSnoc(front: seq<AuthorEntry>, x: AuthorEntry)
    ensures Flagged(front + [x]) == Flagged(front) + (if IsNonAcademic(AffiliationText(x)) then [x] else [])
  {
    FlaggedAppend(front, [x]);
    assert [x][1..] == [];
  }

  /** The positions strictly increase, so the flagged authors keep document order. */
  lemma {:induction false} FlaggedPositionsIncrease(authors: seq<AuthorEntry>)
    ensures forall i, j :: 0 <= i < j < |FlaggedPositions(authors)| ==>
      FlaggedPositions(authors)[i] < FlaggedPositions(authors)[j]
    decreases |authors|
  {
    if authors != [] {
      var n := |authors| - 1;
      var rest := FlaggedPositions(authors[..n]);
      FlaggedPositionsIncrease(authors[..n]);
      var ps := rest + if IsNonAcademic(AffiliationText(authors[n])) then [n] else [];
      assert FlaggedPositions(authors) == ps;
      forall i, j | 0 <= i < j < |ps| ensures ps[i] < ps[j] {
        assert ps[i] == rest[i] && rest[i] < n;
        if j < |rest| {
          assert ps[j] == rest[j] && rest[i] < rest[j];
        } else {
          assert ps[j] == n;
        }
      }
    }
  }

  /** Every author the filter keeps is classified non-academic. */
  lemma {:induction false} FlaggedAreNonAcademic(authors: seq<AuthorEntry>)
    ensures forall i :: 0 <= i < |Flagged(authors)| ==> IsNonAcademic(AffiliationText(Flagged(authors)[i]))
    decreases |authors|
  {
    if authors != [] {
      FlaggedAreNonAcademic(authors[1..]);
    }
  }

  /** Every author classified non-academic has its position in the list. */
  lemma {:induction false} FlaggedPositionsComplete(authors: seq<AuthorEntry>, p: nat)
    requires p < |authors| && IsNonAcademic(AffiliationText(authors[p]))
    ensures p in FlaggedPositions(authors)
    decreases |authors|
  {
    var n := |authors| - 1;
    var front := authors[..n];
    var rest := FlaggedPositions(front);
    assert FlaggedPositions(authors) == rest + if IsNonAcademic(AffiliationText(authors[n])) then [n] else [];
    if p < n {
      assert front[p] == authors[p];
      FlaggedPositionsComplete(front, p);
    }
  }

  /** The positions are exactly those whose affiliation classifies as non-academic. */
  lemma FlaggedPositionsExact(authors: seq<AuthorEntry>)
    ensures var ps := FlaggedPositions(authors);
      forall p :: 0 <= p < |authors| ==> (p in ps <==> IsNonAcademic(AffiliationText(authors[p])))
  {
    var ps := FlaggedPositions(authors);
    FlaggedAreNonAcademic(authors);
    forall p | 0 <= p < |authors| ensures p in ps <==> IsNonAcademic(AffiliationText(authors[p])) {
      if IsNonAcademic(AffiliationText(authors[p])) {
        FlaggedPositionsComplete(authors, p);
      } else {
        forall i | 0 <= i < |ps| ensures ps[i] != p {
          assert Flagged(authors)[i] == authors[ps[i]];
        }
      }
    }
  }

  /** The `authors` list of the record: the full names of the flagged authors. */
  function NonAcademicAuthors(authors: seq<AuthorEntry>): seq<string> {
    var f := Flagged(authors);
    seq(|f|, i requires 0 <= i < |f| => FullName(f[i]))
  }

  /** The `companies` list of the record: the raw affiliations of the flagged authors. */
  function CompanyAffiliations(authors: seq<AuthorEntry>): seq<string> {
    var f := Flagged(authors);
    seq(|f|, i requires 0 <= i < |f| => AffiliationText(f[i]))
  }

  /** The two lists are parallel: entry `i` of each comes from the same author,
      the `i`-th flagged one, whose affiliation is kept as written, not
      lower-cased; the entries follow document order. */
  lemma Lockstep(authors: seq<AuthorEntry>)
    ensures |NonAcademicAuthors(authors)| == |CompanyAffiliations(authors)| == |FlaggedPositions(authors)|
    ensures forall i :: 0 <= i < |FlaggedPositions(authors)| ==>
      var p := FlaggedPositions(authors)[i];
      NonAcademicAuthors(authors)[i] == FullName(authors[p]) &&
      CompanyAffiliations(authors)[i] == AffiliationText(authors[p]) &&
      IsNonAcademic(AffiliationText(authors[p]))
    ensures forall i, j :: 0 <= i < j < |FlaggedPositions(authors)| ==>
      FlaggedPositions(authors)[i] < FlaggedPositions(authors)[j]
  {
    FlaggedPositionsExact(authors);
    FlaggedPositionsIncrease(authors);
  }

  /** Scanning one more author extends both lists by that author's entry
      when it is flagged and leaves them alone otherwise. */
  lemma ListsSnoc(authors: seq<AuthorEntry>, author: AuthorEntry)
    ensures NonAcademicAuthors(authors + [author]) ==
      NonAcademicAuthors(authors) + if IsNonAcademic(AffiliationText(author)) then [FullName(author)] else []
    ensures CompanyAffiliations(authors + [author]) ==
      CompanyAffiliations(authors) + if IsNonAcademic(AffiliationText(author)) then [AffiliationText(author)] else []
  {
    FlaggedAppend(authors, [author]);
    assert Flagged([author]) == (if IsNonAcademic(AffiliationText(author)) then [author] else []) + Flagged([]);
  }

  /** The first word holding an `@`, if any. */
  function FirstAtWord(words: seq<string>): (r: Option<nat>)
    ensures r.Some? ==> r.value < |words| && '@' in words[r.value]
    ensures r.Some? ==> forall j :: 0 <= j < r.value ==> '@' !in words[j]
    ensures r.None? ==> forall j :: 0 <= j < |words| ==> '@' !in words[j]
    decreases |words|
  {
    if words == [] then None
    else if '@' in words[0] then Some(0)
    else match FirstAtWord(words[1..]) {
      case None => None
      case Some(k) => Some(k + 1)
    }
  }

  /** A captured address: it holds an `@` and has none of `;,.()[]` at either end. */
  predicate IsAddress(e: string) {
    '@' in e && e[0] !in EmailPunctuation && e[|e| - 1] !in EmailPunctuation
  }

  /** The address taken from one affiliation: the first whitespace-delimited
      word holding an `@`, with `;,.()[]` stripped from both ends. */
  function EmailIn(affiliation: string): (email: string)
    ensures '@' in affiliation ==> IsAddress(email)
    ensures '@' !in affiliation ==> email == ""
  {
    var words := Split(affiliation);
    match FirstAtWord(words) {
      case None =>
        assert '@' !in affiliation by {
          if '@' in affiliation {
            FieldsKeep(affiliation, Whitespace, '@');
          }
        }
        ""
      case Some(k) =>
        var w := Strip(words[k], EmailPunctuation);
        StripKeeps(words[k], EmailPunctuation, '@');
        assert '@' in affiliation by {
          FieldsFrom(affiliation, Whitespace, k, '@');
        }
        w
    }
  }

  /** The address is the first word of the affiliation that holds an `@`, with
      `;,.()[]` stripped from both ends; words after it are not looked at. */
  lemma EmailInFirstWord(affiliation: string, k: nat)
    requires k < |Split(affiliation)| && '@' in Split(affiliation)[k]
    requires forall j :: 0 <= j < k ==> '@' !in Split(affiliation)[j]
    ensures EmailIn(affiliation) == Strip(Split(affiliation)[k], EmailPunctuation)
  {
    var words := Split(affiliation);
    match FirstAtWord(words) {
      case None =>
      case Some(k') =>
        assert !(k' < k) && !(k < k');
    }
  }

  /** The record's e-mail: the address in the first affiliation that holds an
      `@`, whether or not that author is flagged; empty when none does. */
  function FirstEmail(authors: seq<AuthorEntry>): string {
    if authors == [] then ""
    else if '@' in AffiliationText(authors[0]) then EmailIn(AffiliationText(authors[0]))
    else FirstEmail(authors[1..])
  }

  /** The e-mail is empty exactly when no affiliation holds an `@`. */
  lemma {:induction false} FirstEmailEmpty(authors: seq<AuthorEntry>)
    ensures FirstEmail(authors) == "" <==> forall j :: 0 <= j < |authors| ==> '@' !in AffiliationText(authors[j])
    decreases |authors|
  {
    if authors == [] {
    } else if '@' in AffiliationText(authors[0]) {
      assert FirstEmail(authors) == EmailIn(AffiliationText(authors[0]));
    } else {
      var rest := authors[1..];
      FirstEmailEmpty(rest);
      assert FirstEmail(authors) == FirstEmail(rest);
      assert forall j :: 1 <= j < |authors| ==> authors[j] == rest[j - 1];
    }
  }

  /** The e-mail is the address of the first author whose affiliation holds an
      `@`, with no condition on how that author is classified. */
  lemma {:induction false} FirstEmailIsFirstAddress(authors: seq<AuthorEntry>, i: nat)
    requires i < |authors| && '@' in AffiliationText(authors[i])
    requires forall j :: 0 <= j < i ==> '@' !in AffiliationText(authors[j])
    ensures FirstEmail(authors) == EmailIn(AffiliationText(authors[i]))
    decreases i
  {
    if i > 0 {
      var rest := authors[1..];
      assert '@' !in AffiliationText(authors[0]);
      assert FirstEmail(authors) == FirstEmail(rest);
      assert forall j :: 0 <= j < i - 1 ==> rest[j] == authors[j + 1];
      FirstEmailIsFirstAddress(rest, i - 1);
    }
  }

  /** Once captured, the e-mail is never replaced: authors scanned later do not change it. */
  lemma {:induction false} FirstEmailKept(xs: seq<AuthorEntry>, ys: seq<AuthorEntry>)
    requires FirstEmail(xs) != ""
    ensures FirstEmail(xs + ys) == FirstEmail(xs)
    decreases |xs|
  {
    assert (xs + ys)[0] == xs[0];
    if '@' !in AffiliationText(xs[0]) {
      assert (xs + ys)[1..] == xs[1..] + ys;
      FirstEmailKept(xs[1..], ys);
    }
  }

  /** Scanning one more author sets the e-mail only if none was captured yet. */
  lemma FirstEmailSnoc(xs: seq<AuthorEntry>, x: AuthorEntry)
    ensures FirstEmail(xs + [x]) ==
      if FirstEmail(xs) != "" then FirstEmail(xs)
      else if '@' in AffiliationText(x) then EmailIn(AffiliationText(x))
      else ""
  {
    var ys := xs + [x];
    if FirstEmail(xs) != "" {
      FirstEmailKept(xs, [x]);
    } else {
      FirstEmailEmpty(xs);
      assert forall j :: 0 <= j < |xs| ==> ys[j] == xs[j];
      assert ys[|xs|] == x;
      if '@' in AffiliationText(x) {
        FirstEmailIsFirstAddress(ys, |xs|);
      } else {
        FirstEmailEmpty(ys);
      }
    }
  }

  // ---------------------------------------------------------------------------
  // The scan as the fetcher runs it

  /** What scanning author `i` adds to the record built from the authors before it. */
  lemma ScanStep(authors: seq<AuthorEntry>, i: nat)
    requires i < |authors|
    ensures IsNonAcademic(AffiliationText(authors[i])) ==>
      NonAcademicAuthors(authors[..i + 1]) == NonAcademicAuthors(authors[..i]) + [FullName(authors[i])] &&
      CompanyAffiliations(authors[..i + 1]) == CompanyAffiliations(authors[..i]) + [AffiliationText(authors[i])]
    ensures !IsNonAcademic(AffiliationText(authors[i])) ==>
      NonAcademicAuthors(authors[..i + 1]) == NonAcademicAuthors(authors[..i]) &&
      CompanyAffiliations(authors[..i + 1]) == CompanyAffiliations(authors[..i])
    ensures FirstEmail(authors[..i]) != "" ==> FirstEmail(authors[..i + 1]) == FirstEmail(authors[..i])
    ensures FirstEmail(authors[..i]) == "" && '@' in AffiliationText(authors[i]) ==>
      FirstEmail(authors[..i + 1]) == EmailIn(AffiliationText(authors[i]))
    ensures FirstEmail(authors[..i]) == "" && '@' !in AffiliationText(authors[i]) ==>
      FirstEmail(authors[..i + 1]) == ""
  {
    assert authors[..i + 1] == authors[..i] + [authors[i]];
    ListsSnoc(authors[..i], authors[i]);
    FirstEmailSnoc(authors[..i], authors[i]);
  }

  /** The inner loop over the words of an affiliation: the first word holding
      an `@`, stripped of `;,.()[]`, or the empty string when no word holds one. */
  method CaptureEmail(words: seq<string>) returns (email: string)
    ensures email == match FirstAtWord(words) {
      case None => ""
      case Some(k) => Strip(words[k], EmailPunctuation)
    }
  {
    email := "";
    var j := 0;
    while j < |words|
      invariant 0 <= j <= |words|
      invariant forall k :: 0 <= k < j ==> '@' !in words[k]
    {
      if '@' in words[j] {
        email := Strip(words[j], EmailPunctuation);
        return;
      }
      j := j + 1;
    }
  }

  /** The loop over the `Author` elements: classify each affiliation, append the
      flagged authors' names and affiliations in lockstep, and capture the
      first e-mail address found in any affiliation. */
  method ScanAuthors(authors: seq<AuthorEntry>) returns (names: seq<string>, companies: seq<string>, email: string)
    ensures names == NonAcademicAuthors(authors)
    ensures companies == CompanyAffiliations(authors)
    ensures email == FirstEmail(authors)
  {
    names, companies, email := [], [], "";
    var i := 0;
    while i < |authors|
      invariant 0 <= i <= |authors|
      invariant names == NonAcademicAuthors(authors[..i])
      invariant companies == CompanyAffiliations(authors[..i])
      invariant email == FirstEmail(authors[..i])
    {
      var author := authors[i];
      var affiliation := AffiliationText(author);
      var name := FullName(author);
      if IsNonAcademic(affiliation) {
        companies := companies + [affiliation];
        names := names + [name];
      }
      if '@' in affiliation && email == "" {
        var words := Split(affiliation);
        email := CaptureEmail(words);
      }
      ScanStep(authors, i);
      i := i + 1;
    }
    assert authors[..i] == authors;
  }

  // ---------------------------------------------------------------------------
  // The record

  /** The record for `pmid`: the placeholder when fetching or parsing failed,
      otherwise the defaulted title and year and the results of the scan. */
  function PaperDetails(pmid: string, outcome: FetchOutcome): PaperRecord {
    match outcome
    case FetchFailed(cause) =>
      PaperRecord(pmid, ErrorTitle, "", [], [], ErrorPrefix + cause)
    case Fetched(doc) =>
      PaperRecord(pmid, OrDefault(doc.title, ""), OrDefault(doc.year, UnknownYear),
                  NonAcademicAuthors(doc.authors), CompanyAffiliations(doc.authors), FirstEmail(doc.authors))
  }

  /** `fetch_paper_details` once the request has been made and parsed. */
  method FetchPaperDetails(pmid: string, outcome: FetchOutcome) returns (record: PaperRecord)
    ensures record == PaperDetails(pmid, outcome)
  {
    match outcome
    case FetchFailed(cause) =>
      record := PaperRecord(pmid, ErrorTitle, "", [], [], ErrorPrefix + cause);
    case Fetched(doc) =>
      var title := OrDefault(doc.title, "");
      var pubDate := OrDefault(doc.year, UnknownYear);
      var names, companies, email := ScanAuthors(doc.authors);
      record := PaperRecord(pmid, title, pubDate, names, companies, email);
  }

  /** A failed fetch gives the placeholder record: the fixed title, an empty
      date, no authors or companies, and the error message in the e-mail column. */
  lemma FailedRecord(pmid: string, cause: string)
    ensures var r := PaperDetails(pmid, FetchFailed(cause));
      r.pubmedId == pmid && r.title == ErrorTitle && r.publicationDate == "" &&
      r.nonAcademicAuthors == [] && r.companyAffiliations == [] &&
      r.email[..|ErrorPrefix|] == ErrorPrefix && r.email[|ErrorPrefix|..] == cause
  {
  }

  /** A fetched record never has an empty date (a missing or empty year reads
      "Unknown", a missing title reads as empty), has parallel author lists, and
      has an e-mail that is empty or an `@` address with no `;,.()[]` at either end. */
  lemma FetchedRecord(pmid: string, doc: Document)
    ensures var r := PaperDetails(pmid, Fetched(doc));
      r.pubmedId == pmid &&
      r.publicationDate != "" &&
      (doc.title.None? ==> r.title == "") &&
      (doc.year.None? ==> r.publicationDate == UnknownYear) &&
      |r.nonAcademicAuthors| == |r.companyAffiliations| &&
      (r.email == "" || IsAddress(r.email))
  {
    FirstEmailShape(doc.authors);
  }

  /** The record's e-mail is empty or an `@` address with no `;,.()[]` at either end. */
  lemma {:induction false} FirstEmailShape(authors: seq<AuthorEntry>)
    ensures FirstEmail(authors) == "" || IsAddress(FirstEmail(authors))
    decreases |authors|
  {
    if authors == [] {
    } else if '@' in AffiliationText(authors[0]) {
      assert FirstEmail(authors) == EmailIn(AffiliationText(authors[0]));
    } else {
      FirstEmailShape(authors[1..]);
      assert FirstEmail(authors) == FirstEmail(authors[1..]);
    }
  }

  /** The row written out: the two lists joined with `", "`. */
  function Render(record: PaperRecord): Row {
    Row(record.pubmedId, record.title, record.publicationDate,
        Join(record.nonAcademicAuthors, ", "), Join(record.companyAffiliations, ", "), record.email)
  }

  /** A failed fetch renders as the placeholder row with empty date and author columns. */
  lemma FailedRow(pmid: string, cause: string)
    ensures Render(PaperDetails(pmid, FetchFailed(cause))) == Row(pmid, ErrorTitle, "", "", "", ErrorPrefix + cause)
  {
  }
}
