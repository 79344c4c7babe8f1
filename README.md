# PubMed paper fetcher: the per-record author scan

This project models how the PubMed paper fetcher builds one paper record. The
record is built from a parsed PubMed article by `fetch_paper_details`. The
model covers:

- **Defaults.** A missing or empty title reads as `""` and a missing or empty
  year reads as `"Unknown"`.
- **The affiliation heuristic.** An author is non-academic when the lower-cased
  affiliation holds one of the company keywords (`pharma`, `biotech`, `inc`, …)
  as a plain substring and none of the academic keywords (`university`,
  `institute`, …).
- **Lockstep accumulation.** For each non-academic author, the full name and the
  raw affiliation are appended to two parallel lists.
- **First-address capture.** The e-mail column holds the first
  whitespace-delimited word containing `@` in the first affiliation that has
  one, with `;,.()[]` stripped from both ends. This runs for every author,
  whatever the classification, and the address is never replaced once captured.
- **The placeholder record.** When the request or the XML parse fails, the
  record carries the title `"Error fetching details"` and `"Error: "` followed
  by the failure's message in the e-mail column.

The modules:

- `Wrappers`: the `Option` type, used for every element the article may lack.
- `PyStr`: the Python string operations the scan relies on:
  - `lower()` and the substring test `sub in s`;
  - `strip(chars)`, and `strip()` and `split()` without arguments;
  - `", ".join`.
- `Affiliation`: the two keyword lists and the classification predicate.
- `Paper`: the rest of the scan and the record.
  - It defines the scan as specification functions: `Flagged`,
    `NonAcademicAuthors`, `CompanyAffiliations` and `FirstEmail`.
  - The author loop is the method `ScanAuthors` and the inner word loop is the
    method `CaptureEmail`. Both are proved against those specification
    functions.
  - `FetchPaperDetails` assembles the record.
  - `Render` joins the two lists into the output row.
- `Scenarios`: worked examples on concrete affiliations and author lists.

The HTTP request and the XML parser are not modelled. Their outcome is an
input: `FetchOutcome` is either the parsed `Document` or the failure's message.

Python's `split()` and `strip()` without arguments treat every character for
which `str.isspace()` holds as whitespace. The model uses that whole set, which
is the code's behaviour, not an ASCII subset. Lower-casing is ASCII only (see
"Left out").

## Model

| member | source | states |
|---|---|---|
| Affiliation.ClassificationIff | pubmed_paper_fetcher/core.py:60-62 | Restates the definition of `IsNonAcademic` with `ContainsAny` unfolded: non-academic exactly when the lower-cased text contains some non-academic keyword and no academic one |
| Affiliation.AcademicVeto | pubmed_paper_fetcher/core.py:62 | Any academic keyword in the lower-cased affiliation rules out the non-academic classification, whatever company keywords it also has |
| Affiliation.AcademicPhraseVetoes | pubmed_paper_fetcher/core.py:8-10 | An academic keyword in one part of an affiliation vetoes it whatever text surrounds that part |
| Affiliation.ClassificationIgnoresCase | pubmed_paper_fetcher/core.py:60-62 | The classification of an affiliation and of its lower-cased form agree |
| PyStr.LowerChar | pubmed_paper_fetcher/core.py:60 | The result is never an upper-case letter; an upper-case letter moves by the fixed distance from `A` to `a`; every other character is kept |
| PyStr.LowerIdempotent | pubmed_paper_fetcher/core.py:60 | Lower-casing twice is lower-casing once |
| PyStr.LowerAppend | pubmed_paper_fetcher/core.py:60 | Lower-casing distributes over concatenation |
| PyStr.ContainsWithin | pubmed_paper_fetcher/core.py:62 | A substring occurrence survives any text added before or after |
| PyStr.AbsentChar | pubmed_paper_fetcher/core.py:62 | A text cannot contain a keyword that uses a character the text lacks |
| PyStr.AbsentPair | pubmed_paper_fetcher/core.py:62 | A text cannot contain a keyword with two adjacent characters that are never adjacent in the text |
| PyStr.NoPairAppend | pubmed_paper_fetcher/core.py:62 | Two texts that never have one character directly followed by another, joined where that pair does not straddle the join, do not have it either |
| PyStr.Span | pubmed_paper_fetcher/core.py:59 | The length of the longest prefix made only of characters inside (or only outside) a set: every character before it qualifies and the one at it does not |
| PyStr.TrailingSpan | pubmed_paper_fetcher/core.py:70 | The length of the longest suffix made of characters of the set: every character in it belongs and the one before it does not |
| PyStr.Strip | pubmed_paper_fetcher/core.py:70 | The result is a slice of the input with only characters of the set cut from both ends, and it neither starts nor ends with one of them |
| PyStr.StripUnique | pubmed_paper_fetcher/core.py:59 | Any slice that cuts only characters of the set and keeps none at its ends is the stripped string |
| PyStr.StripKeeps | pubmed_paper_fetcher/core.py:70 | Stripping never removes a character outside the set, so a stripped word with `@` keeps it |
| PyStr.FieldsTokens | pubmed_paper_fetcher/core.py:67 | Every word of `split()` is non-empty and holds no whitespace |
| PyStr.FieldsConcat | pubmed_paper_fetcher/core.py:67 | The words of `split()`, concatenated, are exactly the non-whitespace characters of the text in order |
| PyStr.FieldsKeep | pubmed_paper_fetcher/core.py:65-67 | Every non-whitespace character of the text, `@` in particular, lands in some word |
| PyStr.FieldsFrom | pubmed_paper_fetcher/core.py:67 | Every character of a word comes from the text |
| PyStr.FieldsSkipBlank | pubmed_paper_fetcher/core.py:67 | Leading whitespace produces no word |
| PyStr.FieldsWord | pubmed_paper_fetcher/core.py:67 | A word followed by whitespace is the first word of `split()`, and the rest is split on its own |
| PyStr.FieldsOfToken | pubmed_paper_fetcher/core.py:67 | A non-empty text without whitespace splits into itself alone |
| PyStr.FieldsSplitAt | pubmed_paper_fetcher/core.py:67 | A whitespace character cuts the text into two parts that split on their own: no word runs across whitespace. With `FieldsOfToken` and `FieldsSkipBlank`, this fixes `split()` on every input |
| PyStr.FieldsCut | pubmed_paper_fetcher/core.py:67 | Text that starts with whitespace splits apart from whatever precedes it |
| PyStr.WithoutAppend | pubmed_paper_fetcher/core.py:67 | Dropping whitespace distributes over concatenation |
| PyStr.Join | pubmed_paper_fetcher/core.py:77-78 | Joining no items gives the empty string and joining one item gives that item |
| Paper.OrDefault | pubmed_paper_fetcher/core.py:48-49 | A present, non-empty text is kept; otherwise (absent or empty) the default is used |
| Paper.FullNameParts | pubmed_paper_fetcher/core.py:57-59 | With trimmed parts, the name is fore name, one space and last name; with one part missing or empty it is the other part alone |
| Paper.FlaggedAppend | pubmed_paper_fetcher/core.py:55-64 | The flagged authors of two lists in sequence are those of the first followed by those of the second |
| Paper.FlaggedSnoc | pubmed_paper_fetcher/core.py:62-64 | Scanning one more author adds it to the flagged authors exactly when its affiliation is non-academic |
| Paper.FlaggedPositions | pubmed_paper_fetcher/core.py:55-64 | There is one position per flagged author, and the `i`-th flagged author is the author at the `i`-th position |
| Paper.FlaggedPositionsIncrease | pubmed_paper_fetcher/core.py:55-64 | The positions strictly increase, so flagged authors keep document order |
| Paper.FlaggedAreNonAcademic | pubmed_paper_fetcher/core.py:62 | Every flagged author's affiliation is non-academic |
| Paper.FlaggedPositionsComplete | pubmed_paper_fetcher/core.py:62-64 | Every author with a non-academic affiliation has its position in the list |
| Paper.FlaggedPositionsExact | pubmed_paper_fetcher/core.py:62-64 | A position is in the list if and only if that author's affiliation is non-academic |
| Paper.Lockstep | pubmed_paper_fetcher/core.py:51-64 | The names and the companies have equal length. Entry `i` of each comes from the same flagged author; the company is that author's raw affiliation. The entries follow document order |
| Paper.ListsSnoc | pubmed_paper_fetcher/core.py:62-64 | One more author extends both lists by its name and raw affiliation when flagged, and leaves both unchanged otherwise |
| Paper.FirstAtWord | pubmed_paper_fetcher/core.py:68-69 | The index found holds `@` and no earlier word does; when none is found, no word holds `@` |
| Paper.EmailIn | pubmed_paper_fetcher/core.py:65-70 | An affiliation with `@` gives an address: it holds `@` and has no `;,.()[]` at either end. An affiliation without `@` gives the empty string |
| Paper.EmailInFirstWord | pubmed_paper_fetcher/core.py:67-71 | The address is the first `@` word of the split affiliation, stripped of `;,.()[]`; later words are not consulted |
| Paper.FirstEmailEmpty | pubmed_paper_fetcher/core.py:65 | The e-mail is empty if and only if no affiliation contains `@` |
| Paper.FirstEmailIsFirstAddress | pubmed_paper_fetcher/core.py:62-70 | The e-mail is the address of the first author whose affiliation has `@`, whatever that author's classification |
| Paper.FirstEmailKept | pubmed_paper_fetcher/core.py:65 | Once the e-mail is non-empty, authors scanned later never change it |
| Paper.FirstEmailSnoc | pubmed_paper_fetcher/core.py:65-71 | One more author sets the e-mail only if none was captured yet and its affiliation has `@` |
| Paper.FirstEmailShape | pubmed_paper_fetcher/core.py:65-70 | The e-mail is empty or an address with `@` and no `;,.()[]` at either end |
| Paper.ScanStep | pubmed_paper_fetcher/core.py:55-71 | One loop iteration: both lists grow by the author's entry exactly when it is flagged. The e-mail is kept if already set, set to the author's address if the affiliation has `@`, and stays empty otherwise |
| Paper.CaptureEmail | pubmed_paper_fetcher/core.py:67-71 | The inner loop stops at the first word holding `@` and returns it stripped of `;,.()[]`. It returns the empty string when no word holds `@` |
| Paper.ScanAuthors | pubmed_paper_fetcher/core.py:51-71 | The author loop yields exactly the specification lists of names and companies and the specification e-mail |
| Paper.FetchPaperDetails | pubmed_paper_fetcher/core.py:27-80 | The record is the placeholder on failure, and otherwise the defaulted title and year with the results of the scan |
| Paper.FailedRecord | pubmed_paper_fetcher/core.py:38-46 | A failed fetch has the fixed error title, an empty date, no names or companies, and an e-mail of `"Error: "` followed by the failure's message |
| Paper.FetchedRecord | pubmed_paper_fetcher/core.py:48-80 | A fetched record keeps the identifier and never has an empty date. A missing title is `""` and a missing year is `"Unknown"`. The two lists have equal length. The e-mail is empty or a stripped `@` address |
| Paper.FailedRow | pubmed_paper_fetcher/core.py:38-46 | A failed fetch renders as the placeholder row with empty date, author and company columns |
| Scenarios.NovartisIsCompany | pubmed_paper_fetcher/core.py:5-7 | "Novartis Pharma AG" is non-academic: it mentions "pharma" and no academic keyword |
| Scenarios.BiotechCorpIsCompany | pubmed_paper_fetcher/core.py:62 | "Biotech Corp" is non-academic |
| Scenarios.HopkinsIsAcademic | pubmed_paper_fetcher/core.py:8-10 | "Dept. of Medicine, Johns Hopkins University" is academic, since "university" vetoes it |
| Scenarios.IncInsideIncrease | pubmed_paper_fetcher/core.py:6 | Matching has no word boundaries: "inc" inside "Increase" makes it non-academic |
| Scenarios.EmailAfterTag | pubmed_paper_fetcher/core.py:67-70 | An address after a leading word, closed by one punctuation mark, is captured without the mark |
| Scenarios.ContactAddress | pubmed_paper_fetcher/core.py:67-70 | The address in "Contact: jane.doe@biotech-corp.com; Biotech Corp" is captured without its semicolon |
| Scenarios.ContactIsCompany | pubmed_paper_fetcher/core.py:60-64 | The same affiliation, "Contact: jane.doe@biotech-corp.com; Biotech Corp", is non-academic: "biotech" occurs in it and no academic keyword does |
| Scenarios.ContactNotAcademic | pubmed_paper_fetcher/core.py:8-10 | No academic keyword occurs in the lower-cased contact affiliation; "center", "centre" and "department" are ruled out because it never has "ce" or "de" |
| Scenarios.SecondAuthorWithAddressWins | pubmed_paper_fetcher/core.py:65-71 | With addresses only at authors 2 and 4, the record takes author 2's address, whatever either author's classification |
| Scenarios.FailedFetchRow | pubmed_paper_fetcher/core.py:39-45 | A failed fetch of record "999" renders with the error title, empty author columns and an e-mail column starting with "Error: " |

## Left out

- `fetch_pubmed_ids` (pubmed_paper_fetcher/core.py:12-25) is left out. It is a network request to the PubMed search service, with JSON decoding done by a library.
- The HTTP request, `raise_for_status`, the 10-second timeout and `ET.fromstring` in `fetch_paper_details` are left out. Their combined outcome is the `FetchOutcome` input.
- The XPath lookups `findtext` and `findall` are not modelled as such. `Document` holds what they return: the first title, the first year, and every author. Each author carries its fore name, last name and first affiliation, each optional.
- The failure's message comes from library code. It is an opaque string `cause`, and the e-mail column of the placeholder is `"Error: "` followed by it.
- pubmed_paper_fetcher/cli.py is not part of this model. It handles command-line arguments, builds the pandas table and writes the CSV or console output.
- PyStr.Lower: lower-cases ASCII letters only, so it differs from Python's `str.lower()` on non-ASCII text. Python also maps non-ASCII capitals, expands U+0130 into two characters and applies a context-sensitive rule to a final capital sigma, so `LowerAppend` holds for this `Lower` only. The classification is still exact for these keyword lists. Every keyword is ASCII, and only two non-ASCII characters lower-case to anything containing an ASCII character. U+212A (Kelvin sign) becomes `k`, and no keyword contains `k`. U+0130 becomes `i` followed by U+0307. No keyword ends in `i`, and every `i` inside a keyword is followed by an ASCII letter, never by U+0307. Every other non-ASCII character lower-cases to non-ASCII text, which no keyword can match.
- PyStr.Join: states only the empty and single-item cases. The joined columns cannot be split back into the lists because an affiliation may itself contain `", "`. The model therefore keeps the lists as sequences and joins them only in `Render`.
- Paper.CaptureEmail: the source's `break` out of the word loop becomes a `return` from the method. Nothing follows the loop, so the effect is the same.
