/**
 * Paper records and the heuristic relevance filter `paper_filter`.
 *
 * Optional fields follow Python truthiness explicitly: an integer field counts as
 * set only when it is present and non-zero, a text field only when it is present
 * and non-empty.
 */
module Papers {
  import opened Wrappers
  import opened Text
  import opened Selection

  /** A paper record as the search, recommendation and detail endpoints return it. */
  datatype Paper = Paper(
    paperId: string,
    title: string,
    year: Option<int>,
    citationCount: Option<int>,
    abstractText: Option<string>,
    tldr: Option<string>,      // the text of the `tldr` object, when that object and its text exist
    score: Option<string>)     // the relevance score, already rendered with `str`

  /** Truthiness of an optional integer: None and 0 are false. */
  predicate IntIsSet(v: Option<int>) {
    v.Some? && v.value != 0
  }

  /** Truthiness of an optional string: None and "" are false. */
  predicate TextIsSet(v: Option<string>) {
    v.Some? && v.value != ""
  }

  const EarliestYear := 2022
  const MaxExcludedCitations := 10

  /** The text the keyword test looks at: the abstract when it is set, else the title. */
  function ScreenedText(p: Paper): string {
    if TextIsSet(p.abstractText) then p.abstractText.value else p.title
  }

  predicate TooOld(p: Paper) {
    IntIsSet(p.year) && p.year.value < EarliestYear
  }

  predicate TooFewCitations(p: Paper) {
    IntIsSet(p.citationCount) && p.citationCount.value <= MaxExcludedCitations
  }

  /** Case-insensitive test for the words that mark surveys, reviews and position papers. */
  predicate MentionsExcludedKind(text: string) {
    var lowered := Lower(text);
    Contains(lowered, "survey") || Contains(lowered, "review") || Contains(lowered, "position paper")
  }

  /** The per-paper criterion: a paper survives when none of the three exclusions applies. */
  predicate Keep(p: Paper) {
    !TooOld(p) && !TooFewCitations(p) && !MentionsExcludedKind(ScreenedText(p))
  }

  /** The survivors of `papers`, in their original order. */
  function Filtered(papers: seq<Paper>): seq<Paper> {
    Select(Keep, papers)
  }

  /** `paper_filter`: one pass with an accumulator, skipping a paper at the first exclusion that applies. */
  method PaperFilter(papers: seq<Paper>) returns (filtered: seq<Paper>)
    ensures filtered == Filtered(papers)
  {
    filtered := [];
    for i := 0 to |papers|
      invariant filtered == Filtered(papers[..i])
    {
      var paper := papers[i];
      assert papers[..i + 1] == papers[..i] + [paper];
      FilteredDistributes(papers[..i], [paper]);
      assert [paper][1..] == [];
      assert Filtered([paper]) == (if Keep(paper) then [paper] else []) + Select(Keep, []);
      var text := if TextIsSet(paper.abstractText) then paper.abstractText.value else paper.title;
      if IntIsSet(paper.year) && paper.year.value < EarliestYear {
        continue;
      }
      if IntIsSet(paper.citationCount) && paper.citationCount.value <= MaxExcludedCitations {
        continue;
      }
      var lowered := Lower(text);
      if Contains(lowered, "survey") || Contains(lowered, "review") || Contains(lowered, "position paper") {
        continue;
      }
      filtered := filtered + [paper];
    }
    assert papers[..|papers|] == papers;
  }

  /** Filtering is per element, so it distributes over concatenation. */
  lemma FilteredDistributes(a: seq<Paper>, b: seq<Paper>)
    ensures Filtered(a + b) == Filtered(a) + Filtered(b)
  {
    SelectDistributes(Keep, a, b);
  }

  /** A paper is in the output exactly when it is in the input and passes the criterion. */
  lemma FilteredMembership(papers: seq<Paper>, p: Paper)
    ensures p in Filtered(papers) <==> p in papers && Keep(p)
  {
    SelectMembership(Keep, papers, p);
  }

  /** Every survivor passes the criterion. */
  lemma FilteredAllKept(papers: seq<Paper>)
    ensures forall p :: p in Filtered(papers) ==> Keep(p)
  {
    forall p | p in Filtered(papers)
      ensures Keep(p)
    {
      SelectMembership(Keep, papers, p);
    }
  }

  /** The output keeps the input's order and neither adds nor duplicates anything. */
  lemma FilteredIsSubsequence(papers: seq<Paper>)
    ensures IsSubsequence(Filtered(papers), papers)
  {
    SelectIsSubsequence(Keep, papers);
  }

  /** Filtering twice is filtering once. */
  lemma FilteredIdempotent(papers: seq<Paper>)
    ensures Filtered(Filtered(papers)) == Filtered(papers)
  {
    SelectIdempotent(Keep, papers);
  }

  /** A paper with a set year before 2022 never survives, whatever the list. */
  lemma OldPaperDropped(papers: seq<Paper>, p: Paper)
    requires IntIsSet(p.year) && p.year.value < 2022
    ensures p !in Filtered(papers)
  {
    FilteredMembership(papers, p);
  }

  /** A paper with a set citation count of at most 10 never survives, whatever the list. */
  lemma RarelyCitedPaperDropped(papers: seq<Paper>, p: Paper)
    requires IntIsSet(p.citationCount) && p.citationCount.value <= 10
    ensures p !in Filtered(papers)
  {
    FilteredMembership(papers, p);
  }

  /** A missing year, a null year and a year of 0 all count as "no year": none of them excludes a paper. */
  lemma UnsetYearIgnored(p: Paper)
    requires !IntIsSet(p.year)
    ensures Keep(p) <==> Keep(p.(year := None))
    ensures Keep(p) <==> !TooFewCitations(p) && !MentionsExcludedKind(ScreenedText(p))
  {
  }

  /** A missing, null or zero citation count does not exclude a paper. */
  lemma UnsetCitationCountIgnored(p: Paper)
    requires !IntIsSet(p.citationCount)
    ensures Keep(p) <==> Keep(p.(citationCount := None))
    ensures Keep(p) <==> !TooOld(p) && !MentionsExcludedKind(ScreenedText(p))
  {
  }

  /** The keyword test reads the abstract when it is non-empty and the title otherwise, ignoring case. */
  lemma KeywordTestUsesAbstractElseTitle(p: Paper)
    ensures TextIsSet(p.abstractText) ==> ScreenedText(p) == p.abstractText.value
    ensures !TextIsSet(p.abstractText) ==> ScreenedText(p) == p.title
    ensures MentionsExcludedKind(ScreenedText(p)) <==> MentionsExcludedKind(Lower(ScreenedText(p)))
  {
    LowerIdempotent(ScreenedText(p));
  }

  lemma LowerIdempotent(s: string)
    ensures Lower(Lower(s)) == Lower(s)
  {
  }

  /** Example: a recent, well-cited survey is dropped by the keyword test. */
  lemma SurveyDropped()
    ensures !Keep(Paper("p", "T", Some(2023), Some(50), Some("We present a survey of..."), None, None))
  {
    var text := "We present a survey of...";
    var lowered := Lower(text);
    assert lowered[13..19] == "survey";
    assert OccursAt(lowered, "survey", 13);
    ContainsIffOccurs(lowered, "survey");
  }

  /** Example: a recent, well-cited method paper survives. */
  lemma MethodPaperKept(p: Paper)
    requires p == Paper("p", "T", Some(2023), Some(50), Some("We present a new method..."), None, None)
    ensures Keep(p)
  {
    MethodAbstractClean("We present a new method...");
  }

  lemma MethodAbstractClean(text: string)
    requires text == "We present a new method..."
    ensures !MentionsExcludedKind(text)
  {
    ExcludedWordAbsent(text, "survey", 'u', 'U');
    ExcludedWordAbsent(text, "review", 'v', 'V');
    ExcludedWordAbsent(text, "position paper", 'i', 'I');
  }

  /** Each excluded word has a letter, given in both cases, that the plain abstract lacks, so the word is not in it. */
  lemma ExcludedWordAbsent(text: string, keyword: string, lower: char, upper: char)
    requires text == "We present a new method..."
    requires || (keyword == "survey" && lower == 'u' && upper == 'U')
             || (keyword == "review" && lower == 'v' && upper == 'V')
             || (keyword == "position paper" && lower == 'i' && upper == 'I')
    ensures !Contains(Lower(text), keyword)
  {
    MethodAbstractLetters(text);
    assert lower in keyword by {
      if keyword == "survey" {
        assert keyword[1] == 'u';
      } else if keyword == "review" {
        assert keyword[2] == 'v';
      } else {
        assert keyword[3] == 'i';
      }
    }
    NotMentioned(text, keyword, lower, upper);
  }

  /** The plain abstract uses no letter from i to l and none from u to v, in either case. */
  lemma MethodAbstractLetters(text: string)
    requires text == "We present a new method..."
    ensures forall i :: 0 <= i < |text| ==>
              'a' <= text[i] <= 'h' || 'm' <= text[i] <= 't' || text[i] == 'w' || text[i] == 'W' || text[i] == ' ' || text[i] == '.'
  {
  }

  /** A keyword with a letter that the text lacks in both cases is not found in the lowered text. */
  lemma NotMentioned(text: string, keyword: string, lower: char, upper: char)
    requires 'a' <= lower <= 'z' && upper as int == lower as int - 32
    requires lower in keyword && lower !in text && upper !in text
    ensures !Contains(Lower(text), keyword)
  {
    LowerAvoids(text, lower, upper);
    ContainsNeedsChar(Lower(text), keyword, lower);
  }

  /** Example: without year and citation count, a paper with a clean abstract survives. */
  lemma UndatedUncitedPaperKept(p: Paper)
    requires p == Paper("p", "T", None, None, Some("We present a new method..."), None, None)
    ensures Keep(p)
  {
    MethodAbstractClean("We present a new method...");
  }
}
