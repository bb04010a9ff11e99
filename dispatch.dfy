/**
 * `parse_and_execute` and the post-processing of `GetReferences`.
 *
 * The three HTTP endpoints are not modelled: an `Api` value stands for them, one
 * function per request, returning None where the request answers with a status
 * other than 200.
 */
module Dispatch {
  import opened Wrappers
  import opened Papers
  import opened Commands
  import opened Selection

  /** An entry of a paper's `citations` or `references` list; its id may be null. */
  datatype Ref = Ref(paperId: Option<string>)

  /** The fields of a paper-details response that the accessors read. */
  datatype Details = Details(
    abstractText: Option<string>,
    citationCount: int,
    citations: seq<Ref>,
    references: seq<Ref>)

  /** Keyword search response; a null `data` is folded into the empty list. */
  datatype SearchResponse = SearchResponse(data: seq<Paper>)

  /** Recommendation response; a null `recommendedPapers` is folded into the empty list. */
  datatype Recommendations = Recommendations(recommendedPapers: seq<Paper>)

  /** The remote service, one function per kind of request. */
  datatype Api = Api(
    keywordQuery: string -> Option<SearchResponse>,
    paperQuery: string -> Option<Recommendations>,
    paperDetails: string -> Option<Details>,
    referenceDetails: string -> Paper)   // details of one reference, restricted to title, year, abstract and count

  /** What a call can hand back. */
  datatype Answer =
    | PaperList(papers: seq<Paper>)
    | AbstractText(text: string)
    | CitationCount(count: int)
    | CitationList(citations: seq<Ref>)

  /** A call of the source as written: it either returns a value or raises. */
  datatype Outcome<T> = Raises | Returns(value: T)

  const ReferencesConsidered := 100
  const ReferencesReturned := 20

  /** Python's `s[:n]`. */
  function Take<T>(s: seq<T>, n: nat): (r: seq<T>)
    ensures |r| <= n && |r| <= |s|
    ensures r == s[..|r|]
    ensures |s| <= n ==> r == s
    ensures |s| > n ==> |r| == n
  {
    if |s| <= n then s else s[..n]
  }

  /** The ids the reference loop looks up: those that are set, in list order. */
  function LookedUpIds(refs: seq<Ref>): (ids: seq<string>)
    ensures |ids| <= |refs|
    ensures forall id :: id in ids ==> id != "" && Ref(Some(id)) in refs
    ensures forall r :: r in refs && TextIsSet(r.paperId) ==> r.paperId.value in ids
  {
    if refs == [] then []
    else
      var rest := LookedUpIds(refs[1..]);
      assert forall r :: r in refs[1..] ==> r in refs;
      if TextIsSet(refs[0].paperId) then [refs[0].paperId.value] + rest else rest
  }

  /** A reference whose id is set: the condition of the comprehension. */
  predicate HasId(r: Ref) {
    TextIsSet(r.paperId)
  }

  /** The looked-up ids are the ids of the references that have one, one per such reference, in list order. */
  lemma {:induction false} LookedUpIdsInOrder(refs: seq<Ref>)
    ensures var ids := LookedUpIds(refs);
            var withId := Select(HasId, refs);
            && |ids| == |withId|
            && forall i :: 0 <= i < |withId| ==> withId[i].paperId == Some(ids[i])
  {
    if refs != [] {
      LookedUpIdsInOrder(refs[1..]);
      var ids, rest := LookedUpIds(refs), LookedUpIds(refs[1..]);
      var withId, restWithId := Select(HasId, refs), Select(HasId, refs[1..]);
      if HasId(refs[0]) {
        assert ids == [refs[0].paperId.value] + rest;
        assert withId == [refs[0]] + restWithId;
        forall i | 0 <= i < |withId|
          ensures withId[i].paperId == Some(ids[i])
        {
          if i > 0 {
            assert withId[i] == restWithId[i - 1] && ids[i] == rest[i - 1];
          }
        }
      } else {
        assert ids == rest;
        assert withId == [] + restWithId;
      }
    }
  }

  /** The details of the first 100 references that have an id, in list order. */
  function Detailed(refs: seq<Ref>, lookup: string -> Paper): seq<Paper> {
    var ids := LookedUpIds(Take(refs, ReferencesConsidered));
    seq(|ids|, i requires 0 <= i < |ids| => lookup(ids[i]))
  }

  /** Truncate the references to 100, look up each one with an id, filter, keep the first 20. */
  function ReferencePipeline(refs: seq<Ref>, lookup: string -> Paper): seq<Paper> {
    Take(Filtered(Detailed(refs, lookup)), ReferencesReturned)
  }

  /** The pipeline returns the first min(20, k) of the k looked-up papers that pass the filter. */
  lemma ReferencePipelineComplete(refs: seq<Ref>, lookup: string -> Paper)
    ensures var kept := Filtered(Detailed(refs, lookup));
            var r := ReferencePipeline(refs, lookup);
            && |r| == (if |kept| <= 20 then |kept| else 20)
            && r == kept[..|r|]
  {
  }

  /** The pipeline's output: at most 20 papers, each passing the filter and each the lookup of a set id among the first 100 references. */
  lemma ReferencePipelineBounds(refs: seq<Ref>, lookup: string -> Paper)
    ensures |ReferencePipeline(refs, lookup)| <= 20
    ensures forall p :: p in ReferencePipeline(refs, lookup) ==>
              Keep(p) && exists id :: id in LookedUpIds(Take(refs, 100)) && p == lookup(id)
  {
    var ids := LookedUpIds(Take(refs, ReferencesConsidered));
    var detailed := Detailed(refs, lookup);
    var kept := Filtered(detailed);
    var r := Take(kept, ReferencesReturned);
    forall p | p in r
      ensures Keep(p) && exists id :: id in ids && p == lookup(id)
    {
      assert p in kept;
      FilteredMembership(detailed, p);
      var i :| 0 <= i < |detailed| && detailed[i] == p;
      assert ids[i] in ids;
    }
  }

  /** The output keeps the order of the looked-up details: it is a subsequence of them. */
  lemma ReferencePipelineOrdered(refs: seq<Ref>, lookup: string -> Paper)
    ensures var ids := LookedUpIds(Take(refs, 100));
            IsSubsequence(ReferencePipeline(refs, lookup), seq(|ids|, i requires 0 <= i < |ids| => lookup(ids[i])))
  {
    var detailed := Detailed(refs, lookup);
    FilteredIsSubsequence(detailed);
    PrefixOfSubsequence(Filtered(detailed), detailed, |ReferencePipeline(refs, lookup)|);
  }

  /** References after the hundredth are never read. */
  lemma ReferencesBeyondLimitIgnored(refs: seq<Ref>, extra: seq<Ref>, lookup: string -> Paper)
    requires |refs| >= 100
    ensures ReferencePipeline(refs + extra, lookup) == ReferencePipeline(refs, lookup)
  {
    assert Take(refs + extra, ReferencesConsidered) == Take(refs, ReferencesConsidered);
  }

  /**
   * `GetReferences` as written: the details response is indexed before it is
   * checked for None, so a failed details request raises, and the final
   * `is not None` test can only ever take its first branch.
   */
  function GetReferencesAsWritten(api: Api, paperId: string): Outcome<Option<seq<Paper>>> {
    match api.paperDetails(paperId)
    case None => Raises
    case Some(details) => Returns(Some(ReferencePipeline(details.references, api.referenceDetails)))
  }

  /** As written, the `return None` branch is dead: the function raises or returns a list. */
  lemma GetReferencesAsWrittenNeverNone(api: Api, paperId: string)
    ensures GetReferencesAsWritten(api, paperId) != Returns(None)
    ensures GetReferencesAsWritten(api, paperId).Raises? <==> api.paperDetails(paperId).None?
  {
  }

  /** `GetReferences` with the None check where it takes effect: None exactly when the details request fails. */
  function GetReferences(api: Api, paperId: string): (r: Option<seq<Paper>>)
    ensures r.None? <==> api.paperDetails(paperId).None?
    ensures r.Some? ==> |r.value| <= 20 && forall p :: p in r.value ==> Keep(p)
    ensures r.Some? ==>
              var kept := Filtered(Detailed(api.paperDetails(paperId).value.references, api.referenceDetails));
              |r.value| == (if |kept| <= 20 then |kept| else 20) && r.value == kept[..|r.value|]
  {
    match api.paperDetails(paperId)
    case None => None
    case Some(details) =>
      ReferencePipelineBounds(details.references, api.referenceDetails);
      ReferencePipelineComplete(details.references, api.referenceDetails);
      Some(ReferencePipeline(details.references, api.referenceDetails))
  }

  /** The two agree wherever the source does not raise; where it raises, the corrected version returns None. */
  lemma GetReferencesCorrection(api: Api, paperId: string)
    ensures GetReferencesAsWritten(api, paperId) == Raises ==> GetReferences(api, paperId) == None
    ensures GetReferencesAsWritten(api, paperId).Returns? ==>
              GetReferences(api, paperId) == GetReferencesAsWritten(api, paperId).value
  {
  }

  /** A non-empty paper list passed through the filter; an empty one yields None. */
  function FilteredAnswer(papers: seq<Paper>): Option<Answer> {
    if papers == [] then None else Some(PaperList(Filtered(papers)))
  }

  /** `parse_and_execute`: decode the call, then issue it; text that does not decode issues nothing. */
  function Execute(api: Api, output: string): (r: Option<Answer>)
    ensures r.Some? ==> Parse(output).Some?
    ensures r.Some? && r.value.PaperList? ==> forall p :: p in r.value.papers ==> Keep(p)
  {
    match Parse(output)
    case None => None
    case Some(command) => Run(api, command)
  }

  /** Issue one decoded call and post-process its response. */
  function Run(api: Api, command: Command): (r: Option<Answer>)
    ensures r.Some? && r.value.PaperList? ==> forall p :: p in r.value.papers ==> Keep(p)
  {
    match command
    case KeywordQuery(keyword) =>
      match api.keywordQuery(keyword) {
        case None => None
        case Some(response) =>
          FilteredAllKept(response.data);
          FilteredAnswer(response.data)
      }
    case PaperQuery(paperId) =>
      match api.paperQuery(paperId) {
        case None => None
        case Some(response) =>
          FilteredAllKept(response.recommendedPapers);
          FilteredAnswer(response.recommendedPapers)
      }
    case GetAbstract(paperId) =>
      match api.paperDetails(paperId) {
        case None => None
        case Some(details) =>
          if details.abstractText.Some? then Some(AbstractText(details.abstractText.value)) else None
      }
    case GetCitationCount(paperId) =>
      match api.paperDetails(paperId) {
        case None => None
        case Some(details) => Some(CitationCount(details.citationCount))
      }
    case GetCitations(paperId) =>
      match api.paperDetails(paperId) {
        case None => None
        case Some(details) => Some(CitationList(details.citations))
      }
    case GetReferences(paperId) =>
      var refs := GetReferences(api, paperId);
      if refs.Some? then Some(PaperList(refs.value)) else None
  }

  /** Text that does not decode produces no call and no answer. */
  lemma ExecuteUndecodable(api: Api, output: string)
    requires Parse(output).None?
    ensures Execute(api, output).None?
  {
  }

  /**
   * A keyword search: None when the request fails or `data` is empty, otherwise
   * the filtered `data`, which is a subsequence of it made of papers that pass the filter.
   */
  lemma ExecuteKeywordQuery(api: Api, output: string, keyword: string)
    requires Parse(output) == Some(KeywordQuery(keyword))
    ensures var r := Execute(api, output);
            var response := api.keywordQuery(keyword);
            && (r.None? <==> response.None? || response.value.data == [])
            && (r.Some? ==> r.value.PaperList?
                            && r.value.papers == Filtered(response.value.data)
                            && IsSubsequence(r.value.papers, response.value.data)
                            && (forall p :: p in r.value.papers <==> p in response.value.data && Keep(p)))
  {
    var response := api.keywordQuery(keyword);
    if response.Some? {
      FilteredIsSubsequence(response.value.data);
      forall p ensures p in Filtered(response.value.data) <==> p in response.value.data && Keep(p) {
        FilteredMembership(response.value.data, p);
      }
    }
  }

  /**
   * A recommendation request: None when the request fails or `recommendedPapers`
   * is empty, otherwise the filtered recommendations.
   */
  lemma ExecutePaperQuery(api: Api, output: string, paperId: string)
    requires Parse(output) == Some(PaperQuery(paperId))
    ensures var r := Execute(api, output);
            var response := api.paperQuery(paperId);
            && (r.None? <==> response.None? || response.value.recommendedPapers == [])
            && (r.Some? ==> r.value.PaperList?
                            && r.value.papers == Filtered(response.value.recommendedPapers)
                            && IsSubsequence(r.value.papers, response.value.recommendedPapers)
                            && (forall p :: p in r.value.papers <==> p in response.value.recommendedPapers && Keep(p)))
  {
    var response := api.paperQuery(paperId);
    if response.Some? {
      FilteredIsSubsequence(response.value.recommendedPapers);
      forall p ensures p in Filtered(response.value.recommendedPapers) <==> p in response.value.recommendedPapers && Keep(p) {
        FilteredMembership(response.value.recommendedPapers, p);
      }
    }
  }

  /** Asking for an abstract answers the abstract of the details response, or None when either is missing. */
  lemma ExecuteGetAbstract(api: Api, output: string, paperId: string)
    requires Parse(output) == Some(GetAbstract(paperId))
    ensures var r := Execute(api, output);
            var details := api.paperDetails(paperId);
            && (r.None? <==> details.None? || details.value.abstractText.None?)
            && (r.Some? ==> r.value == AbstractText(details.value.abstractText.value))
  {
  }

  /** Asking for a citation count answers the count of the details response, or None when the request fails. */
  lemma ExecuteGetCitationCount(api: Api, output: string, paperId: string)
    requires Parse(output) == Some(GetCitationCount(paperId))
    ensures var r := Execute(api, output);
            var details := api.paperDetails(paperId);
            && (r.None? <==> details.None?)
            && (r.Some? ==> r.value == CitationCount(details.value.citationCount))
  {
  }

  /** Asking for citations answers the citation list of the details response, unfiltered, or None when the request fails. */
  lemma ExecuteGetCitations(api: Api, output: string, paperId: string)
    requires Parse(output) == Some(GetCitations(paperId))
    ensures var r := Execute(api, output);
            var details := api.paperDetails(paperId);
            && (r.None? <==> details.None?)
            && (r.Some? ==> r.value == CitationList(details.value.citations))
  {
  }

  /** Asking for references answers at most 20 papers, all passing the filter, or None when the details request fails. */
  lemma ExecuteGetReferences(api: Api, output: string, paperId: string)
    requires Parse(output) == Some(Commands.GetReferences(paperId))
    ensures var r := Execute(api, output);
            && (r.None? <==> api.paperDetails(paperId).None?)
            && (r.Some? ==> r.value.PaperList? && |r.value.papers| <= 20
                            && (forall p :: p in r.value.papers ==> Keep(p))
                            && var kept := Filtered(Detailed(api.paperDetails(paperId).value.references, api.referenceDetails));
                               && |r.value.papers| == (if |kept| <= 20 then |kept| else 20)
                               && r.value.papers == kept[..|r.value.papers|])
  {
  }

  /**
   * Dispatch uses the corrected `GetReferences`. Against the code as written it
   * answers None exactly where the source raises, and the source's list everywhere else.
   */
  lemma ExecuteGetReferencesAsWritten(api: Api, output: string, paperId: string)
    requires Parse(output) == Some(Commands.GetReferences(paperId))
    ensures var written := GetReferencesAsWritten(api, paperId);
            && (written.Raises? <==> Execute(api, output).None?)
            && (written.Returns? ==> written.value.Some? && Execute(api, output) == Some(PaperList(written.value.value)))
  {
  }

  /** Example: `GetAbstract("X")` against a details response whose abstract is "foo" answers "foo". */
  lemma ExecuteGetAbstractExample(api: Api)
    requires api.paperDetails("X") == Some(Details(Some("foo"), 0, [], []))
    ensures Execute(api, "GetAbstract(\"X\")") == Some(AbstractText("foo"))
  {
    ParseRender(GetAbstract("X"), "");
    assert Render(GetAbstract("X")) + "" == "GetAbstract(\"X\")";
    ExecuteGetAbstract(api, "GetAbstract(\"X\")", "X");
  }

  /** Example: an unknown call name answers None, whatever the service would say. */
  lemma ExecuteNotARealCall(api: Api)
    ensures Execute(api, "NotARealCall(\"X\")") == None
  {
    ParseNotARealCall();
  }
}
