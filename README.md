# Literature-review tools: filter, call decoder, dispatcher and formatter

This project models the core of `lit_review_tools.py`, a small helper that lets a
language model search the literature through the Semantic Scholar API. The
model writes a call such as `KeywordQuery("prompting")`, the tool decodes it,
issues the matching request, screens the returned papers with a heuristic
filter and renders them as text for the next prompt.

The Dafny modules follow the parts of the source:

- `Wrappers`: the `Option` type. It stands for Python's `None`.
- `Text`: ASCII versions of the string operations the source uses. These are
  `str.lower`, the substring test `in` and `str.strip`.
- `Selection`: order-preserving selection from a sequence, and the
  subsequence relation. The filter is built on these.
- `Papers`: the paper record and `paper_filter`.
  - Python truthiness is spelled out. An integer field counts only when it is
    present and non-zero. A text field counts only when it is present and
    non-empty.
  - `PaperFilter` is the source's loop. It is proved equal to the
    specification `Filtered`.
  - Lemmas cover the three exclusion rules, membership, order and idempotence.
- `Commands`: the call syntax that `parse_and_execute` accepts.
  - The names are tried in the source's order, and each match is anchored at
    the start.
  - `Parse` is characterised completely. It returns a call exactly when the
    text starts with that call rendered and the argument is non-empty and free
    of double quotes. Whatever follows the closing `")` is ignored.
- `Dispatch`: `parse_and_execute` and the post-processing in `GetReferences`.
  - The remote service is an `Api` value with one function per request kind.
    A request that does not answer 200 returns `None`.
- `Formatting`: `format_papers_for_printing`.
  - The method keeps the source's loop and its one `+=` per line.
  - It is proved equal to a block-by-block specification.
  - The shape of each block is proved: the header lines, at most one of
    tldr/abstract, the score line and the closing blank line.

## Model

| member | source | states |
|---|---|---|
| `Text.Lower` | lit_review_tools.py:97 | lower-casing keeps the length, leaves no upper-case letter, changes no other character and maps each upper-case letter to its lower-case partner |
| `Text.LowerAvoids` | lit_review_tools.py:97 | a lower-case letter absent from the text, whose upper-case partner is also absent, is absent from the lower-cased text |
| `Text.ContainsIffOccurs` | lit_review_tools.py:97 | the substring test `pat in s` holds exactly when `pat` occurs at some position of `s` |
| `Text.ContainsNeedsChar` | lit_review_tools.py:97 | a pattern with a character that the text lacks is not contained in it |
| `Text.TrimStart` | lit_review_tools.py:147-152 | stripping leading whitespace leaves no leading whitespace and never lengthens the text |
| `Text.TrimEnd` | lit_review_tools.py:147-152 | stripping trailing whitespace leaves no trailing whitespace and never lengthens the text |
| `Text.Trim` | lit_review_tools.py:147-152 | a stripped value is empty or begins and ends with a non-whitespace character |
| `Text.TrimStartRemovesSpace` | lit_review_tools.py:147-152 | leading stripping removes a prefix made only of whitespace |
| `Text.TrimEndRemovesSpace` | lit_review_tools.py:147-152 | trailing stripping removes a suffix made only of whitespace |
| `Text.TrimFramed` | lit_review_tools.py:147-152 | the stripped value is a contiguous piece of the original |
| `Text.TrimOfFramed` | lit_review_tools.py:147-152 | whitespace around a core that begins and ends with non-whitespace is exactly what strip removes |
| `Text.TrimStartOfFramed` | lit_review_tools.py:147-152 | leading whitespace before a text with a non-whitespace first character is exactly what leading stripping removes |
| `Text.TrimEndOfFramed` | lit_review_tools.py:147-152 | trailing whitespace after a text with a non-whitespace last character is exactly what trailing stripping removes |
| `Text.TrimIdempotent` | lit_review_tools.py:147-152 | stripping twice is stripping once |
| `Selection.SelectDistributes` | lit_review_tools.py:90-100 | selecting from a concatenation concatenates the selections |
| `Selection.SelectMembership` | lit_review_tools.py:90-100 | an element survives exactly when it is in the input and passes the test |
| `Selection.SelectIsSubsequence` | lit_review_tools.py:90-100 | the selection keeps the input's order: it is a subsequence of the input |
| `Selection.PrefixOfSubsequence` | lit_review_tools.py:81 | any prefix of a subsequence is still a subsequence |
| `Selection.SelectAllPass` | lit_review_tools.py:90-100 | when every element passes, the selection is the whole input |
| `Selection.SelectIdempotent` | lit_review_tools.py:90-100 | selecting twice is selecting once |
| `Papers.ScreenedText` | lit_review_tools.py:92 | the text screened for keywords: the abstract when it is truthy, else the title |
| `Papers.Keep` | lit_review_tools.py:93-98 | a paper survives when its year is unset or at least 2022, its citation count is unset or above 10, and its screened text mentions no excluded word |
| `Papers.Filtered` | lit_review_tools.py:88-100 | the specification of the filter: the papers that survive, in input order |
| `Papers.PaperFilter` | lit_review_tools.py:88-100 | the loop with its three `continue` tests and the append returns exactly the papers that pass all three exclusions, in order |
| `Papers.FilteredDistributes` | lit_review_tools.py:88-100 | filtering a concatenation concatenates the filtered parts |
| `Papers.FilteredMembership` | lit_review_tools.py:91-99 | a paper is in the output exactly when it is in the input and passes the filter |
| `Papers.FilteredAllKept` | lit_review_tools.py:91-99 | every paper of the output passes the filter |
| `Papers.FilteredIsSubsequence` | lit_review_tools.py:88-100 | the output keeps the input's order |
| `Papers.FilteredIdempotent` | lit_review_tools.py:88-100 | filtering an already filtered list changes nothing |
| `Papers.OldPaperDropped` | lit_review_tools.py:93-94 | a paper with a set year before 2022 never survives |
| `Papers.RarelyCitedPaperDropped` | lit_review_tools.py:95-96 | a paper with a set citation count of at most 10 never survives |
| `Papers.UnsetYearIgnored` | lit_review_tools.py:93 | a missing or zero year skips the year test, so the other two tests alone decide |
| `Papers.UnsetCitationCountIgnored` | lit_review_tools.py:95 | a missing or zero citation count skips the count test, so the other two tests alone decide |
| `Papers.KeywordTestUsesAbstractElseTitle` | lit_review_tools.py:92-97 | the keyword test reads the abstract when it is set and the title otherwise, and it ignores case |
| `Papers.LowerIdempotent` | lit_review_tools.py:97 | lower-casing twice is lower-casing once |
| `Papers.SurveyDropped` | lit_review_tools.py:97-98 | a recent, well-cited paper whose abstract says "survey" is dropped |
| `Papers.MethodPaperKept` | lit_review_tools.py:91-99 | a recent, well-cited paper with a plain abstract survives |
| `Papers.MethodAbstractClean` | lit_review_tools.py:97 | that plain abstract mentions none of the three excluded words |
| `Papers.ExcludedWordAbsent` | lit_review_tools.py:97 | none of "survey", "review", "position paper" is in the lower-cased plain abstract |
| `Papers.MethodAbstractLetters` | lit_review_tools.py:97 | the plain abstract avoids the letters i–l and u–v in both cases, which the excluded words need |
| `Papers.NotMentioned` | lit_review_tools.py:97 | a keyword whose letter is absent from a text in both cases is not contained in the lower-cased text |
| `Papers.UndatedUncitedPaperKept` | lit_review_tools.py:92-99 | a paper without year or citation count survives on its abstract alone |
| `Commands.MatchArgument` | lit_review_tools.py:105-106 | the anchored `\("([^"]+)"\)` after a name: `("`, a greedy non-empty quote-free run, then `")`; its capture group or None |
| `Commands.Parse` | lit_review_tools.py:104-141 | the decoder: the six `startswith` tests in source order, each followed only by its own anchored match, with None when nothing matches |
| `Commands.QuoteFreeRun` | lit_review_tools.py:105 | the greedy `[^"]+` consumes the longest quote-free prefix: no quote inside it, and it stops at the end or at a quote |
| `Commands.MatchArgumentRender` | lit_review_tools.py:105-106 | the anchored match of `("a")`, followed by anything, captures exactly `a` when `a` is non-empty and quote-free |
| `Commands.MatchArgumentSound` | lit_review_tools.py:105-106 | a successful match captures a non-empty, quote-free argument, and the text starts with that argument quoted and parenthesised |
| `Commands.NamePrefixUnique` | lit_review_tools.py:104-135 | no call name starts another, so at most one `startswith` test can succeed on a text |
| `Commands.ParseUnfold` | lit_review_tools.py:104-139 | a decoded call's name starts the text, and the anchored match after the name captures the call's argument |
| `Commands.ParseNamed` | lit_review_tools.py:104-139 | once a text starts with a call name, decoding is decided by that name's match alone: the `elif` chain never reaches another name |
| `Commands.ParseRender` | lit_review_tools.py:104-139 | a rendered call with a valid argument, followed by any text, decodes to that call |
| `Commands.MatchedCall` | lit_review_tools.py:105-107 | a name followed by a successful argument match means the text starts with the rendered call and the argument is valid |
| `Commands.ParseSound` | lit_review_tools.py:104-139 | whatever decodes has a valid argument, and the text starts with the decoded call rendered |
| `Commands.ParseCharacterization` | lit_review_tools.py:104-141 | decoding yields a call exactly when the text starts with that call rendered and its argument is valid |
| `Commands.ParseUnknownName` | lit_review_tools.py:104-141 | text starting with none of the six names decodes to nothing |
| `Commands.ParseEmptyArgument` | lit_review_tools.py:105-107 | `Name("")` decodes to nothing, whatever follows it |
| `Commands.QuoteFreeRunStops` | lit_review_tools.py:105 | the greedy quote-free run over a quote-free text followed by a quote or the end is exactly that text |
| `Commands.MatchArgumentUnclosed` | lit_review_tools.py:105-106 | the anchored match fails when the argument's closing quote is missing or not followed by `)` |
| `Commands.ParseUnclosedArgument` | lit_review_tools.py:105-107 | a quote-free argument followed by the end of the text, or by a quote that `)` does not follow (as in `KeywordQuery("ab" )`), decodes to nothing |
| `Commands.ParseNotARealCall` | lit_review_tools.py:104-141 | `NotARealCall("X")` decodes to nothing |
| `Dispatch.Take` | lit_review_tools.py:77 | a slice `s[:n]` is a prefix of `s` of length at most `n`, and all of `s` when `s` is short enough |
| `Dispatch.LookedUpIds` | lit_review_tools.py:80 | the looked-up ids are the non-empty ids of the references, each coming from a reference and each such reference contributing its id |
| `Dispatch.HasId` | lit_review_tools.py:80 | the comprehension's condition `if ref["paperId"]`: the reference's id is non-null and non-empty |
| `Dispatch.LookedUpIdsInOrder` | lit_review_tools.py:80 | the looked-up ids are the ids of the references that have one, one per such reference, in list order |
| `Dispatch.Detailed` | lit_review_tools.py:77-80 | the details of the first 100 references that have an id, looked up in list order |
| `Dispatch.ReferencePipeline` | lit_review_tools.py:77-81 | truncate to 100 references, look up those with an id, filter, keep the first 20 |
| `Dispatch.ReferencePipelineComplete` | lit_review_tools.py:81 | the pipeline returns exactly the first min(20, k) of the k looked-up papers that pass the filter |
| `Dispatch.ReferencePipelineBounds` | lit_review_tools.py:77-81 | the reference pipeline returns at most 20 papers, each passing the filter and each the lookup of a set id among the first 100 references |
| `Dispatch.ReferencePipelineOrdered` | lit_review_tools.py:80-81 | the returned papers keep the order of the looked-up references |
| `Dispatch.ReferencesBeyondLimitIgnored` | lit_review_tools.py:77 | references after the hundredth do not affect the result |
| `Dispatch.GetReferencesAsWritten` | lit_review_tools.py:74-86 | the code as written: a failed details request raises at line 77; otherwise the pipeline's list |
| `Dispatch.GetReferencesAsWrittenNeverNone` | lit_review_tools.py:76-86 | as written, the function raises exactly when the details request fails and never returns None |
| `Dispatch.GetReferences` | lit_review_tools.py:74-86 | corrected: None exactly when the details request fails, otherwise the first min(20, k) of the k looked-up references that pass the filter, all passing it |
| `Dispatch.GetReferencesCorrection` | lit_review_tools.py:74-86 | the corrected function returns None where the code as written raises, and agrees with it everywhere else |
| `Dispatch.FilteredAnswer` | lit_review_tools.py:109-111 | a truthy result list is passed through the filter; an empty one gives no answer |
| `Dispatch.Execute` | lit_review_tools.py:102-141 | an answer is produced only for text that decodes, and every paper list it answers passes the filter; a `GetReferences` call goes to the corrected `GetReferences` |
| `Dispatch.Run` | lit_review_tools.py:104-139 | every paper list that an issued call answers passes the filter; a `GetReferences` call goes to the corrected `GetReferences`, which answers None where the source raises |
| `Dispatch.ExecuteUndecodable` | lit_review_tools.py:104-141 | text that does not decode produces no answer |
| `Dispatch.ExecuteKeywordQuery` | lit_review_tools.py:104-111 | a keyword query answers None when the request fails or `data` is empty, and otherwise the filtered `data`: the papers of `data` that pass the filter, in order and with their repetitions |
| `Dispatch.ExecutePaperQuery` | lit_review_tools.py:112-119 | a recommendation query answers None when the request fails or the list is empty, and otherwise the filtered recommendations: those that pass the filter, in order and with their repetitions |
| `Dispatch.ExecuteGetAbstract` | lit_review_tools.py:120-124 | an abstract request answers the abstract, or None when the details request fails or the abstract is null |
| `Dispatch.ExecuteGetCitationCount` | lit_review_tools.py:125-129 | a citation-count request answers the count, or None when the details request fails |
| `Dispatch.ExecuteGetCitations` | lit_review_tools.py:130-134 | a citations request answers the unfiltered citation list, or None when the details request fails |
| `Dispatch.ExecuteGetReferences` | lit_review_tools.py:135-139 | a references request answers the first min(20, k) of the k looked-up references that pass the filter; it answers None exactly when the details request fails, which is the corrected behaviour (the source raises there) |
| `Dispatch.ExecuteGetReferencesAsWritten` | lit_review_tools.py:135-139 | dispatching a references call answers None exactly where the code as written raises, and the code's list everywhere else |
| `Dispatch.ExecuteGetAbstractExample` | lit_review_tools.py:120-124 | `GetAbstract("X")` answers "foo" against a service whose details for X carry the abstract "foo" |
| `Dispatch.ExecuteNotARealCall` | lit_review_tools.py:102-141 | an unknown call name answers None, whatever the service would return |
| `Formatting.Fields` | lit_review_tools.py:147-154 | the lines of a block in append order: stripped id, stripped title, then tldr else abstract, then score |
| `Formatting.FormatPaper` | lit_review_tools.py:147-155 | one paper's block: its rendered lines, then the blank line |
| `Formatting.FormatPapers` | lit_review_tools.py:143-157 | the specification of the output: the papers' blocks concatenated in order |
| `Formatting.FormatPapersForPrinting` | lit_review_tools.py:143-157 | the loop's output is the concatenation of the papers' blocks in order, and it is empty for no papers |
| `Formatting.AppendBlock` | lit_review_tools.py:147-155 | one pass of the loop body appends exactly the paper's block to the output |
| `Formatting.FieldsShape` | lit_review_tools.py:147-154 | a block starts with the stripped id and title lines, shows the tldr exactly when it is set, shows the abstract exactly when the tldr is unset and the abstract is set, never shows both, shows the score exactly when present, and repeats no key |
| `Formatting.FieldKeys` | lit_review_tools.py:147-154 | a block's keys in order: id, title, then the summary key if any, then the score key if any |
| `Formatting.RenderFieldsEndsInNewline` | lit_review_tools.py:147-154 | every rendered line ends in a newline |
| `Formatting.FormatPaperEndsInBlankLine` | lit_review_tools.py:147-155 | every block ends in a blank line |
| `Formatting.FormatPapersConcat` | lit_review_tools.py:146-155 | formatting a concatenation of lists concatenates their outputs |
| `Formatting.FormatPapersSnoc` | lit_review_tools.py:146-155 | one more paper appends exactly its block |
| `Formatting.FormatPapersPrefix` | lit_review_tools.py:146-155 | the output for the first i+1 papers is the output for the first i papers followed by the block of paper i |
| `Formatting.BlockParts` | lit_review_tools.py:147-155 | a block is its header lines, its summary line, its score line and the blank line, in the order they are appended |
| `Formatting.HeaderLines` | lit_review_tools.py:147-148 | the header renders as `paperId: <stripped id>` and `title: <stripped title>`, each on its own line |
| `Formatting.SummaryLine` | lit_review_tools.py:149-152 | the summary renders as the stripped tldr line, else the stripped abstract line, else nothing |
| `Formatting.ScoreLineText` | lit_review_tools.py:153-154 | the score renders as a `relevance score:` line exactly when a score is present |
| `Formatting.FormatPaperExample` | lit_review_tools.py:143-157 | a paper with id, title and tldr formats as three lines and a blank line |
| `Formatting.ExampleBlockLines` | lit_review_tools.py:147-155 | that paper's block is its id, title and tldr lines and the blank line |
| `Formatting.ExampleTrims` | lit_review_tools.py:147-150 | stripping values that have no surrounding whitespace leaves them unchanged |

## Left out

- The HTTP requests (`KeywordQuery`, `PaperQuery` and `PaperDetails` at lines 9-45). They are I/O. The `Api` value stands for them, with `None` for any status other than 200. The query parameters, URLs and limits sent to the service are not modelled.
- The accessors `GetAbstract`, `GetCitationCount` and `GetCitations` (lines 47-72) are not separate members. Each is a details request followed by one field read, and `Dispatch.Run` does that read inline. The `Dispatch.ExecuteGet…` lemmas state the results.
- Missing keys, which raise `KeyError` in the source, are ruled out by the types. Every record in the model carries every field it reads.
- Null values that make the source raise are also ruled out by the types:
  - A reference lookup in `GetReferences` that fails gives a `None` to `paper_filter`, which then raises. The model types that lookup as always succeeding (`referenceDetails` returns a `Paper`).
  - A null `paper_details["references"]` makes the slice at line 77 raise. The model types the list as present.
  - A paper with an unset abstract and a null title makes `abstract.lower()` raise at line 97. The model types the title as a string.
  - A null `paperId` or `title` in a paper being formatted makes `.strip()` raise at lines 147-148. This is ruled out in the same way.
- A null `data` or `recommendedPapers` is falsy, just like an empty list. The model folds it into the empty list.
- `int(...)` coercion of year, citation count and citation count answer. The model holds these as integers already, so the coercion and any failure to parse are not modelled.
- `str(paper["score"])`: the score is carried as an already-rendered string. Python's rendering of floats is not modelled.
- `str.lower` and `str.strip` are modelled for ASCII only. Whitespace is the characters 9–13 and 28–32, which is what Python strips among the first 128 characters. Non-ASCII case mapping and Unicode whitespace are not modelled.
- The `if keyword:` / `if paper_id:` tests after a match are folded into the match itself: `Parse` tests only whether the match succeeded. This is equivalent, because `[^"]+` never captures an empty group.
- `GetCitations` returns the full citation records (line 70). `Answer.CitationList` keeps only each entry's `paperId` (`Ref`), the one field the model reads.
- `Dispatch.Execute`, `Dispatch.Run`, `Dispatch.ExecuteGetReferences`: a `GetReferences` call goes to the corrected `GetReferences` (see Findings). Where the source raises, because the details request failed, these answer None. `Dispatch.ExecuteGetReferencesAsWritten` relates them to the code as written.
- The `__main__` block (commented-out calls) is not modelled.
- A search response without a `data` key, or a recommendation response without `recommendedPapers`, raises `KeyError` at line 109 or 117. The model types the key as present.

## Findings

| source | as written | input that shows it | evidently intended | confidence | as-written member | corrected member |
|---|---|---|---|---|---|---|
| lit_review_tools.py:76-86 | `paper_details["references"]` is read on line 77, before the `is not None` test on line 83, so a failed details request raises `TypeError` and the `return None` branch can never run | `GetReferences(id)` where the details request for `id` answers a status other than 200, so `PaperDetails` returns None | return None when the details request fails, as the other accessors do | not executed | `Dispatch.GetReferencesAsWritten` (with `Dispatch.GetReferencesAsWrittenNeverNone`) | `Dispatch.GetReferences` (with `Dispatch.GetReferencesCorrection`) |
