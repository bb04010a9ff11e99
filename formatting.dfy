/**
 * `format_papers_for_printing`: each paper becomes a block of `key: value` lines
 * followed by a blank line, and the blocks are concatenated.
 */
module Formatting {
  import opened Wrappers
  import opened Text
  import opened Papers

  /** One `key: value` line of a block. */
  datatype Field = Field(key: string, value: string)

  /** The id and title lines that open every block. */
  function Header(p: Paper): seq<Field> {
    [Field("paperId", Trim(p.paperId)), Field("title", Trim(p.title))]
  }

  /** The tldr line if the tldr is set, else the abstract line if the abstract is set, else nothing. */
  function Summary(p: Paper): seq<Field> {
    if TextIsSet(p.tldr) then [Field("tldr", Trim(p.tldr.value))]
    else if TextIsSet(p.abstractText) then [Field("abstract", Trim(p.abstractText.value))]
    else []
  }

  /** The relevance score line if the record carries a score. */
  function ScoreLine(p: Paper): seq<Field> {
    if p.score.Some? then [Field("relevance score", p.score.value)] else []
  }

  /** The lines of one paper's block, in order. */
  function Fields(p: Paper): seq<Field> {
    Header(p) + Summary(p) + ScoreLine(p)
  }

  function Keys(fields: seq<Field>): seq<string> {
    seq(|fields|, i requires 0 <= i < |fields| => fields[i].key)
  }

  function RenderField(f: Field): string {
    f.key + ": " + f.value + "\n"
  }

  function RenderFields(fields: seq<Field>): string {
    if fields == [] then "" else RenderField(fields[0]) + RenderFields(fields[1..])
  }

  /** One paper's block: its rendered lines and a blank line. */
  function FormatPaper(p: Paper): string {
    RenderFields(Fields(p)) + "\n"
  }

  /** The whole output: the blocks of the papers, in order. */
  function FormatPapers(papers: seq<Paper>): string {
    if papers == [] then "" else FormatPaper(papers[0]) + FormatPapers(papers[1..])
  }

  lemma KeysConcat(a: seq<Field>, b: seq<Field>)
    ensures Keys(a + b) == Keys(a) + Keys(b)
  {
  }

  /**
   * Every block starts with the trimmed id and title lines, never shows both a tldr and
   * an abstract line, shows the tldr exactly when it is set, the abstract exactly
   * when the tldr is not set and the abstract is, the score exactly when present,
   * and no line twice.
   */
  lemma FieldsShape(p: Paper)
    ensures var keys := Keys(Fields(p));
            && Fields(p)[..2] == [Field("paperId", Trim(p.paperId)), Field("title", Trim(p.title))]
            && ("tldr" in keys <==> TextIsSet(p.tldr))
            && ("abstract" in keys <==> !TextIsSet(p.tldr) && TextIsSet(p.abstractText))
            && !("tldr" in keys && "abstract" in keys)
            && ("relevance score" in keys <==> p.score.Some?)
            && (forall i, j :: 0 <= i < j < |keys| ==> keys[i] != keys[j])
  {
    assert Fields(p)[..2] == Header(p);
    var summary := if TextIsSet(p.tldr) then ["tldr"] else if TextIsSet(p.abstractText) then ["abstract"] else [];
    var score := if p.score.Some? then ["relevance score"] else [];
    FieldKeys(p, summary, score);
    KeyListDistinct(summary, score);
  }

  /** The keys of a block: the header keys, then the summary key if any, then the score key if any. */
  lemma FieldKeys(p: Paper, summary: seq<string>, score: seq<string>)
    requires summary == if TextIsSet(p.tldr) then ["tldr"] else if TextIsSet(p.abstractText) then ["abstract"] else []
    requires score == if p.score.Some? then ["relevance score"] else []
    ensures Keys(Fields(p)) == ["paperId", "title"] + summary + score
  {
    KeysConcat(Header(p), Summary(p));
    KeysConcat(Header(p) + Summary(p), ScoreLine(p));
    assert Keys(Header(p)) == ["paperId", "title"];
    assert Keys(Summary(p)) == summary;
    assert Keys(ScoreLine(p)) == score;
  }

  lemma KeyListDistinct(summary: seq<string>, score: seq<string>)
    requires summary == [] || summary == ["tldr"] || summary == ["abstract"]
    requires score == [] || score == ["relevance score"]
    ensures var keys := ["paperId", "title"] + summary + score;
            forall i, j :: 0 <= i < j < |keys| ==> keys[i] != keys[j]
  {
  }

  /** The rendered lines all end in a newline, so every block ends in a blank line. */
  lemma {:induction false} RenderFieldsEndsInNewline(fields: seq<Field>)
    requires fields != []
    ensures var out := RenderFields(fields); |out| >= 1 && out[|out| - 1] == '\n'
    decreases |fields|
  {
    if fields[1..] == [] {
      assert RenderFields(fields) == RenderField(fields[0]) + "";
    } else {
      RenderFieldsEndsInNewline(fields[1..]);
    }
  }

  /** Each block ends in "\n\n". */
  lemma FormatPaperEndsInBlankLine(p: Paper)
    ensures var block := FormatPaper(p); |block| >= 2 && block[|block| - 2..] == "\n\n"
  {
    RenderFieldsEndsInNewline(Fields(p));
  }

  /** The output of a concatenation is the concatenation of the outputs. */
  lemma {:induction false} FormatPapersConcat(a: seq<Paper>, b: seq<Paper>)
    ensures FormatPapers(a + b) == FormatPapers(a) + FormatPapers(b)
    decreases |a|
  {
    if a == [] {
      assert a + b == b;
    } else {
      assert (a + b)[1..] == a[1..] + b;
      FormatPapersConcat(a[1..], b);
    }
  }

  /** Appending a paper appends its block. */
  lemma FormatPapersSnoc(papers: seq<Paper>, p: Paper)
    ensures FormatPapers(papers + [p]) == FormatPapers(papers) + FormatPaper(p)
  {
    FormatPapersConcat(papers, [p]);
    assert FormatPapers([p]) == FormatPaper(p) + "";
  }

  /** The output for one more paper of the list is the output so far and that paper's block. */
  lemma FormatPapersPrefix(papers: seq<Paper>, i: nat)
    requires i < |papers|
    ensures FormatPapers(papers[..i + 1]) == FormatPapers(papers[..i]) + FormatPaper(papers[i])
  {
    assert papers[..i + 1] == papers[..i] + [papers[i]];
    FormatPapersSnoc(papers[..i], papers[i]);
  }

  /** The example block: id, title and tldr, then the blank line. */
  lemma FormatPaperExample()
    ensures FormatPapers([Paper("p1", "T", None, None, None, Some("short"), None)])
            == "paperId: p1\ntitle: T\ntldr: short\n\n"
  {
    var p := Paper("p1", "T", None, None, None, Some("short"), None);
    ExampleBlockLines();
    ExampleText();
    assert FormatPapers([p]) == FormatPaper(p) + "";
  }

  lemma ExampleText()
    ensures "paperId: p1\n" + "title: T\n" + "tldr: short\n" + "" + "\n" == "paperId: p1\ntitle: T\ntldr: short\n\n"
  {
  }

  lemma ExampleBlockLines()
    ensures FormatPaper(Paper("p1", "T", None, None, None, Some("short"), None))
            == "paperId: p1\n" + "title: T\n" + "tldr: short\n" + "" + "\n"
  {
    var p := Paper("p1", "T", None, None, None, Some("short"), None);
    ExampleTrims();
    BlockParts(p);
    HeaderLines(p);
    SummaryLine(p);
    ScoreLineText(p);
  }

  lemma ExampleTrims()
    ensures Trim("p1") == "p1" && Trim("T") == "T" && Trim("short") == "short"
  {
    TrimOfFramed([], "p1", []);
    TrimOfFramed([], "T", []);
    TrimOfFramed([], "short", []);
    assert [] + "p1" + [] == "p1" && [] + "T" + [] == "T" && [] + "short" + [] == "short";
  }

  /** `format_papers_for_printing`: grows the output one block per paper. */
  method FormatPapersForPrinting(papers: seq<Paper>) returns (output: string)
    ensures output == FormatPapers(papers)
    ensures papers == [] ==> output == ""
  {
    output := "";
    for i := 0 to |papers|
      invariant output == FormatPapers(papers[..i])
    {
      output := AppendBlock(output, papers[i]);
      FormatPapersPrefix(papers, i);
    }
    assert papers[..|papers|] == papers;
  }

  /** The body of the loop above: append one paper's lines to the output, one `+=` per line. */
  method AppendBlock(output: string, paper: Paper) returns (extended: string)
    ensures extended == output + FormatPaper(paper)
  {
    extended := output;
    extended := extended + ("paperId: " + Trim(paper.paperId) + "\n");
    extended := extended + ("title: " + Trim(paper.title) + "\n");
    assert extended == output + RenderFields(Header(paper)) by {
      HeaderLines(paper);
      Associate(output, "paperId: " + Trim(paper.paperId) + "\n", "title: " + Trim(paper.title) + "\n");
    }
    ghost var afterHeader := extended;
    if TextIsSet(paper.tldr) {
      extended := extended + ("tldr: " + Trim(paper.tldr.value) + "\n");
    } else if TextIsSet(paper.abstractText) {
      extended := extended + ("abstract: " + Trim(paper.abstractText.value) + "\n");
    }
    assert extended == afterHeader + RenderFields(Summary(paper)) by {
      SummaryLine(paper);
    }
    ghost var afterSummary := extended;
    if paper.score.Some? {
      extended := extended + ("relevance score: " + paper.score.value + "\n");
    }
    assert extended == afterSummary + RenderFields(ScoreLine(paper)) by {
      ScoreLineText(paper);
    }
    extended := extended + "\n";
    assert extended == output + FormatPaper(paper) by {
      BlockParts(paper);
      Regroup(output, RenderFields(Header(paper)), RenderFields(Summary(paper)), RenderFields(ScoreLine(paper)));
    }
  }

  lemma Associate(a: string, b: string, c: string)
    ensures (a + b) + c == a + (b + c)
  {
  }

  lemma Regroup(before: string, header: string, summary: string, score: string)
    ensures (((before + header) + summary) + score) + "\n" == before + (((header + summary) + score) + "\n")
  {
  }

  /** A block is its header, summary and score lines and the blank line, in the order they are appended. */
  lemma BlockParts(p: Paper)
    ensures FormatPaper(p) ==
      RenderFields(Header(p)) + RenderFields(Summary(p)) + RenderFields(ScoreLine(p)) + "\n"
  {
    RenderFieldsConcat(Header(p), Summary(p));
    RenderFieldsConcat(Header(p) + Summary(p), ScoreLine(p));
  }

  lemma HeaderLines(p: Paper)
    ensures RenderFields(Header(p)) == ("paperId: " + Trim(p.paperId) + "\n") + ("title: " + Trim(p.title) + "\n")
  {
    var h := Header(p);
    assert RenderFields(h[1..]) == RenderField(h[1]) + "";
  }

  lemma SummaryLine(p: Paper)
    ensures RenderFields(Summary(p)) ==
      if TextIsSet(p.tldr) then "tldr: " + Trim(p.tldr.value) + "\n"
      else if TextIsSet(p.abstractText) then "abstract: " + Trim(p.abstractText.value) + "\n"
      else ""
  {
    var s := Summary(p);
    if s != [] {
      assert RenderFields(s) == RenderField(s[0]) + "";
    }
  }

  lemma ScoreLineText(p: Paper)
    ensures RenderFields(ScoreLine(p)) ==
      if p.score.Some? then "relevance score: " + p.score.value + "\n" else ""
  {
    var s := ScoreLine(p);
    if s != [] {
      assert RenderFields(s) == RenderField(s[0]) + "";
    }
  }

  lemma {:induction false} RenderFieldsConcat(a: seq<Field>, b: seq<Field>)
    ensures RenderFields(a + b) == RenderFields(a) + RenderFields(b)
    decreases |a|
  {
    if a == [] {
      assert a + b == b;
    } else {
      assert (a + b)[1..] == a[1..] + b;
      RenderFieldsConcat(a[1..], b);
    }
  }
}
