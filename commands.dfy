/**
 * The textual call syntax that `parse_and_execute` accepts: one of six names,
 * then `("`, an argument of at least one character with no double quote, and `")`.
 * The match is anchored at the start only, so whatever follows `")` is ignored.
 */
module Commands {
  import opened Wrappers
  import opened Text

  datatype Command =
    | KeywordQuery(keyword: string)
    | PaperQuery(paperId: string)
    | GetAbstract(paperId: string)
    | GetCitationCount(paperId: string)
    | GetCitations(paperId: string)
    | GetReferences(paperId: string)
  {
    function Argument(): string {
      match this
      case KeywordQuery(k) => k
      case PaperQuery(id) => id
      case GetAbstract(id) => id
      case GetCitationCount(id) => id
      case GetCitations(id) => id
      case GetReferences(id) => id
    }

    /** The same kind of call with another argument. */
    function WithArgument(a: string): (c: Command)
      ensures c.Argument() == a && c.Name() == Name()
    {
      match this
      case KeywordQuery(_) => KeywordQuery(a)
      case PaperQuery(_) => PaperQuery(a)
      case GetAbstract(_) => GetAbstract(a)
      case GetCitationCount(_) => GetCitationCount(a)
      case GetCitations(_) => GetCitations(a)
      case GetReferences(_) => GetReferences(a)
    }

    function Name(): string {
      match this
      case KeywordQuery(_) => "KeywordQuery"
      case PaperQuery(_) => "PaperQuery"
      case GetAbstract(_) => "GetAbstract"
      case GetCitationCount(_) => "GetCitationCount"
      case GetCitations(_) => "GetCitations"
      case GetReferences(_) => "GetReferences"
    }
  }

  /** What `[^"]+` admits: a non-empty argument without a double quote. */
  predicate ValidArgument(a: string) {
    a != [] && '"' !in a
  }

  /** The call written out: `Name("argument")`. */
  function Render(c: Command): string {
    c.Name() + "(\"" + c.Argument() + "\")"
  }

  /** Length of the longest quote-free prefix of `s`: what the greedy `[^"]+` consumes. */
  function QuoteFreeRun(s: string): (n: nat)
    ensures n <= |s|
    ensures forall k :: 0 <= k < n ==> s[k] != '"'
    ensures n == |s| || s[n] == '"'
    decreases |s|
  {
    if s == [] || s[0] == '"' then 0 else 1 + QuoteFreeRun(s[1..])
  }

  /** The capture group of `\("([^"]+)"\)` matched at the start of `rest`. */
  function MatchArgument(rest: string): Option<string> {
    if !IsPrefix("(\"", rest) then None
    else
      var n := QuoteFreeRun(rest[2..]);
      if n == 0 || !IsPrefix("\")", rest[2 + n..]) then None
      else Some(rest[2..2 + n])
  }

  /**
   * The decoder: prefix tests in the source's order, each followed by the anchored
   * match. A recognised prefix whose match fails yields None without trying the others.
   */
  function Parse(s: string): Option<Command> {
    if IsPrefix("KeywordQuery", s) then
      var a := MatchArgument(s[|"KeywordQuery"|..]);
      if a.Some? then Some(KeywordQuery(a.value)) else None
    else if IsPrefix("PaperQuery", s) then
      var a := MatchArgument(s[|"PaperQuery"|..]);
      if a.Some? then Some(PaperQuery(a.value)) else None
    else if IsPrefix("GetAbstract", s) then
      var a := MatchArgument(s[|"GetAbstract"|..]);
      if a.Some? then Some(GetAbstract(a.value)) else None
    else if IsPrefix("GetCitationCount", s) then
      var a := MatchArgument(s[|"GetCitationCount"|..]);
      if a.Some? then Some(GetCitationCount(a.value)) else None
    else if IsPrefix("GetCitations", s) then
      var a := MatchArgument(s[|"GetCitations"|..]);
      if a.Some? then Some(GetCitations(a.value)) else None
    else if IsPrefix("GetReferences", s) then
      var a := MatchArgument(s[|"GetReferences"|..]);
      if a.Some? then Some(GetReferences(a.value)) else None
    else None
  }

  /** The anchored match reads back a valid argument, whatever follows the closing `")`. */
  lemma MatchArgumentRender(a: string, suffix: string)
    requires ValidArgument(a)
    ensures MatchArgument("(\"" + a + "\")" + suffix) == Some(a)
  {
    var rest := "(\"" + a + "\")" + suffix;
    assert rest[..2] == "(\"";
    var tail := rest[2..];
    assert tail == a + "\")" + suffix;
    assert forall k :: 0 <= k < |a| ==> tail[k] == a[k];
    assert tail[|a|] == '"';
    assert QuoteFreeRun(tail) == |a|;
    assert rest[2 + |a|..] == "\")" + suffix;
    assert rest[2..2 + |a|] == a;
  }

  /** A successful anchored match: the text starts with `("`, the argument, `")`. */
  lemma MatchArgumentSound(rest: string)
    requires MatchArgument(rest).Some?
    ensures ValidArgument(MatchArgument(rest).value)
    ensures IsPrefix("(\"" + MatchArgument(rest).value + "\")", rest)
  {
    var a := MatchArgument(rest).value;
    var n := QuoteFreeRun(rest[2..]);
    assert a == rest[2..][..n];
    assert '"' !in a;
    var w := "(\"" + a + "\")";
    assert rest[..|w|] == rest[..2] + rest[2..2 + n] + rest[2 + n..2 + n + 2];
  }

  lemma PrefixAgrees(p: string, s: string)
    requires IsPrefix(p, s)
    ensures forall k :: 0 <= k < |p| ==> s[k] == p[k]
  {
    assert forall k :: 0 <= k < |p| ==> s[..|p|][k] == s[k];
  }

  /** No name is a prefix of another, so at most one of the six prefix tests succeeds on any text. */
  lemma NamePrefixUnique(c: Command, d: Command, s: string)
    requires IsPrefix(c.Name(), s) && IsPrefix(d.Name(), s)
    ensures c.Name() == d.Name()
  {
    PrefixAgrees(c.Name(), s);
    PrefixAgrees(d.Name(), s);
    assert c.Name()[0] == d.Name()[0] && c.Name()[3] == d.Name()[3];
    if |c.Name()| > 11 && |d.Name()| > 11 {
      assert c.Name()[11] == d.Name()[11];
    }
  }

  /** What a successful decode has seen: the command's name, then the anchored match of its argument. */
  lemma ParseUnfold(s: string)
    requires Parse(s).Some?
    ensures IsPrefix(Parse(s).value.Name(), s)
    ensures MatchArgument(s[|Parse(s).value.Name()|..]) == Some(Parse(s).value.Argument())
  {
    var c := Parse(s).value;
    if IsPrefix("KeywordQuery", s) {
      assert c == KeywordQuery(MatchArgument(s[|"KeywordQuery"|..]).value);
    } else if IsPrefix("PaperQuery", s) {
      assert c == PaperQuery(MatchArgument(s[|"PaperQuery"|..]).value);
    } else if IsPrefix("GetAbstract", s) {
      assert c == GetAbstract(MatchArgument(s[|"GetAbstract"|..]).value);
    } else if IsPrefix("GetCitationCount", s) {
      assert c == GetCitationCount(MatchArgument(s[|"GetCitationCount"|..]).value);
    } else if IsPrefix("GetCitations", s) {
      assert c == GetCitations(MatchArgument(s[|"GetCitations"|..]).value);
    } else if IsPrefix("GetReferences", s) {
      assert c == GetReferences(MatchArgument(s[|"GetReferences"|..]).value);
    }
  }

  /** Decoding a rendered call, followed by anything at all, gives back that call. */
  lemma ParseRender(c: Command, suffix: string)
    requires ValidArgument(c.Argument())
    ensures Parse(Render(c) + suffix) == Some(c)
  {
    var s := Render(c) + suffix;
    var rest := "(\"" + c.Argument() + "\")" + suffix;
    assert s == c.Name() + rest;
    assert s[..|c.Name()|] == c.Name();
    assert s[|c.Name()|..] == rest;
    MatchArgumentRender(c.Argument(), suffix);
    ParseNamed(c, s);
  }

  /** Once the text starts with `c`'s name, decoding is the anchored match of `c`'s argument. */
  lemma ParseNamed(c: Command, s: string)
    requires IsPrefix(c.Name(), s)
    ensures var m := MatchArgument(s[|c.Name()|..]);
            Parse(s) == if m.Some? then Some(c.WithArgument(m.value)) else None
  {
    PrefixAgrees(c.Name(), s);
    match c
    case KeywordQuery(_) =>
    case PaperQuery(_) =>
      NotPrefixAt("KeywordQuery", s, 0);
    case GetAbstract(_) =>
      NotPrefixAt("KeywordQuery", s, 0);
      NotPrefixAt("PaperQuery", s, 0);
    case GetCitationCount(_) =>
      NotPrefixAt("KeywordQuery", s, 0);
      NotPrefixAt("PaperQuery", s, 0);
      NotPrefixAt("GetAbstract", s, 3);
    case GetCitations(_) =>
      NotPrefixAt("KeywordQuery", s, 0);
      NotPrefixAt("PaperQuery", s, 0);
      NotPrefixAt("GetAbstract", s, 3);
      NotPrefixAt("GetCitationCount", s, 11);
    case GetReferences(_) =>
      NotPrefixAt("KeywordQuery", s, 0);
      NotPrefixAt("PaperQuery", s, 0);
      NotPrefixAt("GetAbstract", s, 3);
      NotPrefixAt("GetCitationCount", s, 3);
      NotPrefixAt("GetCitations", s, 3);
  }

  /** A text that differs from `p` at some position inside `p` does not start with `p`. */
  lemma NotPrefixAt(p: string, s: string, k: nat)
    requires k < |p| && k < |s| && s[k] != p[k]
    ensures !IsPrefix(p, s)
  {
    assert |p| <= |s| ==> s[..|p|][k] == s[k];
  }

  /** Whatever the decoder accepts is a rendered call with a valid argument, followed by some suffix. */
  lemma ParseSound(s: string)
    requires Parse(s).Some?
    ensures ValidArgument(Parse(s).value.Argument())
    ensures IsPrefix(Render(Parse(s).value), s)
  {
    ParseUnfold(s);
    MatchedCall(Parse(s).value, s);
  }

  /** A text that starts with `c`'s name followed by a successful match of `c`'s argument starts with `c` rendered. */
  lemma MatchedCall(c: Command, s: string)
    requires IsPrefix(c.Name(), s)
    requires MatchArgument(s[|c.Name()|..]) == Some(c.Argument())
    ensures ValidArgument(c.Argument())
    ensures IsPrefix(Render(c), s)
  {
    var name := c.Name();
    var rest := s[|name|..];
    MatchArgumentSound(rest);
    var w := "(\"" + c.Argument() + "\")";
    assert Render(c) == name + w;
    assert s[..|name| + |w|] == s[..|name|] + rest[..|w|];
  }

  /** The decoder in one statement: it returns `c` exactly when `s` begins with `c` rendered and `c`'s argument is valid. */
  lemma ParseCharacterization(s: string, c: Command)
    ensures Parse(s) == Some(c) <==> ValidArgument(c.Argument()) && IsPrefix(Render(c), s)
  {
    if Parse(s) == Some(c) {
      ParseSound(s);
    }
    if ValidArgument(c.Argument()) && IsPrefix(Render(c), s) {
      var suffix := s[|Render(c)|..];
      assert s == Render(c) + suffix;
      ParseRender(c, suffix);
    }
  }

  /** Text that starts with none of the six names decodes to nothing. */
  lemma ParseUnknownName(s: string)
    requires forall c: Command :: !IsPrefix(c.Name(), s)
    ensures Parse(s) == None
  {
    if Parse(s).Some? {
      ParseUnfold(s);
    }
  }

  /** An empty argument, `Name("")`, decodes to nothing whatever follows. */
  lemma ParseEmptyArgument(c: Command, suffix: string)
    ensures Parse(c.Name() + "(\"\")" + suffix) == None
  {
    var s := c.Name() + "(\"\")" + suffix;
    var i := |c.Name()| + 2;
    assert s[i] == '"';
    assert IsPrefix(c.Name(), s);
    if Parse(s).Some? {
      var d := Parse(s).value;
      ParseSound(s);
      ParseUnfold(s);
      NamePrefixUnique(c, d, s);
      PrefixAgrees(Render(d), s);
    }
  }

  /** The greedy run stops at the first quote, or at the end of the text. */
  lemma {:induction false} QuoteFreeRunStops(a: string, rest: string)
    requires '"' !in a
    requires rest == [] || rest[0] == '"'
    ensures QuoteFreeRun(a + rest) == |a|
    decreases |a|
  {
    if a == [] {
      assert a + rest == rest;
    } else {
      assert (a + rest)[0] == a[0];
      assert (a + rest)[1..] == a[1..] + rest;
      QuoteFreeRunStops(a[1..], rest);
    }
  }

  /**
   * An argument that is not closed by `")` decodes to nothing: the text ends inside
   * the argument, or the argument's closing quote is followed by something other than `)`.
   */
  lemma ParseUnclosedArgument(c: Command, a: string, rest: string)
    requires '"' !in a
    requires rest == [] || rest[0] == '"'
    requires !IsPrefix("\")", rest)
    ensures Parse(c.Name() + "(\"" + a + rest) == None
  {
    var s := c.Name() + "(\"" + a + rest;
    var tail := "(\"" + a + rest;
    assert s == c.Name() + tail;
    assert s[..|c.Name()|] == c.Name();
    assert s[|c.Name()|..] == tail;
    MatchArgumentUnclosed(a, rest);
    ParseNamed(c, s);
  }

  /** The anchored match fails on an argument that `")` does not close. */
  lemma MatchArgumentUnclosed(a: string, rest: string)
    requires '"' !in a
    requires rest == [] || rest[0] == '"'
    requires !IsPrefix("\")", rest)
    ensures MatchArgument("(\"" + a + rest) == None
  {
    var tail := "(\"" + a + rest;
    assert tail[..2] == "(\"";
    assert tail[2..] == a + rest;
    QuoteFreeRunStops(a, rest);
    assert tail[2 + |a|..] == rest;
  }

  /** Example: a call with an unknown name decodes to nothing. */
  lemma ParseNotARealCall()
    ensures Parse("NotARealCall(\"X\")") == None
  {
    var s := "NotARealCall(\"X\")";
    forall c: Command
      ensures !IsPrefix(c.Name(), s)
    {
      assert s[0] == 'N';
    }
    ParseUnknownName(s);
  }
}
