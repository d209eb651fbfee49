/** A reference lexer: tokens and quote removal as in sections 2.2, 2.3 and 2.6.7 of the POSIX
    Shell Command Language, for backslashes, quotes, blanks and newlines. Operators other than
    newline and expansions are not part of it. */
module Posix {
  import opened Text
  import opened Shell

  datatype Piece = Field(text: string) | Newline

  predicate IsBlank(c: char) {
    c == ' ' || c == '\t'
  }

  function Emit(current: Option<string>): seq<Piece> {
    if current.Some? then [Field(current.value)] else []
  }

  function Before(front: seq<Piece>, pieces: Option<seq<Piece>>): Option<seq<Piece>> {
    if pieces.Some? then Some(front + pieces.value) else None
  }

  /** What a backslash in `quote` makes of the character after it. */
  function Escape(quote: Option<char>, c: char): string {
    if c == '\n' then ""
    else if quote.Some? && c !in "$`\"\\" then ['\\', c]
    else [c]
  }

  /** The pieces of the rest of the line; `None` when a quote or an escape is left open. */
  function PiecesFrom(s: string, current: Option<string>, quote: Option<char>, escaped: bool): Option<seq<Piece>>
    decreases |s|
  {
    if s == "" then
      if quote.Some? || escaped then None else Some(Emit(current))
    else
      var c, rest := s[0], s[1..];
      if escaped then
        if current.None? && c == '\n' then PiecesFrom(rest, None, quote, false)
        else PiecesFrom(rest, Some(current.GetOr("") + Escape(quote, c)), quote, false)
      else if c == '\\' && quote != Some('\'') then
        PiecesFrom(rest, current, quote, true)
      else if quote.Some? then
        if c == quote.value then PiecesFrom(rest, current, None, false)
        else PiecesFrom(rest, Some(current.GetOr("") + [c]), quote, false)
      else if c == '\'' || c == '"' then
        PiecesFrom(rest, Some(current.GetOr("")), Some(c), false)
      else if IsBlank(c) then
        Before(Emit(current), PiecesFrom(rest, None, None, false))
      else if c == '\n' then
        Before(Emit(current) + [Newline], PiecesFrom(rest, None, None, false))
      else
        PiecesFrom(rest, Some(current.GetOr("") + [c]), None, false)
  }

  function Pieces(line: string): Option<seq<Piece>> {
    PiecesFrom(line, None, None, false)
  }

  // ----- comparing the two lexers

  /** How many unquoted whitespace characters are not blanks: newlines, vertical tabs, form
      feeds, carriage returns and non-ASCII spaces. */
  function ForeignSpaces(quote: Option<char>, s: string): nat
    decreases |s|
  {
    if s == "" then
      0
    else
      var here := if quote.None? && IsWhitespace(s[0]) && !IsBlank(s[0]) then 1 else 0;
      here + ForeignSpaces(StepQuote(quote, s[0]), s[1..])
  }

  /** Every backslash of `s` stands inside single quotes, where it is an ordinary character. */
  predicate NoEscapes(quote: Option<char>, s: string)
    decreases |s|
  {
    s == "" || ((s[0] == '\\' ==> quote == Some('\'')) && NoEscapes(StepQuote(quote, s[0]), s[1..]))
  }

  function Fields(words: seq<string>): seq<Piece> {
    seq(|words|, i requires 0 <= i < |words| => Field(RemoveQuotes(words[i])))
  }

  function Size(pieces: seq<Piece>): nat {
    if pieces == [] then
      0
    else
      var here := match pieces[0] case Field(text) => |text| case Newline => 1;
      here + Size(pieces[1..])
  }

  function Value(current: Option<string>): Option<string> {
    if current.Some? then Some(RemoveQuotes(current.value)) else None
  }

  ghost predicate InStep(current: Option<string>, quote: Option<char>) {
    if current.Some? then QuoteAfter(None, current.value) == quote else quote.None?
  }

  /** Reading one more character of a word keeps the value of the word in step. */
  lemma ValueExtends(current: Option<string>, quote: Option<char>, c: char)
    requires InStep(current, quote)
    ensures InStep(Some(current.GetOr("") + [c]), StepQuote(quote, c))
    ensures Value(Some(current.GetOr("") + [c]))
         == Some(Value(current).GetOr("") + if StepQuote(quote, c) == quote then [c] else "")
  {
    QuoteAfterConcat(None, current.GetOr(""), [c]);
    OneChar(quote, c);
  }

  lemma {:induction false} SizeConcat(a: seq<Piece>, b: seq<Piece>)
    ensures Size(a + b) == Size(a) + Size(b)
  {
    if a == [] {
      assert a + b == b;
    } else {
      assert (a + b)[1..] == a[1..] + b;
      SizeConcat(a[1..], b);
    }
  }

  /** Without foreign whitespace the splitter reads the same fields as the reference. */
  lemma {:induction false} SplitterAgrees(s: string, current: Option<string>, quote: Option<char>)
    requires NoEscapes(quote, s) && InStep(current, quote) && ForeignSpaces(quote, s) == 0
    ensures PiecesFrom(s, Value(current), quote, false).Some? == WordsFrom(s, current, quote).Some?
    ensures WordsFrom(s, current, quote).Some? ==>
              PiecesFrom(s, Value(current), quote, false) == Some(Fields(WordsFrom(s, current, quote).value))
    decreases |s|
  {
    if s == "" {
      assert Fields(Finished(current)) == Emit(Value(current));
    } else {
      var c, rest := s[0], s[1..];
      if quote.None? && IsWhitespace(c) {
        SplitterAgrees(rest, None, None);
        if WordsFrom(rest, None, None).Some? {
          var words := WordsFrom(rest, None, None).value;
          assert Fields(Finished(current) + words) == Emit(Value(current)) + Fields(words);
        }
      } else {
        ValueExtends(current, quote, c);
        SplitterAgrees(rest, Some(current.GetOr("") + [c]), StepQuote(quote, c));
        assert Value(current).GetOr("") + "" == Value(current).GetOr("");
      }
    }
  }

  function Length(current: Option<string>): nat {
    |current.GetOr("")|
  }

  lemma SizeEmit(current: Option<string>)
    ensures Size(Emit(current)) == Length(current)
    ensures Size(Emit(current) + [Newline]) == Length(current) + 1
  {
    SizeConcat(Emit(current), [Newline]);
    assert [Newline][1..] == [];
    if current.Some? {
      assert [Field(current.value)][1..] == [];
    }
  }

  /** The reference and the splitter fail together, and the reference keeps the foreign
      whitespace that the splitter drops. `read` is the field the reference is reading while the
      splitter reads `current`. */
  ghost predicate SizesAgree(s: string, current: Option<string>, quote: Option<char>, read: Option<string>) {
    var pieces, words := PiecesFrom(s, read, quote, false), WordsFrom(s, current, quote);
    && pieces.Some? == words.Some?
    && (words.Some? ==>
          (Size(pieces.value) + Length(Value(current))
           == Size(Fields(words.value)) + Length(read) + ForeignSpaces(quote, s)))
  }

  lemma SizesAgreeAtSpace(s: string, current: Option<string>, read: Option<string>, read': Option<string>)
    requires s != "" && IsWhitespace(s[0]) && s[0] != '\\'
    requires read' == if IsBlank(s[0]) || s[0] == '\n' then None else Some(read.GetOr("") + [s[0]])
    requires SizesAgree(s[1..], None, None, read')
    ensures SizesAgree(s, current, None, read)
  {
    var words, pieces := WordsFrom(s[1..], None, None), PiecesFrom(s[1..], read', None, false);
    if words.Some? {
      SizeEmit(read);
      SizeEmit(Value(current));
      assert Fields(Finished(current) + words.value) == Emit(Value(current)) + Fields(words.value);
      SizeConcat(Emit(Value(current)), Fields(words.value));
      SizeConcat(Emit(read), pieces.value);
      SizeConcat(Emit(read) + [Newline], pieces.value);
    }
  }

  lemma SizesAgreeInWord(s: string, current: Option<string>, quote: Option<char>,
                         read: Option<string>, read': Option<string>)
    requires s != "" && (s[0] == '\\' ==> quote == Some('\''))
    requires (quote.Some? || !IsWhitespace(s[0])) && InStep(current, quote)
    requires read' == if StepQuote(quote, s[0]) == quote then Some(read.GetOr("") + [s[0]])
                      else if quote.None? then Some(read.GetOr("")) else read
    requires SizesAgree(s[1..], Some(current.GetOr("") + [s[0]]), StepQuote(quote, s[0]), read')
    ensures SizesAgree(s, current, quote, read)
  {
    ValueExtends(current, quote, s[0]);
    assert PiecesFrom(s, read, quote, false) == PiecesFrom(s[1..], read', StepQuote(quote, s[0]), false);
    assert WordsFrom(s, current, quote)
        == WordsFrom(s[1..], Some(current.GetOr("") + [s[0]]), StepQuote(quote, s[0]));
  }

  lemma {:induction false} SplitterDropsForeign(s: string, current: Option<string>, quote: Option<char>,
                                                read: Option<string>)
    requires NoEscapes(quote, s) && InStep(current, quote)
    ensures SizesAgree(s, current, quote, read)
    decreases |s|
  {
    if s == "" {
      SizeEmit(read);
      SizeEmit(Value(current));
      assert Fields(Finished(current)) == Emit(Value(current));
    } else {
      var c, rest := s[0], s[1..];
      if quote.None? && IsWhitespace(c) {
        var read' := if IsBlank(c) || c == '\n' then None else Some(read.GetOr("") + [c]);
        SplitterDropsForeign(rest, None, None, read');
        SizesAgreeAtSpace(s, current, read, read');
      } else {
        ValueExtends(current, quote, c);
        var read' := if StepQuote(quote, c) == quote then Some(read.GetOr("") + [c])
                     else if quote.None? then Some(read.GetOr("")) else read;
        SplitterDropsForeign(rest, Some(current.GetOr("") + [c]), StepQuote(quote, c), read');
        SizesAgreeInWord(s, current, quote, read, read');
      }
    }
  }

  // ----- the rewritten command, read by the reference

  lemma {:induction false} ForeignSpacesConcat(quote: Option<char>, a: string, b: string)
    ensures ForeignSpaces(quote, a + b) == ForeignSpaces(quote, a) + ForeignSpaces(QuoteAfter(quote, a), b)
    decreases |a|
  {
    if a == "" {
      assert a + b == b;
    } else {
      assert (a + b)[1..] == a[1..] + b;
      ForeignSpacesConcat(StepQuote(quote, a[0]), a[1..], b);
    }
  }

  lemma {:induction false} WordsHaveNoForeignSpaces(quote: Option<char>, s: string)
    requires !HasBareSpace(quote, s)
    ensures ForeignSpaces(quote, s) == 0
    decreases |s|
  {
    if s == "" {
    } else {
      WordsHaveNoForeignSpaces(StepQuote(quote, s[0]), s[1..]);
    }
  }

  lemma {:induction false} JoinHasNoForeignSpaces(words: seq<string>)
    requires forall w <- words :: IsWord(w)
    ensures ForeignSpaces(None, Join(words)) == 0
  {
    if words == [] {
    } else {
      assert words[0] in words;
      WordsHaveNoForeignSpaces(None, words[0]);
      if |words| > 1 {
        var rest := " " + Join(words[1..]);
        assert Join(words) == words[0] + rest && rest[1..] == Join(words[1..]);
        ForeignSpacesConcat(None, words[0], rest);
        JoinHasNoForeignSpaces(words[1..]);
      }
    }
  }

  lemma {:induction false} NoEscapesConcat(quote: Option<char>, a: string, b: string)
    ensures NoEscapes(quote, a + b) <==> NoEscapes(quote, a) && NoEscapes(QuoteAfter(quote, a), b)
    decreases |a|
  {
    if a == "" {
      assert a + b == b;
    } else {
      assert (a + b)[1..] == a[1..] + b;
      NoEscapesConcat(StepQuote(quote, a[0]), a[1..], b);
    }
  }

  lemma {:induction false} GapHasNoEscapes(gap: string)
    requires AllWhitespace(gap)
    ensures NoEscapes(None, gap) && QuoteAfter(None, gap).None?
  {
    if gap == "" {
      assert NoEscapes(None, gap);
    } else {
      GapHasNoEscapes(gap[1..]);
    }
  }

  lemma {:induction false} LayoutHasNoEscapes(lead: string, words: seq<string>, gaps: seq<string>)
    requires AllWhitespace(lead) && |gaps| == |words| && AreGaps(gaps) && forall w <- words :: IsWord(w)
    ensures NoEscapes(None, lead + Layout(words, gaps)) <==> forall w <- words :: NoEscapes(None, w)
    decreases |words|
  {
    GapHasNoEscapes(lead);
    NoEscapesConcat(None, lead, Layout(words, gaps));
    if words == [] {
      assert NoEscapes(None, Layout(words, gaps));
    } else {
      assert words == [words[0]] + words[1..];
      LayoutHasNoEscapes(gaps[0], words[1..], gaps[1..]);
      NoEscapesConcat(None, words[0], gaps[0] + Layout(words[1..], gaps[1..]));
      assert words[0] in words && QuoteAfter(None, words[0]).None?;
      assert forall w :: w in words <==> w == words[0] || w in words[1..];
    }
  }

  /** The gaps of a joined command: one space after every word but the last. */
  ghost function Spaces(n: nat): (gaps: seq<string>)
    ensures |gaps| == n && AreGaps(gaps)
    ensures forall i :: 0 <= i < n ==> gaps[i] == if i < n - 1 then " " else ""
  {
    seq(n, i requires 0 <= i < n => if i < n - 1 then " " else "")
  }

  lemma {:induction false} JoinIsALayout(words: seq<string>)
    ensures Join(words) == Layout(words, Spaces(|words|))
  {
    if |words| <= 1 {
      assert words == [] || Layout(words[1..], Spaces(1)[1..]) == "";
    } else {
      JoinIsALayout(words[1..]);
      assert Spaces(|words|)[1..] == Spaces(|words| - 1);
    }
  }

  lemma PlainHasNoEscapes(w: string)
    requires IsPlain(w)
    ensures NoEscapes(None, QuoteWord(w))
  {
    PlainFacts(w);
    assert '\\' !in w;
    NoBackslashNoEscapes(None, QuoteWord(w));
  }

  lemma {:induction false} NoBackslashNoEscapes(quote: Option<char>, s: string)
    requires '\\' !in s
    ensures NoEscapes(quote, s)
    decreases |s|
  {
    if s == "" {
      assert NoEscapes(quote, s);
    } else {
      assert s[0] in s && forall c :: c in s[1..] ==> c in s;
      NoBackslashNoEscapes(StepQuote(quote, s[0]), s[1..]);
    }
  }

  lemma RewriteAddsNoEscapes(command: string)
    requires WithQuotedArguments(command).Some? && NoEscapes(None, command)
    ensures NoEscapes(None, WithQuotedArguments(command).value)
  {
    QuotingPreservesMeaning(command);
    WordsAreWords(command);
    WordsAreWords(WithQuotedArguments(command).value);
    var words := Words(command).value;
    var typed := QuoteArguments(words);
    var lead, gaps := WordsAreALayout(command);
    LayoutHasNoEscapes(lead, words, gaps);
    forall w | w in typed ensures NoEscapes(None, w) {
      var i :| 0 <= i < |typed| && typed[i] == w;
      assert words[i] in words;
      if IsPlain(words[i]) {
        PlainHasNoEscapes(words[i]);
      }
    }
    JoinIsALayout(typed);
    LayoutHasNoEscapes("", typed, Spaces(|typed|));
    assert "" + Join(typed) == Join(typed);
  }

  /** Where every backslash stands inside single quotes, the shell reads the rewritten command as
      it reads the original exactly when every unquoted whitespace character is a blank. */
  lemma ShellReadsRewriteAlike(command: string)
    requires WithQuotedArguments(command).Some? && NoEscapes(None, command)
    ensures Pieces(command).Some?
    ensures Pieces(WithQuotedArguments(command).value) == Pieces(command)
       <==> ForeignSpaces(None, command) == 0
  {
    QuotingPreservesMeaning(command);
    RewriteAddsNoEscapes(command);
    var words := Words(command).value;
    var typed := QuoteArguments(words);
    var out := WithQuotedArguments(command).value;
    WordsAreWords(command);
    WordsAreWords(out);
    JoinHasNoForeignSpaces(typed);
    SplitterAgrees(out, None, None);
    assert Fields(typed) == Fields(words);
    SplitterDropsForeign(command, None, None, None);
    if ForeignSpaces(None, command) == 0 {
      SplitterAgrees(command, None, None);
    }
  }


  lemma ForeignSpaceWords(c: char)
    requires IsWhitespace(c)
    ensures Words("a" + [c] + "b") == Some(["a", "b"])
  {
    OneChar(None, 'a');
    OneChar(None, 'b');
    WordsOfOne("b");
    WordsEndAtGap("a", [c], "b");
    assert "a" + [c] + "b" == "a" + ([c] + "b") && ["a"] + ["b"] == ["a", "b"];
  }

  lemma ForeignSpaceRewritten(c: char)
    requires IsWhitespace(c)
    ensures WithQuotedArguments("a" + [c] + "b") == Some("a 'b'")
  {
    ForeignSpaceWords(c);
    var words := ["a", "b"];
    assert CanQuote(words) && BeforeEquals("a") == "a";
    assert ProgramIndex(words) == 0;
    assert "'" + "b" + "'" == "'b'" && QuoteArguments(words) == ["a", "'b'"];
    assert ["a", "'b'"][1..] == ["'b'"] && "a" + " " + "'b'" == "a 'b'";
  }

  lemma ForeignSpaceCounts(c: char)
    requires IsWhitespace(c) && !IsBlank(c)
    ensures NoEscapes(None, "a" + [c] + "b") && ForeignSpaces(None, "a" + [c] + "b") > 0
  {
    var command := "a" + [c] + "b";
    NoBackslashNoEscapes(None, command);
    assert command[1..] == [c] + "b";
    assert ForeignSpaces(None, command[1..]) > 0;
  }

  /** Every foreign whitespace character does break it: the shell reads a newline or an ordinary character
      between two words, and then the rewritten command has a blank there. */
  lemma ForeignSpaceChangesMeaning(c: char)
    requires IsWhitespace(c) && !IsBlank(c)
    ensures WithQuotedArguments("a" + [c] + "b") == Some("a 'b'")
    ensures Pieces("a 'b'") != Pieces("a" + [c] + "b")
  {
    ForeignSpaceRewritten(c);
    ForeignSpaceCounts(c);
    ShellReadsRewriteAlike("a" + [c] + "b");
  }
}
