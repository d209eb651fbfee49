/** The word splitter and the quoting rewriter for commands that Clinch types into a shell. */
module Shell {
  import opened Text

  // ----- quotes

  predicate IsQuote(c: char) {
    c == '\'' || c == '"'
  }

  /** The open quote after reading `c`, given the open quote before it. */
  function StepQuote(quote: Option<char>, c: char): Option<char> {
    match quote
    case Some(open) => if c == open then None else quote
    case None => if IsQuote(c) then Some(c) else None
  }

  function QuoteAfter(quote: Option<char>, s: string): Option<char>
    decreases |s|
  {
    if s == "" then quote else QuoteAfter(StepQuote(quote, s[0]), s[1..])
  }

  /** Whether some whitespace of `s` stands outside quotes. */
  predicate HasBareSpace(quote: Option<char>, s: string)
    decreases |s|
  {
    s != "" && ((quote.None? && IsWhitespace(s[0])) || HasBareSpace(StepQuote(quote, s[0]), s[1..]))
  }

  /** A shell word: non-empty, quotes closed, all whitespace quoted. */
  predicate IsWord(w: string) {
    w != "" && QuoteAfter(None, w) == None && !HasBareSpace(None, w)
  }

  /** Quote removal, section 2.6.7 of the POSIX Shell Command Language, for quotes alone. */
  function RemoveQuotesFrom(quote: Option<char>, s: string): string
    decreases |s|
  {
    if s == "" then ""
    else
      var quote' := StepQuote(quote, s[0]);
      (if quote' == quote then [s[0]] else "") + RemoveQuotesFrom(quote', s[1..])
  }

  function RemoveQuotes(w: string): string {
    RemoveQuotesFrom(None, w)
  }

  // ----- splitting

  /** The words of `current + s`, where `current` is the word being read, with `quote` open. */
  function WordsFrom(s: string, current: Option<string>, quote: Option<char>): Option<seq<string>> {
    if s == "" then
      if quote.Some? then None else Some(Finished(current))
    else if quote.None? && IsWhitespace(s[0]) then
      Prepend(Finished(current), WordsFrom(s[1..], None, None))
    else
      WordsFrom(s[1..], Some(current.GetOr("") + [s[0]]), StepQuote(quote, s[0]))
  }

  function Finished(current: Option<string>): seq<string> {
    if current.Some? then [current.value] else []
  }

  function Prepend(front: seq<string>, words: Option<seq<string>>): Option<seq<string>> {
    if words.Some? then Some(front + words.value) else None
  }

  lemma PrependConcat(a: seq<string>, b: seq<string>, words: Option<seq<string>>)
    ensures Prepend(a, Prepend(b, words)) == Prepend(a + b, words)
    ensures Prepend([], words) == words
  {
    if words.Some? {
      assert a + (b + words.value) == a + b + words.value;
      assert [] + words.value == words.value;
    }
  }

  function Words(command: string): Option<seq<string>> {
    WordsFrom(command, None, None)
  }

  /** Splits a command line into its words, keeping their quotes. `None` if a quote never
      closes, as `WordsAreWords`, `WordsAreALayout` and `WordsOfLayout` pin down. */
  method ShellWordSpans(command: string) returns (result: Option<seq<string>>)
    ensures result == Words(command)
  {
    var words: seq<string> := [];
    var start: Option<nat> := None;
    var quote: Option<char> := None;
    PrependConcat([], [], Words(command));
    assert command[0..] == command;
    for index := 0 to |command|
      invariant start.Some? ==> start.value < index
      invariant quote.Some? ==> start.Some?
      invariant Words(command) == Prepend(words, WordsFrom(command[index..], Slice(command, start, index), quote))
    {
      var c := command[index];
      assert command[index..][1..] == command[index + 1..];
      if quote.Some? {
        if c == quote.value {
          quote := None;
        }
      } else if IsQuote(c) {
        quote := Some(c);
        start := Some(start.GetOr(index));
      } else if IsWhitespace(c) {
        PrependConcat(words, Finished(Slice(command, start, index)), WordsFrom(command[index + 1..], None, None));
        if start.Some? {
          words := words + [command[start.value..index]];
        }
        start := None;
      } else {
        start := Some(start.GetOr(index));
      }
      assert start.Some? ==> command[start.value..index + 1] == command[start.value..index] + [c];
    }
    if quote.Some? {
      return None;
    }
    assert command[|command|..] == "";
    if start.Some? {
      assert command[start.value..] == command[start.value..|command|];
      words := words + [command[start.value..]];
    } else {
      assert words + [] == words;
    }
    return Some(words);
  }

  ghost function Slice(s: string, start: Option<nat>, end: nat): Option<string>
    requires end <= |s| && (start.Some? ==> start.value <= end)
  {
    if start.Some? then Some(s[start.value..end]) else None
  }

  // ----- what the splitter means

  lemma {:induction false} QuoteAfterConcat(quote: Option<char>, a: string, b: string)
    ensures QuoteAfter(quote, a + b) == QuoteAfter(QuoteAfter(quote, a), b)
    ensures HasBareSpace(quote, a + b) <==> HasBareSpace(quote, a) || HasBareSpace(QuoteAfter(quote, a), b)
    ensures RemoveQuotesFrom(quote, a + b)
         == RemoveQuotesFrom(quote, a) + RemoveQuotesFrom(QuoteAfter(quote, a), b)
    decreases |a|
  {
    if a == "" {
      assert a + b == b;
    } else {
      assert (a + b)[1..] == a[1..] + b;
      QuoteAfterConcat(StepQuote(quote, a[0]), a[1..], b);
    }
  }

  lemma OneChar(quote: Option<char>, c: char)
    ensures QuoteAfter(quote, [c]) == StepQuote(quote, c)
    ensures HasBareSpace(quote, [c]) <==> quote.None? && IsWhitespace(c)
    ensures RemoveQuotesFrom(quote, [c]) == if StepQuote(quote, c) == quote then [c] else ""
  {
    assert [c][1..] == "";
  }

  /** The word being read: what has been read so far has all its whitespace quoted. */
  ghost predicate IsOpenWord(current: Option<string>, quote: Option<char>) {
    match current
    case None => quote.None?
    case Some(w) => w != "" && QuoteAfter(None, w) == quote && !HasBareSpace(None, w)
  }

  lemma ExtendOpenWord(current: Option<string>, quote: Option<char>, c: char)
    requires IsOpenWord(current, quote) && (quote.Some? || !IsWhitespace(c))
    ensures IsOpenWord(Some(current.GetOr("") + [c]), StepQuote(quote, c))
  {
    QuoteAfterConcat(None, current.GetOr(""), [c]);
    OneChar(quote, c);
  }

  lemma {:induction false} WordsFromAreWords(s: string, current: Option<string>, quote: Option<char>)
    requires IsOpenWord(current, quote)
    requires WordsFrom(s, current, quote).Some?
    ensures forall w <- WordsFrom(s, current, quote).value :: IsWord(w)
    decreases |s|
  {
    if s == "" {
    } else {
      if quote.None? && IsWhitespace(s[0]) {
        WordsFromAreWords(s[1..], None, None);
      } else {
        ExtendOpenWord(current, quote, s[0]);
        WordsFromAreWords(s[1..], Some(current.GetOr("") + [s[0]]), StepQuote(quote, s[0]));
      }
    }
  }

  /** Splitting yields words only, and fails exactly when a quote is left open. */
  lemma WordsAreWords(command: string)
    ensures Words(command).Some? <==> QuoteAfter(None, command).None?
    ensures Words(command).Some? ==> forall w <- Words(command).value :: IsWord(w)
  {
    WordsRejectsUnclosed(command, None, None);
    if Words(command).Some? {
      WordsFromAreWords(command, None, None);
    }
  }

  lemma {:induction false} WordsRejectsUnclosed(s: string, current: Option<string>, quote: Option<char>)
    ensures WordsFrom(s, current, quote).Some? <==> QuoteAfter(quote, s).None?
    decreases |s|
  {
    if s == "" {
    } else {
      if quote.None? && IsWhitespace(s[0]) {
        WordsRejectsUnclosed(s[1..], None, None);
      } else {
        WordsRejectsUnclosed(s[1..], Some(current.GetOr("") + [s[0]]), StepQuote(quote, s[0]));
      }
    }
  }

  lemma {:induction false} WordsReadsWord(w: string, rest: string, current: Option<string>, quote: Option<char>)
    requires !HasBareSpace(quote, w) && (w != "" || current.Some?)
    ensures WordsFrom(w + rest, current, quote)
         == WordsFrom(rest, Some(current.GetOr("") + w), QuoteAfter(quote, w))
    decreases |w|
  {
    if w == "" {
      assert w + rest == rest && current.GetOr("") + w == current.value;
    } else {
      assert (w + rest)[1..] == w[1..] + rest;
      WordsReadsWord(w[1..], rest, Some(current.GetOr("") + [w[0]]), StepQuote(quote, w[0]));
      assert current.GetOr("") + [w[0]] + w[1..] == current.GetOr("") + w;
    }
  }

  /** `words[0] + gaps[0] + words[1] + gaps[1] + ...`: each word and the gap after it. */
  ghost function Layout(words: seq<string>, gaps: seq<string>): string
    requires |gaps| == |words|
  {
    if words == [] then "" else words[0] + (gaps[0] + Layout(words[1..], gaps[1..]))
  }

  /** Whitespace gaps that keep words apart; only the last may be empty. */
  ghost predicate AreGaps(gaps: seq<string>) {
    forall i :: 0 <= i < |gaps| ==> AllWhitespace(gaps[i]) && (i < |gaps| - 1 ==> gaps[i] != "")
  }

  lemma {:induction false} WordsSkipGap(gap: string, rest: string)
    requires AllWhitespace(gap)
    ensures Words(gap + rest) == Words(rest)
  {
    if gap == "" {
      assert gap + rest == rest;
    } else {
      assert (gap + rest)[1..] == gap[1..] + rest;
      WordsSkipGap(gap[1..], rest);
      PrependConcat([], [], Words(rest));
    }
  }

  lemma WordsEndAtGap(w: string, gap: string, rest: string)
    requires IsWord(w) && AllWhitespace(gap) && (gap != "" || rest == "")
    ensures Words(w + (gap + rest)) == Prepend([w], Words(rest))
  {
    WordsReadsWord(w, gap + rest, None, None);
    assert "" + w == w;
    if gap != "" {
      assert (gap + rest)[1..] == gap[1..] + rest;
      WordsSkipGap(gap[1..], rest);
    } else {
      assert gap + rest == "";
      assert [w] + [] == [w];
    }
  }

  /** Words laid out with any whitespace between and around them split back into those words. */
  lemma {:induction false} WordsOfLayout(lead: string, words: seq<string>, gaps: seq<string>)
    requires AllWhitespace(lead) && |gaps| == |words| && AreGaps(gaps)
    requires forall w <- words :: IsWord(w)
    ensures Words(lead + Layout(words, gaps)) == Some(words)
    decreases |words|
  {
    WordsSkipGap(lead, Layout(words, gaps));
    if words == [] {
    } else {
      var w, rest := words[0], Layout(words[1..], gaps[1..]);
      assert w in words && [w] + words[1..] == words;
      WordsOfLayout("", words[1..], gaps[1..]);
      assert "" + rest == rest;
      WordsEndAtGap(w, gaps[0], rest);
    }
  }

  lemma LayoutAtSpace(c: char, w: string, lead: string, words: seq<string>, gaps: seq<string>)
    requires IsWhitespace(c) && AllWhitespace(lead) && |gaps| == |words| && AreGaps(gaps)
    ensures AreGaps([[c] + lead] + gaps)
    ensures Layout([w] + words, [[c] + lead] + gaps) == w + ([c] + (lead + Layout(words, gaps)))
  {
    assert ([w] + words)[1..] == words && ([[c] + lead] + gaps)[1..] == gaps;
    assert [c] + lead + Layout(words, gaps) == [c] + (lead + Layout(words, gaps));
  }

  lemma LayoutSpaceStep(s: string, current: Option<string>, lead: string, words: seq<string>, gaps: seq<string>)
    returns (lead': string, gaps': seq<string>)
    requires s != "" && IsWhitespace(s[0]) && AllWhitespace(lead) && |gaps| == |words| && AreGaps(gaps)
    requires s[1..] == lead + Layout(words, gaps)
    ensures AllWhitespace(lead') && (current.Some? ==> lead' == "")
    ensures |gaps'| == |Finished(current) + words| && AreGaps(gaps')
    ensures current.GetOr("") + s == lead' + Layout(Finished(current) + words, gaps')
  {
    var c, text := s[0], Layout(words, gaps);
    assert s == [c] + (lead + text);
    if current.Some? {
      LayoutAtSpace(c, current.value, lead, words, gaps);
      lead', gaps' := "", [[c] + lead] + gaps;
    } else {
      assert [] + words == words;
      assert [c] + (lead + text) == [c] + lead + text;
      lead', gaps' := [c] + lead, gaps;
    }
  }

  lemma {:induction false} LayoutFrom(s: string, current: Option<string>, quote: Option<char>)
    returns (lead: string, gaps: seq<string>)
    requires IsOpenWord(current, quote) && WordsFrom(s, current, quote).Some?
    ensures AllWhitespace(lead) && (current.Some? ==> lead == "")
    ensures |gaps| == |WordsFrom(s, current, quote).value| && AreGaps(gaps)
    ensures current.GetOr("") + s == lead + Layout(WordsFrom(s, current, quote).value, gaps)
    decreases |s|
  {
    if s == "" {
      lead, gaps := "", if current.Some? then [""] else [];
      assert Layout(Finished(current), gaps) == current.GetOr("");
    } else if quote.None? && IsWhitespace(s[0]) {
      lead, gaps := LayoutFrom(s[1..], None, None);
      assert "" + s[1..] == s[1..];
      lead, gaps := LayoutSpaceStep(s, current, lead, WordsFrom(s[1..], None, None).value, gaps);
    } else {
      ExtendOpenWord(current, quote, s[0]);
      lead, gaps := LayoutFrom(s[1..], Some(current.GetOr("") + [s[0]]), StepQuote(quote, s[0]));
      assert current.GetOr("") + [s[0]] + s[1..] == current.GetOr("") + s;
    }
  }

  /** Every command that splits is its words laid out with whitespace: nothing else is lost. */
  lemma WordsAreALayout(command: string) returns (lead: string, gaps: seq<string>)
    requires Words(command).Some?
    ensures AllWhitespace(lead) && |gaps| == |Words(command).value| && AreGaps(gaps)
    ensures command == lead + Layout(Words(command).value, gaps)
  {
    lead, gaps := LayoutFrom(command, None, None);
    assert "" + command == command;
  }

  lemma WordsOfOne(w: string)
    requires IsWord(w)
    ensures Words(w) == Some([w])
  {
    WordsReadsWord(w, "", None, None);
    assert w + "" == w && "" + w == w;
  }

  /** Joining words with spaces and splitting again gives the words back. */
  lemma {:induction false} WordsRoundTrip(words: seq<string>)
    requires forall w <- words :: IsWord(w)
    ensures Words(Join(words)) == Some(words)
  {
    if words == [] {
      assert Words("") == Some([]);
    } else {
      var w, rest := words[0], words[1..];
      assert w in words && [w] + rest == words;
      if rest == [] {
        assert words == [w];
        WordsOfOne(w);
      } else {
        WordsRoundTrip(rest);
        WordsEndAtGap(w, " ", Join(rest));
        assert Join(words) == w + (" " + Join(rest));
      }
    }
  }

  // ----- quoting

  predicate IsAsciiAlphanumeric(c: char) {
    '0' <= c <= '9' || 'A' <= c <= 'Z' || 'a' <= c <= 'z'
  }

  /** The part of `word` before its first `=`, or all of it. */
  function BeforeEquals(word: string): string {
    if word == "" || word[0] == '=' then "" else [word[0]] + BeforeEquals(word[1..])
  }

  predicate IsShellAssignment(word: string) {
    var name := BeforeEquals(word);
    && '=' in word
    && name != ""
    && !('0' <= name[0] <= '9')
    && forall i :: 0 <= i < |name| ==> IsAsciiAlphanumeric(name[i]) || name[i] == '_'
  }

  predicate IsPlain(word: string) {
    forall i :: 0 <= i < |word| ==> IsAsciiAlphanumeric(word[i]) || word[i] in "_-./:=,@%+"
  }

  predicate IsAlreadyQuoted(word: string) {
    '\'' in word || '"' in word
  }

  /** The index of the program word: how many leading words are assignments. */
  function ProgramIndex(words: seq<string>): nat {
    if words != [] && IsShellAssignment(words[0]) then 1 + ProgramIndex(words[1..]) else 0
  }

  function QuoteWord(word: string): string {
    if IsAlreadyQuoted(word) then word else "'" + word + "'"
  }

  /** Quotes every word after the program. */
  function QuoteArguments(words: seq<string>): seq<string> {
    var program := ProgramIndex(words);
    seq(|words|, i requires 0 <= i < |words| => if i <= program then words[i] else QuoteWord(words[i]))
  }

  predicate CanQuote(words: seq<string>) {
    forall w <- words :: IsPlain(w) || IsAlreadyQuoted(w)
  }

  function WithQuotedArguments(command: string): Option<string> {
    match Words(command)
    case None => None
    case Some(words) => if CanQuote(words) then Some(Join(QuoteArguments(words))) else None
  }

  lemma PlainFacts(w: string)
    requires IsPlain(w)
    ensures NoWhitespace(w) && '\'' !in w && '"' !in w
  {
  }

  lemma {:induction false} QuoteFreeInQuotes(w: string)
    requires '\'' !in w
    ensures QuoteAfter(Some('\''), w) == Some('\'') && !HasBareSpace(Some('\''), w)
    ensures RemoveQuotesFrom(Some('\''), w) == w
  {
    if w == "" {
    } else {
      assert w[0] in w && forall c :: c in w[1..] ==> c in w;
      QuoteFreeInQuotes(w[1..]);
      assert [w[0]] + w[1..] == w;
    }
  }

  lemma {:induction false} QuoteFreeBare(w: string)
    requires '\'' !in w && '"' !in w
    ensures RemoveQuotes(w) == w
  {
    if w == "" {
    } else {
      assert w[0] in w && forall c :: c in w[1..] ==> c in w;
      QuoteFreeBare(w[1..]);
      assert [w[0]] + w[1..] == w;
    }
  }

  lemma WrapInQuotes(w: string)
    requires '\'' !in w
    ensures IsWord("'" + w + "'") && RemoveQuotes("'" + w + "'") == w
  {
    OneChar(None, '\'');
    OneChar(Some('\''), '\'');
    QuoteFreeInQuotes(w);
    QuoteAfterConcat(Some('\''), w, "'");
    QuoteAfterConcat(None, "'", w + "'");
    assert "'" + w + "'" == "'" + (w + "'");
    assert "" + w + "" == w;
  }

  /** Quoting one plain word keeps it one word with the same value. */
  lemma QuoteWordKeepsValue(w: string)
    requires IsWord(w) && (IsPlain(w) || IsAlreadyQuoted(w))
    ensures IsWord(QuoteWord(w)) && RemoveQuotes(QuoteWord(w)) == RemoveQuotes(w)
    ensures IsAlreadyQuoted(QuoteWord(w))
  {
    if !IsAlreadyQuoted(w) {
      PlainFacts(w);
      QuoteFreeBare(w);
      WrapInQuotes(w);
      assert QuoteWord(w)[0] == '\'';
    }
  }

  lemma {:induction false} ProgramIndexBounds(words: seq<string>)
    ensures ProgramIndex(words) <= |words|
    ensures forall i :: 0 <= i < ProgramIndex(words) ==> IsShellAssignment(words[i])
    ensures ProgramIndex(words) < |words| ==> !IsShellAssignment(words[ProgramIndex(words)])
  {
    if words != [] && IsShellAssignment(words[0]) {
      ProgramIndexBounds(words[1..]);
    }
  }

  /** The program index depends only on the words up to the program. */
  lemma {:induction false} ProgramIndexStable(a: seq<string>, b: seq<string>)
    requires |a| == |b| && forall i :: 0 <= i < |a| && i <= ProgramIndex(a) ==> b[i] == a[i]
    ensures ProgramIndex(b) == ProgramIndex(a)
  {
    if a == [] {
    } else {
      assert b[0] == a[0];
      if IsShellAssignment(a[0]) {
        forall i | 0 <= i < |a[1..]| && i <= ProgramIndex(a[1..]) ensures b[1..][i] == a[1..][i] {
          assert b[i + 1] == a[i + 1];
        }
        ProgramIndexStable(a[1..], b[1..]);
      }
    }
  }

  /** Quoting preserves meaning: the rewritten command splits into as many words, each with the
      value of the word it came from, and the assignments and the program are untouched. */
  lemma QuotingPreservesMeaning(command: string)
    requires WithQuotedArguments(command).Some?
    ensures Words(command).Some? && Words(WithQuotedArguments(command).value).Some?
    ensures var words := Words(command).value;
            var typed := Words(WithQuotedArguments(command).value).value;
            && typed == QuoteArguments(words)
            && |typed| == |words|
            && (forall i :: 0 <= i < |words| ==> RemoveQuotes(typed[i]) == RemoveQuotes(words[i]))
            && (forall i :: 0 <= i < |words| && i <= ProgramIndex(words) ==> typed[i] == words[i])
            && (forall i :: ProgramIndex(words) < i < |words| ==> IsAlreadyQuoted(typed[i]))
  {
    WordsAreWords(command);
    var words := Words(command).value;
    var typed := QuoteArguments(words);
    forall i | 0 <= i < |words|
      ensures IsWord(typed[i]) && RemoveQuotes(typed[i]) == RemoveQuotes(words[i])
      ensures i > ProgramIndex(words) ==> IsAlreadyQuoted(typed[i])
    {
      assert words[i] in words;
      QuoteWordKeepsValue(words[i]);
    }
    WordsRoundTrip(typed);
  }

  /** The exact domain: every quote is closed and every word is plain or already quoted. */
  lemma QuotingDomain(command: string)
    ensures WithQuotedArguments(command).Some?
       <==> QuoteAfter(None, command).None? && CanQuote(Words(command).GetOr([]))
  {
    WordsAreWords(command);
  }

  /** Rewriting a rewritten command changes nothing. */
  lemma QuotingIsIdempotent(command: string)
    requires WithQuotedArguments(command).Some?
    ensures var typed := WithQuotedArguments(command).value;
            WithQuotedArguments(typed) == Some(typed)
  {
    QuotingPreservesMeaning(command);
    var words := Words(command).value;
    var typed := QuoteArguments(words);
    ProgramIndexStable(words, typed);
    assert CanQuote(typed) by {
      forall w | w in typed ensures IsPlain(w) || IsAlreadyQuoted(w) {
        var i :| 0 <= i < |typed| && typed[i] == w;
        assert words[i] in words;
      }
    }
    assert QuoteArguments(typed) == typed;
  }

  // ----- what is refused, and what is an assignment, character by character

  /** The rewriter refuses a command exactly if a quote is left open or some word without quotes
      holds a character that could mean something to a shell. */
  lemma QuotingRefuses(command: string)
    ensures WithQuotedArguments(command).None?
       <==> || QuoteAfter(None, command).Some?
            || exists w <- Words(command).GetOr([]) :: '\'' !in w && '"' !in w && exists c <- w ::
                 && !('0' <= c <= '9') && !('A' <= c <= 'Z') && !('a' <= c <= 'z')
                 && c != '_' && c != '-' && c != '.' && c != '/' && c != ':' && c != '=' && c != ',' && c != '@'
                 && c != '%' && c != '+'
  {
    WordsAreWords(command);
    var words := Words(command).GetOr([]);
    forall w | w in words
      ensures IsPlain(w) <==> forall c <- w ::
                || '0' <= c <= '9' || 'A' <= c <= 'Z' || 'a' <= c <= 'z'
                || c == '_' || c == '-' || c == '.' || c == '/' || c == ':' || c == '=' || c == ',' || c == '@'
                || c == '%' || c == '+'
    {
      PlainCharacters(w);
    }
  }

  lemma PlainCharacters(w: string)
    ensures IsPlain(w) <==> forall c <- w ::
              || '0' <= c <= '9' || 'A' <= c <= 'Z' || 'a' <= c <= 'z'
              || c == '_' || c == '-' || c == '.' || c == '/' || c == ':' || c == '=' || c == ',' || c == '@'
              || c == '%' || c == '+'
  {
    assert forall i :: 0 <= i < |w| ==> w[i] in w;
  }

  /** An assignment is a name, which does not start with a digit, an equals sign and anything. */
  lemma AssignmentsAre(word: string)
    ensures IsShellAssignment(word) <==> exists name, value :: IsAssignmentOf(word, name, value)
  {
    BeforeEqualsSplits(word);
    if IsShellAssignment(word) {
      var name := BeforeEquals(word);
      var value := word[|name| + 1..];
      assert word == name + "=" + value;
      assert IsAssignmentOf(word, name, value);
    }
    if name, value :| IsAssignmentOf(word, name, value) {
      assert word == name + ("=" + value) && word[|name|] == '=';
      assert '=' !in name by { assert forall c <- name :: c != '='; }
      BeforeEqualsOf(name, "=" + value);
      assert forall i :: 0 <= i < |name| ==> name[i] in name;
    }
  }

  ghost predicate IsAssignmentOf(word: string, name: string, value: string) {
    && word == name + "=" + value
    && name != "" && !('0' <= name[0] <= '9')
    && forall c <- name :: '0' <= c <= '9' || 'A' <= c <= 'Z' || 'a' <= c <= 'z' || c == '_'
  }

  lemma {:induction false} BeforeEqualsSplits(word: string)
    ensures |BeforeEquals(word)| <= |word| && BeforeEquals(word) == word[..|BeforeEquals(word)|]
    ensures '=' in word ==> |BeforeEquals(word)| < |word| && word[|BeforeEquals(word)|] == '='
  {
    if word == "" || word[0] == '=' {
    } else {
      BeforeEqualsSplits(word[1..]);
      assert word == [word[0]] + word[1..];
    }
  }

  lemma {:induction false} BeforeEqualsOf(name: string, rest: string)
    requires '=' !in name && rest != "" && rest[0] == '='
    ensures BeforeEquals(name + rest) == name
  {
    if name == "" {
      assert name + rest == rest;
    } else {
      assert name[0] in name && forall c <- name[1..] :: c in name;
      assert (name + rest)[1..] == name[1..] + rest;
      BeforeEqualsOf(name[1..], rest);
      assert [name[0]] + name[1..] == name;
    }
  }
}
