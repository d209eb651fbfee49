/** Launch commands: reading the session out of one, and keeping it through every rewrite. */
module Launch {
  import opened Text
  import opened Shell

  datatype Provider = Claude | Codex
  {
    function Name(): string {
      match this case Claude => "claude" case Codex => "codex"
    }
  }

  function FromAgentName(agent: string): Option<Provider> {
    if agent == "claude" then Some(Claude) else if agent == "codex" then Some(Codex) else None
  }

  const CLINCH_LAUNCHER := "clinch_agent_resume_launch"
  const LEGACY_LAUNCHER := "warp_agent_resume_launch"
  const NOCORRECT := "nocorrect"

  // ----- reading a command

  function WithoutNocorrect(command: string): string {
    var trimmed := TrimStart(command);
    if StartsWith(trimmed, NOCORRECT + " ") then TrimStart(trimmed[|NOCORRECT| + 1..]) else trimmed
  }

  /** `split_once(char::is_whitespace)`. */
  function SplitAtSpace(s: string): (r: Option<(string, string)>)
    ensures r.Some? ==> |r.value.0| + |r.value.1| < |s|
  {
    if s == "" then None
    else if IsWhitespace(s[0]) then Some(("", s[1..]))
    else
      match SplitAtSpace(s[1..])
      case None => None
      case Some((word, after)) => Some(([s[0]] + word, after))
  }

  lemma {:induction false} TrimStartShortens(s: string)
    ensures |TrimStart(s)| <= |s|
  {
    if s != "" && IsWhitespace(s[0]) {
      TrimStartShortens(s[1..]);
    }
  }

  function SkipAssignments(s: string): string
    decreases |s|
  {
    match SplitAtSpace(s)
    case None => s
    case Some((word, after)) =>
      TrimStartShortens(after);
      if IsShellAssignment(word) then SkipAssignments(TrimStart(after)) else s
  }

  /** A command without what Clinch adds around it: `nocorrect` and leading assignments. */
  method WithoutTypedPrefixes(command: string) returns (rest: string)
    ensures rest == SkipAssignments(WithoutNocorrect(command))
  {
    rest := WithoutNocorrect(command);
    while true
      invariant SkipAssignments(rest) == SkipAssignments(WithoutNocorrect(command))
      decreases |rest|
    {
      var split := SplitAtSpace(rest);
      if split.None? || !IsShellAssignment(split.value.0) {
        return;
      }
      TrimStartShortens(split.value.1);
      rest := TrimStart(split.value.1);
    }
  }

  datatype LaunchCommand = LaunchCommand(agent: string, id: string, flags: string)

  function StripLauncher(s: string): Option<string> {
    if StartsWith(s, CLINCH_LAUNCHER + " ") then Some(s[|CLINCH_LAUNCHER| + 1..])
    else if StartsWith(s, LEGACY_LAUNCHER + " ") then Some(s[|LEGACY_LAUNCHER| + 1..])
    else None
  }

  function ParseLaunchCommand(command: string): Option<LaunchCommand> {
    ParseLauncher(SkipAssignments(WithoutNocorrect(command)))
  }

  function ParseLauncher(s: string): Option<LaunchCommand> {
    match StripLauncher(s)
    case None => None
    case Some(rest) => FromParts(SplitWhitespace(rest))
  }

  function FromParts(parts: seq<string>): Option<LaunchCommand> {
    if |parts| < 2 then None
    else
      var flags := Join(parts[2..]);
      Some(LaunchCommand(TrimQuotes(parts[0]), TrimQuotes(parts[1]), if flags == "" then "" else " " + flags))
  }

  predicate IsSafeSessionId(id: string) {
    id != "" && forall i :: 0 <= i < |id| ==> IsAsciiAlphanumeric(id[i]) || id[i] == '-'
  }

  datatype Seed = Seed(provider: Provider, id: string)

  /** The session a stored command resumes, if it names one. */
  function SeedOf(command: string): Option<Seed> {
    match ParseLaunchCommand(command)
    case None => None
    case Some(launch) => SeedOfLaunch(launch)
  }

  function SeedOfLaunch(launch: LaunchCommand): Option<Seed> {
    match FromAgentName(launch.agent)
    case None => None
    case Some(provider) => if IsSafeSessionId(launch.id) then Some(Seed(provider, launch.id)) else None
  }

  // ----- writing a command

  datatype ShellType = Zsh | Bash | Fish | PowerShell

  function CommandToType(command: string, shell: ShellType): string {
    if shell != Zsh then command
    else NOCORRECT + " " + WithQuotedArguments(command).GetOr(command)
  }

  function NormalizeRestoreCommand(command: string): string {
    var trimmed := Trim(command);
    if trimmed == LEGACY_LAUNCHER then CLINCH_LAUNCHER
    else if StartsWith(trimmed, LEGACY_LAUNCHER + " ") then
      CLINCH_LAUNCHER + " " + trimmed[|LEGACY_LAUNCHER| + 1..]
    else command
  }

  function BuildRemoteResumeCommand(provider: Provider, sessionId: string): Option<string> {
    var id := Trim(sessionId);
    if |id| > 256 || !IsSafeSessionId(id) then None
    else Some(CLINCH_LAUNCHER + " " + provider.Name() + " " + id)
  }

  // ----- the parser on tokens

  predicate IsLauncher(text: string) {
    text == CLINCH_LAUNCHER || text == LEGACY_LAUNCHER
  }

  /** The launch command named by a list of whitespace tokens, given which texts are launchers. */
  function ParseTokensWith(tokens: seq<Token>, launcher: string -> bool): Option<LaunchCommand> {
    if tokens == [] || tokens[0].delim.None? then None
    else if IsShellAssignment(tokens[0].text) then ParseTokensWith(tokens[1..], launcher)
    else if launcher(tokens[0].text) && tokens[0].delim == Some(' ') then FromParts(Texts(tokens[1..]))
    else None
  }

  function Launchers(): string -> bool {
    (text: string) => IsLauncher(text)
  }

  function ParseTokens(tokens: seq<Token>): Option<LaunchCommand> {
    ParseTokensWith(tokens, Launchers())
  }

  function Texts(tokens: seq<Token>): seq<string> {
    seq(|tokens|, i requires 0 <= i < |tokens| => tokens[i].text)
  }

  /** `split_once` separates the first token from the rest. */
  lemma {:induction false} SplitAtSpaceTokens(s: string)
    ensures SplitAtSpace(s).None? ==> NoWhitespace(s)
    ensures SplitAtSpace(s).Some? ==>
              var (word, after) := SplitAtSpace(s).value;
              && NoWhitespace(word) && |word| < |s| && IsWhitespace(s[|word|])
              && s == word + [s[|word|]] + after
    decreases |s|
  {
    if s != "" && !IsWhitespace(s[0]) {
      SplitAtSpaceTokens(s[1..]);
      if SplitAtSpace(s).Some? {
        var (word, after) := SplitAtSpace(s[1..]).value;
        assert ([s[0]] + word) + [s[1..][|word|]] + after == [s[0]] + (word + [s[1..][|word|]] + after);
      }
    } else if s != "" {
      assert s == "" + [s[0]] + s[1..];
    }
  }

  predicate IsLowercase(s: string) {
    s != "" && forall i :: 0 <= i < |s| ==> '_' <= s[i] <= 'z'
  }

  lemma LowercaseFacts(s: string)
    requires IsLowercase(s)
    ensures NoWhitespace(s) && '=' !in s && !IsShellAssignment(s) && '\'' !in s && '"' !in s
  {
  }

  lemma LauncherFacts()
    ensures NoWhitespace(CLINCH_LAUNCHER) && !IsShellAssignment(CLINCH_LAUNCHER) && CLINCH_LAUNCHER != ""
    ensures NoWhitespace(LEGACY_LAUNCHER) && !IsShellAssignment(LEGACY_LAUNCHER) && LEGACY_LAUNCHER != ""
  {
    assert IsLowercase(CLINCH_LAUNCHER);
    LowercaseFacts(CLINCH_LAUNCHER);
    assert IsLowercase(LEGACY_LAUNCHER);
    LowercaseFacts(LEGACY_LAUNCHER);
  }

  lemma PrefixSplits(s: string, word: string)
    requires StartsWith(s, word + " ")
    ensures s == word + " " + s[|word| + 1..]
  {
  }

  /** A string split at its first space starts with a launcher and a space exactly when the word
      is that launcher and the separator that space. */
  lemma PrefixIsFirstWord(word: string, c: char, after: string, launcher: string)
    requires NoWhitespace(word) && IsWhitespace(c) && NoWhitespace(launcher) && launcher != ""
    ensures StartsWith(word + [c] + after, launcher + " ") <==> word == launcher && c == ' '
    ensures StartsWith(word + [c] + after, launcher + " ") ==> (word + [c] + after)[|launcher| + 1..] == after
  {
    var s := word + [c] + after;
    if StartsWith(s, launcher + " ") {
      assert s[|launcher|] == ' ';
      assert s[..|launcher|] == launcher;
      if |word| != |launcher| {
        assert IsWhitespace(s[|word|]) && IsWhitespace(s[|launcher|]);
        assert false;
      }
      assert word == s[..|word|];
    }
  }

  lemma NoSpaceNoPrefix(s: string, launcher: string)
    requires NoWhitespace(s)
    ensures !StartsWith(s, launcher + " ")
  {
    assert (launcher + " ")[|launcher|] == ' ';
  }

  lemma ParseLastWord(s: string)
    requires NoWhitespace(s)
    ensures ParseLauncher(s) == None && ParseTokens(Tokens(s)) == None
  {
    if s != "" {
      TokensLastWord(s);
    }
    NoSpaceNoPrefix(s, CLINCH_LAUNCHER);
    NoSpaceNoPrefix(s, LEGACY_LAUNCHER);
  }

  lemma ParseFirstWord(word: string, c: char, after: string)
    requires word != "" && NoWhitespace(word) && IsWhitespace(c) && !IsShellAssignment(word)
    ensures ParseLauncher(word + [c] + after) == ParseTokens(Tokens(word + [c] + after))
  {
    LauncherFacts();
    TokensWord(word, c, after);
    assert ([Token(word, Some(c))] + Tokens(after))[1..] == Tokens(after);
    PrefixIsFirstWord(word, c, after, CLINCH_LAUNCHER);
    PrefixIsFirstWord(word, c, after, LEGACY_LAUNCHER);
    assert SplitWhitespace(after) == Texts(Tokens(after));
  }

  lemma {:induction false} ParseFromTokens(s: string)
    requires s != "" ==> !IsWhitespace(s[0])
    ensures ParseLauncher(SkipAssignments(s)) == ParseTokens(Tokens(s))
    decreases |s|
  {
    SplitAtSpaceTokens(s);
    if SplitAtSpace(s).None? {
      ParseLastWord(s);
    } else {
      var (word, after) := SplitAtSpace(s).value;
      var c := s[|word|];
      assert word != "";
      if IsShellAssignment(word) {
        TokensWord(word, c, after);
        assert Tokens(s)[1..] == Tokens(after);
        TrimStartShortens(after);
        var gap := TrimStartSplits(after);
        TokensTrimStart(after);
        ParseFromTokens(TrimStart(after));
      } else {
        ParseFirstWord(word, c, after);
      }
    }
  }

  lemma ParseIsOnTokens(command: string)
    ensures ParseLaunchCommand(command) == ParseTokens(Tokens(WithoutNocorrect(command)))
  {
    var s := WithoutNocorrect(command);
    var gap := TrimStartSplits(command);
    var trimmed := TrimStart(command);
    if StartsWith(trimmed, NOCORRECT + " ") {
      gap := TrimStartSplits(trimmed[|NOCORRECT| + 1..]);
    }
    ParseFromTokens(s);
  }

  // ----- a command and its words have the same tokens

  /** The same texts; a single space stays one, except after the last token. */
  ghost predicate SameTexts(a: seq<Token>, b: seq<Token>) {
    && |a| == |b|
    && forall i :: 0 <= i < |a| ==>
         && a[i].text == b[i].text
         && (i + 1 < |a| ==> b[i].delim.Some? && (a[i].delim == Some(' ') ==> b[i].delim == Some(' ')))
  }

  lemma {:induction false} ParseSameTexts(a: seq<Token>, b: seq<Token>, launcher: string -> bool)
    requires SameTexts(a, b) && ParseTokensWith(a, launcher).Some?
    ensures ParseTokensWith(b, launcher) == ParseTokensWith(a, launcher)
  {
    assert |a| > 1;
    if IsShellAssignment(a[0].text) {
      ParseSameTexts(a[1..], b[1..], launcher);
    } else {
      assert Texts(a[1..]) == Texts(b[1..]);
    }
  }

  /** Which whitespace character ends a word matters to its last token only. */
  lemma {:induction false} DelimOnlyAtEnd(w: string, c: char, d: Option<char>, pending: string)
    requires IsWhitespace(c) && (d.Some? ==> IsWhitespace(d.value))
    ensures var a, b := TokensFrom(w + [c], pending), TokensFrom(w + Suffix(d), pending);
            && |a| == |b|
            && forall i :: 0 <= i < |a| ==>
                 && a[i].text == b[i].text
                 && (i + 1 < |a| ==> a[i] == b[i])
                 && (i + 1 == |a| ==> b[i].delim == d || b[i] == a[i])
    decreases |w|
  {
    if w == "" {
      assert (w + [c])[1..] == "" && w + [c] == [c];
      if d.Some? {
        assert (w + Suffix(d))[1..] == "";
      }
    } else {
      assert (w + [c])[1..] == w[1..] + [c] && (w + Suffix(d))[1..] == w[1..] + Suffix(d);
      DelimOnlyAtEnd(w[1..], c, d, if IsWhitespace(w[0]) then "" else pending + [w[0]]);
    }
  }

  function Suffix(d: Option<char>): string {
    if d.Some? then [d.value] else ""
  }

  lemma JoinTokens(w: string, words: seq<string>)
    requires words != []
    ensures Tokens(Join([w] + words)) == Tokens(w + " ") + Tokens(Join(words))
  {
    assert ([w] + words)[1..] == words;
    TokensCut(w, ' ', Join(words), "");
  }

  lemma SameTextsAtSpace(w: string, c: char, s: string, words: seq<string>)
    requires IsWhitespace(c) && SameTexts(Tokens(s), Tokens(Join(words)))
    ensures SameTexts(Tokens(w + [c] + s), Tokens(Join([w] + words)))
  {
    TokensCut(w, c, s, "");
    TokensAreWords(Join([w] + words), "");
    if words == [] {
      DelimOnlyAtEnd(w, c, None, "");
      assert w + Suffix(None) == w && Join([w] + words) == w;
      assert Tokens(Join(words)) == [];
    } else {
      JoinTokens(w, words);
      DelimOnlyAtEnd(w, c, Some(' '), "");
    }
  }

  lemma SameTextsReflexive(s: string)
    ensures SameTexts(Tokens(s), Tokens(s))
  {
    TokensAreWords(s, "");
  }

  lemma {:induction false} LayoutKeepsTexts(words: seq<string>, gaps: seq<string>)
    requires |gaps| == |words| && AreGaps(gaps)
    ensures SameTexts(Tokens(Layout(words, gaps)), Tokens(Join(words)))
  {
    if words == [] {
    } else {
      var w, gap, rest := words[0], gaps[0], Layout(words[1..], gaps[1..]);
      assert words == [w] + words[1..];
      LayoutKeepsTexts(words[1..], gaps[1..]);
      if gap == "" {
        assert words[1..] == [] && words == [w];
        assert Layout(words, gaps) == w + ("" + "") == w == Join(words);
        SameTextsReflexive(w);
      } else {
        TokensSkipGap(gap[1..], rest);
        SameTextsAtSpace(w, gap[0], gap[1..] + rest, words[1..]);
        assert w + (gap + rest) == w + [gap[0]] + (gap[1..] + rest);
      }
    }
  }

  /** A command and its words joined by spaces have the same tokens. */
  lemma SplittingKeepsTexts(command: string)
    requires Words(command).Some?
    ensures SameTexts(Tokens(command), Tokens(Join(Words(command).value)))
  {
    var lead, gaps := WordsAreALayout(command);
    LayoutKeepsTexts(Words(command).value, gaps);
    TokensSkipGap(lead, Layout(Words(command).value, gaps));
  }

  // ----- quoting arguments keeps the session

  /** The same token, or the same text in single quotes. */
  ghost predicate QuotedToken(a: Token, b: Token) {
    && a.delim == b.delim
    && (a.text == b.text || (a.text != "" && '\'' !in a.text && b.text == "'" + a.text + "'"))
  }

  ghost predicate QuotedTokens(a: seq<Token>, b: seq<Token>) {
    |a| == |b| && forall i :: 0 <= i < |a| ==> QuotedToken(a[i], b[i])
  }

  ghost predicate SameSession(a: Option<LaunchCommand>, b: Option<LaunchCommand>) {
    && (a.Some? <==> b.Some?)
    && (a.Some? ==> a.value.agent == b.value.agent && a.value.id == b.value.id)
  }

  lemma FromQuotedParts(a: seq<Token>, b: seq<Token>)
    requires QuotedTokens(a, b)
    ensures SameSession(FromParts(Texts(a)), FromParts(Texts(b)))
  {
    if |a| >= 2 {
      forall i | 0 <= i < 2 ensures TrimQuotes(a[i].text) == TrimQuotes(b[i].text) {
        assert QuotedToken(a[i], b[i]);
        if a[i].text != b[i].text {
          TrimQuotesOfQuoted(a[i].text);
        }
      }
      assert Texts(a)[0] == a[0].text && Texts(a)[1] == a[1].text;
      assert Texts(b)[0] == b[0].text && Texts(b)[1] == b[1].text;
    }
  }

  function QuoteAll(words: seq<string>): seq<string> {
    seq(|words|, i requires 0 <= i < |words| => QuoteWord(words[i]))
  }

  lemma WrapHasNoWhitespace(w: string)
    requires NoWhitespace(w)
    ensures NoWhitespace("'" + w + "'")
  {
    var q := "'" + w + "'";
    forall i | 0 <= i < |q| ensures !IsWhitespace(q[i]) {
      assert q[i] == '\'' || q[i] == w[i - 1];
    }
  }

  lemma QuoteWordTokens(w: string)
    requires w != "" && (IsPlain(w) || IsAlreadyQuoted(w))
    ensures QuotedTokens(Tokens(w), Tokens(QuoteWord(w)))
    ensures QuotedTokens(Tokens(w + " "), Tokens(QuoteWord(w) + " "))
  {
    if !IsAlreadyQuoted(w) {
      PlainFacts(w);
      var q := "'" + w + "'";
      assert NoWhitespace(q) by { WrapHasNoWhitespace(w); }
      TokensLastWord(w);
      TokensLastWord(q);
      assert w + " " == w + " " + "" && q + " " == q + " " + "";
      TokensWord(w, ' ', "");
      TokensWord(q, ' ', "");
    }
  }

  lemma QuotedAppend(a: seq<Token>, a': seq<Token>, b: seq<Token>, b': seq<Token>)
    requires QuotedTokens(a, a') && QuotedTokens(b, b')
    ensures QuotedTokens(a + b, a' + b')
  {
  }

  lemma {:induction false} QuoteAllTokens(words: seq<string>)
    requires forall w <- words :: w != "" && (IsPlain(w) || IsAlreadyQuoted(w))
    ensures QuotedTokens(Tokens(Join(words)), Tokens(Join(QuoteAll(words))))
  {
    if words == [] {
    } else {
      assert words[0] in words;
      QuoteWordTokens(words[0]);
      if |words| > 1 {
        assert forall v <- words[1..] :: v in words;
        QuoteAllTokens(words[1..]);
        JoinTokens(words[0], words[1..]);
        assert [words[0]] + words[1..] == words;
        JoinTokens(QuoteWord(words[0]), QuoteAll(words[1..]));
        assert [QuoteWord(words[0])] + QuoteAll(words[1..]) == QuoteAll(words);
        QuotedAppend(Tokens(words[0] + " "), Tokens(QuoteWord(words[0]) + " "),
                     Tokens(Join(words[1..])), Tokens(Join(QuoteAll(words[1..]))));
      }
    }
  }

  /** If the first token of a word is an assignment, so is the word. */
  lemma {:induction false} BeforeEqualsOfPrefix(t: string, rest: string)
    requires '=' in t
    ensures BeforeEquals(t + rest) == BeforeEquals(t)
  {
    if t[0] != '=' {
      assert '=' in t[1..] by { var i :| 0 <= i < |t| && t[i] == '='; assert t[1..][i - 1] == '='; }
      assert (t + rest)[1..] == t[1..] + rest;
      BeforeEqualsOfPrefix(t[1..], rest);
    }
  }

  lemma FirstTokenOfWord(w: string)
    requires IsWord(w)
    ensures Tokens(w + " ") != []
    ensures IsShellAssignment(Tokens(w + " ")[0].text) ==> IsShellAssignment(w)
  {
    assert !IsWhitespace(w[0]);
    SplitAtSpaceTokens(w + " ");
    assert (w + " ")[|w|] == ' ';
    assert SplitAtSpace(w + " ").Some?;
    var (word, after) := SplitAtSpace(w + " ").value;
    assert word != "";
    TokensWord(word, (w + " ")[|word|], after);
    assert word == (w + " ")[..|word|] == w[..|word|];
    assert w == word + w[|word|..];
    if IsShellAssignment(word) {
      BeforeEqualsOfPrefix(word, w[|word|..]);
    }
  }

  lemma QuotedConcat(block: seq<Token>, a: seq<Token>, b: seq<Token>)
    requires QuotedTokens(a, b)
    ensures QuotedTokens(block + a, block + b)
  {
    QuotedAppend(block, block, a, b);
  }

  lemma ParseHead(head: Token, rest: seq<Token>, launcher: string -> bool)
    ensures ParseTokensWith([head] + rest, launcher)
         == if head.delim.None? then None
            else if IsShellAssignment(head.text) then ParseTokensWith(rest, launcher)
            else if launcher(head.text) && head.delim == Some(' ') then FromParts(Texts(rest))
            else None
  {
    assert ([head] + rest)[1..] == rest;
  }

  lemma HeadKeepsSession(head: Token, a: seq<Token>, b: seq<Token>, launcher: string -> bool)
    requires QuotedTokens(a, b)
    requires IsShellAssignment(head.text) ==> SameSession(ParseTokensWith(a, launcher), ParseTokensWith(b, launcher))
    ensures SameSession(ParseTokensWith([head] + a, launcher), ParseTokensWith([head] + b, launcher))
  {
    ParseHead(head, a, launcher);
    ParseHead(head, b, launcher);
    FromQuotedParts(a, b);
  }

  lemma BlockSplits(block: seq<Token>, a: seq<Token>)
    requires block != []
    ensures block + a == [block[0]] + (block[1..] + a)
  {
  }

  /** Tokens in front of two lists that name the same session leave it the same. */
  lemma {:induction false} BlockKeepsSession(block: seq<Token>, a: seq<Token>, b: seq<Token>, launcher: string -> bool)
    requires QuotedTokens(a, b) && SameSession(ParseTokensWith(a, launcher), ParseTokensWith(b, launcher))
    ensures SameSession(ParseTokensWith(block + a, launcher), ParseTokensWith(block + b, launcher))
  {
    if block == [] {
      assert block + a == a && block + b == b;
    } else {
      var head, rest := block[0], block[1..];
      BlockKeepsSession(rest, a, b, launcher);
      QuotedConcat(rest, a, b);
      HeadKeepsSession(head, rest + a, rest + b, launcher);
      BlockSplits(block, a);
      BlockSplits(block, b);
    }
  }

  /** If the first of those tokens is not an assignment, it alone decides. */
  lemma ProgramKeepsSession(block: seq<Token>, a: seq<Token>, b: seq<Token>, launcher: string -> bool)
    requires block != [] && !IsShellAssignment(block[0].text) && QuotedTokens(a, b)
    ensures SameSession(ParseTokensWith(block + a, launcher), ParseTokensWith(block + b, launcher))
  {
    var head, rest := block[0], block[1..];
    QuotedConcat(rest, a, b);
    HeadKeepsSession(head, rest + a, rest + b, launcher);
    BlockSplits(block, a);
    BlockSplits(block, b);
  }

  /** Both readings of a command whose arguments are quoted name the same session. */
  ghost predicate QuotedAlike(words: seq<string>, typed: seq<string>, launcher: string -> bool) {
    && QuotedTokens(Tokens(Join(words)), Tokens(Join(typed)))
    && SameSession(ParseTokensWith(Tokens(Join(words)), launcher), ParseTokensWith(Tokens(Join(typed)), launcher))
  }

  lemma QuotedAfterAssignment(w: string, rest: string, rest': string, launcher: string -> bool)
    requires QuotedTokens(Tokens(rest), Tokens(rest'))
    requires SameSession(ParseTokensWith(Tokens(rest), launcher), ParseTokensWith(Tokens(rest'), launcher))
    ensures QuotedTokens(Tokens(w + " ") + Tokens(rest), Tokens(w + " ") + Tokens(rest'))
    ensures SameSession(ParseTokensWith(Tokens(w + " ") + Tokens(rest), launcher),
                        ParseTokensWith(Tokens(w + " ") + Tokens(rest'), launcher))
  {
    BlockKeepsSession(Tokens(w + " "), Tokens(rest), Tokens(rest'), launcher);
    QuotedConcat(Tokens(w + " "), Tokens(rest), Tokens(rest'));
  }

  lemma AssignmentKeepsSession(w: string, rest: seq<string>, launcher: string -> bool)
    requires IsWord(w) && IsShellAssignment(w) && rest != [] && QuotedAlike(rest, QuoteArguments(rest), launcher)
    ensures QuotedAlike([w] + rest, QuoteArguments([w] + rest), launcher)
  {
    var typed := QuoteArguments(rest);
    QuoteArgumentsAfter(w, rest);
    JoinTokens(w, rest);
    JoinTokens(w, typed);
    QuotedAfterAssignment(w, Join(rest), Join(typed), launcher);
  }

  lemma QuotedAfterProgram(w: string, rest: string, rest': string, launcher: string -> bool)
    requires IsWord(w) && !IsShellAssignment(w) && QuotedTokens(Tokens(rest), Tokens(rest'))
    ensures QuotedTokens(Tokens(w + " ") + Tokens(rest), Tokens(w + " ") + Tokens(rest'))
    ensures SameSession(ParseTokensWith(Tokens(w + " ") + Tokens(rest), launcher),
                        ParseTokensWith(Tokens(w + " ") + Tokens(rest'), launcher))
  {
    FirstTokenOfWord(w);
    ProgramKeepsSession(Tokens(w + " "), Tokens(rest), Tokens(rest'), launcher);
    QuotedConcat(Tokens(w + " "), Tokens(rest), Tokens(rest'));
  }

  lemma ProgramIndexAfter(w: string, rest: seq<string>)
    ensures ProgramIndex([w] + rest) == if IsShellAssignment(w) then 1 + ProgramIndex(rest) else 0
  {
    assert ([w] + rest)[1..] == rest;
  }

  lemma QuoteArgumentsAfter(w: string, rest: seq<string>)
    ensures QuoteArguments([w] + rest) == [w] + if IsShellAssignment(w) then QuoteArguments(rest) else QuoteAll(rest)
  {
    var words, tail := [w] + rest, if IsShellAssignment(w) then QuoteArguments(rest) else QuoteAll(rest);
    ProgramIndexAfter(w, rest);
    assert |QuoteArguments(words)| == |[w] + tail|;
    forall i | 0 <= i < |words| ensures QuoteArguments(words)[i] == ([w] + tail)[i] {
      if i > 0 {
        assert words[i] == rest[i - 1] && ([w] + tail)[i] == tail[i - 1];
      }
    }
  }

  lemma ProgramWordKeepsSession(w: string, rest: seq<string>, launcher: string -> bool)
    requires IsWord(w) && !IsShellAssignment(w) && rest != []
    requires CanQuote(rest) && forall v <- rest :: IsWord(v)
    ensures QuotedAlike([w] + rest, QuoteArguments([w] + rest), launcher)
  {
    QuoteArgumentsAfter(w, rest);
    JoinTokens(w, rest);
    JoinTokens(w, QuoteAll(rest));
    QuoteAllTokens(rest);
    QuotedAfterProgram(w, Join(rest), Join(QuoteAll(rest)), launcher);
  }

  /** Quoting the arguments after the program keeps the session the tokens name. */
  lemma {:induction false} QuotingKeepsSession(words: seq<string>, launcher: string -> bool)
    requires CanQuote(words) && forall w <- words :: IsWord(w)
    ensures QuotedAlike(words, QuoteArguments(words), launcher)
  {
    if |words| <= 1 {
      assert QuoteArguments(words) == words;
    } else {
      var w, rest := words[0], words[1..];
      assert [w] + rest == words && w in words && forall v <- rest :: v in words;
      if IsShellAssignment(w) {
        QuotingKeepsSession(rest, launcher);
        AssignmentKeepsSession(w, rest, launcher);
      } else {
        ProgramWordKeepsSession(w, rest, launcher);
      }
    }
  }

  // ----- what every rewrite keeps

  predicate StartsWithNocorrect(command: string) {
    StartsWith(TrimStart(command), NOCORRECT + " ")
  }

  lemma NocorrectFacts()
    ensures NoWhitespace(NOCORRECT) && '=' !in NOCORRECT
    ensures !IsLauncher(NOCORRECT) && !IsLauncher("'" + NOCORRECT + "'")
  {
    assert IsLowercase(NOCORRECT);
    LowercaseFacts(NOCORRECT);
    assert ("'" + NOCORRECT + "'")[0] == '\'';
  }

  lemma TypedText(command: string)
    ensures ParseLaunchCommand(CommandToType(command, Zsh))
         == ParseTokens(Tokens(WithQuotedArguments(command).GetOr(command)))
  {
    NocorrectFacts();
    var text := WithQuotedArguments(command).GetOr(command);
    var typed := NOCORRECT + " " + text;
    assert typed[0] == NOCORRECT[0];
    assert TrimStart(typed) == typed && typed[|NOCORRECT| + 1..] == text;
    assert WithoutNocorrect(typed) == TrimStart(text);
    TokensTrimStart(text);
    ParseIsOnTokens(typed);
  }

  /** A first token `nocorrect`, bare or quoted, is no launch command. */
  lemma NocorrectIsNoLaunch(tokens: seq<Token>)
    requires tokens != [] && (tokens[0].text == NOCORRECT || tokens[0].text == "'" + NOCORRECT + "'")
    ensures ParseTokens(tokens) == None
  {
    NocorrectFacts();
  }

  lemma NocorrectIsFirstToken(command: string)
    requires StartsWithNocorrect(command)
    ensures Tokens(command) != [] && Tokens(command)[0].text == NOCORRECT
  {
    NocorrectFacts();
    var trimmed := TrimStart(command);
    PrefixSplits(trimmed, NOCORRECT);
    TokensWord(NOCORRECT, ' ', trimmed[|NOCORRECT| + 1..]);
    TokensTrimStart(command);
  }

  /** The typed form keeps the session of a command that does not start with `nocorrect`. */
  lemma TypedKeepsSession(command: string)
    requires !StartsWithNocorrect(command) && ParseLaunchCommand(command).Some?
    ensures SameSession(ParseLaunchCommand(command), ParseLaunchCommand(CommandToType(command, Zsh)))
  {
    ParseIsOnTokens(command);
    TokensTrimStart(command);
    TypedText(command);
    if WithQuotedArguments(command).Some? && ParseLaunchCommand(command).Some? {
      var words := Words(command).value;
      WordsAreWords(command);
      SplittingKeepsTexts(command);
      ParseSameTexts(Tokens(command), Tokens(Join(words)), Launchers());
      QuotingKeepsSession(words, Launchers());
    }
  }

  /** The typed form of a command that starts with `nocorrect` names no session. */
  lemma TypedLosesSession(command: string)
    requires StartsWithNocorrect(command)
    ensures ParseLaunchCommand(CommandToType(command, Zsh)) == None
  {
    TypedText(command);
    NocorrectIsFirstToken(command);
    if WithQuotedArguments(command).Some? {
      var words := Words(command).value;
      WordsAreWords(command);
      SplittingKeepsTexts(command);
      QuotingKeepsSession(words, Launchers());
      var a, b := Tokens(Join(words)), Tokens(Join(QuoteArguments(words)));
      assert QuotedToken(a[0], b[0]);
      NocorrectIsNoLaunch(b);
    } else {
      NocorrectIsNoLaunch(Tokens(command));
    }
  }

  /** The command with one space between its words, if the rewriter takes it. */
  function Spaced(command: string): string {
    if WithQuotedArguments(command).Some? then Join(Words(command).value) else command
  }

  /** What a typed command names, for every command: what the command names with one space between
      its words, and nothing if that starts with `nocorrect`. */
  lemma TypedCommandNames(command: string)
    ensures SeedOf(CommandToType(command, Zsh))
         == if StartsWithNocorrect(Spaced(command)) then None else SeedOf(Spaced(command))
  {
    var spaced, text := Spaced(command), WithQuotedArguments(command).GetOr(command);
    TypedText(command);
    if WithQuotedArguments(command).Some? {
      WordsAreWords(command);
      QuotingKeepsSession(Words(command).value, Launchers());
    }
    if StartsWithNocorrect(spaced) {
      NocorrectIsFirstToken(spaced);
      assert Tokens(text) != [] && (text == spaced || QuotedToken(Tokens(spaced)[0], Tokens(text)[0]));
      NocorrectIsNoLaunch(Tokens(text));
    } else {
      ParseIsOnTokens(spaced);
      TokensTrimStart(spaced);
    }
  }

  /** The condition under which the zsh form of a command names what the command names. */
  predicate KeepsSeedInZsh(command: string) {
    if SeedOf(command).Some? then !StartsWithNocorrect(command)
    else SeedOf(Spaced(command)).None? || StartsWithNocorrect(Spaced(command))
  }

  /** A typed command names what the command names: in every shell but zsh, and there exactly if the
      command names a session and does not start with `nocorrect`, or names none and would not with
      one space between its words either. */
  lemma TypedCommandKeepsSeed(command: string, shell: ShellType)
    ensures SeedOf(CommandToType(command, shell)) == SeedOf(command) <==> shell != Zsh || KeepsSeedInZsh(command)
  {
    if shell == Zsh {
      if SeedOf(command).None? {
        TypedCommandNames(command);
      } else if StartsWithNocorrect(command) {
        TypedLosesSession(command);
      } else {
        TypedKeepsSession(command);
      }
    }
  }

  lemma {:induction false} QuoteFreeIsWord(w: string)
    requires w != "" && '\'' !in w && '"' !in w && NoWhitespace(w)
    ensures IsWord(w)
  {
    if |w| > 1 {
      assert w[0] in w && forall c :: c in w[1..] ==> c in w;
      QuoteFreeIsWord(w[1..]);
    } else {
      assert w == [w[0]] && w[0] in w;
      OneChar(None, w[0]);
    }
  }

  lemma NocorrectIsWord()
    ensures IsWord(NOCORRECT)
  {
    assert IsLowercase(NOCORRECT);
    LowercaseFacts(NOCORRECT);
    QuoteFreeIsWord(NOCORRECT);
  }

  /** What a shell is given to run: outside zsh the command itself; in zsh `nocorrect` and then the
      words of the command, with the same values, its arguments quoted if the rewriter takes it. */
  lemma TypedCommandWords(command: string)
    requires Words(command).Some?
    ensures forall shell :: shell != Zsh ==> CommandToType(command, shell) == command
    ensures var words := Words(command).value;
            var typed := if CanQuote(words) then QuoteArguments(words) else words;
            Words(CommandToType(command, Zsh)) == Some([NOCORRECT] + typed)
  {
    NocorrectIsWord();
    var text := WithQuotedArguments(command).GetOr(command);
    TextToType(command);
    WordsEndAtGap(NOCORRECT, " ", text);
    Reassociate(NOCORRECT, " ", text);
  }

  lemma TextToType(command: string)
    requires Words(command).Some?
    ensures var words := Words(command).value;
            var typed := if CanQuote(words) then QuoteArguments(words) else words;
            Words(WithQuotedArguments(command).GetOr(command)) == Some(typed)
  {
    if WithQuotedArguments(command).Some? {
      QuotingPreservesMeaning(command);
    }
  }

  lemma NormalizedFacts(command: string)
    requires NormalizeRestoreCommand(command) != command
    ensures var n := NormalizeRestoreCommand(command);
            n == CLINCH_LAUNCHER || StartsWith(n, CLINCH_LAUNCHER + " ")
  {
  }

  lemma ClinchIsNotLegacy(n: string)
    requires StartsWith(n, CLINCH_LAUNCHER)
    ensures NormalizeRestoreCommand(n) == n
  {
    LauncherFacts();
    assert n[0] == CLINCH_LAUNCHER[0] == 'c';
    assert TrimStart(n) == n;
    var gap := TrimEndSplits(n);
    if Trim(n) != "" {
      assert Trim(n)[0] == 'c';
      assert LEGACY_LAUNCHER[0] == 'w' && (LEGACY_LAUNCHER + " ")[0] == 'w';
    }
  }

  lemma NormalizeIsIdempotent(command: string)
    ensures NormalizeRestoreCommand(NormalizeRestoreCommand(command)) == NormalizeRestoreCommand(command)
  {
    var n := NormalizeRestoreCommand(command);
    if n != command {
      NormalizedFacts(command);
      ClinchIsNotLegacy(n);
    }
  }

  lemma TextsIgnoreTrailingSpace(s: string, gap: string)
    requires AllWhitespace(gap)
    ensures SplitWhitespace(s + gap) == SplitWhitespace(s)
  {
    if gap == "" {
      assert s + gap == s;
    } else {
      var c, rest := gap[0], gap[1..];
      assert s + gap == s + [c] + rest;
      TokensCut(s, c, rest, "");
      TokensSkipGap(rest, "");
      assert rest + "" == rest;
      DelimOnlyAtEnd(s, c, None, "");
      assert s + Suffix(None) == s;
    }
  }

  lemma LauncherIsNotNocorrect(launcher: string, rest: string)
    requires IsLauncher(launcher)
    ensures !StartsWithNocorrect(launcher + rest) && TrimStart(launcher + rest) == launcher + rest
  {
    LauncherFacts();
    var s := launcher + rest;
    assert s[0] == launcher[0];
    assert launcher[0] == 'c' || launcher[0] == 'w';
    assert (NOCORRECT + " ")[0] == 'n';
  }

  lemma ParseTokensAfterLauncher(launcher: string, rest: string)
    requires IsLauncher(launcher) && NoWhitespace(launcher) && launcher != "" && !IsShellAssignment(launcher)
    ensures ParseTokens(Tokens(launcher + " " + rest)) == FromParts(SplitWhitespace(rest))
  {
    TokensWord(launcher, ' ', rest);
    assert Tokens(launcher + " " + rest)[1..] == Tokens(rest);
    assert SplitWhitespace(rest) == Texts(Tokens(rest));
  }

  /** A command whose first word is a launcher is parsed from the words after it. */
  lemma ParseAfterLauncher(launcher: string, rest: string)
    requires IsLauncher(launcher)
    ensures ParseLaunchCommand(launcher + " " + rest) == FromParts(SplitWhitespace(rest))
  {
    LauncherFacts();
    Reassociate(launcher, " ", rest);
    LauncherIsNotNocorrect(launcher, " " + rest);
    ParseIsOnTokens(launcher + " " + rest);
    ParseTokensAfterLauncher(launcher, rest);
  }

  /** Where the trimmed command starts with a word, so does the command after its leading space. */
  lemma TrimmedPrefix(command: string, word: string) returns (back: string)
    requires StartsWith(Trim(command), word + " ")
    ensures AllWhitespace(back)
    ensures TrimStart(command) == word + " " + (Trim(command)[|word| + 1..] + back)
  {
    back := TrimEndSplits(TrimStart(command));
    PrefixSplits(Trim(command), word);
    Reassociate(word + " ", Trim(command)[|word| + 1..], back);
  }

  lemma Reassociate(a: string, b: string, c: string)
    ensures a + b + c == a + (b + c)
  {
  }

  lemma TrimStartIsIdempotent(s: string)
    ensures TrimStart(TrimStart(s)) == TrimStart(s)
  {
    var gap := TrimStartSplits(s);
  }

  lemma ParseTrimmed(command: string)
    requires StartsWith(Trim(command), LEGACY_LAUNCHER + " ")
    ensures ParseLaunchCommand(command) == FromParts(SplitWhitespace(Trim(command)[|LEGACY_LAUNCHER| + 1..]))
  {
    var back := TrimmedPrefix(command, LEGACY_LAUNCHER);
    var rest := Trim(command)[|LEGACY_LAUNCHER| + 1..];
    TrimStartIsIdempotent(command);
    assert WithoutNocorrect(TrimStart(command)) == WithoutNocorrect(command);
    ParseAfterLauncher(LEGACY_LAUNCHER, rest + back);
    TextsIgnoreTrailingSpace(rest, back);
  }

  lemma OneTokenIsNoLaunch(s: string)
    requires |SplitWhitespace(s)| <= 1
    ensures ParseTokens(Tokens(s)) == None
  {
    if Tokens(s) != [] {
      assert Tokens(s)[1..] == [] && ParseTokensWith([], Launchers()) == None && |Texts([])| == 0;
    }
  }

  lemma LauncherAloneIsNoLaunch(command: string)
    requires IsLauncher(Trim(command))
    ensures ParseLaunchCommand(command) == None
  {
    LauncherFacts();
    var launcher := Trim(command);
    var front := TrimStartSplits(command);
    var back := TrimEndSplits(TrimStart(command));
    LauncherIsNotNocorrect(launcher, back);
    ParseIsOnTokens(command);
    TextsIgnoreTrailingSpace(launcher, back);
    TokensLastWord(launcher);
    OneTokenIsNoLaunch(launcher + back);
  }

  /** Rebranding a stored command changes nothing a reader of launch commands sees. */
  lemma NormalizeKeepsLaunch(command: string)
    ensures ParseLaunchCommand(NormalizeRestoreCommand(command)) == ParseLaunchCommand(command)
    ensures SeedOf(NormalizeRestoreCommand(command)) == SeedOf(command)
  {
    var trimmed := Trim(command);
    if trimmed == LEGACY_LAUNCHER {
      LauncherAloneIsNoLaunch(command);
      LauncherFacts();
      assert TrimStart(CLINCH_LAUNCHER) == CLINCH_LAUNCHER;
      assert TrimEnd(CLINCH_LAUNCHER) == CLINCH_LAUNCHER;
      LauncherAloneIsNoLaunch(CLINCH_LAUNCHER);
    } else if StartsWith(trimmed, LEGACY_LAUNCHER + " ") {
      ParseTrimmed(command);
      ParseAfterLauncher(CLINCH_LAUNCHER, trimmed[|LEGACY_LAUNCHER| + 1..]);
    }
  }

  lemma SafeIdFacts(id: string)
    requires IsSafeSessionId(id)
    ensures NoWhitespace(id) && '\'' !in id && TrimQuotes(id) == id
  {
    assert id[0] in id && id[|id| - 1] in id;
  }

  lemma NameAndId(name: string, id: string)
    requires IsSafeSessionId(name) && IsSafeSessionId(id)
    ensures FromParts(SplitWhitespace(name + " " + id)) == Some(LaunchCommand(name, id, ""))
  {
    SafeIdFacts(name);
    SafeIdFacts(id);
    TokensWord(name, ' ', id);
    TokensLastWord(id);
    assert SplitWhitespace(name + " " + id) == [name, id];
  }

  lemma Regroup(a: string, b: string, c: string)
    ensures a + " " + b + " " + c == a + " " + (b + " " + c) == a + (" " + b + " " + c)
  {
  }

  lemma RemoteCommandFacts(name: string, id: string)
    requires IsSafeSessionId(name) && IsSafeSessionId(id)
    ensures var command := CLINCH_LAUNCHER + " " + name + " " + id;
            && ParseLaunchCommand(command) == Some(LaunchCommand(name, id, ""))
            && !StartsWithNocorrect(command)
            && NormalizeRestoreCommand(command) == command
  {
    Regroup(CLINCH_LAUNCHER, name, id);
    ParseAfterLauncher(CLINCH_LAUNCHER, name + " " + id);
    NameAndId(name, id);
    ClinchIsNotLegacy(CLINCH_LAUNCHER + (" " + name + " " + id));
    LauncherIsNotNocorrect(CLINCH_LAUNCHER, " " + name + " " + id);
  }

  /** A remote resume command is built exactly for safe ids of at most 256 characters, and reads
      back as the provider and the trimmed id, however it is typed. */
  lemma RemoteCommandReadsBack(provider: Provider, sessionId: string, shell: ShellType)
    ensures BuildRemoteResumeCommand(provider, sessionId).Some?
       <==> && Trim(sessionId) != "" && |Trim(sessionId)| <= 256
            && forall c <- Trim(sessionId) :: '0' <= c <= '9' || 'A' <= c <= 'Z' || 'a' <= c <= 'z' || c == '-'
    ensures BuildRemoteResumeCommand(provider, sessionId).Some? ==>
              var command := BuildRemoteResumeCommand(provider, sessionId).value;
              && command == "clinch_agent_resume_launch " + (if provider.Claude? then "claude " else "codex ")
                            + Trim(sessionId)
              && SeedOf(command) == Some(Seed(provider, Trim(sessionId)))
              && SeedOf(CommandToType(command, shell)) == SeedOf(command)
              && NormalizeRestoreCommand(command) == command
  {
    var id := Trim(sessionId);
    assert forall i :: 0 <= i < |id| ==> id[i] in id;
    if BuildRemoteResumeCommand(provider, sessionId).Some? {
      assert CLINCH_LAUNCHER + " " == "clinch_agent_resume_launch ";
      assert provider.Name() + " " == if provider.Claude? then "claude " else "codex ";
      Reassociate(CLINCH_LAUNCHER + " ", provider.Name(), " ");
      assert IsSafeSessionId(provider.Name());
      RemoteCommandFacts(provider.Name(), Trim(sessionId));
      TypedCommandKeepsSeed(BuildRemoteResumeCommand(provider, sessionId).value, shell);
    }
  }


  lemma TypedStartsWithNocorrect(command: string)
    ensures StartsWithNocorrect(CommandToType(command, Zsh))
  {
    var typed := CommandToType(command, Zsh);
    assert typed[0] == 'n' && TrimStart(typed) == typed;
  }

  lemma RetypedNamesNothing(command: string)
    requires SeedOf(command).Some? && !StartsWithNocorrect(command)
    ensures SeedOf(CommandToType(command, Zsh)) == SeedOf(command)
    ensures SeedOf(CommandToType(CommandToType(command, Zsh), Zsh)) == None
  {
    TypedCommandKeepsSeed(command, Zsh);
    TypedStartsWithNocorrect(command);
    TypedLosesSession(CommandToType(command, Zsh));
  }

  /** Typing a command that was typed before does lose its session, for every provider and id. */
  lemma TypingTwiceLosesSession(provider: Provider, id: string)
    requires IsSafeSessionId(id)
    ensures var once := CommandToType(CLINCH_LAUNCHER + " " + provider.Name() + " " + id, Zsh);
            && StartsWithNocorrect(once)
            && SeedOf(once) == Some(Seed(provider, id))
            && SeedOf(CommandToType(once, Zsh)) == None
  {
    var command := CLINCH_LAUNCHER + " " + provider.Name() + " " + id;
    assert IsSafeSessionId(provider.Name());
    RemoteCommandFacts(provider.Name(), id);
    TypedStartsWithNocorrect(command);
    RetypedNamesNothing(command);
  }

  lemma TabbedIsNoLaunch(launcher: string, rest: string)
    requires IsLauncher(launcher)
    ensures ParseLaunchCommand(launcher + "\t" + rest) == None
  {
    LauncherFacts();
    Reassociate(launcher, "\t", rest);
    LauncherIsNotNocorrect(launcher, "\t" + rest);
    ParseIsOnTokens(launcher + "\t" + rest);
    TokensWord(launcher, '\t', rest);
  }

  lemma {:induction false} PlainIsWord(w: string)
    requires IsPlain(w)
    ensures QuoteAfter(None, w).None? && !HasBareSpace(None, w)
  {
    if w == "" {
    } else {
      PlainIsWord(w[1..]);
    }
  }

  lemma SpacedThree(a: string, b: string, c: string)
    requires IsPlain(a) && IsPlain(b) && IsPlain(c) && a != "" && b != "" && c != ""
    ensures Spaced(a + "\t" + (b + " " + c)) == a + " " + b + " " + c
  {
    PlainIsWord(a);
    PlainIsWord(b);
    PlainIsWord(c);
    WordsOfOne(c);
    WordsEndAtGap(b, " ", c);
    WordsEndAtGap(a, "\t", b + " " + c);
    assert a + "\t" + (b + " " + c) == a + ("\t" + (b + " " + c)) && b + " " + c == b + (" " + c);
    assert [b] + [c] == [b, c] && [a] + [b, c] == [a, b, c];
    assert Words(a + "\t" + (b + " " + c)) == Some([a, b, c]) && CanQuote([a, b, c]);
    assert [a, b, c][1..] == [b, c] && [b, c][1..] == [c];
    assert Join([b, c]) == b + " " + Join([c]) == b + " " + c;
    assert Join([a, b, c]) == a + " " + (b + " " + c);
    assert WithQuotedArguments(a + "\t" + (b + " " + c)).Some?;
    Regroup(a, b, c);
  }

  lemma LauncherIsPlain()
    ensures IsPlain(CLINCH_LAUNCHER)
  {
  }

  /** Typing does give a session to a command that names none: the parser wants a space after the
      launcher, and the rewriter turns a tab into one. */
  lemma TypingGivesSession(provider: Provider, id: string)
    requires IsSafeSessionId(id)
    ensures var command := CLINCH_LAUNCHER + "\t" + (provider.Name() + " " + id);
            SeedOf(command) == None && SeedOf(CommandToType(command, Zsh)) == Some(Seed(provider, id))
  {
    var name := provider.Name();
    assert IsSafeSessionId(name) && IsPlain(name) && IsPlain(id);
    TabbedIsNoLaunch(CLINCH_LAUNCHER, name + " " + id);
    LauncherIsPlain();
    SpacedThree(CLINCH_LAUNCHER, name, id);
    RemoteCommandFacts(name, id);
    TypedCommandNames(CLINCH_LAUNCHER + "\t" + (name + " " + id));
  }

  // ----- what is read, in strings

  lemma {:induction false} SplitsLayout(words: seq<string>, gaps: seq<string>)
    requires |gaps| == |words| && AreGaps(gaps) && forall w <- words :: w != "" && NoWhitespace(w)
    ensures SplitWhitespace(Layout(words, gaps)) == words
  {
    if words == [] {
    } else {
      var w, gap, rest := words[0], gaps[0], Layout(words[1..], gaps[1..]);
      assert w in words && forall v <- words[1..] :: v in words;
      SplitsLayout(words[1..], gaps[1..]);
      assert words == [w] + words[1..];
      SplitsFirst(w, gap, rest);
    }
  }

  lemma SplitsFirst(w: string, gap: string, rest: string)
    requires w != "" && NoWhitespace(w) && AllWhitespace(gap) && (gap != "" || rest == "")
    ensures SplitWhitespace(w + (gap + rest)) == [w] + SplitWhitespace(rest)
  {
    if gap == "" {
      assert w + (gap + rest) == w;
      TokensLastWord(w);
      assert Tokens("") == [];
    } else {
      assert w + (gap + rest) == w + [gap[0]] + (gap[1..] + rest);
      TokensWord(w, gap[0], gap[1..] + rest);
      TokensSkipGap(gap[1..], rest);
    }
  }

  lemma SplitsAfterLead(lead: string, words: seq<string>, gaps: seq<string>)
    requires AllWhitespace(lead) && |gaps| == |words| && AreGaps(gaps)
    requires forall w <- words :: w != "" && NoWhitespace(w)
    ensures SplitWhitespace(lead + Layout(words, gaps)) == words
  {
    SplitsLayout(words, gaps);
    TokensSkipGap(lead, Layout(words, gaps));
  }

  /** The text between which and the words of a launch command nothing may stand but one space. */
  ghost predicate IsLauncherText(launcher: string) {
    launcher == "clinch_agent_resume_launch" || launcher == "warp_agent_resume_launch"
  }

  /** A launch command reads back: agent and id without quotes around them, and the other words,
      joined with spaces, as its flags; whatever whitespace stands between the words. */
  lemma LaunchReadsBack(launcher: string, lead: string, words: seq<string>, gaps: seq<string>,
                        agent: string, id: string, quotes: seq<string>)
    requires IsLauncherText(launcher) && AllWhitespace(lead) && |gaps| == |words| >= 2 && AreGaps(gaps)
    requires (forall w <- words :: w != "" && NoWhitespace(w)) && |quotes| == 4
    requires IsInQuotes(words[0], quotes[0], agent, quotes[1]) && IsInQuotes(words[1], quotes[2], id, quotes[3])
    ensures ParseLaunchCommand(launcher + " " + (lead + Layout(words, gaps)))
         == Some(LaunchCommand(agent, id, if |words| == 2 then "" else " " + Join(words[2..])))
  {
    ParseAfterLauncher(launcher, lead + Layout(words, gaps));
    SplitsAfterLead(lead, words, gaps);
    PartsReadBack(words, agent, id, quotes);
  }

  lemma PartsReadBack(words: seq<string>, agent: string, id: string, quotes: seq<string>)
    requires |words| >= 2 && (forall w <- words :: w != "") && |quotes| == 4
    requires IsInQuotes(words[0], quotes[0], agent, quotes[1]) && IsInQuotes(words[1], quotes[2], id, quotes[3])
    ensures FromParts(words) == Some(LaunchCommand(agent, id, if |words| == 2 then "" else " " + Join(words[2..])))
  {
    TrimQuotesAtEnds(words[0], quotes[0], agent, quotes[1]);
    TrimQuotesAtEnds(words[1], quotes[2], id, quotes[3]);
    assert forall w <- words[2..] :: w in words;
    FlagsOf(words[2..]);
  }

  lemma FlagsOf(words: seq<string>)
    requires forall w <- words :: w != ""
    ensures Join(words) == "" <==> words == []
  {
    assert words != [] ==> words[0] in words;
  }

  /** With fewer than two words after the launcher there is no launch command. */
  lemma TooFewWords(launcher: string, lead: string, words: seq<string>, gaps: seq<string>)
    requires IsLauncherText(launcher) && AllWhitespace(lead) && |gaps| == |words| < 2 && AreGaps(gaps)
    requires forall w <- words :: w != "" && NoWhitespace(w)
    ensures ParseLaunchCommand(launcher + " " + (lead + Layout(words, gaps))) == None
  {
    ParseAfterLauncher(launcher, lead + Layout(words, gaps));
    SplitsAfterLead(lead, words, gaps);
  }

  /** Which session a launch command names: a known agent's, by an id of letters, digits and hyphens. */
  lemma SeedsAre(command: string, provider: Provider, id: string)
    ensures SeedOf(command) == Some(Seed(provider, id))
       <==> && ParseLaunchCommand(command).Some?
            && ParseLaunchCommand(command).value.agent == (match provider case Claude => "claude" case Codex => "codex")
            && ParseLaunchCommand(command).value.id == id
            && id != ""
            && forall c <- id :: '0' <= c <= '9' || 'A' <= c <= 'Z' || 'a' <= c <= 'z' || c == '-'
  {
    assert forall i :: 0 <= i < |id| ==> id[i] in id;
    assert "claude" != "codex" by { assert "claude"[1] != "codex"[1]; }
  }

  /** A command with a quote left open, or with a bare word that could mean something to the shell, is
      typed as it is. */
  lemma MeaningfulIsTypedAsIs(command: string, w: string, c: char)
    requires QuoteAfter(None, command).Some?
          || (w in Words(command).GetOr([]) && '\'' !in w && '"' !in w && c in w && c in "&;|<>$`()*?[]#~{}!^\\")
    ensures CommandToType(command, Zsh) == "nocorrect " + command
  {
    QuotingRefuses(command);
    assert "nocorrect" + " " == "nocorrect ";
  }

  /** `command` is `text` with nothing but whitespace around it. */
  ghost predicate IsTrimmed(command: string, front: string, text: string, back: string) {
    && command == front + text + back
    && AllWhitespace(front) && AllWhitespace(back)
    && (text != "" ==> !IsWhitespace(text[0]) && !IsWhitespace(text[|text| - 1]))
  }

  /** What a stored command becomes: a legacy launcher is replaced and the command trimmed, and any
      other command is left as it is. */
  ghost function Rebranded(command: string, text: string): string {
    if text == "warp_agent_resume_launch" then "clinch_agent_resume_launch"
    else if "warp_agent_resume_launch " <= text then "clinch_agent_resume_launch " + text[25..]
    else command
  }

  lemma NormalizeIs(command: string, front: string, text: string, back: string)
    requires IsTrimmed(command, front, text, back)
    ensures NormalizeRestoreCommand(command) == Rebranded(command, text)
  {
    TrimOf(front, text, back);
    assert LEGACY_LAUNCHER + " " == "warp_agent_resume_launch " && |LEGACY_LAUNCHER| == 24;
    assert CLINCH_LAUNCHER + " " == "clinch_agent_resume_launch ";
  }

  /** Every command has such a form. */
  lemma TrimmedForm(command: string) returns (front: string, text: string, back: string)
    ensures IsTrimmed(command, front, text, back)
  {
    front := TrimStartSplits(command);
    back := TrimEndSplits(TrimStart(command));
    text := Trim(command);
    assert text != "" ==> text[0] == TrimStart(command)[0];
    Reassociate(front, text, back);
  }

  lemma {:induction false} TrimEndOf(rest: string, back: string)
    requires AllWhitespace(back) && (rest != "" ==> !IsWhitespace(rest[|rest| - 1]))
    ensures TrimEnd(rest + back) == rest
  {
    if back == "" {
      assert rest + back == rest;
    } else {
      assert (rest + back)[..|rest + back| - 1] == rest + back[..|back| - 1];
      TrimEndOf(rest, back[..|back| - 1]);
    }
  }

  lemma TrimOf(front: string, text: string, back: string)
    requires AllWhitespace(front) && AllWhitespace(back)
    requires text != "" ==> !IsWhitespace(text[0]) && !IsWhitespace(text[|text| - 1])
    ensures Trim(front + text + back) == text
  {
    if text == "" {
      assert front + text + back == front + back + "";
      TrimStartSkips(front + back, "");
    } else {
      assert front + text + back == front + (text + back);
      TrimStartSkips(front, text + back);
      TrimEndOf(text, back);
    }
  }
}
