/** When the shell reads a rewritten command as it read the original, for every command the rewriter
    takes, escapes included. Both readings are compared word by word and gap by gap: they differ in
    how often they show some atom, or else in where they show spaces. */
module Escapes {
  import opened Text
  import opened Shell
  import opened Posix
  import opened Atoms

  // ----- the rewritten words

  /** Each word as it was, or plain and now in single quotes. */
  ghost predicate AreRetyped(words: seq<string>, typed: seq<string>) {
    && |typed| == |words|
    && forall i :: 0 <= i < |words| ==>
         typed[i] == words[i] || (IsPlain(words[i]) && typed[i] == "'" + words[i] + "'")
  }

  lemma {:induction false} PlainIsShown(m: Mode, w: string)
    requires IsPlain(w) && m.inField && IsOpenQuote(m.quote) && !m.escaped
    ensures ModeAfter(m, w) == m && Shows(m, w) == Chars(w)
  {
    if w == "" {
      assert ModeAfter(m, w) == m;
    } else {
      PlainIsShown(m, w[1..]);
      CharsConcat([w[0]], w[1..]);
      assert w == [w[0]] + w[1..] && Chars([w[0]]) == [Char(w[0])];
    }
  }

  /** Single quotes change what is shown of a plain word only inside double quotes. */
  lemma QuotedIsShown(quote: Option<char>, w: string)
    requires IsPlain(w) && IsOpenQuote(quote)
    ensures ModeAfter(Start(quote), "'" + w + "'") == ModeAfter(Start(quote), w)
    ensures Shows(Start(quote), "'" + w + "'")
         == if quote == Some('"') then Chars("'" + w + "'") else Shows(Start(quote), w)
  {
    var m := Start(StepQuote(quote, '\''));
    PlainIsShown(Start(quote), w);
    PlainIsShown(m, w);
    assert "'" + w + "'" == "'" + (w + "'");
    ShowsConcat(Start(quote), "'", w + "'");
    ShowsConcat(m, w, "'");
    ShowsOne(Start(quote), '\'');
    ShowsOne(m, '\'');
    CharsConcat("'", w + "'");
    CharsConcat(w, "'");
  }

  lemma {:induction false} RetypedModes(words: seq<string>, typed: seq<string>, i: nat)
    requires AreRetyped(words, typed) && i < |words| && forall w <- words :: IsTaken(w)
    ensures QuoteBefore(typed, i) == QuoteBefore(words, i) && After(typed, i) == After(words, i)
  {
    if i == 0 {
    } else {
      RetypedModes(words, typed, i - 1);
    }
    AfterWord(words, i);
    if typed[i] != words[i] {
      QuotedIsShown(QuoteBefore(words, i), words[i]);
    }
  }

  // ----- a gap and the space that replaces it

  function Count(atoms: seq<Atom>, a: Atom): nat {
    if atoms == [] then 0 else (if atoms[0] == a then 1 else 0) + Count(atoms[1..], a)
  }

  function OneSpace(last: bool): string {
    if last then "" else " "
  }

  ghost predicate IsGapAfter(m: Mode, gap: string, last: bool) {
    && m.inField
    && IsOpenQuote(m.quote)
    && AllWhitespace(gap)
    && (if last then m.Ends() else gap != "")
  }

  lemma BareGapShown(m: Mode, gap: string, last: bool)
    requires IsGapAfter(m, gap, last) && m.Ends()
    ensures GapShown(m, OneSpace(last), last) == [Close]
    ensures AllBlanks(gap) ==> GapShown(m, gap, last) == [Close]
    ensures !AllBlanks(gap) ==> HasForeign(GapShown(m, gap, last))
    ensures forall a <- GapShown(m, gap, last) :: a.Close? || IsForeign(a)
  {
    BareGap(true, gap);
    BareGap(true, OneSpace(last));
    assert m == Start(None);
    assert forall a <- Shows(m, gap) :: a in GapShown(m, gap, last);
  }

  lemma QuotedGapShown(m: Mode, gap: string)
    requires IsGapAfter(m, gap, false) && m.quote.Some? && !m.escaped
    ensures Shows(m, " ") == [Char(' ')] && Shows(m, gap) == Chars(gap)
  {
    QuotedGap(m, gap);
    QuotedGap(m, " ");
    assert Chars(" ") == [Char(' ')];
  }

  /** What an escape in `quote` shows of a whitespace character. */
  lemma EscapeShows(quote: Option<char>, c: char)
    requires IsWhitespace(c)
    ensures Chars(Escape(quote, c))
         == if c == '\n' then [] else if quote.Some? then [Char('\\'), Char(c)] else [Char(c)]
  {
  }

  lemma EscapedGapShown(m: Mode, gap: string)
    requires IsGapAfter(m, gap, false) && m.escaped
    ensures Shows(m, " ") == if m.quote.Some? then [Char('\\'), Char(' ')] else [Char(' ')]
    ensures Shows(m, gap) == Chars(Escape(m.quote, gap[0])) + Shows(Start(m.quote), gap[1..])
    ensures m.quote.Some? ==> Shows(Start(m.quote), gap[1..]) == Chars(gap[1..])
  {
    EscapedGap(m, gap);
    EscapedGap(m, " ");
    EscapeShows(m.quote, ' ');
    assert Shows(Start(m.quote), " "[1..]) == [];
    if m.quote.Some? {
      QuotedGap(Start(m.quote), gap[1..]);
    }
  }

  lemma GapAtoms(m: Mode, gap: string, last: bool)
    requires IsGapAfter(m, gap, last)
    ensures forall a <- GapShown(m, gap, last) :: a.Close? || IsForeign(a) || a == Char(' ') || a == Char('\\')
  {
    if m.Ends() {
      BareGapShown(m, gap, last);
    } else if m.escaped {
      EscapedGapShown(m, gap);
      EscapeShows(m.quote, gap[0]);
      if m.quote.None? {
        BareGap(true, gap[1..]);
      }
    } else {
      QuotedGapShown(m, gap);
    }
  }

  lemma {:induction false} CountIn(atoms: seq<Atom>, a: Atom)
    ensures Count(atoms, a) == 0 <==> a !in atoms
  {
    if atoms == [] {
    } else {
      assert atoms == [atoms[0]] + atoms[1..];
      CountIn(atoms[1..], a);
    }
  }

  lemma {:induction false} CountConcat(x: seq<Atom>, y: seq<Atom>, a: Atom)
    ensures Count(x + y, a) == Count(x, a) + Count(y, a)
  {
    if x == [] {
      assert x + y == y;
    } else {
      assert (x + y)[1..] == x[1..] + y;
      CountConcat(x[1..], y, a);
    }
  }

  lemma EscapeCount(quote: Option<char>, c: char)
    requires IsWhitespace(c)
    ensures Count(Chars(Escape(quote, c)), Char('\\')) == if quote.Some? && c != '\n' then 1 else 0
  {
    EscapeShows(quote, c);
    assert [Char('\\'), Char(c)][1..] == [Char(c)];
    CountIn([Char(c)], Char('\\'));
  }

  lemma NoBackslash(m: Mode, gap: string, last: bool)
    requires IsGapAfter(m, gap, last) && !m.escaped
    ensures Count(GapShown(m, gap, last), Char('\\')) == 0
  {
    if m.quote.None? {
      BareGapShown(m, gap, last);
    } else {
      QuotedGapShown(m, gap);
    }
    CountIn(GapShown(m, gap, last), Char('\\'));
  }

  lemma EscapedGapCount(m: Mode, gap: string)
    requires IsGapAfter(m, gap, false) && m.escaped
    ensures Count(Shows(m, gap), Char('\\')) == if m.quote.Some? && gap[0] != '\n' then 1 else 0
  {
    EscapedGap(m, gap);
    CountConcat(Chars(Escape(m.quote, gap[0])), Shows(Start(m.quote), gap[1..]), Char('\\'));
    EscapeCount(m.quote, gap[0]);
    if gap[1..] != "" {
      NoBackslash(Start(m.quote), gap[1..], false);
    }
  }

  /** The gap never shows more backslashes than the space that replaces it. */
  lemma GapCounts(m: Mode, gap: string, last: bool)
    requires IsGapAfter(m, gap, last)
    ensures Count(GapShown(m, gap, last), Char('\\')) <= Count(GapShown(m, OneSpace(last), last), Char('\\'))
  {
    if m.escaped {
      EscapedGapCount(m, gap);
      EscapedGapCount(m, " ");
    } else {
      NoBackslash(m, gap, last);
    }
  }

  /** The space that replaces a gap shows no other whitespace than a space. */
  lemma SpaceIsNotForeign(m: Mode, gap: string, last: bool)
    requires IsGapAfter(m, gap, last)
    ensures !HasForeign(GapShown(m, OneSpace(last), last))
  {
    if m.Ends() {
      BareGapShown(m, gap, last);
    } else if m.escaped {
      EscapedGapShown(m, gap);
    } else {
      QuotedGapShown(m, gap);
    }
  }

  lemma GapCloses(m: Mode, gap: string, last: bool)
    requires IsGapAfter(m, gap, last) && !HasForeign(GapShown(m, gap, last))
    ensures Count(GapShown(m, OneSpace(last), last), Close) <= Count(GapShown(m, gap, last), Close)
  {
    if m.Ends() {
      BareGapShown(m, gap, last);
    } else if m.escaped {
      EscapedGapShown(m, gap);
      CountIn(Shows(m, " "), Close);
    } else {
      QuotedGapShown(m, gap);
    }
  }

  ghost predicate IsSpaces(s: string) {
    forall i :: 0 <= i < |s| ==> s[i] == ' '
  }

  lemma NoForeignChars(s: string)
    requires AllWhitespace(s) && !HasForeign(Chars(s))
    ensures IsSpaces(s)
  {
    assert forall i :: 0 <= i < |s| ==> Chars(s)[i] in Chars(s) && Chars(s)[i] == Char(s[i]);
  }

  ghost predicate SameCount(x: seq<Atom>, y: seq<Atom>, a: Atom) {
    Count(x, a) == Count(y, a)
  }

  /** Gap and space differ at most in how many spaces they show, and only inside quotes or escapes. */
  ghost predicate HasShape(m: Mode, gap: string, last: bool) {
    var shown, space := GapShown(m, gap, last), GapShown(m, OneSpace(last), last);
    if m.Ends() then AllBlanks(gap) && shown == space == [Close]
    else if m.quote.Some? then !last && gap != "" && IsSpaces(gap) && shown == space + Chars(gap[1..])
    else !last && space == [Char(' ')] && if gap == " " then shown == space else gap == "\n" && shown == []
  }

  /** An escaped gap that shows nothing foreign: its first character is a space or a newline, and
      what follows shows nothing foreign either. */
  lemma EscapedGapStart(m: Mode, gap: string)
    requires IsGapAfter(m, gap, false) && m.escaped && !HasForeign(Shows(m, gap))
    ensures gap[0] == ' ' || gap[0] == '\n'
    ensures !HasForeign(Shows(Start(m.quote), gap[1..]))
  {
    EscapedGap(m, gap);
    EscapeShows(m.quote, gap[0]);
    var first, rest := Chars(Escape(m.quote, gap[0])), Shows(Start(m.quote), gap[1..]);
    assert forall a :: a in first || a in rest ==> a in Shows(m, gap);
    assert gap[0] != '\n' ==> Char(gap[0]) in first;
  }

  lemma EscapedQuotedShape(m: Mode, gap: string)
    requires IsGapAfter(m, gap, false) && m.escaped && m.quote.Some? && !HasForeign(Shows(m, gap))
    requires SameCount(Shows(m, gap), Shows(m, " "), Char('\\'))
    ensures HasShape(m, gap, false)
  {
    EscapedGapStart(m, gap);
    EscapedGapShown(m, gap);
    EscapeShows(m.quote, gap[0]);
    EscapedGapCount(m, gap);
    EscapedGapCount(m, " ");
    NoForeignChars(gap[1..]);
  }

  lemma EscapedBareShape(m: Mode, gap: string)
    requires IsGapAfter(m, gap, false) && m.escaped && m.quote.None? && !HasForeign(Shows(m, gap))
    requires SameCount(Shows(m, gap), Shows(m, " "), Close)
    ensures HasShape(m, gap, false)
  {
    EscapedGapStart(m, gap);
    EscapedGapShown(m, gap);
    EscapeShows(m.quote, gap[0]);
    CountConcat(Chars(Escape(m.quote, gap[0])), Shows(Start(m.quote), gap[1..]), Close);
    CountIn(Shows(m, " "), Close);
    BareGap(true, gap[1..]);
    assert gap == [gap[0]] + gap[1..];
  }

  lemma GapShape(m: Mode, gap: string, last: bool)
    requires IsGapAfter(m, gap, last) && !HasForeign(GapShown(m, gap, last))
    requires SameCount(GapShown(m, gap, last), GapShown(m, OneSpace(last), last), Char('\\'))
    requires SameCount(GapShown(m, gap, last), GapShown(m, OneSpace(last), last), Close)
    ensures HasShape(m, gap, last)
  {
    if m.Ends() {
      BareGapShown(m, gap, last);
    } else if m.escaped {
      if m.quote.Some? {
        EscapedQuotedShape(m, gap);
      } else {
        EscapedBareShape(m, gap);
      }
    } else {
      QuotedGapShown(m, gap);
      NoForeignChars(gap);
      CharsConcat([gap[0]], gap[1..]);
      assert gap == [gap[0]] + gap[1..];
    }
  }

  // ----- counting over all gaps

  function Flat(parts: seq<seq<Atom>>, i: nat): seq<Atom>
    requires i <= |parts|
    decreases |parts| - i
  {
    if i == |parts| then [] else parts[i] + Flat(parts, i + 1)
  }

  lemma {:induction false} CountJoined(words: seq<seq<Atom>>, gaps: seq<seq<Atom>>, a: Atom, i: nat)
    requires i <= |words| == |gaps|
    ensures Count(Joined(words, gaps, i), a) == Count(Flat(words, i), a) + Count(Flat(gaps, i), a)
    decreases |words| - i
  {
    if i == |words| {
    } else {
      CountJoined(words, gaps, a, i + 1);
      CountConcat(words[i], gaps[i] + Joined(words, gaps, i + 1), a);
      CountConcat(gaps[i], Joined(words, gaps, i + 1), a);
      CountConcat(words[i], Flat(words, i + 1), a);
      CountConcat(gaps[i], Flat(gaps, i + 1), a);
    }
  }

  lemma {:induction false} CountFlat(parts: seq<seq<Atom>>, a: Atom, i: nat)
    requires i <= |parts|
    ensures Count(Flat(parts, i), a) == 0 <==> forall j :: i <= j < |parts| ==> a !in parts[j]
    decreases |parts| - i
  {
    if i == |parts| {
    } else {
      CountFlat(parts, a, i + 1);
      CountConcat(parts[i], Flat(parts, i + 1), a);
      CountIn(parts[i], a);
    }
  }

  ghost predicate CountsAtMost(less: seq<seq<Atom>>, more: seq<seq<Atom>>, a: Atom) {
    |less| == |more| && forall i :: 0 <= i < |less| ==> Count(less[i], a) <= Count(more[i], a)
  }

  lemma {:induction false} CountsAdd(less: seq<seq<Atom>>, more: seq<seq<Atom>>, a: Atom, i: nat)
    requires CountsAtMost(less, more, a) && i <= |less|
    ensures Count(Flat(less, i), a) <= Count(Flat(more, i), a)
    decreases |less| - i
  {
    if i == |less| {
    } else {
      CountsAdd(less, more, a, i + 1);
      CountConcat(less[i], Flat(less, i + 1), a);
      CountConcat(more[i], Flat(more, i + 1), a);
    }
  }

  /** If no part counts more and the totals are equal, then every part counts the same. */
  lemma {:induction false} CountsForce(less: seq<seq<Atom>>, more: seq<seq<Atom>>, a: Atom, i: nat, j: nat)
    requires CountsAtMost(less, more, a) && i <= j < |less| && SameCount(Flat(less, i), Flat(more, i), a)
    ensures SameCount(less[j], more[j], a)
    decreases |less| - i
  {
    CountsAdd(less, more, a, i + 1);
    CountConcat(less[i], Flat(less, i + 1), a);
    CountConcat(more[i], Flat(more, i + 1), a);
    if i < j {
      CountsForce(less, more, a, i + 1, j);
    }
  }

  /** What the space after each word shows. */
  function SpacesShown(modes: seq<Mode>): seq<seq<Atom>> {
    seq(|modes|, i requires 0 <= i < |modes| => GapShown(modes[i], OneSpace(i == |modes| - 1), i == |modes| - 1))
  }

  ghost predicate AreGapsAfter(modes: seq<Mode>, gaps: seq<string>) {
    |gaps| == |modes| && forall i :: 0 <= i < |modes| ==> IsGapAfter(modes[i], gaps[i], i == |modes| - 1)
  }

  lemma BackslashesAtMost(modes: seq<Mode>, gaps: seq<string>)
    requires AreGapsAfter(modes, gaps)
    ensures CountsAtMost(GapsShown(modes, gaps), SpacesShown(modes), Char('\\'))
  {
    forall i | 0 <= i < |modes|
      ensures Count(GapsShown(modes, gaps)[i], Char('\\')) <= Count(SpacesShown(modes)[i], Char('\\'))
    {
      GapCounts(modes[i], gaps[i], i == |modes| - 1);
    }
  }

  lemma ClosesAtLeast(modes: seq<Mode>, gaps: seq<string>)
    requires AreGapsAfter(modes, gaps)
    requires forall i :: 0 <= i < |modes| ==> !HasForeign(GapsShown(modes, gaps)[i])
    ensures CountsAtMost(SpacesShown(modes), GapsShown(modes, gaps), Close)
  {
    forall i | 0 <= i < |modes| ensures Count(SpacesShown(modes)[i], Close) <= Count(GapsShown(modes, gaps)[i], Close) {
      assert !HasForeign(GapsShown(modes, gaps)[i]);
      GapCloses(modes[i], gaps[i], i == |modes| - 1);
    }
  }

  lemma NoForeignSpace(modes: seq<Mode>, gaps: seq<string>, a: Atom)
    requires AreGapsAfter(modes, gaps) && IsForeign(a)
    ensures Count(Flat(SpacesShown(modes), 0), a) == 0
  {
    forall i | 0 <= i < |modes| ensures a !in SpacesShown(modes)[i] {
      SpaceIsNotForeign(modes[i], gaps[i], i == |modes| - 1);
    }
    CountFlat(SpacesShown(modes), a, 0);
  }

  /** `head` and the gaps show, between the same words, what the spaces show. */
  ghost predicate ReadAlike(head: seq<Atom>, words: seq<seq<Atom>>, modes: seq<Mode>, gaps: seq<string>) {
    && |words| == |modes|
    && AreGapsAfter(modes, gaps)
    && head + Joined(words, GapsShown(modes, gaps), 0) == Joined(words, SpacesShown(modes), 0)
  }

  lemma TotalsAgree(head: seq<Atom>, words: seq<seq<Atom>>, modes: seq<Mode>, gaps: seq<string>, a: Atom)
    requires ReadAlike(head, words, modes, gaps)
    ensures Count(head, a) + Count(Flat(GapsShown(modes, gaps), 0), a) == Count(Flat(SpacesShown(modes), 0), a)
  {
    CountConcat(head, Joined(words, GapsShown(modes, gaps), 0), a);
    CountJoined(words, GapsShown(modes, gaps), a, 0);
    CountJoined(words, SpacesShown(modes), a, 0);
  }

  lemma NothingForeign(head: seq<Atom>, words: seq<seq<Atom>>, modes: seq<Mode>, gaps: seq<string>)
    requires ReadAlike(head, words, modes, gaps)
    ensures !HasForeign(head) && forall i :: 0 <= i < |modes| ==> !HasForeign(GapsShown(modes, gaps)[i])
  {
    forall a | IsForeign(a) ensures a !in head && forall i :: 0 <= i < |modes| ==> a !in GapsShown(modes, gaps)[i] {
      NoForeignSpace(modes, gaps, a);
      TotalsAgree(head, words, modes, gaps, a);
      CountFlat(GapsShown(modes, gaps), a, 0);
      CountIn(head, a);
    }
  }

  lemma ReadAlikeShape(words: seq<seq<Atom>>, modes: seq<Mode>, gaps: seq<string>, i: nat)
    requires ReadAlike([], words, modes, gaps) && i < |modes|
    ensures HasShape(modes[i], gaps[i], i == |modes| - 1)
  {
    NothingForeign([], words, modes, gaps);
    TotalsAgree([], words, modes, gaps, Char('\\'));
    BackslashesAtMost(modes, gaps);
    CountsForce(GapsShown(modes, gaps), SpacesShown(modes), Char('\\'), 0, i);
    TotalsAgree([], words, modes, gaps, Close);
    ClosesAtLeast(modes, gaps);
    CountsForce(SpacesShown(modes), GapsShown(modes, gaps), Close, 0, i);
    assert !HasForeign(GapsShown(modes, gaps)[i]);
    GapShape(modes[i], gaps[i], i == |modes| - 1);
  }

  // ----- leading spaces

  function Leading(atoms: seq<Atom>): nat {
    if atoms != [] && atoms[0] == Char(' ') then 1 + Leading(atoms[1..]) else 0
  }

  lemma {:induction false} LeadingConcat(x: seq<Atom>, y: seq<Atom>)
    ensures Leading(x + y) == if AllSpaces(x) then |x| + Leading(y) else Leading(x)
  {
    if x == [] {
      assert x + y == y;
    } else {
      assert (x + y)[1..] == x[1..] + y;
      assert x == [x[0]] + x[1..] && x[0] in x;
      LeadingConcat(x[1..], y);
      assert forall a :: a in x <==> a == x[0] || a in x[1..];
    }
  }

  /** A word that shows nothing but spaces does not move the lexer into or out of quotes. */
  ghost predicate KeepsQuotes(words: seq<seq<Atom>>, modes: seq<Mode>) {
    && |words| == |modes|
    && forall i :: 0 <= i < |words| && AllSpaces(words[i]) ==>
         (modes[i].quote.None? <==> i == 0 || modes[i - 1].quote.None?)
  }

  ghost predicate HaveShapes(modes: seq<Mode>, gaps: seq<string>) {
    |gaps| == |modes| && forall i :: 0 <= i < |modes| ==> HasShape(modes[i], gaps[i], i == |modes| - 1)
  }

  /** Which of two rests may start with more spaces, by the lexer's mode before them. */
  ghost predicate IsLedBy(m: Mode, shown: seq<Atom>, replaced: seq<Atom>) {
    if m.quote.Some? then Leading(shown) >= Leading(replaced) else Leading(shown) <= Leading(replaced)
  }

  lemma GapLeads(m: Mode, gap: string, last: bool, x: seq<Atom>, y: seq<Atom>)
    requires HasShape(m, gap, last) && IsLedBy(m, x, y)
    ensures IsLedBy(m, GapShown(m, gap, last) + x, GapShown(m, OneSpace(last), last) + y)
  {
    var shown, space := GapShown(m, gap, last), GapShown(m, OneSpace(last), last);
    LeadingConcat(space, y);
    LeadingConcat(shown, x);
    if m.Ends() {
      assert space[0] in space;
    } else if m.quote.Some? {
      var rest := Chars(gap[1..]);
      LeadingConcat(space, rest + x);
      LeadingConcat(rest, x);
      assert shown + x == space + (rest + x);
      assert AllSpaces(rest);
    }
  }

  lemma {:induction false} RestLeads(words: seq<seq<Atom>>, modes: seq<Mode>, gaps: seq<string>, i: nat)
    requires KeepsQuotes(words, modes) && HaveShapes(modes, gaps) && 0 < i <= |words|
    ensures IsLedBy(modes[i - 1], Joined(words, GapsShown(modes, gaps), i), Joined(words, SpacesShown(modes), i))
    decreases |words| - i
  {
    if i == |words| {
    } else {
      var x, y := Joined(words, GapsShown(modes, gaps), i + 1), Joined(words, SpacesShown(modes), i + 1);
      JoinedStep(words, GapsShown(modes, gaps), i);
      JoinedStep(words, SpacesShown(modes), i);
      RestLeads(words, modes, gaps, i + 1);
      GapLeads(modes[i], gaps[i], i == |modes| - 1, x, y);
      LeadingConcat(words[i], GapsShown(modes, gaps)[i] + x);
      LeadingConcat(words[i], SpacesShown(modes)[i] + y);
    }
  }

  /** The condition on a gap: nothing but blanks outside quotes and escapes, else one inner space. */
  predicate ReadsAsSpace(m: Mode, gap: string, last: bool) {
    if m.Ends() then AllBlanks(gap) else gap == " " && !last
  }

  lemma Cancel(x: seq<Atom>, y: seq<Atom>, z: seq<Atom>)
    requires x + y == x + z
    ensures y == z
  {
    assert y == (x + y)[|x|..] == (x + z)[|x|..] == z;
  }

  lemma QuotedShapeForces(space: seq<Atom>, rest: seq<Atom>, x: seq<Atom>, y: seq<Atom>)
    requires AllSpaces(rest) && Leading(x) >= Leading(y) && space + rest + x == space + y
    ensures rest == [] && x == y
  {
    Associative(space, rest, x);
    Cancel(space, rest + x, y);
    LeadingConcat(rest, x);
    assert rest == [];
    assert rest + x == x;
  }

  lemma EscapedShapeForces(x: seq<Atom>, y: seq<Atom>)
    requires Leading(x) <= Leading(y)
    ensures x != [Char(' ')] + y
  {
    LeadingConcat([Char(' ')], y);
  }

  lemma ShapeForces(m: Mode, gap: string, last: bool, x: seq<Atom>, y: seq<Atom>)
    requires HasShape(m, gap, last) && IsLedBy(m, x, y)
    requires GapShown(m, gap, last) + x == GapShown(m, OneSpace(last), last) + y
    ensures ReadsAsSpace(m, gap, last) && x == y
  {
    var space := GapShown(m, OneSpace(last), last);
    assert [] + x == x;
    if m.Ends() || (m.quote.None? && gap == " ") {
      Cancel(space, x, y);
    } else if m.quote.Some? {
      SpacesAreShown(gap[1..]);
      QuotedShapeForces(space, Chars(gap[1..]), x, y);
      assert |gap[1..]| == |Chars(gap[1..])|;
      assert gap == [gap[0]];
    } else {
      EscapedShapeForces(x, y);
    }
  }

  lemma SpacesAreShown(s: string)
    requires IsSpaces(s)
    ensures AllSpaces(Chars(s))
  {
  }

  /** From word `i` on, the gaps show what the spaces show. */
  ghost predicate AgreeFrom(words: seq<seq<Atom>>, modes: seq<Mode>, gaps: seq<string>, i: nat) {
    && i <= |words| == |modes| == |gaps|
    && Joined(words, GapsShown(modes, gaps), i) == Joined(words, SpacesShown(modes), i)
  }

  lemma JoinedStep(words: seq<seq<Atom>>, gaps: seq<seq<Atom>>, i: nat)
    requires i < |words| == |gaps|
    ensures Joined(words, gaps, i) == words[i] + (gaps[i] + Joined(words, gaps, i + 1))
  {
  }

  /** Rests that agree from a word on have a gap after it that reads as a space, and then agree on. */
  lemma GapIsForced(words: seq<seq<Atom>>, modes: seq<Mode>, gaps: seq<string>, i: nat)
    requires KeepsQuotes(words, modes) && HaveShapes(modes, gaps) && i < |words| && AgreeFrom(words, modes, gaps, i)
    ensures ReadsAsSpace(modes[i], gaps[i], i == |modes| - 1) && AgreeFrom(words, modes, gaps, i + 1)
  {
    var shown, spaces := GapsShown(modes, gaps), SpacesShown(modes);
    JoinedStep(words, shown, i);
    JoinedStep(words, spaces, i);
    RestLeads(words, modes, gaps, i + 1);
    Cancel(words[i], shown[i] + Joined(words, shown, i + 1), spaces[i] + Joined(words, spaces, i + 1));
    ShapeForces(modes[i], gaps[i], i == |modes| - 1, Joined(words, shown, i + 1), Joined(words, spaces, i + 1));
  }

  lemma GapsAreForced(words: seq<seq<Atom>>, modes: seq<Mode>, gaps: seq<string>)
    requires KeepsQuotes(words, modes) && HaveShapes(modes, gaps) && AgreeFrom(words, modes, gaps, 0)
    ensures forall i :: 0 <= i < |modes| ==> ReadsAsSpace(modes[i], gaps[i], i == |modes| - 1)
  {
    for i := 0 to |modes|
      invariant AgreeFrom(words, modes, gaps, i)
      invariant forall j :: 0 <= j < i ==> ReadsAsSpace(modes[j], gaps[j], j == |modes| - 1)
    {
      GapIsForced(words, modes, gaps, i);
    }
  }

  lemma ReadAlikeForces(words: seq<seq<Atom>>, modes: seq<Mode>, gaps: seq<string>)
    requires KeepsQuotes(words, modes) && ReadAlike([], words, modes, gaps)
    ensures forall i :: 0 <= i < |modes| ==> ReadsAsSpace(modes[i], gaps[i], i == |modes| - 1)
  {
    forall i | 0 <= i < |modes| ensures HasShape(modes[i], gaps[i], i == |modes| - 1) {
      ReadAlikeShape(words, modes, gaps, i);
    }
    var shown := Joined(words, GapsShown(modes, gaps), 0);
    assert [] + shown == shown;
    GapsAreForced(words, modes, gaps);
  }

  // ----- the rewritten command

  /** Word `i` is newly quoted where the lexer has a double quote open. */
  predicate IsQuotedInside(words: seq<string>, typed: seq<string>, i: nat)
    requires i < |words| == |typed|
  {
    typed[i] != words[i] && QuoteBefore(words, i) == Some('"')
  }

  lemma WordIsRetyped(words: seq<string>, typed: seq<string>, i: nat)
    requires AreRetyped(words, typed) && i < |words| && forall w <- words :: IsTaken(w)
    ensures !IsQuotedInside(words, typed, i) ==> WordShown(typed, i) == WordShown(words, i)
    ensures IsQuotedInside(words, typed, i)
        ==> WordShown(words, i) == Chars(words[i]) && WordShown(typed, i) == Chars("'" + words[i] + "'")
  {
    AfterWord(words, i);
    RetypedModes(words, typed, i);
    if typed[i] != words[i] {
      QuotedIsShown(QuoteBefore(words, i), words[i]);
      PlainIsShown(Start(QuoteBefore(words, i)), words[i]);
    }
  }

  lemma QuotesAdd(w: string)
    ensures Count(Chars("'" + w + "'"), Char('\'')) == Count(Chars(w), Char('\'')) + 2
  {
    var q := Char('\'');
    CharsConcat("'" + w, "'");
    CharsConcat("'", w);
    assert Chars("'") == [q] && Count([q], q) == 1;
    CountConcat([q] + Chars(w), [q], q);
    CountConcat([q], Chars(w), q);
  }

  lemma QuoteCounts(words: seq<string>, typed: seq<string>, i: nat)
    requires AreRetyped(words, typed) && i < |words| && forall w <- words :: IsTaken(w)
    ensures Count(WordShown(typed, i), Char('\''))
         == Count(WordShown(words, i), Char('\'')) + if IsQuotedInside(words, typed, i) then 2 else 0
  {
    WordIsRetyped(words, typed, i);
    QuotesAdd(words[i]);
  }

  lemma GapsShowNoQuotes(modes: seq<Mode>, gaps: seq<string>)
    requires AreGapsAfter(modes, gaps)
    ensures Count(Flat(GapsShown(modes, gaps), 0), Char('\'')) == 0
    ensures Count(Flat(SpacesShown(modes), 0), Char('\'')) == 0
  {
    forall i | 0 <= i < |modes|
      ensures Char('\'') !in GapsShown(modes, gaps)[i] && Char('\'') !in SpacesShown(modes)[i]
    {
      GapAtoms(modes[i], gaps[i], i == |modes| - 1);
      GapAtoms(modes[i], OneSpace(i == |modes| - 1), i == |modes| - 1);
    }
    CountFlat(GapsShown(modes, gaps), Char('\''), 0);
    CountFlat(SpacesShown(modes), Char('\''), 0);
  }

  /** Readings that are equal show equally many single quotes, so no word is quoted inside. */
  lemma NoneIsQuotedInside(head: seq<Atom>, words: seq<string>, gaps: seq<string>, typed: seq<string>, j: nat)
    requires AreRetyped(words, typed) && j < |words| && forall w <- words :: IsTaken(w)
    requires AreGapsAfter(Modes(words), gaps) && Char('\'') !in head
    requires head + Reading(words, gaps, 0) == Joined(WordsShown(typed), SpacesShown(Modes(words)), 0)
    ensures !IsQuotedInside(words, typed, j)
  {
    var q, modes := Char('\''), Modes(words);
    CountIn(head, q);
    CountConcat(head, Reading(words, gaps, 0), q);
    CountJoined(WordsShown(words), GapsShown(modes, gaps), q, 0);
    CountJoined(WordsShown(typed), SpacesShown(modes), q, 0);
    GapsShowNoQuotes(modes, gaps);
    forall i | 0 <= i < |words| ensures Count(WordsShown(words)[i], q) <= Count(WordsShown(typed)[i], q) {
      QuoteCounts(words, typed, i);
    }
    CountsForce(WordsShown(words), WordsShown(typed), q, 0, j);
    QuoteCounts(words, typed, j);
  }

  lemma WordsKeepQuotes(words: seq<string>)
    requires forall w <- words :: IsTaken(w)
    ensures KeepsQuotes(WordsShown(words), Modes(words))
  {
    forall i | 0 <= i < |words| && AllSpaces(WordsShown(words)[i])
      ensures Modes(words)[i].quote.None? <==> i == 0 || Modes(words)[i - 1].quote.None?
    {
      AfterWord(words, i);
      assert words[i] in words;
      SpacesKeepAgreement(Start(QuoteBefore(words, i)), None, words[i]);
    }
  }

  lemma LeadShown(lead: string, last: bool)
    requires AllWhitespace(lead)
    ensures forall a <- GapShown(BEGIN, lead, last) :: a.Close? || IsForeign(a)
    ensures AllBlanks(lead) ==> GapShown(BEGIN, lead, last) == []
    ensures !HasForeign(GapShown(BEGIN, lead, last)) ==> AllBlanks(lead)
  {
    BareGap(false, lead);
    assert forall a <- Shows(BEGIN, lead) :: a in GapShown(BEGIN, lead, last);
  }

  /** What the lexer must find in the original for its reading to survive the rewrite: blanks before
      the first word, no newly quoted word inside double quotes, and after each word nothing but
      blanks, or one inner space if it is inside quotes or escaped. */
  predicate KeepsReading(lead: string, words: seq<string>, gaps: seq<string>)
    requires |gaps| == |words|
  {
    && AllBlanks(lead)
    && forall i :: 0 <= i < |words| ==>
         && !IsQuotedInside(words, QuoteArguments(words), i)
         && ReadsAsSpace(After(words, i), gaps[i], i == |words| - 1)
  }

  lemma RetypedReading(words: seq<string>, typed: seq<string>)
    requires AreRetyped(words, typed) && forall w <- words :: IsTaken(w)
    ensures Modes(typed) == Modes(words)
    ensures Reading(typed, Spaces(|typed|), 0) == Joined(WordsShown(typed), SpacesShown(Modes(words)), 0)
  {
    forall i | 0 <= i < |words| ensures Modes(typed)[i] == Modes(words)[i] {
      RetypedModes(words, typed, i);
    }
    assert GapsShown(Modes(typed), Spaces(|typed|)) == SpacesShown(Modes(words));
  }

  /** Both readings end well, so that they are compared atom by atom. */
  ghost predicate BothEnd(words: seq<string>, gaps: seq<string>) {
    && IsLayout(words, gaps)
    && EndsWell(words, gaps)
    && (words != [] ==> !After(words, |words| - 1).escaped)
  }

  lemma LayoutGaps(words: seq<string>, gaps: seq<string>)
    requires BothEnd(words, gaps)
    ensures AreGapsAfter(Modes(words), gaps)
  {
    forall i | 0 <= i < |words| ensures IsGapAfter(Modes(words)[i], gaps[i], i == |words| - 1) {
      AfterWord(words, i);
    }
  }

  /** Equal readings show every word alike. */
  lemma EqualReadingsShowWords(head: seq<Atom>, words: seq<string>, gaps: seq<string>, typed: seq<string>)
    requires AreRetyped(words, typed) && (forall w <- words :: IsTaken(w)) && AreGapsAfter(Modes(words), gaps)
    requires Char('\'') !in head
    requires head + Reading(words, gaps, 0) == Joined(WordsShown(typed), SpacesShown(Modes(words)), 0)
    ensures forall i :: 0 <= i < |words| ==> !IsQuotedInside(words, typed, i)
    ensures WordsShown(typed) == WordsShown(words)
  {
    forall i | 0 <= i < |words|
      ensures !IsQuotedInside(words, typed, i) && WordsShown(typed)[i] == WordsShown(words)[i]
    {
      NoneIsQuotedInside(head, words, gaps, typed, i);
      WordIsRetyped(words, typed, i);
    }
  }

  /** Readings that show the words alike and agree have gaps that read as spaces. */
  lemma EqualReadingsShowGaps(lead: string, words: seq<string>, gaps: seq<string>)
    requires AllWhitespace(lead) && (forall w <- words :: IsTaken(w)) && AreGapsAfter(Modes(words), gaps)
    requires ReadAlike(GapShown(BEGIN, lead, words == []), WordsShown(words), Modes(words), gaps)
    ensures AllBlanks(lead)
    ensures forall i :: 0 <= i < |words| ==> ReadsAsSpace(Modes(words)[i], gaps[i], i == |words| - 1)
  {
    NothingForeign(GapShown(BEGIN, lead, words == []), WordsShown(words), Modes(words), gaps);
    LeadShown(lead, words == []);
    WordsKeepQuotes(words);
    ReadAlikeForces(WordsShown(words), Modes(words), gaps);
  }

  lemma KeepsReadingIf(lead: string, words: seq<string>, gaps: seq<string>)
    requires |gaps| == |words| && AllBlanks(lead)
    requires forall i :: 0 <= i < |words| ==> !IsQuotedInside(words, QuoteArguments(words), i)
    requires forall i :: 0 <= i < |words| ==> ReadsAsSpace(Modes(words)[i], gaps[i], i == |words| - 1)
    ensures KeepsReading(lead, words, gaps)
  {
    forall i | 0 <= i < |words| ensures ReadsAsSpace(After(words, i), gaps[i], i == |words| - 1) {
      assert Modes(words)[i] == After(words, i);
    }
  }

  /** The readings agree only under the condition. */
  lemma EqualReadingsKeep(lead: string, words: seq<string>, gaps: seq<string>, typed: seq<string>)
    requires AllWhitespace(lead) && typed == QuoteArguments(words) && AreRetyped(words, typed)
    requires (forall w <- words :: IsTaken(w)) && AreGapsAfter(Modes(words), gaps)
    requires GapShown(BEGIN, lead, words == []) + Reading(words, gaps, 0)
          == Joined(WordsShown(typed), SpacesShown(Modes(words)), 0)
    ensures KeepsReading(lead, words, gaps)
  {
    LeadShown(lead, words == []);
    EqualReadingsShowWords(GapShown(BEGIN, lead, words == []), words, gaps, typed);
    EqualReadingsShowGaps(lead, words, gaps);
    KeepsReadingIf(lead, words, gaps);
  }

  lemma SpaceReadsAlike(m: Mode, gap: string, last: bool)
    requires IsGapAfter(m, gap, last) && ReadsAsSpace(m, gap, last)
    ensures GapShown(m, gap, last) == GapShown(m, OneSpace(last), last)
  {
    if m.Ends() {
      BareGapShown(m, gap, last);
    }
  }

  /** Under the condition the readings agree. */
  lemma KeptReadingsAreEqual(lead: string, words: seq<string>, gaps: seq<string>, typed: seq<string>)
    requires AllWhitespace(lead) && BothEnd(words, gaps) && typed == QuoteArguments(words) && AreRetyped(words, typed)
    requires KeepsReading(lead, words, gaps)
    ensures GapShown(BEGIN, lead, words == []) + Reading(words, gaps, 0)
         == Joined(WordsShown(typed), SpacesShown(Modes(words)), 0)
  {
    LeadShown(lead, words == []);
    LayoutGaps(words, gaps);
    forall i | 0 <= i < |words|
      ensures WordsShown(typed)[i] == WordsShown(words)[i]
      ensures GapsShown(Modes(words), gaps)[i] == SpacesShown(Modes(words))[i]
    {
      WordIsRetyped(words, typed, i);
      assert IsGapAfter(Modes(words)[i], gaps[i], i == |words| - 1);
      SpaceReadsAlike(After(words, i), gaps[i], i == |words| - 1);
    }
    assert WordsShown(typed) == WordsShown(words) && GapsShown(Modes(words), gaps) == SpacesShown(Modes(words));
    assert [] + Reading(words, gaps, 0) == Reading(words, gaps, 0);
  }

  lemma TakenWords(command: string)
    requires WithQuotedArguments(command).Some?
    ensures var words := Words(command).value;
            && (forall w <- words :: IsTaken(w))
            && (forall w <- QuoteArguments(words) :: IsTaken(w))
            && AreRetyped(words, QuoteArguments(words))
  {
    WordsAreWords(command);
    var words := Words(command).value;
    var typed := QuoteArguments(words);
    forall i | 0 <= i < |words|
      ensures IsTaken(typed[i])
      ensures typed[i] == words[i] || (IsPlain(words[i]) && typed[i] == "'" + words[i] + "'")
    {
      assert words[i] in words;
      QuoteWordKeepsValue(words[i]);
    }
  }

  lemma RewriteEnds(words: seq<string>, typed: seq<string>)
    requires AreRetyped(words, typed) && forall w <- words :: IsTaken(w)
    ensures EndsWell(typed, Spaces(|typed|)) <==> words == [] || After(words, |words| - 1).Ends()
  {
    if words != [] {
      var last := |words| - 1;
      RetypedModes(words, typed, last);
      assert Spaces(|typed|)[last] == "";
    }
  }

  lemma SpacedPieces(typed: seq<string>)
    requires forall w <- typed :: IsTaken(w)
    ensures Pieces(Join(typed)).Some? <==> EndsWell(typed, Spaces(|typed|))
    ensures Pieces(Join(typed)).Some? ==> AtomsOf(Pieces(Join(typed)).value) == Reading(typed, Spaces(|typed|), 0)
  {
    JoinIsALayout(typed);
    PiecesOfLayout("", typed, Spaces(|typed|));
    LeadShown("", typed == []);
    var text, shown := Layout(typed, Spaces(|typed|)), Reading(typed, Spaces(|typed|), 0);
    assert "" + text == text && [] + shown == shown;
  }

  /** The rewritten command is laid out with single spaces, and read from the original's modes. */
  lemma RewriteIsShown(words: seq<string>, typed: seq<string>)
    requires AreRetyped(words, typed) && (forall w <- words :: IsTaken(w)) && forall w <- typed :: IsTaken(w)
    ensures Pieces(Join(typed)).Some? <==> words == [] || After(words, |words| - 1).Ends()
    ensures Pieces(Join(typed)).Some? ==>
              AtomsOf(Pieces(Join(typed)).value) == Joined(WordsShown(typed), SpacesShown(Modes(words)), 0)
  {
    RewriteEnds(words, typed);
    SpacedPieces(typed);
    RetypedReading(words, typed);
  }

  /** Both readings exist and agree exactly under the condition. */
  lemma ReadingsAgree(lead: string, words: seq<string>, gaps: seq<string>, typed: seq<string>)
    requires AllWhitespace(lead) && BothEnd(words, gaps) && typed == QuoteArguments(words) && AreRetyped(words, typed)
    ensures GapShown(BEGIN, lead, words == []) + Reading(words, gaps, 0)
         == Joined(WordsShown(typed), SpacesShown(Modes(words)), 0)
       <==> KeepsReading(lead, words, gaps)
  {
    if KeepsReading(lead, words, gaps) {
      KeptReadingsAreEqual(lead, words, gaps, typed);
    } else if GapShown(BEGIN, lead, words == []) + Reading(words, gaps, 0)
           == Joined(WordsShown(typed), SpacesShown(Modes(words)), 0) {
      LayoutGaps(words, gaps);
      EqualReadingsKeep(lead, words, gaps, typed);
    }
  }

  /** Where one reading does not exist, the condition fails or neither exists. */
  lemma UnreadableEnd(lead: string, words: seq<string>, gaps: seq<string>)
    requires IsLayout(words, gaps) && !BothEnd(words, gaps)
    ensures words != [] && !After(words, |words| - 1).Ends()
    ensures EndsWell(words, gaps) ==> !KeepsReading(lead, words, gaps)
  {
  }

  lemma SamePieces(a: Option<seq<Piece>>, b: Option<seq<Piece>>)
    requires a.Some? && b.Some?
    ensures a == b <==> AtomsOf(a.value) == AtomsOf(b.value)
  {
    if AtomsOf(a.value) == AtomsOf(b.value) {
      AtomsDetermine(a.value, b.value);
    }
  }

  lemma LayoutsReadAlike(lead: string, words: seq<string>, gaps: seq<string>)
    requires AllWhitespace(lead) && |gaps| == |words| && AreGaps(gaps)
    requires (forall w <- words :: IsTaken(w)) && (forall w <- QuoteArguments(words) :: IsTaken(w))
    requires AreRetyped(words, QuoteArguments(words))
    ensures Pieces(Join(QuoteArguments(words))) == Pieces(lead + Layout(words, gaps))
       <==> Pieces(lead + Layout(words, gaps)).None? || KeepsReading(lead, words, gaps)
  {
    PiecesOfLayout(lead, words, gaps);
    RewriteIsShown(words, QuoteArguments(words));
    if BothEnd(words, gaps) {
      ReadingsAgree(lead, words, gaps, QuoteArguments(words));
      SamePieces(Pieces(Join(QuoteArguments(words))), Pieces(lead + Layout(words, gaps)));
    } else {
      UnreadableEnd(lead, words, gaps);
    }
  }

  /** The exact condition, for every command the rewriter takes: the shell reads the rewritten
      command as it reads the original if and only if it cannot read the original, or the original's
      gaps and arguments stand where the lexer makes one space and one quoted word of them. */
  lemma RewriteReadsAlike(command: string, lead: string, gaps: seq<string>)
    requires WithQuotedArguments(command).Some? && AllWhitespace(lead)
    requires |gaps| == |Words(command).value| && AreGaps(gaps) && command == lead + Layout(Words(command).value, gaps)
    ensures Pieces(WithQuotedArguments(command).value) == Pieces(command)
       <==> Pieces(command).None? || KeepsReading(lead, Words(command).value, gaps)
  {
    TakenWords(command);
    LayoutsReadAlike(lead, Words(command).value, gaps);
  }

  // ----- a failing family

  /** A double-quoted word holding an escaped quote, a gap and another escaped quote. */
  function EscapedQuotes(gap: string): string {
    "\"\\\"" + gap + "\\\"\""
  }

  lemma {:induction false} InDoubleQuotes(run: string, rest: string, current: string)
    requires '\\' !in run && '"' !in run
    ensures PiecesFrom(run + rest, Some(current), Some('"'), false)
         == PiecesFrom(rest, Some(current + run), Some('"'), false)
    decreases |run|
  {
    if run == "" {
      assert run + rest == rest && current + run == current;
    } else {
      assert run[0] in run && forall c :: c in run[1..] ==> c in run;
      assert (run + rest)[1..] == run[1..] + rest;
      InDoubleQuotes(run[1..], rest, current + [run[0]]);
      assert current + [run[0]] + run[1..] == current + run;
    }
  }

  lemma EscapedQuotesPieces(gap: string)
    requires AllWhitespace(gap)
    ensures Pieces(EscapedQuotes(gap)) == Some([Field("\"" + gap + "\"")])
  {
    var end := "\\\"\"";
    var line := EscapedQuotes(gap);
    assert line[1..] == "\\\"" + gap + end && line[1..][1..] == "\"" + gap + end;
    assert line[1..][1..][1..] == gap + end;
    assert end[1..] == "\"\"" && "\"\""[1..] == "\"" && "\""[1..] == "";
    assert "" + "\"" == "\"";
    InDoubleQuotes(gap, end, "\"");
    var text := "\"" + gap;
    assert PiecesFrom("\"", Some(text + "\""), Some('"'), false) == Some([Field(text + "\"")]);
    assert PiecesFrom("\"\"", Some(text), Some('"'), true) == Some([Field(text + "\"")]);
    assert PiecesFrom(end, Some(text), Some('"'), false) == PiecesFrom("\"\"", Some(text), Some('"'), true);
    assert Pieces(line) == PiecesFrom(line[1..], Some(""), Some('"'), false);
    assert PiecesFrom(line[1..], Some(""), Some('"'), false) == PiecesFrom(line[1..][1..], Some(""), Some('"'), true);
    assert PiecesFrom(line[1..][1..], Some(""), Some('"'), true) == PiecesFrom(gap + end, Some("\""), Some('"'), false);
  }

  lemma EscapedQuotesWords(gap: string)
    requires AllWhitespace(gap) && gap != ""
    ensures Words(EscapedQuotes(gap)) == Some(["\"\\\"", "\\\"\""])
  {
    var open, close := "\"\\\"", "\\\"\"";
    assert open[1..] == "\\\"" && "\\\""[1..] == "\"" && "\""[1..] == "";
    assert close[1..] == "\"\"" && "\"\""[1..] == "\"";
    assert IsWord(open) && IsWord(close);
    WordsOfOne(close);
    WordsEndAtGap(open, gap, close);
    assert EscapedQuotes(gap) == open + (gap + close);
    assert [open] + [close] == [open, close];
  }

  lemma EscapedQuotesRewritten(gap: string)
    requires AllWhitespace(gap) && gap != ""
    ensures WithQuotedArguments(EscapedQuotes(gap)) == Some(EscapedQuotes(" "))
  {
    EscapedQuotesWords(gap);
    var open, close := "\"\\\"", "\\\"\"";
    var words := [open, close];
    assert open[0] == '"' && close[1] == '"';
    assert QuoteArguments(words) == words;
    assert words[1..] == [close];
    assert Join(words) == open + " " + close;
  }

  /** Backslashes do break it: the rewriter takes an escaped quote for a closing one, so it
      replaces the spaces after it by one space, although the shell sees them quoted. */
  lemma BackslashChangesMeaning(gap: string)
    requires AllWhitespace(gap) && gap != ""
    ensures WithQuotedArguments(EscapedQuotes(gap)).Some?
    ensures Pieces(WithQuotedArguments(EscapedQuotes(gap)).value) == Pieces(EscapedQuotes(gap)) <==> gap == " "
  {
    EscapedQuotesRewritten(gap);
    EscapedQuotesPieces(gap);
    EscapedQuotesPieces(" ");
    if "\"" + gap + "\"" == "\"" + " " + "\"" {
      assert gap == ("\"" + gap + "\"")[1..|gap| + 1];
    }
  }

  // ----- a harmless family

  /** The lexer is inside single quotes at its end, the splitter is not. */
  const OPENS := "\"\\\"'\" 'b"
  const CLOSES := "'\"'\\\"\""

  lemma OpensAndCloses()
    ensures ModeAfter(Start(None), OPENS) == Start(Some('\''))
    ensures ModeAfter(Start(Some('\'')), CLOSES) == Start(None)
  {
    assert OPENS[1..] == "\\\"'\" 'b";
    assert "\\\"'\" 'b"[1..] == "\"'\" 'b";
    assert "\"'\" 'b"[1..] == "'\" 'b";
    assert "'\" 'b"[1..] == "\" 'b";
    assert "\" 'b"[1..] == " 'b";
    assert " 'b"[1..] == "'b";
    assert "'b"[1..] == "b";
    assert "b"[1..] == "";
    assert ModeAfter(Mode(true, Some('\''), false), "b") == Mode(true, Some('\''), false);
    assert ModeAfter(Mode(false, None, false), "'b") == Mode(true, Some('\''), false);
    assert ModeAfter(Mode(true, None, false), " 'b") == Mode(true, Some('\''), false);
    assert ModeAfter(Mode(true, Some('"'), false), "\" 'b") == Mode(true, Some('\''), false);
    assert ModeAfter(Mode(true, Some('"'), false), "'\" 'b") == Mode(true, Some('\''), false);
    assert ModeAfter(Mode(true, Some('"'), true), "\"'\" 'b") == Mode(true, Some('\''), false);
    assert ModeAfter(Mode(true, Some('"'), false), "\\\"'\" 'b") == Mode(true, Some('\''), false);
    assert ModeAfter(Mode(true, None, false), "\"\\\"'\" 'b") == Mode(true, Some('\''), false);
    assert CLOSES[1..] == "\"'\\\"\"";
    assert "\"'\\\"\""[1..] == "'\\\"\"";
    assert "'\\\"\""[1..] == "\\\"\"";
    assert "\\\"\""[1..] == "\"\"";
    assert "\"\""[1..] == "\"";
    assert "\""[1..] == "";
    assert ModeAfter(Mode(true, Some('"'), false), "\"") == Mode(true, None, false);
    assert ModeAfter(Mode(true, Some('"'), true), "\"\"") == Mode(true, None, false);
    assert ModeAfter(Mode(true, Some('"'), false), "\\\"\"") == Mode(true, None, false);
    assert ModeAfter(Mode(true, Some('"'), false), "'\\\"\"") == Mode(true, None, false);
    assert ModeAfter(Mode(true, None, false), "\"'\\\"\"") == Mode(true, None, false);
    assert ModeAfter(Mode(true, Some('\''), false), "'\"'\\\"\"") == Mode(true, None, false);
  }

  lemma OpensIsTaken()
    ensures IsTaken(OPENS)
  {
    assert OPENS[1..] == "\\\"'\" 'b";
    assert "\\\"'\" 'b"[1..] == "\"'\" 'b";
    assert "\"'\" 'b"[1..] == "'\" 'b";
    assert "'\" 'b"[1..] == "\" 'b";
    assert "\" 'b"[1..] == " 'b";
    assert " 'b"[1..] == "'b";
    assert "'b"[1..] == "b";
    assert "b"[1..] == "";
    assert QuoteAfter(None, "b").None? && !HasBareSpace(None, "b");
    assert QuoteAfter(Some('\''), "'b").None? && !HasBareSpace(Some('\''), "'b");
    assert QuoteAfter(Some('\''), " 'b").None? && !HasBareSpace(Some('\''), " 'b");
    assert QuoteAfter(Some('\''), "\" 'b").None? && !HasBareSpace(Some('\''), "\" 'b");
    assert QuoteAfter(None, "'\" 'b").None? && !HasBareSpace(None, "'\" 'b");
    assert QuoteAfter(Some('"'), "\"'\" 'b").None? && !HasBareSpace(Some('"'), "\"'\" 'b");
    assert QuoteAfter(Some('"'), "\\\"'\" 'b").None? && !HasBareSpace(Some('"'), "\\\"'\" 'b");
    assert QuoteAfter(None, "\"\\\"'\" 'b").None? && !HasBareSpace(None, "\"\\\"'\" 'b");
    assert OPENS[0] == '"';
  }

  lemma ClosesIsTaken()
    ensures IsTaken(CLOSES)
  {
    assert CLOSES[1..] == "\"'\\\"\"";
    assert "\"'\\\"\""[1..] == "'\\\"\"";
    assert "'\\\"\""[1..] == "\\\"\"";
    assert "\\\"\""[1..] == "\"\"";
    assert "\"\""[1..] == "\"";
    assert "\""[1..] == "";
    assert QuoteAfter(Some('"'), "\"").None? && !HasBareSpace(Some('"'), "\"");
    assert QuoteAfter(None, "\"\"").None? && !HasBareSpace(None, "\"\"");
    assert QuoteAfter(None, "\\\"\"").None? && !HasBareSpace(None, "\\\"\"");
    assert QuoteAfter(Some('\''), "'\\\"\"").None? && !HasBareSpace(Some('\''), "'\\\"\"");
    assert QuoteAfter(Some('\''), "\"'\\\"\"").None? && !HasBareSpace(Some('\''), "\"'\\\"\"");
    assert QuoteAfter(None, "'\"'\\\"\"").None? && !HasBareSpace(None, "'\"'\\\"\"");
    assert CLOSES[0] == '\'';
  }

  lemma PlainIsTaken(w: string)
    requires IsPlain(w) && w != ""
    ensures IsTaken(w)
  {
    PlainFacts(w);
    PlainIsWord(None, w);
  }

  lemma {:induction false} PlainIsWord(quote: Option<char>, w: string)
    requires IsPlain(w) && quote.None?
    ensures QuoteAfter(quote, w).None? && !HasBareSpace(quote, w)
  {
    if w == "" {
    } else {
      PlainIsWord(quote, w[1..]);
    }
  }

  /** After `a` the lexer is inside single quotes and the splitter is not, until `c` ends it. */
  predicate Surround(a: string, c: string) {
    && IsTaken(a) && IsTaken(c) && !IsShellAssignment(a) && IsAlreadyQuoted(c)
    && ModeAfter(Start(None), a) == Start(Some('\''))
    && ModeAfter(Start(Some('\'')), c) == Start(None)
  }

  lemma SurroundExists()
    ensures Surround(OPENS, CLOSES)
  {
    OpensAndCloses();
    OpensIsTaken();
    ClosesIsTaken();
    assert '=' !in OPENS && CLOSES[0] == '\'';
  }

  lemma HarmlessModes(a: string, w: string, c: string)
    requires Surround(a, c) && IsPlain(w)
    ensures QuoteBefore([a, w, c], 1) == QuoteBefore([a, w, c], 2) == Some('\'')
    ensures After([a, w, c], 0) == After([a, w, c], 1) == Start(Some('\'')) && After([a, w, c], 2) == Start(None)
  {
    PlainIsShown(Start(Some('\'')), w);
  }

  lemma HarmlessWords(a: string, w: string, c: string)
    requires Surround(a, c) && IsPlain(w) && w != ""
    ensures Words(Layout([a, w, c], [" ", " ", ""])) == Some([a, w, c]) && CanQuote([a, w, c])
    ensures QuoteArguments([a, w, c]) == [a, "'" + w + "'", c]
  {
    PlainIsTaken(w);
    PlainFacts(w);
    WordsOfLayout("", [a, w, c], [" ", " ", ""]);
    assert "" + Layout([a, w, c], [" ", " ", ""]) == Layout([a, w, c], [" ", " ", ""]);
  }

  /** A plain argument inside single quotes does no harm: its new quotes close and reopen those. */
  lemma SingleQuotesAreHarmless(a: string, w: string, c: string)
    requires Surround(a, c) && IsPlain(w) && w != ""
    ensures var words, command := [a, w, c], Layout([a, w, c], [" ", " ", ""]);
            && QuoteBefore(words, 1) == Some('\'')
            && WithQuotedArguments(command) == Some(Join([a, "'" + w + "'", c]))
            && Pieces(WithQuotedArguments(command).value) == Pieces(command)
  {
    var gaps := [" ", " ", ""];
    HarmlessModes(a, w, c);
    HarmlessWords(a, w, c);
    assert KeepsReading("", [a, w, c], gaps);
    assert "" + Layout([a, w, c], gaps) == Layout([a, w, c], gaps);
    RewriteReadsAlike(Layout([a, w, c], gaps), "", gaps);
  }
}
