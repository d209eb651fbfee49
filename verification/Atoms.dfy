/** The reference lexer as a machine that shows atoms, one character at a time, and what it shows of
    a command laid out as words and gaps. */
module Atoms {
  import opened Text
  import opened Shell
  import opened Posix

  // ----- the reference lexer as a machine

  /** What the lexer shows: a character of a field, the end of a field, a newline. */
  datatype Atom = Char(c: char) | Close | Line

  datatype Mode = Mode(inField: bool, quote: Option<char>, escaped: bool)
  {
    /** A command may end here. */
    predicate Ends() {
      quote.None? && !escaped
    }
  }

  const BEGIN := Mode(false, None, false)

  /** Inside a field, with `quote` open. */
  function Start(quote: Option<char>): Mode {
    Mode(true, quote, false)
  }

  function Chars(s: string): seq<Atom> {
    seq(|s|, i requires 0 <= i < |s| => Char(s[i]))
  }

  function CloseIf(open: bool): seq<Atom> {
    if open then [Close] else []
  }

  function Step(m: Mode, c: char): Mode {
    if m.escaped then Mode(m.inField || c != '\n', m.quote, false)
    else if c == '\\' && m.quote != Some('\'') then m.(escaped := true)
    else if m.quote.Some? then if c == m.quote.value then m.(quote := None) else m.(inField := true)
    else if IsQuote(c) then Start(Some(c))
    else if IsBlank(c) || c == '\n' then BEGIN
    else Start(None)
  }

  function Shown(m: Mode, c: char): seq<Atom> {
    if m.escaped then Chars(Escape(m.quote, c))
    else if c == '\\' && m.quote != Some('\'') then []
    else if m.quote.Some? then if c == m.quote.value then [] else [Char(c)]
    else if IsQuote(c) then []
    else if IsBlank(c) then CloseIf(m.inField)
    else if c == '\n' then CloseIf(m.inField) + [Line]
    else [Char(c)]
  }

  function ModeAfter(m: Mode, s: string): Mode
    decreases |s|
  {
    if s == "" then m else ModeAfter(Step(m, s[0]), s[1..])
  }

  function Shows(m: Mode, s: string): seq<Atom>
    decreases |s|
  {
    if s == "" then [] else Shown(m, s[0]) + Shows(Step(m, s[0]), s[1..])
  }

  /** What is shown of a whole rest of the line, closing the field it leaves open. */
  function ShowsAll(m: Mode, s: string): seq<Atom> {
    Shows(m, s) + CloseIf(ModeAfter(m, s).inField)
  }

  lemma {:induction false} ShowsConcat(m: Mode, a: string, b: string)
    ensures ModeAfter(m, a + b) == ModeAfter(ModeAfter(m, a), b)
    ensures Shows(m, a + b) == Shows(m, a) + Shows(ModeAfter(m, a), b)
    ensures ShowsAll(m, a + b) == Shows(m, a) + ShowsAll(ModeAfter(m, a), b)
    decreases |a|
  {
    if a == "" {
      assert a + b == b;
    } else {
      assert (a + b)[1..] == a[1..] + b;
      ShowsConcat(Step(m, a[0]), a[1..], b);
    }
  }

  lemma ShowsOne(m: Mode, c: char)
    ensures ModeAfter(m, [c]) == Step(m, c) && Shows(m, [c]) == Shown(m, c)
  {
    assert [c][1..] == "";
  }

  // ----- what is shown determines the pieces

  function AtomsOfPiece(piece: Piece): seq<Atom> {
    match piece
    case Field(text) => Chars(text) + [Close]
    case Newline => [Line]
  }

  function AtomsOf(pieces: seq<Piece>): seq<Atom> {
    if pieces == [] then [] else AtomsOfPiece(pieces[0]) + AtomsOf(pieces[1..])
  }

  lemma {:induction false} AtomsOfConcat(a: seq<Piece>, b: seq<Piece>)
    ensures AtomsOf(a + b) == AtomsOf(a) + AtomsOf(b)
  {
    if a == [] {
      assert a + b == b;
    } else {
      assert (a + b)[1..] == a[1..] + b;
      AtomsOfConcat(a[1..], b);
    }
  }

  lemma AtomsOfEmit(current: Option<string>)
    ensures AtomsOf(Emit(current)) == Chars(current.GetOr("")) + CloseIf(current.Some?)
    ensures AtomsOf(Emit(current) + [Newline]) == Chars(current.GetOr("")) + CloseIf(current.Some?) + [Line]
  {
    assert forall piece: Piece :: [piece][1..] == [];
    assert AtomsOf([Newline]) == [Line];
    AtomsOfConcat(Emit(current), [Newline]);
  }

  lemma PieceIsShown(p: Piece, x: seq<Atom>, q: Piece, y: seq<Atom>)
    requires AtomsOfPiece(p) + x == AtomsOfPiece(q) + y
    ensures p == q && x == y
  {
    var s, t := AtomsOfPiece(p), AtomsOfPiece(q);
    var k, l := |s| - 1, |t| - 1;
    assert (s + x)[k] == s[k] && (t + y)[l] == t[l];
    assert forall i :: 0 <= i < k ==> (s + x)[i] == s[i] && s[i].Char?;
    assert forall i :: 0 <= i < l ==> (t + y)[i] == t[i] && t[i].Char?;
    assert k == l;
    assert s == (s + x)[..k + 1] == (t + y)[..k + 1] == t;
    assert x == (s + x)[k + 1..] == (t + y)[k + 1..] == y;
    if p.Field? {
      assert forall i :: 0 <= i < k ==> p.text[i] == s[i].c == t[i].c == q.text[i];
    }
  }

  lemma {:induction false} AtomsDetermine(a: seq<Piece>, b: seq<Piece>)
    requires AtomsOf(a) == AtomsOf(b)
    ensures a == b
  {
    if a != [] && b != [] {
      PieceIsShown(a[0], AtomsOf(a[1..]), b[0], AtomsOf(b[1..]));
      AtomsDetermine(a[1..], b[1..]);
      assert a == [a[0]] + a[1..] == [b[0]] + b[1..] == b;
    }
  }

  lemma CharsConcat(a: string, b: string)
    ensures Chars(a + b) == Chars(a) + Chars(b)
  {
  }

  /** The pieces are there if the line may end, and then they are what is shown. */
  ghost predicate Match(pieces: Option<seq<Piece>>, m: Mode, shown: seq<Atom>) {
    && (pieces.Some? <==> m.Ends())
    && (pieces.Some? ==> AtomsOf(pieces.value) == shown)
  }

  lemma Associative(a: seq<Atom>, b: seq<Atom>, c: seq<Atom>)
    ensures a + b + c == a + (b + c)
  {
  }

  lemma NoText(shown: seq<Atom>)
    ensures Chars("") + shown == shown
  {
  }

  lemma MatchBefore(front: seq<Piece>, text: seq<Atom>, ended: seq<Atom>,
                    pieces: Option<seq<Piece>>, m: Mode, shown: seq<Atom>)
    requires AtomsOf(front) == text + ended && Match(pieces, m, Chars("") + shown)
    ensures Match(Before(front, pieces), m, text + (ended + shown))
  {
    NoText(shown);
    Associative(text, ended, shown);
    if pieces.Some? {
      AtomsOfConcat(front, pieces.value);
    }
  }

  /** The pieces of a line are what the machine shows of it. */
  ghost predicate AreShown(s: string, current: Option<string>, m: Mode) {
    Match(PiecesFrom(s, current, m.quote, m.escaped), ModeAfter(m, s), Chars(current.GetOr("")) + ShowsAll(m, s))
  }

  lemma ShowsAllStep(m: Mode, s: string)
    requires s != ""
    ensures ModeAfter(m, s) == ModeAfter(Step(m, s[0]), s[1..])
    ensures ShowsAll(m, s) == Shown(m, s[0]) + ShowsAll(Step(m, s[0]), s[1..])
  {
  }

  /** The pieces that end at the separator `c`. */
  function Ended(current: Option<string>, c: char): seq<Piece> {
    if c == '\n' then Emit(current) + [Newline] else Emit(current)
  }

  lemma PiecesAtSeparator(s: string, current: Option<string>)
    requires s != "" && (IsBlank(s[0]) || s[0] == '\n')
    ensures PiecesFrom(s, current, None, false) == Before(Ended(current, s[0]), PiecesFrom(s[1..], None, None, false))
  {
  }

  lemma EndedIsShown(current: Option<string>, c: char)
    requires IsBlank(c) || c == '\n'
    ensures AtomsOf(Ended(current, c)) == Chars(current.GetOr("")) + Shown(Mode(current.Some?, None, false), c)
  {
    AtomsOfEmit(current);
  }

  lemma ShownAtSeparator(s: string, current: Option<string>, m: Mode)
    requires s != "" && (IsBlank(s[0]) || s[0] == '\n') && m == Mode(current.Some?, None, false)
    requires AreShown(s[1..], None, BEGIN)
    ensures AreShown(s, current, m)
  {
    EndedIsShown(current, s[0]);
    MatchBefore(Ended(current, s[0]), Chars(current.GetOr("")), Shown(m, s[0]),
                PiecesFrom(s[1..], None, None, false), ModeAfter(BEGIN, s[1..]), ShowsAll(BEGIN, s[1..]));
    ShowsAllStep(m, s);
    PiecesAtSeparator(s, current);
  }

  /** The text that reading `c` adds to the field, anywhere but at a separator. */
  function Added(m: Mode, c: char): string {
    if m.escaped then Escape(m.quote, c) else if Shown(m, c) == [] then "" else [c]
  }

  ghost predicate IsSeparator(m: Mode, c: char) {
    m.Ends() && (IsBlank(c) || c == '\n')
  }

  lemma ShownIsAdded(m: Mode, c: char)
    requires !IsSeparator(m, c)
    ensures Chars(Added(m, c)) == Shown(m, c)
    ensures !Step(m, c).inField ==> !m.inField && Shown(m, c) == []
  {
  }

  lemma PiecesStep(s: string, current: Option<string>, m: Mode)
    requires s != "" && m.inField == current.Some? && !IsSeparator(m, s[0])
    ensures PiecesFrom(s, current, m.quote, m.escaped)
         == PiecesFrom(s[1..], ReadOn(current, m, s[0]), Step(m, s[0]).quote, Step(m, s[0]).escaped)
  {
    assert current.GetOr("") + "" == current.GetOr("");
  }

  /** The field as it is read on after `c`. */
  function ReadOn(current: Option<string>, m: Mode, c: char): Option<string> {
    if Step(m, c).inField then Some(current.GetOr("") + Added(m, c)) else None
  }

  lemma ReadOnIsShown(current: Option<string>, m: Mode, c: char)
    requires m.inField == current.Some? && !IsSeparator(m, c)
    ensures Chars(ReadOn(current, m, c).GetOr("")) == Chars(current.GetOr("")) + Shown(m, c)
  {
    ShownIsAdded(m, c);
    CharsConcat(current.GetOr(""), Added(m, c));
  }

  lemma ShownInField(s: string, current: Option<string>, m: Mode)
    requires s != "" && m.inField == current.Some? && !IsSeparator(m, s[0])
    requires AreShown(s[1..], ReadOn(current, m, s[0]), Step(m, s[0]))
    ensures AreShown(s, current, m)
  {
    PiecesStep(s, current, m);
    ShowsAllStep(m, s);
    ReadOnIsShown(current, m, s[0]);
    Associative(Chars(current.GetOr("")), Shown(m, s[0]), ShowsAll(Step(m, s[0]), s[1..]));
  }

  lemma {:induction false} PiecesAreShown(s: string, current: Option<string>, m: Mode)
    requires m.inField == current.Some?
    ensures AreShown(s, current, m)
    decreases |s|
  {
    if s == "" {
      AtomsOfEmit(current);
    } else if IsSeparator(m, s[0]) {
      PiecesAreShown(s[1..], None, BEGIN);
      ShownAtSeparator(s, current, m);
    } else {
      PiecesAreShown(s[1..], ReadOn(current, m, s[0]), Step(m, s[0]));
      ShownInField(s, current, m);
    }
  }

  // ----- words and gaps

  predicate IsOpenQuote(quote: Option<char>) {
    quote.None? || IsQuote(quote.value)
  }

  /** A word the rewriter takes. */
  predicate IsTaken(w: string) {
    IsWord(w) && (IsPlain(w) || IsAlreadyQuoted(w))
  }

  /** At any point of a word, the lexer is in a field if it has a quote open or agrees with the
      splitter, which has `quote` open. */
  ghost predicate InWord(m: Mode, quote: Option<char>) {
    && IsOpenQuote(m.quote) && IsOpenQuote(quote)
    && (m.quote.Some? || m.quote == quote ==> m.inField)
  }

  lemma {:induction false} WordKeepsField(m: Mode, quote: Option<char>, w: string)
    requires InWord(m, quote) && !HasBareSpace(quote, w)
    ensures InWord(ModeAfter(m, w), QuoteAfter(quote, w))
    decreases |w|
  {
    if w == "" {
      assert ModeAfter(m, w) == m;
    } else {
      WordKeepsField(Step(m, w[0]), StepQuote(quote, w[0]), w[1..]);
    }
  }

  ghost predicate AllSpaces(atoms: seq<Atom>) {
    forall a <- atoms :: a == Char(' ')
  }

  lemma EscapedQuoteIsShown(m: Mode, c: char)
    requires m.escaped && IsQuote(c)
    ensures Char(c) in Shown(m, c)
  {
    var text := Escape(m.quote, c);
    assert Chars(text)[|text| - 1] == Char(c);
  }

  /** The lexer comes to agree with the splitter, or ceases to, only at an escaped quote, which it
      shows. */
  lemma {:induction false} SpacesKeepAgreement(m: Mode, quote: Option<char>, w: string)
    requires IsOpenQuote(m.quote) && IsOpenQuote(quote) && AllSpaces(Shows(m, w))
    ensures ModeAfter(m, w).quote == QuoteAfter(quote, w) <==> m.quote == quote
    decreases |w|
  {
    if w == "" {
      assert ModeAfter(m, w) == m;
    } else {
      var c, rest := w[0], Shows(Step(m, w[0]), w[1..]);
      assert forall a :: a in Shown(m, c) || a in rest ==> a in Shows(m, w);
      if m.escaped && IsQuote(c) {
        EscapedQuoteIsShown(m, c);
        assert false;
      }
      SpacesKeepAgreement(Step(m, c), StepQuote(quote, c), w[1..]);
    }
  }

  /** At the start of a word outside quotes it makes no difference whether a field is open. */
  lemma WordOpensField(w: string, inField: bool)
    requires IsTaken(w)
    ensures Shows(Mode(inField, None, false), w) == Shows(Start(None), w)
    ensures ModeAfter(Mode(inField, None, false), w) == ModeAfter(Start(None), w)
  {
    assert !IsWhitespace(w[0]);
    if w[0] == '\\' {
      assert |w| > 1;
      assert !HasBareSpace(None, w[1..]) && !IsWhitespace(w[1..][0]);
    }
  }

  /** The quote the lexer has open where word `i` starts; gaps do not change it. */
  function QuoteBefore(words: seq<string>, i: nat): Option<char>
    requires i <= |words|
    decreases i, 0
  {
    if i == 0 then None else After(words, i - 1).quote
  }

  /** The lexer's mode at the end of word `i`. */
  function After(words: seq<string>, i: nat): Mode
    requires i < |words|
    decreases i, 1
  {
    ModeAfter(Start(QuoteBefore(words, i)), words[i])
  }

  lemma {:induction false} AfterWord(words: seq<string>, i: nat)
    requires i < |words| && forall w <- words :: IsTaken(w)
    ensures IsOpenQuote(QuoteBefore(words, i)) && IsOpenQuote(After(words, i).quote) && After(words, i).inField
  {
    if i == 0 {
    } else {
      AfterWord(words, i - 1);
    }
    assert words[i] in words;
    WordKeepsField(Start(QuoteBefore(words, i)), None, words[i]);
  }

  function GapShown(m: Mode, gap: string, last: bool): seq<Atom> {
    if last then ShowsAll(m, gap) else Shows(m, gap)
  }

  function WordShown(words: seq<string>, i: nat): seq<Atom>
    requires i < |words|
  {
    Shows(Start(QuoteBefore(words, i)), words[i])
  }

  function WordsShown(words: seq<string>): seq<seq<Atom>> {
    seq(|words|, i requires 0 <= i < |words| => WordShown(words, i))
  }

  /** The modes at the ends of the words. */
  function Modes(words: seq<string>): seq<Mode> {
    seq(|words|, i requires 0 <= i < |words| => After(words, i))
  }

  function GapsShown(modes: seq<Mode>, gaps: seq<string>): seq<seq<Atom>>
    requires |modes| == |gaps|
  {
    seq(|modes|, i requires 0 <= i < |modes| => GapShown(modes[i], gaps[i], i == |modes| - 1))
  }

  /** From word `i` on, what is shown of each word and of the gap after it. */
  function Joined(words: seq<seq<Atom>>, gaps: seq<seq<Atom>>, i: nat): seq<Atom>
    requires i <= |words| == |gaps|
    decreases |words| - i
  {
    if i == |words| then [] else words[i] + (gaps[i] + Joined(words, gaps, i + 1))
  }

  /** What is shown of the words of a layout and of its gaps. */
  function Reading(words: seq<string>, gaps: seq<string>, i: nat): seq<Atom>
    requires i <= |words| == |gaps|
  {
    Joined(WordsShown(words), GapsShown(Modes(words), gaps), i)
  }

  lemma {:induction false} QuotedGap(m: Mode, gap: string)
    requires m.inField && m.quote.Some? && IsQuote(m.quote.value) && !m.escaped && AllWhitespace(gap)
    ensures ModeAfter(m, gap) == m && Shows(m, gap) == Chars(gap)
  {
    if gap == "" {
      assert ModeAfter(m, gap) == m;
    } else {
      QuotedGap(m, gap[1..]);
      CharsConcat([gap[0]], gap[1..]);
      assert gap == [gap[0]] + gap[1..] && Chars([gap[0]]) == [Char(gap[0])];
    }
  }

  predicate AllBlanks(s: string) {
    forall i :: 0 <= i < |s| ==> IsBlank(s[i])
  }

  /** Whitespace other than spaces, which only the original shows. */
  ghost predicate IsForeign(a: Atom) {
    a.Line? || (a.Char? && IsWhitespace(a.c) && a.c != ' ')
  }

  ghost predicate HasForeign(atoms: seq<Atom>) {
    exists a <- atoms :: IsForeign(a)
  }

  lemma {:induction false} BareGap(inField: bool, gap: string)
    requires AllWhitespace(gap)
    ensures ModeAfter(Mode(inField, None, false), gap).Ends()
    ensures forall a <- Shows(Mode(inField, None, false), gap) :: a.Close? || IsForeign(a)
    ensures HasForeign(Shows(Mode(inField, None, false), gap)) <==> !AllBlanks(gap)
    ensures AllBlanks(gap) ==> Shows(Mode(inField, None, false), gap) == CloseIf(inField && gap != "")
    ensures AllBlanks(gap) ==> ModeAfter(Mode(inField, None, false), gap).inField == (inField && gap == "")
    decreases |gap|
  {
    var m := Mode(inField, None, false);
    if gap == "" {
      assert Shows(m, gap) == [];
    } else {
      var c, m' := gap[0], Step(m, gap[0]);
      BareGap(m'.inField, gap[1..]);
      assert m' == Mode(m'.inField, None, false);
      assert forall a :: a in Shows(m, gap) <==> a in Shown(m, c) || a in Shows(m', gap[1..]);
      assert !IsBlank(c) ==> (if c == '\n' then Line else Char(c)) in Shown(m, c);
      assert AllBlanks(gap) <==> IsBlank(c) && AllBlanks(gap[1..]);
    }
  }

  lemma EscapedGap(m: Mode, gap: string)
    requires m.inField && m.escaped && gap != ""
    ensures ModeAfter(m, gap) == ModeAfter(Start(m.quote), gap[1..])
    ensures Shows(m, gap) == Chars(Escape(m.quote, gap[0])) + Shows(Start(m.quote), gap[1..])
  {
  }

  /** A gap closes an escape and leaves the open quote. */
  lemma GapKeepsQuote(m: Mode, gap: string)
    requires (m.inField || m.Ends()) && IsOpenQuote(m.quote) && AllWhitespace(gap)
    ensures ModeAfter(m, gap).quote == m.quote && (m.quote.Some? ==> ModeAfter(m, gap).inField)
    ensures ModeAfter(m, gap).escaped <==> m.escaped && gap == ""
    decreases |gap|
  {
    if m.escaped && gap != "" {
      EscapedGap(m, gap);
      GapKeepsQuote(Start(m.quote), gap[1..]);
    } else if m.escaped {
      assert gap == "";
    } else if m.quote.Some? {
      QuotedGap(m, gap);
    } else {
      BareGap(m.inField, gap);
    }
  }

  // ----- a layout, read part by part

  ghost predicate IsLayout(words: seq<string>, gaps: seq<string>) {
    && |gaps| == |words|
    && AreGaps(gaps)
    && forall w <- words :: IsTaken(w)
  }

  lemma LayoutOpensField(m: Mode, words: seq<string>, gaps: seq<string>)
    requires IsLayout(words, gaps) && words != [] && !m.escaped && (m.quote.Some? ==> m.inField)
    ensures ShowsAll(m, Layout(words, gaps)) == ShowsAll(Start(m.quote), Layout(words, gaps))
    ensures ModeAfter(m, Layout(words, gaps)) == ModeAfter(Start(m.quote), Layout(words, gaps))
  {
    if m.quote.None? {
      var rest := gaps[0] + Layout(words[1..], gaps[1..]);
      WordOpensField(words[0], m.inField);
      ShowsConcat(m, words[0], rest);
      ShowsConcat(Start(None), words[0], rest);
    }
  }

  /** A gap after mode `m` leaves neither a quote nor an escape open. */
  predicate ClosesAll(m: Mode, gap: string) {
    m.quote.None? && (m.escaped ==> gap != "")
  }

  /** Neither a quote nor an escape is left open at the end. */
  ghost predicate EndsWell(words: seq<string>, gaps: seq<string>)
    requires |words| == |gaps|
  {
    words != [] ==> ClosesAll(After(words, |words| - 1), gaps[|words| - 1])
  }

  lemma ShowsWordAndGap(m: Mode, w: string, gap: string, rest: string)
    ensures ModeAfter(m, w + (gap + rest)) == ModeAfter(ModeAfter(ModeAfter(m, w), gap), rest)
    ensures ShowsAll(m, w + (gap + rest))
         == Shows(m, w) + (Shows(ModeAfter(m, w), gap) + ShowsAll(ModeAfter(ModeAfter(m, w), gap), rest))
  {
    ShowsConcat(m, w, gap + rest);
    ShowsConcat(ModeAfter(m, w), gap, rest);
  }

  lemma LayoutSplits(words: seq<string>, gaps: seq<string>, i: nat)
    requires i < |words| == |gaps|
    ensures Layout(words[i..], gaps[i..]) == words[i] + (gaps[i] + Layout(words[i + 1..], gaps[i + 1..]))
  {
    assert words[i..][1..] == words[i + 1..] && gaps[i..][1..] == gaps[i + 1..];
  }

  lemma ReadingStep(words: seq<string>, gaps: seq<string>, i: nat)
    requires i < |words| == |gaps|
    ensures Reading(words, gaps, i)
         == WordShown(words, i) + (GapShown(After(words, i), gaps[i], i == |words| - 1) + Reading(words, gaps, i + 1))
  {
  }

  lemma LayoutSuffix(words: seq<string>, gaps: seq<string>, i: nat)
    requires IsLayout(words, gaps) && i <= |words|
    ensures IsLayout(words[i..], gaps[i..])
  {
  }

  /** The gap after word `i` keeps the open quote, and the next word starts in a field or opens one. */
  lemma GapLeadsOn(words: seq<string>, gaps: seq<string>, i: nat)
    requires IsLayout(words, gaps) && i < |words| - 1
    ensures ShowsAll(ModeAfter(After(words, i), gaps[i]), Layout(words[i + 1..], gaps[i + 1..]))
         == ShowsAll(Start(QuoteBefore(words, i + 1)), Layout(words[i + 1..], gaps[i + 1..]))
    ensures ModeAfter(ModeAfter(After(words, i), gaps[i]), Layout(words[i + 1..], gaps[i + 1..]))
         == ModeAfter(Start(QuoteBefore(words, i + 1)), Layout(words[i + 1..], gaps[i + 1..]))
  {
    AfterWord(words, i);
    GapKeepsQuote(After(words, i), gaps[i]);
    LayoutSuffix(words, gaps, i + 1);
    LayoutOpensField(ModeAfter(After(words, i), gaps[i]), words[i + 1..], gaps[i + 1..]);
  }

  lemma GapEnds(m: Mode, gap: string)
    requires m.inField && IsOpenQuote(m.quote) && AllWhitespace(gap)
    ensures ModeAfter(m, gap).Ends() <==> ClosesAll(m, gap)
  {
    GapKeepsQuote(m, gap);
  }

  lemma LastGapEnds(words: seq<string>, gaps: seq<string>)
    requires IsLayout(words, gaps) && words != []
    ensures ModeAfter(After(words, |words| - 1), gaps[|words| - 1]).Ends() <==> EndsWell(words, gaps)
  {
    var n := |words| - 1;
    AfterWord(words, n);
    assert AllWhitespace(gaps[n]);
    GapEnds(After(words, n), gaps[n]);
  }

  lemma {:induction false} LayoutIsShown(words: seq<string>, gaps: seq<string>, i: nat)
    requires IsLayout(words, gaps) && i < |words|
    ensures ShowsAll(Start(QuoteBefore(words, i)), Layout(words[i..], gaps[i..])) == Reading(words, gaps, i)
    ensures ModeAfter(Start(QuoteBefore(words, i)), Layout(words[i..], gaps[i..])).Ends() <==> EndsWell(words, gaps)
    decreases |words| - i
  {
    LayoutSplits(words, gaps, i);
    ShowsWordAndGap(Start(QuoteBefore(words, i)), words[i], gaps[i], Layout(words[i + 1..], gaps[i + 1..]));
    ReadingStep(words, gaps, i);
    if i == |words| - 1 {
      LastGapEnds(words, gaps);
      var shown := ShowsAll(After(words, i), gaps[i]);
      assert Reading(words, gaps, i + 1) == [] && shown + [] == shown;
    } else {
      LayoutIsShown(words, gaps, i + 1);
      GapLeadsOn(words, gaps, i);
    }
  }

  lemma CommandIsShown(lead: string, words: seq<string>, gaps: seq<string>)
    requires AllWhitespace(lead) && IsLayout(words, gaps)
    ensures ShowsAll(BEGIN, lead + Layout(words, gaps)) == GapShown(BEGIN, lead, words == []) + Reading(words, gaps, 0)
    ensures ModeAfter(BEGIN, lead + Layout(words, gaps)).Ends() <==> EndsWell(words, gaps)
  {
    GapKeepsQuote(BEGIN, lead);
    ShowsConcat(BEGIN, lead, Layout(words, gaps));
    if words == [] {
      assert lead + Layout(words, gaps) == lead;
      assert ShowsAll(BEGIN, lead) + [] == ShowsAll(BEGIN, lead);
    } else {
      LayoutIsShown(words, gaps, 0);
      assert words[0..] == words && gaps[0..] == gaps;
      LayoutOpensField(ModeAfter(BEGIN, lead), words, gaps);
    }
  }

  lemma PiecesOfLayout(lead: string, words: seq<string>, gaps: seq<string>)
    requires AllWhitespace(lead) && IsLayout(words, gaps)
    ensures Pieces(lead + Layout(words, gaps)).Some? <==> EndsWell(words, gaps)
    ensures Match(Pieces(lead + Layout(words, gaps)), ModeAfter(BEGIN, lead + Layout(words, gaps)),
                  GapShown(BEGIN, lead, words == []) + Reading(words, gaps, 0))
  {
    CommandIsShown(lead, words, gaps);
    PiecesAreShown(lead + Layout(words, gaps), None, BEGIN);
    NoText(ShowsAll(BEGIN, lead + Layout(words, gaps)));
  }
}
