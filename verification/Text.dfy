/** Strings as the session layer handles them: Rust's whitespace, trimming, prefixes and
    whitespace tokens, with the facts about them that the other modules share. */
module Text {
  datatype Option<+T> = None | Some(value: T)
  {
    function GetOr(default: T): T {
      if Some? then value else default
    }
  }

  /** `char::is_whitespace`: the Unicode White_Space property. */
  predicate IsWhitespace(c: char) {
    || c == ' '
    || '\t' <= c <= '\r'
    || c in "\U{0085}\U{00A0}\U{1680}\U{2028}\U{2029}\U{202F}\U{205F}\U{3000}"
    || '\U{2000}' <= c <= '\U{200A}'
  }

  predicate AllWhitespace(s: string) {
    forall i :: 0 <= i < |s| ==> IsWhitespace(s[i])
  }

  predicate NoWhitespace(s: string) {
    forall i :: 0 <= i < |s| ==> !IsWhitespace(s[i])
  }

  function TrimStart(s: string): string {
    if s != "" && IsWhitespace(s[0]) then TrimStart(s[1..]) else s
  }

  function TrimEnd(s: string): string {
    if s != "" && IsWhitespace(s[|s| - 1]) then TrimEnd(s[..|s| - 1]) else s
  }

  function Trim(s: string): string {
    TrimEnd(TrimStart(s))
  }

  /** `str::starts_with`. */
  predicate StartsWith(s: string, prefix: string) {
    prefix <= s
  }

  /** `trim_matches('\'')`. */
  function TrimQuoteStart(s: string): string {
    if s != "" && s[0] == '\'' then TrimQuoteStart(s[1..]) else s
  }

  function TrimQuoteEnd(s: string): string {
    if s != "" && s[|s| - 1] == '\'' then TrimQuoteEnd(s[..|s| - 1]) else s
  }

  function TrimQuotes(s: string): string {
    TrimQuoteEnd(TrimQuoteStart(s))
  }

  function Join(words: seq<string>): string {
    if words == [] then ""
    else if |words| == 1 then words[0]
    else words[0] + " " + Join(words[1..])
  }

  /** A maximal run without whitespace, and the whitespace character that ended it, if any. */
  datatype Token = Token(text: string, delim: Option<char>)

  /** The tokens of `pending + s`, where `pending` is the token being read. */
  function TokensFrom(s: string, pending: string): seq<Token> {
    if s == "" then
      if pending == "" then [] else [Token(pending, None)]
    else if IsWhitespace(s[0]) then
      (if pending == "" then [] else [Token(pending, Some(s[0]))]) + TokensFrom(s[1..], "")
    else
      TokensFrom(s[1..], pending + [s[0]])
  }

  function Tokens(s: string): seq<Token> {
    TokensFrom(s, "")
  }

  /** `split_whitespace`. */
  function SplitWhitespace(s: string): seq<string> {
    var tokens := Tokens(s);
    seq(|tokens|, i requires 0 <= i < |tokens| => tokens[i].text)
  }

  // ----- facts about trimming and tokens

  /** Trimming the start removes a whitespace prefix and nothing else. */
  lemma {:induction false} TrimStartSplits(s: string) returns (gap: string)
    ensures AllWhitespace(gap) && s == gap + TrimStart(s)
    ensures TrimStart(s) != "" ==> !IsWhitespace(TrimStart(s)[0])
  {
    if s != "" && IsWhitespace(s[0]) {
      var rest := TrimStartSplits(s[1..]);
      gap := [s[0]] + rest;
    } else {
      gap := "";
    }
  }

  lemma {:induction false} TrimEndSplits(s: string) returns (gap: string)
    ensures AllWhitespace(gap) && s == TrimEnd(s) + gap
    ensures TrimEnd(s) != "" ==> !IsWhitespace(TrimEnd(s)[|TrimEnd(s)| - 1])
  {
    if s != "" && IsWhitespace(s[|s| - 1]) {
      var rest := TrimEndSplits(s[..|s| - 1]);
      gap := rest + [s[|s| - 1]];
    } else {
      gap := "";
    }
  }

  lemma {:induction false} TokensSkipGap(gap: string, s: string)
    requires AllWhitespace(gap)
    ensures Tokens(gap + s) == Tokens(s)
  {
    if gap == "" {
      assert gap + s == s;
    } else {
      assert (gap + s)[1..] == gap[1..] + s;
      TokensSkipGap(gap[1..], s);
    }
  }

  lemma TokensTrimStart(s: string)
    ensures Tokens(TrimStart(s)) == Tokens(s)
  {
    var gap := TrimStartSplits(s);
    TokensSkipGap(gap, TrimStart(s));
  }

  /** Tokens before a whitespace character do not depend on what follows it. */
  lemma {:induction false} TokensCut(a: string, c: char, b: string, pending: string)
    requires IsWhitespace(c)
    ensures TokensFrom(a + [c] + b, pending) == TokensFrom(a + [c], pending) + Tokens(b)
    decreases |a|
  {
    if a == "" {
      assert a + [c] + b == [c] + b && ([c] + b)[1..] == b;
      assert a + [c] == [c] && [c][1..] == "";
      assert TokensFrom("", "") == [];
    } else {
      assert (a + [c] + b)[1..] == a[1..] + [c] + b;
      assert (a + [c])[1..] == a[1..] + [c];
      if IsWhitespace(a[0]) {
        TokensCut(a[1..], c, b, "");
      } else {
        TokensCut(a[1..], c, b, pending + [a[0]]);
      }
    }
  }

  /** A run without whitespace extends the token being read. */
  lemma {:induction false} TokensRun(w: string, rest: string, pending: string)
    requires NoWhitespace(w)
    ensures TokensFrom(w + rest, pending) == TokensFrom(rest, pending + w)
    decreases |w|
  {
    if w == "" {
      assert w + rest == rest && pending + w == pending;
    } else {
      assert (w + rest)[1..] == w[1..] + rest;
      TokensRun(w[1..], rest, pending + [w[0]]);
      assert pending + [w[0]] + w[1..] == pending + w;
    }
  }

  /** A word without whitespace, followed by one whitespace character, is one token. */
  lemma TokensWord(w: string, c: char, rest: string)
    requires w != "" && NoWhitespace(w) && IsWhitespace(c)
    ensures Tokens(w + [c] + rest) == [Token(w, Some(c))] + Tokens(rest)
  {
    assert w + [c] + rest == w + ([c] + rest);
    TokensRun(w, [c] + rest, "");
    assert "" + w == w && ([c] + rest)[1..] == rest;
  }

  lemma TokensLastWord(w: string)
    requires w != "" && NoWhitespace(w)
    ensures Tokens(w) == [Token(w, None)]
  {
    TokensRun(w, "", "");
    assert w + "" == w && "" + w == w;
  }

  /** Every token is non-empty and free of whitespace; only the last can lack a delimiter. */
  lemma {:induction false} TokensAreWords(s: string, pending: string)
    requires NoWhitespace(pending)
    ensures forall i :: 0 <= i < |TokensFrom(s, pending)| ==>
              var t := TokensFrom(s, pending)[i];
              && t.text != "" && NoWhitespace(t.text)
              && (t.delim.Some? ==> IsWhitespace(t.delim.value))
              && (t.delim.None? ==> i == |TokensFrom(s, pending)| - 1)
    decreases |s|
  {
    if s == "" {
    } else {
      if IsWhitespace(s[0]) {
        TokensAreWords(s[1..], "");
      } else {
        TokensAreWords(s[1..], pending + [s[0]]);
      }
    }
  }

  /** A word with no quote at either end is what trimming leaves of its quoted form. */
  lemma TrimQuotesOfQuoted(w: string)
    requires w != "" && '\'' !in w
    ensures TrimQuotes("'" + w + "'") == TrimQuotes(w) == w
  {
    var q := "'" + w + "'";
    assert q[1..] == w + "'";
    assert TrimQuoteStart(q) == TrimQuoteStart(w + "'") == w + "'";
    assert (w + "'")[..|w + "'"| - 1] == w;
    assert w[|w| - 1] in w;
  }

  /** `word` is `text` with any number of single quotes around it. */
  ghost predicate IsInQuotes(word: string, front: string, text: string, back: string) {
    && word == front + text + back
    && (forall c <- front + back :: c == '\'')
    && (text == "" || (text[0] != '\'' && text[|text| - 1] != '\''))
  }

  /** Trimming removes every quote at either end, and only there. */
  lemma {:induction false} TrimQuotesAtEnds(word: string, front: string, text: string, back: string)
    requires IsInQuotes(word, front, text, back)
    ensures TrimQuotes(word) == text
    decreases |front|
  {
    if front == "" {
      assert word == text + back && front + back == back;
      if text == "" {
        assert word == back;
        TrimQuotesOnly(back);
      } else {
        assert word[0] == text[0];
        TrimQuotesAtEnd(text, back);
      }
    } else {
      assert front[0] in front + back && forall c <- front[1..] + back :: c in front + back;
      assert word[1..] == front[1..] + text + back;
      TrimQuotesAtEnds(word[1..], front[1..], text, back);
    }
  }

  lemma {:induction false} TrimQuotesOnly(quotes: string)
    requires forall c <- quotes :: c == '\''
    ensures TrimQuotes(quotes) == ""
  {
    if quotes == "" {
    } else {
      assert quotes[0] in quotes && forall c <- quotes[1..] :: c in quotes;
      TrimQuotesOnly(quotes[1..]);
    }
  }

  lemma {:induction false} TrimQuotesAtEnd(w: string, back: string)
    requires (forall c <- back :: c == '\'') && w != "" && w[|w| - 1] != '\''
    ensures TrimQuoteEnd(w + back) == w
  {
    if back == "" {
      assert w + back == w;
    } else {
      var n := |back| - 1;
      assert back[n] in back && forall c <- back[..n] :: c in back;
      assert (w + back)[..|w + back| - 1] == w + back[..n];
      TrimQuotesAtEnd(w, back[..n]);
    }
  }

  /** `text` starts with `marker`, after whitespace at most. */
  ghost predicate BeginsWith(text: string, marker: string) {
    exists gap, rest :: AllWhitespace(gap) && text == gap + marker + rest
  }

  lemma {:induction false} TrimStartSkips(gap: string, rest: string)
    requires AllWhitespace(gap) && (rest != "" ==> !IsWhitespace(rest[0]))
    ensures TrimStart(gap + rest) == rest
  {
    if gap == "" {
      assert gap + rest == rest;
    } else {
      assert (gap + rest)[1..] == gap[1..] + rest;
      TrimStartSkips(gap[1..], rest);
    }
  }

  lemma BeginsIsStartsWith(text: string, marker: string)
    requires marker != "" && !IsWhitespace(marker[0])
    ensures StartsWith(TrimStart(text), marker) <==> BeginsWith(text, marker)
  {
    if StartsWith(TrimStart(text), marker) {
      var gap := TrimStartSplits(text);
      var rest := TrimStart(text)[|marker|..];
      assert TrimStart(text) == marker + rest;
      assert text == gap + marker + rest;
    }
    if gap, rest :| AllWhitespace(gap) && text == gap + marker + rest {
      assert text == gap + (marker + rest);
      TrimStartSkips(gap, marker + rest);
    }
  }

  /** What trimming leaves is empty exactly if there is nothing but whitespace. */
  lemma BlankIsWhitespace(text: string)
    ensures Trim(text) == "" <==> AllWhitespace(text)
  {
    var front := TrimStartSplits(text);
    var back := TrimEndSplits(TrimStart(text));
    if AllWhitespace(text) {
      assert text + "" == text;
      TrimStartSkips(text, "");
    }
  }
}
