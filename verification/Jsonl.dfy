/** The byte-capped reader of JSON lines. */
module Jsonl {
  import opened Text

  type Byte = b: int | 0 <= b < 256

  const LF: Byte := 10
  const CR: Byte := 13
  const MAX_SOURCE_BYTES := 5 * 1024 * 1024

  datatype BoundedJsonl<V> = BoundedJsonl(values: seq<V>, sourceNonEmpty: bool, isPartial: bool)

  /** `u8::is_ascii_whitespace`. */
  predicate IsAsciiWhitespace(b: Byte) {
    b == 32 || b == 9 || b == LF || b == 12 || b == CR
  }

  function StripEnd(line: seq<Byte>): seq<Byte> {
    if line != [] && (line[|line| - 1] == LF || line[|line| - 1] == CR) then StripEnd(line[..|line| - 1]) else line
  }

  predicate IsBlank(line: seq<Byte>) {
    forall i :: 0 <= i < |line| ==> IsAsciiWhitespace(line[i])
  }

  predicate IsComplete(line: seq<Byte>) {
    line != [] && line[|line| - 1] == LF
  }

  // ----- specification

  /** The lines of `pending + s`, each with its terminator, where `pending` is the line being read.
      A last line without one is dropped if the source was `cut`. */
  function LinesFrom(s: seq<Byte>, pending: seq<Byte>, cut: bool): seq<seq<Byte>> {
    if s == [] then
      if pending == [] || cut then [] else [pending]
    else if s[0] == LF then
      [pending + [LF]] + LinesFrom(s[1..], [], cut)
    else
      LinesFrom(s[1..], pending + [s[0]], cut)
  }

  function Lines(s: seq<Byte>): seq<seq<Byte>> {
    LinesFrom(s, [], false)
  }

  function WholeLines(s: seq<Byte>): seq<seq<Byte>> {
    LinesFrom(s, [], true)
  }

  /** The lines the reader examines: all of a file that fits, else the whole lines under the cap. */
  function Examined(file: seq<Byte>, cap: nat): seq<seq<Byte>> {
    if |file| <= cap then Lines(file) else WholeLines(file[..cap])
  }

  function Concat(lines: seq<seq<Byte>>): seq<Byte> {
    if lines == [] then [] else lines[0] + Concat(lines[1..])
  }

  /** What one line decodes to; `decode` stands for UTF-8 validation and JSON parsing. */
  function DecodeLine<V>(line: seq<Byte>, decode: seq<Byte> -> Option<V>): Option<V> {
    if IsBlank(StripEnd(line)) then None else decode(StripEnd(line))
  }

  predicate Fails<V>(line: seq<Byte>, decode: seq<Byte> -> Option<V>) {
    !IsBlank(StripEnd(line)) && decode(StripEnd(line)).None?
  }

  function Values<V>(lines: seq<seq<Byte>>, decode: seq<Byte> -> Option<V>): seq<V> {
    if lines == [] then []
    else
      var first := DecodeLine(lines[0], decode);
      (if first.Some? then [first.value] else []) + Values(lines[1..], decode)
  }

  predicate AnyFails<V>(lines: seq<seq<Byte>>, decode: seq<Byte> -> Option<V>) {
    exists line <- lines :: Fails(line, decode)
  }

  // ----- the reader

  /** `read_until(b'\n')`: the next line with its terminator, and what is left. */
  function ReadUntil(s: seq<Byte>): (r: (seq<Byte>, seq<Byte>))
    ensures r.0 + r.1 == s && (s != [] ==> r.0 != [])
    ensures IsComplete(r.0) || r.1 == []
    ensures forall i :: 0 <= i < |r.0| - 1 ==> r.0[i] != LF
  {
    if s == [] then ([], [])
    else if s[0] == LF then ([LF], s[1..])
    else
      var (line, rest) := ReadUntil(s[1..]);
      ([s[0]] + line, rest)
  }

  lemma {:induction false} LineRun(w: seq<Byte>, rest: seq<Byte>, pending: seq<Byte>, cut: bool)
    requires LF !in w
    ensures LinesFrom(w + rest, pending, cut) == LinesFrom(rest, pending + w, cut)
    decreases |w|
  {
    if w == [] {
      assert w + rest == rest && pending + w == pending;
    } else {
      assert w[0] in w && (w + rest)[1..] == w[1..] + rest;
      assert LF !in w[1..];
      LineRun(w[1..], rest, pending + [w[0]], cut);
      assert pending + [w[0]] + w[1..] == pending + w;
    }
  }

  /** The line `ReadUntil` reads is the first line, unless it is a cut one. */
  lemma ReadUntilReadsLine(line: seq<Byte>, rest: seq<Byte>, cut: bool)
    requires line != [] && (IsComplete(line) || rest == [])
    requires forall i :: 0 <= i < |line| - 1 ==> line[i] != LF
    ensures LinesFrom(line + rest, [], cut)
         == if IsComplete(line) || !cut then [line] + LinesFrom(rest, [], cut) else []
  {
    var n := |line| - 1;
    if IsComplete(line) {
      assert line + rest == line[..n] + ([LF] + rest);
      LineRun(line[..n], [LF] + rest, [], cut);
      assert ([LF] + rest)[1..] == rest && [] + line[..n] + [LF] == line;
    } else {
      assert LF !in line by { assert forall i :: 0 <= i < |line| ==> line[i] != LF; }
      LineRun(line, [], [], cut);
      assert line + rest == line + [] && [] + line == line;
    }
  }

  /** What is read so far, with what is left, accounts for all the lines. */
  ghost predicate Accounts<V>(values: seq<V>, isPartial: bool, left: seq<seq<Byte>>, all: seq<seq<Byte>>,
                              exceeds: bool, decode: seq<Byte> -> Option<V>) {
    && values + Values(left, decode) == Values(all, decode)
    && (isPartial || AnyFails(left, decode) <==> exceeds || AnyFails(all, decode))
  }

  lemma AccountsForLine<V>(values: seq<V>, isPartial: bool, line: seq<Byte>, left: seq<seq<Byte>>, all: seq<seq<Byte>>,
                           exceeds: bool, decode: seq<Byte> -> Option<V>)
    requires Accounts(values, isPartial, [line] + left, all, exceeds, decode)
    ensures var value := DecodeLine(line, decode);
            Accounts(values + if value.Some? then [value.value] else [], isPartial || Fails(line, decode),
                     left, all, exceeds, decode)
  {
    assert ([line] + left)[1..] == left;
    assert line in [line] + left;
    var read := if DecodeLine(line, decode).Some? then [DecodeLine(line, decode).value] else [];
    assert values + (read + Values(left, decode)) == values + read + Values(left, decode);
  }

  /** Reads whole lines from what is left under the cap. */
  method ReadLines<V(==)>(source: seq<Byte>, exceeds: bool, decode: seq<Byte> -> Option<V>)
    returns (values: seq<V>, isPartial: bool)
    ensures values == Values(LinesFrom(source, [], exceeds), decode)
    ensures isPartial <==> exceeds || AnyFails(LinesFrom(source, [], exceeds), decode)
  {
    values, isPartial := [], exceeds;
    var reader := source;
    ghost var all := LinesFrom(source, [], exceeds);
    while true
      invariant Accounts(values, isPartial, LinesFrom(reader, [], exceeds), all, exceeds, decode)
      decreases |reader|
    {
      var (line, rest) := ReadUntil(reader);
      if line == [] {
        break;
      }
      ReadUntilReadsLine(line, rest, exceeds);
      if exceeds && rest == [] && !IsComplete(line) {
        break;
      }
      AccountsForLine(values, isPartial, line, LinesFrom(rest, [], exceeds), all, exceeds, decode);
      reader := rest;
      line := StripEnd(line);
      if IsBlank(line) {
        assert values + [] == values;
        continue;
      }
      var value := decode(line);
      if value.Some? {
        values := values + [value.value];
      } else {
        assert values + [] == values;
        isPartial := true;
      }
    }
    assert values + [] == values;
  }

  /** `None` for a file that is missing or not regular. */
  method ReadBoundedJsonl<V(==)>(source: Option<seq<Byte>>, decode: seq<Byte> -> Option<V>,
                                 cap: nat := MAX_SOURCE_BYTES)
    returns (result: Option<BoundedJsonl<V>>)
    ensures result.Some? <==> source.Some?
    ensures source.Some? ==>
              && result.value.values == Values(Examined(source.value, cap), decode)
              && result.value.sourceNonEmpty == (source.value != [])
              && (result.value.isPartial <==> |source.value| > cap || AnyFails(Examined(source.value, cap), decode))
  {
    if source.None? {
      return None;
    }
    var file := source.value;
    var exceeds := |file| > cap;
    var values, isPartial := ReadLines(if exceeds then file[..cap] else file, exceeds, decode);
    return Some(BoundedJsonl(values, file != [], isPartial));
  }

  /** The five MiB budget. */
  method ReadSource<V(==)>(source: Option<seq<Byte>>, decode: seq<Byte> -> Option<V>)
    returns (result: Option<BoundedJsonl<V>>)
    ensures result.Some? <==> source.Some?
    ensures source.Some? ==>
              && result.value.values == Values(Examined(source.value, 5_242_880), decode)
              && result.value.sourceNonEmpty == (source.value != [])
              && (result.value.isPartial
                  <==> |source.value| > 5_242_880 || AnyFails(Examined(source.value, 5_242_880), decode))
  {
    result := ReadBoundedJsonl(source, decode);
  }

  /** How a line is read: its body, without the line feeds and carriage returns at its end, is
      decoded, unless it is all ASCII whitespace; then it neither yields a value nor fails. */
  lemma LinesAreDecoded<V>(body: seq<Byte>, tail: seq<Byte>, decode: seq<Byte> -> Option<V>)
    requires body != [] ==> body[|body| - 1] != 10 && body[|body| - 1] != 13
    requires forall b <- tail :: b == 10 || b == 13
    ensures var blank := forall b <- body :: b == 9 || b == 10 || b == 12 || b == 13 || b == 32;
            && Values([body + tail], decode) == (if blank || decode(body).None? then [] else [decode(body).value])
            && (Fails(body + tail, decode) <==> !blank && decode(body).None?)
  {
    StripsTail(body, tail);
    assert [body + tail][1..] == [];
    assert forall i :: 0 <= i < |body| ==> body[i] in body;
  }

  lemma {:induction false} StripsTail(body: seq<Byte>, tail: seq<Byte>)
    requires body != [] ==> body[|body| - 1] != 10 && body[|body| - 1] != 13
    requires forall b <- tail :: b == 10 || b == 13
    ensures StripEnd(body + tail) == body
  {
    if tail == [] {
      assert body + tail == body;
    } else {
      var n := |tail| - 1;
      assert tail[n] in tail && forall b <- tail[..n] :: b in tail;
      assert (body + tail)[..|body + tail| - 1] == body + tail[..n];
      StripsTail(body, tail[..n]);
    }
  }

  // ----- what the cap does

  /** Lines are the file cut after each newline: nothing is lost, and every line but the last is
      complete and holds no other newline. */
  lemma {:induction false} LinesAreTheFile(s: seq<Byte>, pending: seq<Byte>)
    requires LF !in pending
    ensures Concat(LinesFrom(s, pending, false)) == pending + s
    ensures forall line <- LinesFrom(s, pending, false) :: line != [] && LF !in line[..|line| - 1]
    ensures forall i :: 0 <= i < |LinesFrom(s, pending, false)| - 1 ==> IsComplete(LinesFrom(s, pending, false)[i])
    decreases |s|
  {
    var lines := LinesFrom(s, pending, false);
    if s == [] {
      if pending != [] {
        assert lines[1..] == [] && pending + [] == pending;
      }
    } else if s[0] == LF {
      LinesAreTheFile(s[1..], []);
      assert lines[1..] == LinesFrom(s[1..], [], false);
      assert (pending + [LF])[..|pending|] == pending;
      assert pending + [LF] + ([] + s[1..]) == pending + s;
    } else {
      LinesAreTheFile(s[1..], pending + [s[0]]);
      assert pending + [s[0]] + s[1..] == pending + s;
    }
  }

  lemma {:induction false} FirstLineGrows(s: seq<Byte>, pending: seq<Byte>)
    requires s != []
    ensures LinesFrom(s, pending, false) != [] && |LinesFrom(s, pending, false)[0]| > |pending|
  {
    if s[0] != LF && |s| > 1 {
      FirstLineGrows(s[1..], pending + [s[0]]);
    }
  }

  /** `kept` is the longest run of `lines` that fits in `cap` bytes. */
  ghost predicate IsLongestFit(kept: seq<seq<Byte>>, lines: seq<seq<Byte>>, cap: nat) {
    && kept <= lines
    && |kept| < |lines|
    && |Concat(kept)| <= cap < |Concat(kept)| + |lines[|kept|]|
  }

  lemma {:induction false} CapKeepsWholeLines(s: seq<Byte>, cap: nat, pending: seq<Byte>)
    requires cap < |s|
    ensures IsLongestFit(LinesFrom(s[..cap], pending, true), LinesFrom(s, pending, false), |pending| + cap)
    decreases |s|
  {
    if cap == 0 {
      FirstLineGrows(s, pending);
    } else {
      assert s[..cap][1..] == s[1..][..cap - 1];
      if s[0] == LF {
        CapKeepsWholeLines(s[1..], cap - 1, []);
        var kept := LinesFrom(s[1..][..cap - 1], [], true);
        assert ([pending + [LF]] + kept)[1..] == kept;
      } else {
        CapKeepsWholeLines(s[1..], cap - 1, pending + [s[0]]);
      }
    }
  }

  lemma PrefixAfter<V>(front: seq<V>, a: seq<V>, b: seq<V>)
    requires a <= b
    ensures front + a <= front + b
  {
  }

  lemma {:induction false} ValuesOfPrefix<V>(a: seq<seq<Byte>>, b: seq<seq<Byte>>, decode: seq<Byte> -> Option<V>)
    requires a <= b
    ensures Values(a, decode) <= Values(b, decode)
  {
    if a == [] {
    } else {
      assert a[0] == b[0] && a[1..] <= b[1..];
      ValuesOfPrefix(a[1..], b[1..], decode);
      var first := DecodeLine(a[0], decode);
      PrefixAfter(if first.Some? then [first.value] else [], Values(a[1..], decode), Values(b[1..], decode));
    }
  }

  /** The capped reader yields a prefix: what it reads starts what an uncapped read yields, is all
      of it when the file fits, and otherwise comes from the longest run of whole lines under the
      cap, so a record the cap cut is never parsed. */
  lemma CapYieldsPrefix<V>(file: seq<Byte>, cap: nat, decode: seq<Byte> -> Option<V>)
    ensures Values(Examined(file, cap), decode) <= Values(Lines(file), decode)
    ensures Examined(file, cap) <= Lines(file)
    ensures |file| <= cap ==> Examined(file, cap) == Lines(file)
    ensures |file| > cap ==> IsLongestFit(Examined(file, cap), Lines(file), cap)
  {
    if |file| > cap {
      CapKeepsWholeLines(file, cap, []);
    }
    ValuesOfPrefix(Examined(file, cap), Lines(file), decode);
  }
}
