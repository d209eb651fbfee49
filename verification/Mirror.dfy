/** The prompt-mirror reader: one pass that coalesces retries within a turn. */
module Mirror {
  import opened Text
  import opened Jsonl

  datatype Prompt = Prompt(timestamp: Option<string>, text: string)

  datatype History = History(prompts: seq<Prompt>, isPartial: bool, inherited: nat)

  /** One JSON value of a mirror file, read as a record. */
  datatype Line =
    | Malformed
    | Record(ts: Option<string>, cwd: Option<string>, bridge: Option<string>,
             prompt: Option<string>, stop: bool, truncated: bool)

  datatype MirrorRead = MirrorRead(history: History, firstRecord: Option<Line>)

  predicate IsInjectedPrompt(text: string) {
    var start := TrimStart(text);
    || StartsWith(start, "<task-notification>")
    || StartsWith(start, "[Clinch auto-coordinate]")
    || StartsWith(start, "[Clinch restart]")
  }

  /** A record that holds a prompt the user typed. */
  predicate IsUserPrompt(line: Line) {
    && line.Record? && !line.truncated && !line.stop && line.prompt.Some?
    && Trim(line.prompt.value) != "" && !IsInjectedPrompt(line.prompt.value)
  }

  predicate IsStop(line: Line) {
    line.Record? && !line.truncated && line.stop
  }

  /** A record the reader cannot use, which makes the history partial. */
  predicate IsUnusable(line: Line) {
    line.Malformed? || line.truncated || (!line.stop && line.prompt.None?)
  }

  function ToPrompt(line: Line): Prompt
    requires IsUserPrompt(line)
  {
    Prompt(if line.ts == Some("") then None else line.ts, line.prompt.value)
  }

  function ToPrompts(lines: seq<Line>): seq<Prompt>
    requires forall line <- lines :: IsUserPrompt(line)
  {
    seq(|lines|, i requires 0 <= i < |lines| => assert lines[i] in lines; ToPrompt(lines[i]))
  }

  // ----- the simple specification

  /** The lines between stop markers. */
  function Segments(lines: seq<Line>): (r: seq<seq<Line>>)
    ensures r != []
  {
    if lines == [] then [[]]
    else
      var rest := Segments(lines[1..]);
      if IsStop(lines[0]) then [[]] + rest else [[lines[0]] + rest[0]] + rest[1..]
  }

  function UserPrompts(lines: seq<Line>): (r: seq<Line>)
    ensures forall line <- r :: IsUserPrompt(line)
  {
    if lines == [] then []
    else (if IsUserPrompt(lines[0]) then [lines[0]] else []) + UserPrompts(lines[1..])
  }

  /** Drops every prompt equal to the one just before it. */
  function DropRepeats(prompts: seq<Line>, previous: Option<string>): (r: seq<Line>)
    requires forall line <- prompts :: IsUserPrompt(line)
    ensures forall line <- r :: IsUserPrompt(line)
  {
    if prompts == [] then []
    else
      assert prompts[0] in prompts && IsUserPrompt(prompts[0]);
      (if previous == prompts[0].prompt then [] else [prompts[0]]) + DropRepeats(prompts[1..], prompts[0].prompt)
  }

  function CoalesceSegments(segments: seq<seq<Line>>): (r: seq<Line>)
    ensures forall line <- r :: IsUserPrompt(line)
  {
    if segments == [] then []
    else DropRepeats(UserPrompts(segments[0]), None) + CoalesceSegments(segments[1..])
  }

  /** Split at stop markers, keep typed prompts, drop adjacent repeats in each part, concatenate. */
  function Coalesced(lines: seq<Line>): (r: seq<Line>)
    ensures forall line <- r :: IsUserPrompt(line)
  {
    CoalesceSegments(Segments(lines))
  }

  // ----- the one-pass reader

  /** What one pass keeps of `lines`, with `latest` the latest prompt of the open turn. */
  function Kept(lines: seq<Line>, latest: Option<string>): (r: seq<Line>)
    ensures forall line <- r :: IsUserPrompt(line)
  {
    if lines == [] then []
    else if IsStop(lines[0]) then Kept(lines[1..], None)
    else if !IsUserPrompt(lines[0]) || lines[0].prompt == latest then Kept(lines[1..], latest)
    else [lines[0]] + Kept(lines[1..], lines[0].prompt)
  }

  predicate HasUnusable(lines: seq<Line>) {
    exists line <- lines :: IsUnusable(line)
  }

  function First(kept: seq<Line>): Option<Line> {
    if kept == [] then None else Some(kept[0])
  }

  /** What a mirror tells: nothing if there is no file or an empty one; otherwise the prompts of the
      simple specification, and the first record among them. */
  function ReadMirror(source: Option<BoundedJsonl<Line>>): (r: Option<MirrorRead>)
    ensures r.Some? && r.value.firstRecord.Some? ==> IsUserPrompt(r.value.firstRecord.value)
  {
    if source.None? || !source.value.sourceNonEmpty then None
    else
      var kept := Coalesced(source.value.values);
      var isPartial := source.value.isPartial || HasUnusable(source.value.values);
      Some(MirrorRead(History(ToPrompts(kept), isPartial, 0), First(kept)))
  }

  lemma ToPromptsCons(line: Line, rest: seq<Line>)
    requires IsUserPrompt(line) && forall l <- rest :: IsUserPrompt(l)
    ensures ToPrompts([line] + rest) == [ToPrompt(line)] + ToPrompts(rest)
  {
  }

  lemma HasUnusableCons(lines: seq<Line>)
    requires lines != []
    ensures HasUnusable(lines) <==> IsUnusable(lines[0]) || HasUnusable(lines[1..])
  {
    assert lines == [lines[0]] + lines[1..];
  }

  /** Canonical as soon as the file is non-empty, even if every record is malformed. */
  method ReadPromptMirror(source: Option<BoundedJsonl<Line>>) returns (result: Option<MirrorRead>)
    ensures result == ReadMirror(source)
  {
    if source.None? || !source.value.sourceNonEmpty {
      return None;
    }
    var lines := source.value.values;
    var prompts, isPartial := [], source.value.isPartial;
    var firstRecord: Option<Line> := None;
    var latest: Option<string> := None;
    OnePassIsCoalesced(lines);
    assert lines[0..] == lines;
    for i := 0 to |lines|
      invariant ToPrompts(Coalesced(lines)) == prompts + ToPrompts(Kept(lines[i..], latest))
      invariant First(Coalesced(lines)) == if firstRecord.Some? then firstRecord else First(Kept(lines[i..], latest))
      invariant source.value.isPartial || HasUnusable(lines) <==> isPartial || HasUnusable(lines[i..])
    {
      var line := lines[i];
      assert lines[i..][1..] == lines[i + 1..];
      HasUnusableCons(lines[i..]);
      if line.Malformed? || line.truncated {
        isPartial := true;
        continue;
      }
      if line.stop {
        latest := None;
        continue;
      }
      if line.prompt.None? {
        isPartial := true;
        continue;
      }
      if Trim(line.prompt.value) == "" {
        continue;
      }
      if IsInjectedPrompt(line.prompt.value) {
        continue;
      }
      if latest == line.prompt {
        continue;
      }
      if firstRecord.None? {
        firstRecord := Some(line);
      }
      ToPromptsCons(line, Kept(lines[i + 1..], line.prompt));
      prompts := prompts + [Prompt(if line.ts == Some("") then None else line.ts, line.prompt.value)];
      latest := line.prompt;
    }
    assert prompts + [] == prompts;
    return Some(MirrorRead(History(prompts, isPartial, 0), firstRecord));
  }

  // ----- the two agree

  /** The first segment after `latest`, then the other segments. */
  ghost function Split(segments: seq<seq<Line>>, latest: Option<string>): seq<Line>
    requires segments != []
  {
    DropRepeats(UserPrompts(segments[0]), latest) + CoalesceSegments(segments[1..])
  }

  lemma SplitAtStop(rest: seq<seq<Line>>, latest: Option<string>)
    requires rest != []
    ensures Split([[]] + rest, latest) == Split(rest, None)
  {
    assert ([[]] + rest)[1..] == rest;
    assert [] + CoalesceSegments(rest) == CoalesceSegments(rest);
  }

  lemma SplitAtLine(line: Line, rest: seq<seq<Line>>, latest: Option<string>)
    requires rest != []
    ensures Split([[line] + rest[0]] + rest[1..], latest)
         == if !IsUserPrompt(line) then Split(rest, latest)
            else (if line.prompt == latest then [] else [line]) + Split(rest, line.prompt)
  {
    var head := [line] + rest[0];
    assert head[1..] == rest[0] && ([head] + rest[1..])[1..] == rest[1..];
    if IsUserPrompt(line) {
      var mine := [line] + UserPrompts(rest[0]);
      assert mine[1..] == UserPrompts(rest[0]);
    } else {
      assert [] + UserPrompts(rest[0]) == UserPrompts(rest[0]);
    }
  }

  lemma {:induction false} OnePassFrom(lines: seq<Line>, latest: Option<string>)
    ensures Kept(lines, latest) == Split(Segments(lines), latest)
  {
    if lines == [] {
      assert Segments(lines)[1..] == [];
    } else {
      var line, rest := lines[0], Segments(lines[1..]);
      if IsStop(line) {
        OnePassFrom(lines[1..], None);
        SplitAtStop(rest, latest);
      } else {
        OnePassFrom(lines[1..], if IsUserPrompt(line) then line.prompt else latest);
        SplitAtLine(line, rest, latest);
      }
    }
  }

  /** The one-pass reader computes the simple specification. */
  lemma OnePassIsCoalesced(lines: seq<Line>)
    ensures Kept(lines, None) == Coalesced(lines)
  {
    OnePassFrom(lines, None);
  }

  /** A prompt that a harness or Clinch injected. */
  predicate IsInjected(line: Line) {
    line.Record? && !line.truncated && !line.stop && line.prompt.Some? && IsInjectedPrompt(line.prompt.value)
  }

  lemma {:induction false} KeptIgnoresInjected(before: seq<Line>, injected: Line, after: seq<Line>,
                                               latest: Option<string>)
    requires IsInjected(injected)
    ensures Kept(before + [injected] + after, latest) == Kept(before + after, latest)
  {
    if before == [] {
      assert before + [injected] + after == [injected] + after && before + after == after;
      assert ([injected] + after)[1..] == after;
    } else {
      assert (before + [injected] + after)[1..] == before[1..] + [injected] + after;
      assert (before + after)[1..] == before[1..] + after;
      KeptIgnoresInjected(before[1..], injected, after,
                          if IsStop(before[0]) then None
                          else if IsUserPrompt(before[0]) then before[0].prompt else latest);
    }
  }

  /** Inserting an injected prompt anywhere changes neither the history nor its completeness. */
  lemma InjectedPromptsAreInvisible(before: seq<Line>, injected: Line, after: seq<Line>)
    requires IsInjected(injected)
    ensures Coalesced(before + [injected] + after) == Coalesced(before + after)
    ensures (exists line <- before + [injected] + after :: IsUnusable(line))
       <==> (exists line <- before + after :: IsUnusable(line))
  {
    OnePassIsCoalesced(before + [injected] + after);
    OnePassIsCoalesced(before + after);
    KeptIgnoresInjected(before, injected, after, None);
    assert !IsUnusable(injected);
  }

  /** A single prompt is kept exactly if it holds something and does not begin with a marker of a
      notification, a wakeup or a restart. */
  lemma OnePromptIsKept(line: Line)
    requires line.Record? && !line.truncated && !line.stop && line.prompt.Some?
    ensures Coalesced([line])
         == if AllWhitespace(line.prompt.value) || BeginsWith(line.prompt.value, "<task-notification>")
               || BeginsWith(line.prompt.value, "[Clinch auto-coordinate]")
               || BeginsWith(line.prompt.value, "[Clinch restart]") then [] else [line]
  {
    var text := line.prompt.value;
    BlankIsWhitespace(text);
    BeginsIsStartsWith(text, "<task-notification>");
    BeginsIsStartsWith(text, "[Clinch auto-coordinate]");
    BeginsIsStartsWith(text, "[Clinch restart]");
    OnePassIsCoalesced([line]);
    assert [line][1..] == [];
  }
}
