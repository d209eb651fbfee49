/** Prompts that forked sessions inherit: tail alignment for Claude, the walk up the fork graph
    for Codex. */
module Forks {
  import opened Text
  import opened Launch
  import opened Mirror

  function WithInherited(history: History, inherited: seq<Prompt>): History {
    History(inherited + history.prompts, history.isPartial, |inherited|)
  }

  // ----- Claude: a forked transcript copies its parent's prompts

  /** The texts of prompts, without surrounding whitespace. */
  function Texts(prompts: seq<Prompt>): seq<string> {
    seq(|prompts|, i requires 0 <= i < |prompts| => Trim(prompts[i].text))
  }

  predicate SameTexts(a: seq<Prompt>, b: seq<Prompt>) {
    Texts(a) == Texts(b)
  }

  /** Whether the transcript ends with the mirrored prompts, up to surrounding whitespace. */
  predicate TailMatches(transcript: seq<Prompt>, mirrored: seq<Prompt>) {
    |transcript| >= |mirrored| && SameTexts(transcript[|transcript| - |mirrored|..], mirrored)
  }

  lemma TextsConcat(a: seq<Prompt>, b: seq<Prompt>)
    ensures Texts(a + b) == Texts(a) + Texts(b)
  {
  }

  /** All of the mirror, or all but the prompt in flight, if the transcript's tail aligns with it. */
  function AlignedLength(mirrored: seq<Prompt>, transcript: seq<Prompt>): (n: Option<nat>)
    ensures n.Some? ==> n.value <= |transcript|
  {
    if mirrored == [] then None
    else if TailMatches(transcript, mirrored) then Some(|mirrored|)
    else if |mirrored| > 1 && TailMatches(transcript, mirrored[..|mirrored| - 1]) then Some(|mirrored| - 1)
    else None
  }

  function WithClaudeInherited(mirror: History, transcript: seq<Prompt>): History {
    match AlignedLength(mirror.prompts, transcript)
    case None => mirror
    case Some(n) => WithInherited(mirror, transcript[..|transcript| - n])
  }

  lemma AlignedReads(transcript: seq<Prompt>, tail: seq<Prompt>)
    requires TailMatches(transcript, tail)
    ensures SameTexts(transcript[..|transcript| - |tail|] + tail, transcript)
  {
    var k := |transcript| - |tail|;
    TextsConcat(transcript[..k], tail);
    TextsConcat(transcript[..k], transcript[k..]);
    assert transcript == transcript[..k] + transcript[k..];
  }

  lemma OneShortReads(transcript: seq<Prompt>, m: seq<Prompt>)
    requires m != [] && TailMatches(transcript, m[..|m| - 1])
    ensures SameTexts(transcript[..|transcript| - (|m| - 1)] + m, transcript + [m[|m| - 1]])
  {
    var tail, last := m[..|m| - 1], m[|m| - 1];
    AlignedReads(transcript, tail);
    var prefix := transcript[..|transcript| - |tail|];
    TextsConcat(prefix + tail, [last]);
    TextsConcat(transcript, [last]);
    assert prefix + m == prefix + tail + [last];
  }

  /** Conservation: the result is a transcript prefix followed by the whole mirror, and `inherited` is
      the length of that prefix. When the full tail aligns it reads as the transcript; when only the
      tail one short of the prompt in flight does, as the transcript and then that prompt; otherwise
      the mirror is returned as it is. */
  lemma ClaudeForkReadsAsTranscript(mirror: History, transcript: seq<Prompt>)
    requires mirror.prompts != []
    ensures var r, m, n := WithClaudeInherited(mirror, transcript), mirror.prompts, |mirror.prompts|;
            if TailMatches(transcript, m) then
              IsFork(mirror, transcript, r) && SameTexts(r.prompts, transcript)
            else if n > 1 && TailMatches(transcript, m[..n - 1]) then
              IsFork(mirror, transcript, r) && SameTexts(r.prompts, transcript + [m[n - 1]])
            else
              r == mirror
  {
    var m, n := mirror.prompts, |mirror.prompts|;
    if TailMatches(transcript, m) {
      AlignedReads(transcript, m);
    } else if n > 1 && TailMatches(transcript, m[..n - 1]) {
      OneShortReads(transcript, m);
    }
  }

  /** `r` is the mirror after as many prompts of the transcript as it says it inherits. */
  ghost predicate IsFork(mirror: History, transcript: seq<Prompt>, r: History) {
    && r.isPartial == mirror.isPartial
    && r.inherited <= |transcript|
    && r.prompts == transcript[..r.inherited] + mirror.prompts
  }

  /** A session that is no fork inherits nothing, whether its transcript is up to date with the
      mirror or lags it by the prompt in flight, however often it repeats a prompt. */
  lemma PlainSessionInheritsNothing(mirror: History, transcript: seq<Prompt>)
    requires SameTexts(transcript, mirror.prompts)
          || (mirror.prompts != [] && SameTexts(transcript, mirror.prompts[..|mirror.prompts| - 1]))
    ensures WithClaudeInherited(mirror, transcript).prompts == mirror.prompts
    ensures mirror.inherited == 0 ==> WithClaudeInherited(mirror, transcript) == mirror
  {
    var m, n := mirror.prompts, |mirror.prompts|;
    assert transcript[0..] == transcript;
    assert |Texts(transcript)| == |transcript| && |Texts(m)| == n;
    assert n > 0 ==> |Texts(m[..n - 1])| == n - 1;
    if n > 0 && SameTexts(transcript, m) {
      assert AlignedLength(m, transcript) == Some(n);
      assert transcript[..0] + m == m;
    } else if n > 1 {
      assert AlignedLength(m, transcript) == Some(n - 1);
      assert transcript[..0] + m == m;
    }
  }

  /** A fork whose transcript is up to date inherits exactly its parent's prompts, once it has any. */
  lemma ForkInheritsParent(mirror: History, parent: seq<Prompt>, own: seq<Prompt>)
    requires mirror.inherited == 0 && SameTexts(own, mirror.prompts)
    ensures WithClaudeInherited(mirror, parent + own).inherited == |parent| <==> mirror.prompts != [] || parent == []
  {
    assert |Texts(own)| == |own| && |Texts(mirror.prompts)| == |mirror.prompts|;
    assert (parent + own)[|parent|..] == own;
  }

  /** Every own prompt repeats the parent's last one. */
  ghost predicate RepeatsLast(prompts: seq<Prompt>, parent: seq<Prompt>)
    requires parent != []
  {
    forall i :: 0 <= i < |prompts| ==> Trim(prompts[i].text) == Trim(parent[|parent| - 1].text)
  }

  lemma TextsAt(prompts: seq<Prompt>)
    ensures |Texts(prompts)| == |prompts|
    ensures forall i :: 0 <= i < |prompts| ==> Texts(prompts)[i] == Trim(prompts[i].text)
  {
  }

  /** Shifting by one prompt aligns only a run of equal texts. */
  lemma {:induction false} ShiftedTexts(texts: seq<string>, first: string, n: nat)
    requires n <= |texts| && texts <= [first] + texts
    ensures forall i :: 0 <= i < n ==> texts[i] == first
  {
    if n == 0 {
    } else {
      ShiftedTexts(texts, first, n - 1);
      assert texts[n - 1] == ([first] + texts)[n - 1];
    }
  }

  /** With the last prompt in flight, the whole mirror aligns with the tail exactly if all its
      prompts repeat the parent's last one. */
  lemma FullTailInFlight(m: seq<Prompt>, parent: seq<Prompt>, own: seq<Prompt>)
    requires m != [] && parent != [] && SameTexts(own, m[..|m| - 1])
    ensures TailMatches(parent + own, m) <==> RepeatsLast(m, parent)
  {
    var n, t, first := |m|, parent + own, Trim(parent[|parent| - 1].text);
    var tail := t[|parent| - 1..];
    TextsAt(own);
    TextsAt(m[..n - 1]);
    TextsAt(m);
    TextsAt(tail);
    assert |own| == n - 1 && |tail| == n;
    forall i | 0 <= i < n ensures Texts(tail)[i] == if i == 0 then first else Texts(m)[i - 1] {
      assert i > 0 ==> tail[i] == own[i - 1] && Texts(own)[i - 1] == Texts(m[..n - 1])[i - 1];
    }
    if TailMatches(t, m) {
      assert forall i :: 0 <= i < n ==> Texts(m)[i] == ([first] + Texts(m))[i];
      ShiftedTexts(Texts(m), first, n);
    }
    if RepeatsLast(m, parent) {
      assert Texts(tail) == Texts(m);
    }
  }

  /** With the last prompt in flight, a fork inherits its parent's prompts exactly if an earlier own
      prompt is recorded and not all own prompts repeat the parent's last one. */
  lemma ForkInFlightInheritsParent(mirror: History, parent: seq<Prompt>, own: seq<Prompt>)
    requires mirror.inherited == 0 && mirror.prompts != []
    requires SameTexts(own, mirror.prompts[..|mirror.prompts| - 1])
    ensures WithClaudeInherited(mirror, parent + own).inherited == |parent|
       <==> parent == [] || (|mirror.prompts| > 1 && !RepeatsLast(mirror.prompts, parent))
  {
    var m, n, t := mirror.prompts, |mirror.prompts|, parent + own;
    TextsAt(own);
    TextsAt(m[..n - 1]);
    assert |own| == n - 1 && t[|parent|..] == own;
    assert n > 1 ==> TailMatches(t, m[..n - 1]);
    if parent != [] {
      FullTailInFlight(m, parent, own);
    }
  }

  /** A fork whose first own prompt is in flight loses prompts of its parent, whatever they are. */
  lemma FirstPromptInFlightLosesParent(parent: seq<Prompt>, first: Prompt, isPartial: bool)
    requires parent != []
    ensures WithClaudeInherited(History([first], isPartial, 0), parent).inherited < |parent|
  {
    var mirror := History([first], isPartial, 0);
    assert mirror.prompts[..0] == [] && parent + [] == parent;
    ForkInFlightInheritsParent(mirror, parent, []);
  }

  // ----- Codex: a rollout names its parent and how many of its records it continues

  datatype Value =
    | SessionMeta(forkedFrom: Option<string>, ordinal: Option<nat>)
    | EventMessage(timestamp: Option<string>, message: Option<string>)
    | ResponseItem(timestamp: Option<string>, content: Option<string>)
    | OtherValue

  predicate IsGeneratedContext(text: string) {
    var start := TrimStart(text);
    || StartsWith(start, "# AGENTS.md instructions")
    || StartsWith(start, "<environment_context>")
    || StartsWith(start, "<permissions instructions>")
    || StartsWith(start, "<collaboration_mode>")
    || StartsWith(start, "<skills_instructions>")
    || StartsWith(start, "<apps_instructions>")
    || StartsWith(start, "<plugins_instructions>")
  }

  function TypedPrompt(timestamp: Option<string>, text: Option<string>): seq<Prompt> {
    if text.None? || Trim(text.value) == "" || IsGeneratedContext(text.value) then []
    else [Prompt(if timestamp == Some("") then None else timestamp, text.value)]
  }

  function EventPrompts(values: seq<Value>): seq<Prompt> {
    if values == [] then []
    else
      var last := values[|values| - 1];
      EventPrompts(values[..|values| - 1])
      + if last.EventMessage? then TypedPrompt(last.timestamp, last.message) else []
  }

  function ResponsePrompts(values: seq<Value>): seq<Prompt> {
    if values == [] then []
    else
      var last := values[|values| - 1];
      ResponsePrompts(values[..|values| - 1])
      + if last.ResponseItem? then TypedPrompt(last.timestamp, last.content) else []
  }

  /** The event stream is canonical when present; response items are the fallback. */
  function CodexPrompts(values: seq<Value>): seq<Prompt> {
    if EventPrompts(values) == [] then ResponsePrompts(values) else EventPrompts(values)
  }

  /** A Codex prompt is kept exactly if it holds something and is no context that Codex generated. */
  lemma TypedPromptsAre(timestamp: Option<string>, text: string)
    ensures TypedPrompt(timestamp, Some(text))
         == if AllWhitespace(text) || IsContext(text) then []
            else [Prompt(if timestamp == Some("") then None else timestamp, text)]
    ensures TypedPrompt(timestamp, None) == []
  {
    BlankIsWhitespace(text);
    BeginsIsStartsWith(text, "# AGENTS.md instructions");
    BeginsIsStartsWith(text, "<environment_context>");
    BeginsIsStartsWith(text, "<permissions instructions>");
    BeginsIsStartsWith(text, "<collaboration_mode>");
    BeginsIsStartsWith(text, "<skills_instructions>");
    BeginsIsStartsWith(text, "<apps_instructions>");
    BeginsIsStartsWith(text, "<plugins_instructions>");
  }

  ghost predicate IsContext(text: string) {
    || BeginsWith(text, "# AGENTS.md instructions") || BeginsWith(text, "<environment_context>")
    || BeginsWith(text, "<permissions instructions>") || BeginsWith(text, "<collaboration_mode>")
    || BeginsWith(text, "<skills_instructions>") || BeginsWith(text, "<apps_instructions>")
    || BeginsWith(text, "<plugins_instructions>")
  }

  method ReadCodexPrompts(values: seq<Value>) returns (prompts: seq<Prompt>)
    ensures prompts == CodexPrompts(values)
  {
    var events: seq<Prompt>, responses: seq<Prompt> := [], [];
    for i := 0 to |values|
      invariant events == EventPrompts(values[..i]) && responses == ResponsePrompts(values[..i])
    {
      assert values[..i + 1][..i] == values[..i];
      match values[i]
      case EventMessage(timestamp, message) => events := events + TypedPrompt(timestamp, message);
      case ResponseItem(timestamp, content) => responses := responses + TypedPrompt(timestamp, content);
      case _ =>
    }
    assert values[..|values|] == values;
    prompts := if events == [] then responses else events;
  }

  const MAX_CODEX_FORK_DEPTH := 8

  type Path = string

  /** The readable rollouts, and which file each session id resolves to. */
  datatype Rollouts = Rollouts(files: map<Path, seq<Value>>, byId: map<string, Path>)
  {
    /** The parent a rollout names, and where the fork cut it: past the end means at the end. */
    function ParentOf(path: Path): (r: Option<(Path, nat)>)
      ensures r.Some? ==> r.value.0 in files && r.value.1 <= |files[r.value.0]|
    {
      if path !in files || files[path] == [] || !files[path][0].SessionMeta? then None
      else
        var meta := files[path][0];
        if meta.forkedFrom.None? || !IsSafeSessionId(meta.forkedFrom.value) || meta.forkedFrom.value !in byId then None
        else
          var parent := byId[meta.forkedFrom.value];
          if parent !in files then None
          else
            var length := |files[parent]|;
            Some((parent, if meta.ordinal.None? || meta.ordinal.value > length then length else meta.ordinal.value))
    }

    function Inherited(path: Path, depth: nat): Option<seq<Prompt>>
      decreases depth
    {
      if depth == 0 then None
      else
        match ParentOf(path)
        case None => None
        case Some((parent, cut)) => Some(Inherited(parent, depth - 1).GetOr([]) + CodexPrompts(files[parent][..cut]))
    }

    function History(path: Path, history: Mirror.History): Mirror.History {
      WithInherited(history, Inherited(path, MAX_CODEX_FORK_DEPTH).GetOr([]))
    }

    // ----- the unbounded walk, for comparison

    /** The rollout starts with a record that names a session whose readable rollout is `parent`. */
    ghost predicate NamesParent(path: Path, parent: Path) {
      && path in files && files[path] != [] && files[path][0].SessionMeta?
      && files[path][0].forkedFrom.Some?
      && files[path][0].forkedFrom.value != ""
      && (forall c <- files[path][0].forkedFrom.value ::
            '0' <= c <= '9' || 'A' <= c <= 'Z' || 'a' <= c <= 'z' || c == '-')
      && files[path][0].forkedFrom.value in byId && byId[files[path][0].forkedFrom.value] == parent
      && parent in files
    }

    ghost predicate HasNoParent(path: Path) {
      forall parent :: !NamesParent(path, parent)
    }

    /** How many records of its parent the rollout continues: its ordinal, clamped, or else all. */
    ghost function Continued(path: Path, parent: Path): (k: nat)
      requires NamesParent(path, parent)
      ensures k <= |files[parent]|
    {
      match files[path][0].ordinal
      case None => |files[parent]|
      case Some(ordinal) => if ordinal <= |files[parent]| then ordinal else |files[parent]|
    }

    lemma ParentIsNamed(path: Path)
      ensures ParentOf(path).Some? ==>
                && NamesParent(path, ParentOf(path).value.0)
                && ParentOf(path).value.1 == Continued(path, ParentOf(path).value.0)
      ensures forall parent :: NamesParent(path, parent) ==> ParentOf(path).Some? && ParentOf(path).value.0 == parent
    {
      if path in files && files[path] != [] && files[path][0].SessionMeta? && files[path][0].forkedFrom.Some? {
        var id := files[path][0].forkedFrom.value;
        assert forall i :: 0 <= i < |id| ==> id[i] in id;
      }
    }

    /** One step of the walk: the prompts of the parent's records up to the fork, or nothing if no
        parent is named. */
    lemma OneStep(path: Path)
      ensures forall parent :: NamesParent(path, parent) ==>
                Inherited(path, 1) == Some(CodexPrompts(files[parent][..Continued(path, parent)]))
      ensures HasNoParent(path) ==> forall depth :: Inherited(path, depth) == None
    {
      ParentIsNamed(path);
      forall parent | NamesParent(path, parent)
        ensures Inherited(path, 1) == Some(CodexPrompts(files[parent][..Continued(path, parent)]))
      {
        var prompts := CodexPrompts(files[parent][..Continued(path, parent)]);
        assert Inherited(parent, 0).GetOr([]) == [] && [] + prompts == prompts;
      }
    }

    /** `chain` starts at a rollout and goes from child to parent; it may run around a cycle. */
    ghost predicate IsAncestry(chain: seq<Path>) {
      chain != [] && forall i :: 0 <= i < |chain| - 1 ==> NamesParent(chain[i], chain[i + 1])
    }

    /** It goes up to a rollout without a parent. */
    ghost predicate IsFullAncestry(chain: seq<Path>) {
      IsAncestry(chain) && HasNoParent(chain[|chain| - 1])
    }

    /** What the chain contributes, oldest ancestor first: of each parent the records its child
        continues. */
    ghost function Contributions(chain: seq<Path>): seq<Prompt>
      requires IsAncestry(chain)
    {
      if |chain| == 1 then []
      else
        assert NamesParent(chain[0], chain[1]);
        AncestryTail(chain);
        Contributions(chain[1..]) + CodexPrompts(files[chain[1]][..Continued(chain[0], chain[1])])
    }

    lemma AncestryTail(chain: seq<Path>)
      requires IsAncestry(chain) && |chain| > 1
      ensures IsAncestry(chain[1..]) && NamesParent(chain[0], chain[1])
    {
      forall i | 0 <= i < |chain[1..]| - 1 ensures NamesParent(chain[1..][i], chain[1..][i + 1]) {
        assert chain[1..][i] == chain[i + 1] && chain[1..][i + 1] == chain[i + 2];
      }
      assert NamesParent(chain[0], chain[0 + 1]);
    }

    /** The walk takes exactly what the chain contributes, if the chain is as long as the depth
        allows or ends before. */
    lemma {:induction false} WalkFollowsChain(chain: seq<Path>, depth: nat)
      requires IsAncestry(chain)
      requires |chain| - 1 == depth || (|chain| - 1 < depth && IsFullAncestry(chain))
      ensures Inherited(chain[0], depth).GetOr([]) == Contributions(chain)
      decreases depth
    {
      if |chain| == 1 {
        ParentIsNamed(chain[0]);
      } else {
        AncestryTail(chain);
        ParentIsNamed(chain[0]);
        WalkFollowsChain(chain[1..], depth - 1);
      }
    }

    /** On every fork graph, cyclic or not, some chain of at most `depth` ancestors is the walk. */
    lemma {:induction false} WalkIsBounded(path: Path, depth: nat) returns (chain: seq<Path>)
      ensures IsAncestry(chain) && chain[0] == path && |chain| - 1 <= depth
      ensures |chain| - 1 < depth ==> IsFullAncestry(chain)
      ensures Inherited(path, depth).GetOr([]) == Contributions(chain)
      decreases depth
    {
      ParentIsNamed(path);
      if depth == 0 || ParentOf(path).None? {
        chain := [path];
      } else {
        var rest := WalkIsBounded(ParentOf(path).value.0, depth - 1);
        chain := [path] + rest;
        assert chain[1..] == rest;
        forall i | 0 <= i < |chain| - 1 ensures NamesParent(chain[i], chain[i + 1]) {
          if i > 0 {
            assert chain[i] == rest[i - 1] && chain[i + 1] == rest[i];
          }
        }
      }
    }

    /** Raising the depth bound only adds prompts at the front. */
    lemma {:induction false} DepthAddsAtFront(path: Path, depth: nat, more: nat) returns (front: seq<Prompt>)
      requires depth <= more
      ensures Inherited(path, more).GetOr([]) == front + Inherited(path, depth).GetOr([])
      decreases depth
    {
      if depth == 0 {
        front := Inherited(path, more).GetOr([]);
      } else if ParentOf(path).None? {
        front := [];
      } else {
        var (parent, cut) := ParentOf(path).value;
        front := DepthAddsAtFront(parent, depth - 1, more - 1);
        assert front + Inherited(parent, depth - 1).GetOr([]) + CodexPrompts(files[parent][..cut])
            == front + (Inherited(parent, depth - 1).GetOr([]) + CodexPrompts(files[parent][..cut]));
      }
    }

    /** On chains of at most 8 ancestors the history starts with all that the ancestors contribute,
        and no larger bound would change it. */
    lemma ShortChainsAreComplete(chain: seq<Path>, history: Mirror.History, depth: nat)
      requires IsFullAncestry(chain) && |chain| - 1 <= 8 <= depth
      ensures History(chain[0], history).prompts == Contributions(chain) + history.prompts
      ensures History(chain[0], history).inherited == |Contributions(chain)|
      ensures Inherited(chain[0], depth).GetOr([]) == Inherited(chain[0], 8).GetOr([])
    {
      WalkFollowsChain(chain, 8);
      WalkFollowsChain(chain, depth);
    }

    /** Longer chains contribute their first 8 ancestors and no more. */
    lemma LongChainsAreCut(chain: seq<Path>, history: Mirror.History)
      requires IsAncestry(chain) && |chain| == 9
      ensures History(chain[0], history).prompts == Contributions(chain) + history.prompts
    {
      WalkFollowsChain(chain, 8);
    }
  }
}
