/** Phase one of the lesson pipeline (services/geminiService.ts,
    `generateLessonPlan`): the reply of the text-generation call is parsed
    into an introduction and one section per `[SECCION]` marker, and the
    grounding citations become a de-duplicated list of sources. The remote
    call itself is replaced by its outcome. */
module PlanParser {
  import opened Wrappers
  import opened Sequences
  import opened JsString
  import opened Types

  const IntroMarker: string := "[INTRO]"
  const SectionMarker: string := "[SECCION]"
  const TitleMarker: string := "TITULO:"
  const ContentMarker: string := "CONTENIDO:"
  const VisualMarker: string := "VISUAL:"

  const DefaultIntro: string := "Aquí tienes tu lección."
  const DefaultTitle: string := "Concepto Clave"
  const VisualPrefix: string := "Una ilustración educativa sobre "

  /** What the text-generation call returns when it does not throw: the
      reply text and the grounding chunks of the first candidate, either of
      which may be missing. */
  datatype TextReply = TextReply(text: Option<string>, groundingChunks: Option<seq<GroundingChunk>>)

  /** The result of phase one: the lesson without images yet. */
  datatype LessonPlan = LessonPlan(
    topic: string,
    intro: string,
    rawSections: seq<LessonSection>,
    sources: seq<Source>)

  /** `response.text || ""`. */
  function ReplyText(reply: TextReply): string {
    match reply.text
    case None => ""
    case Some(t) => t
  }

  /** `e` is where a lazy group starting at `p` ends: the first occurrence
      of `stop` from `p` on, or the end of the input. */
  predicate StopsAt(s: string, stop: string, p: int, e: int) {
    0 <= p <= e <= |s| && NoOccurrenceIn(s, stop, p, e) && (e == |s| || OccursAt(s, stop, e))
  }

  /** Group 1 of the first match of `marker\s*([\s\S]*?)(?=stop|$)`: there
      is a match exactly when `marker` occurs; the group starts after the
      first `marker` and the whitespace that follows it, and ends at the
      first `stop` from there, or at the end of the input. */
  function LazyGroup(s: string, marker: string, stop: string): (r: Option<string>)
    ensures r.None? <==> !Contains(s, marker)
    ensures r.Some? ==> IndexOfFrom(s, marker, 0).Some? && exists p, e ::
      && p == SkipSpace(s, IndexOfFrom(s, marker, 0).value + |marker|)
      && StopsAt(s, stop, p, e) && r.value == s[p..e]
  {
    var f := IndexOfFrom(s, marker, 0);
    if f.None? then None
    else
      var p := SkipSpace(s, f.value + |marker|);
      var g := IndexOfFrom(s, stop, p);
      var e := if g.None? then |s| else g.value;
      assert StopsAt(s, stop, p, e);
      assert OccursAt(s, marker, f.value);
      Some(s[p..e])
  }

  /** Group 1 of the first match of `marker\s*(.*)`: after the first
      `marker`, skip all whitespace (line breaks included), then take the
      rest of that line. */
  function LineGroup(s: string, marker: string): (r: Option<string>)
    ensures r.Some? ==> forall k :: 0 <= k < |r.value| ==> !IsLineTerminator(r.value[k])
  {
    match IndexOfFrom(s, marker, 0)
    case None => None
    case Some(i) =>
      var p := SkipSpace(s, i + |marker|);
      Some(s[p..LineEnd(s, p)])
  }

  function ParseIntro(text: string): string {
    match LazyGroup(text, IntroMarker, SectionMarker)
    case None => DefaultIntro
    case Some(g) => Trim(g)
  }

  function ParseTitle(chunk: string): string {
    match LineGroup(chunk, TitleMarker)
    case None => DefaultTitle
    case Some(g) => Trim(g)
  }

  function ParseContent(chunk: string): string {
    match LazyGroup(chunk, ContentMarker, VisualMarker)
    case None => Trim(chunk)
    case Some(g) => Trim(g)
  }

  function ParseVisual(topic: string, chunk: string): string {
    match LazyGroup(chunk, VisualMarker, SectionMarker)
    case None => VisualPrefix + topic
    case Some(g) => Trim(g)
  }

  /** The mapping callback applied to each chunk. */
  function ParseSection(topic: string, chunk: string): LessonSection {
    LessonSection(ParseTitle(chunk), ParseContent(chunk), ParseVisual(topic, chunk), None)
  }

  /** `fullText.split('[SECCION]').slice(1)`. */
  function SectionChunks(text: string): seq<string> {
    Split(text, SectionMarker)[1..]
  }

  function ParseSections(topic: string, text: string): seq<LessonSection> {
    var chunks := SectionChunks(text);
    seq(|chunks|, k requires 0 <= k < |chunks| => ParseSection(topic, chunks[k]))
  }

  /** `chunk.web?.uri && chunk.web?.title`: both present and non-empty. */
  predicate IsCitable(chunk: GroundingChunk) {
    && chunk.web.Some?
    && chunk.web.value.uri.Some? && chunk.web.value.uri.value != ""
    && chunk.web.value.title.Some? && chunk.web.value.title.value != ""
  }

  function CitedSource(chunk: GroundingChunk): Source
    requires IsCitable(chunk)
  {
    Source(chunk.web.value.title.value, chunk.web.value.uri.value)
  }

  /** The sources pushed while walking the chunks in order. */
  function CitedSources(chunks: seq<GroundingChunk>): seq<Source>
    decreases |chunks|
  {
    if chunks == [] then []
    else
      var last := chunks[|chunks| - 1];
      CitedSources(chunks[..|chunks| - 1]) + (if IsCitable(last) then [CitedSource(last)] else [])
  }

  /** The `forEach` loop that pushes one source per citable chunk. */
  method CollectSources(chunks: Option<seq<GroundingChunk>>) returns (sources: seq<Source>)
    ensures sources == if chunks.Some? then CitedSources(chunks.value) else []
  {
    sources := [];
    if chunks.Some? {
      var cs := chunks.value;
      for i := 0 to |cs|
        invariant sources == CitedSources(cs[..i])
      {
        assert cs[..i + 1][..i] == cs[..i];
        var chunk := cs[i];
        if IsCitable(chunk) {
          sources := sources + [CitedSource(chunk)];
        }
      }
      assert cs[..|cs|] == cs;
    }
  }

  /** `a.findIndex(t => t.uri === uri)`. */
  function FindIndexByUri(a: seq<Source>, uri: string): (r: int)
    ensures -1 <= r < |a|
    ensures r >= 0 ==> a[r].uri == uri
    ensures forall j :: 0 <= j < |a| && (r < 0 || j < r) ==> a[j].uri != uri
    decreases |a|
  {
    if a == [] then -1
    else if a[0].uri == uri then 0
    else
      var r := FindIndexByUri(a[1..], uri);
      if r < 0 then -1 else r + 1
  }

  /** The elements from position `i` on that the filter keeps. */
  function KeepFirstFrom(a: seq<Source>, i: nat): seq<Source>
    requires i <= |a|
    decreases |a| - i
  {
    if i == |a| then []
    else (if FindIndexByUri(a, a[i].uri) == i then [a[i]] else []) + KeepFirstFrom(a, i + 1)
  }

  /** `sources.filter((v, i, a) => a.findIndex(t => (t.uri === v.uri)) === i)`. */
  function UniqueByUri(a: seq<Source>): seq<Source> {
    KeepFirstFrom(a, 0)
  }

  /** The `generateLessonPlan` result for a reply, as a function of its parts. */
  function ParsePlan(topic: string, fullText: string, groundingChunks: Option<seq<GroundingChunk>>): (r: LessonPlan)
    ensures r.topic == topic
    ensures |r.rawSections| == CountOccurrences(fullText, SectionMarker)
    ensures forall k :: 0 <= k < |r.rawSections| ==> r.rawSections[k].imageUrl.None?
  {
    var cited := if groundingChunks.Some? then CitedSources(groundingChunks.value) else [];
    LessonPlan(topic, ParseIntro(fullText), ParseSections(topic, fullText), UniqueByUri(cited))
  }

  /** `generateLessonPlan`, with the remote call replaced by its outcome: a
      thrown call is rethrown, otherwise the reply is parsed. */
  method GenerateLessonPlan(topic: string, response: Result<TextReply>) returns (r: Result<LessonPlan>)
    ensures response.Failure? ==> r.Failure?
    ensures response.Success? ==>
      r == Success(ParsePlan(topic, ReplyText(response.value), response.value.groundingChunks))
  {
    if response.Failure? {
      return Failure;
    }
    var fullText := ReplyText(response.value);
    var intro := ParseIntro(fullText);
    var rawSections := ParseSections(topic, fullText);
    var sources := CollectSources(response.value.groundingChunks);
    var uniqueSources := UniqueByUri(sources);
    r := Success(LessonPlan(topic, intro, rawSections, uniqueSources));
  }

  // ---------------------------------------------------------------------
  // The marker matches

  /** Whitespace cannot hold the start of a marker that begins with a
      non-space character. */
  lemma NoMarkerInSpace(s: string, stop: string, lo: int, hi: int)
    requires 0 <= lo <= hi <= |s| && |stop| > 0 && !IsSpace(stop[0])
    requires AllSpaceIn(s, lo, hi)
    ensures NoOccurrenceIn(s, stop, lo, hi)
  {
    forall j | lo <= j < hi ensures !OccursAt(s, stop, j) {
      if j + |stop| <= |s| {
        assert s[j..j + |stop|][0] == s[j];
      }
    }
  }

  /** Without the marker there is no match. */
  lemma LazyGroupAbsent(s: string, marker: string, stop: string)
    requires !Contains(s, marker)
    ensures LazyGroup(s, marker, stop) == None
  {
  }

  /** With the marker first occurring at `i`, and `e` the first occurrence of
      `stop` after it (or the end), the group is the text between the two
      with its leading whitespace skipped. */
  lemma LazyGroupBetween(s: string, marker: string, stop: string, i: int, e: int)
    requires |stop| > 0 && !IsSpace(stop[0])
    requires OccursAt(s, marker, i) && NoOccurrenceIn(s, marker, 0, i)
    requires i + |marker| <= e <= |s|
    requires NoOccurrenceIn(s, stop, i + |marker|, e)
    requires e == |s| || OccursAt(s, stop, e)
    ensures SkipSpace(s, i + |marker|) <= e
    ensures LazyGroup(s, marker, stop) == Some(s[SkipSpace(s, i + |marker|)..e])
  {
    IndexOfFromIsFirst(s, marker, 0, i);
    var p := SkipSpace(s, i + |marker|);
    NoMarkerInSpace(s, stop, i + |marker|, p);
    assert p <= e;
    assert Contains(s, marker);
    var g := LazyGroup(s, marker, stop).value;
    var p', e' :| p' == p && StopsAt(s, stop, p', e') && g == s[p'..e'];
    assert e' == e;
  }

  // ---------------------------------------------------------------------
  // Introduction

  /** Without `[INTRO]` the introduction is the fixed placeholder. */
  lemma IntroDefault(text: string)
    requires !Contains(text, IntroMarker)
    ensures ParseIntro(text) == DefaultIntro
  {
    LazyGroupAbsent(text, IntroMarker, SectionMarker);
  }

  /** The introduction is the trimmed text after the first `[INTRO]`, up to
      the next `[SECCION]` or the end of the text. */
  lemma IntroBetweenMarkers(text: string, i: int, e: int)
    requires OccursAt(text, IntroMarker, i) && NoOccurrenceIn(text, IntroMarker, 0, i)
    requires i + |IntroMarker| <= e <= |text|
    requires NoOccurrenceIn(text, SectionMarker, i + |IntroMarker|, e)
    requires e == |text| || OccursAt(text, SectionMarker, e)
    ensures ParseIntro(text) == Trim(text[i + |IntroMarker|..e])
  {
    LazyGroupBetween(text, IntroMarker, SectionMarker, i, e);
    TrimSkipsSpace(text, i + |IntroMarker|, SkipSpace(text, i + |IntroMarker|), e);
  }

  // ---------------------------------------------------------------------
  // Sections

  /** One section per non-overlapping `[SECCION]`; none without the marker. */
  lemma SectionCount(topic: string, text: string, groundingChunks: Option<seq<GroundingChunk>>)
    ensures |ParsePlan(topic, text, groundingChunks).rawSections| == CountOccurrences(text, SectionMarker)
    ensures |ParsePlan(topic, text, groundingChunks).rawSections| == 0 <==> !Contains(text, SectionMarker)
  {
    CountZeroIff(text, SectionMarker);
  }

  /** The chunks after the split hold no `[SECCION]`, and joining them back
      behind the discarded prefix restores the text. */
  lemma SectionChunksSpec(text: string)
    ensures forall k :: 0 <= k < |SectionChunks(text)| ==> !Contains(SectionChunks(text)[k], SectionMarker)
    ensures Join([Split(text, SectionMarker)[0]] + SectionChunks(text), SectionMarker) == text
  {
    SplitPiecesClean(text, SectionMarker);
    var pieces := Split(text, SectionMarker);
    assert [pieces[0]] + pieces[1..] == pieces;
  }

  /** Without `TITULO:` the title is the placeholder. */
  lemma TitleDefault(chunk: string)
    requires !Contains(chunk, TitleMarker)
    ensures ParseTitle(chunk) == DefaultTitle
  {
  }

  /** The title never spans a line break. */
  lemma TitleOneLine(chunk: string)
    ensures forall k :: 0 <= k < |ParseTitle(chunk)| ==> !IsLineTerminator(ParseTitle(chunk)[k])
  {
    match LineGroup(chunk, TitleMarker)
    case None =>
    case Some(g) =>
      forall k | 0 <= k < |Trim(g)| ensures !IsLineTerminator(Trim(g)[k]) {
        assert Trim(g)[k] == g[TrimStart(g) + k];
      }
  }

  /** With `TITULO:` first at `i`, the title is the trimmed line that starts
      at the first non-space character `q` after the marker (line breaks
      included in what is skipped) and ends at the next line break `e`. */
  lemma TitleLine(chunk: string, i: int, q: int, e: int)
    requires OccursAt(chunk, TitleMarker, i) && NoOccurrenceIn(chunk, TitleMarker, 0, i)
    requires i + |TitleMarker| <= q <= e <= |chunk|
    requires AllSpaceIn(chunk, i + |TitleMarker|, q) && (q < |chunk| ==> !IsSpace(chunk[q]))
    requires forall j :: q <= j < e ==> !IsLineTerminator(chunk[j])
    requires e == |chunk| || IsLineTerminator(chunk[e])
    ensures ParseTitle(chunk) == Trim(chunk[q..e])
  {
    IndexOfFromIsFirst(chunk, TitleMarker, 0, i);
    var p := SkipSpace(chunk, i + |TitleMarker|);
    assert p == q;
    assert LineEnd(chunk, p) == e;
  }

  /** A `TITULO:` followed by nothing but whitespace gives the empty title,
      not the placeholder. */
  lemma TitleEmpty(chunk: string, i: int)
    requires OccursAt(chunk, TitleMarker, i) && NoOccurrenceIn(chunk, TitleMarker, 0, i)
    requires AllSpaceIn(chunk, i + |TitleMarker|, |chunk|)
    ensures ParseTitle(chunk) == ""
  {
    IndexOfFromIsFirst(chunk, TitleMarker, 0, i);
    assert SkipSpace(chunk, i + |TitleMarker|) == |chunk|;
  }

  /** Without `CONTENIDO:` the content is the whole chunk, trimmed. */
  lemma ContentDefault(chunk: string)
    requires !Contains(chunk, ContentMarker)
    ensures ParseContent(chunk) == Trim(chunk)
  {
    LazyGroupAbsent(chunk, ContentMarker, VisualMarker);
  }

  /** The content is the trimmed text after the first `CONTENIDO:`, up to the
      next `VISUAL:` or the end of the chunk. */
  lemma ContentBetweenMarkers(chunk: string, i: int, e: int)
    requires OccursAt(chunk, ContentMarker, i) && NoOccurrenceIn(chunk, ContentMarker, 0, i)
    requires i + |ContentMarker| <= e <= |chunk|
    requires NoOccurrenceIn(chunk, VisualMarker, i + |ContentMarker|, e)
    requires e == |chunk| || OccursAt(chunk, VisualMarker, e)
    ensures ParseContent(chunk) == Trim(chunk[i + |ContentMarker|..e])
  {
    LazyGroupBetween(chunk, ContentMarker, VisualMarker, i, e);
    TrimSkipsSpace(chunk, i + |ContentMarker|, SkipSpace(chunk, i + |ContentMarker|), e);
  }

  /** Without `VISUAL:` the visual prompt is the topic-based default. */
  lemma VisualDefault(topic: string, chunk: string)
    requires !Contains(chunk, VisualMarker)
    ensures ParseVisual(topic, chunk) == VisualPrefix + topic
  {
    LazyGroupAbsent(chunk, VisualMarker, SectionMarker);
  }

  /** In a chunk of the split, which holds no `[SECCION]`, the visual prompt
      is the trimmed rest of the chunk after the first `VISUAL:`. */
  lemma VisualRest(topic: string, chunk: string, i: int)
    requires !Contains(chunk, SectionMarker)
    requires OccursAt(chunk, VisualMarker, i) && NoOccurrenceIn(chunk, VisualMarker, 0, i)
    ensures ParseVisual(topic, chunk) == Trim(chunk[i + |VisualMarker|..])
  {
    var a := i + |VisualMarker|;
    forall j | a <= j < |chunk| ensures !OccursAt(chunk, SectionMarker, j) {
      if OccursAt(chunk, SectionMarker, j) {
        assert Contains(chunk, SectionMarker);
      }
    }
    LazyGroupBetween(chunk, VisualMarker, SectionMarker, i, |chunk|);
    TrimSkipsSpace(chunk, a, SkipSpace(chunk, a), |chunk|);
    assert chunk[a..] == chunk[a..|chunk|];
  }

  // ---------------------------------------------------------------------
  // Sources

  /** A source is collected exactly when some chunk is citable and yields it. */
  lemma {:induction false} CitedSourcesMembers(chunks: seq<GroundingChunk>, x: Source)
    ensures x in CitedSources(chunks) <==>
      exists k :: 0 <= k < |chunks| && IsCitable(chunks[k]) && CitedSource(chunks[k]) == x
    decreases |chunks|
  {
    if chunks != [] {
      var init := chunks[..|chunks| - 1];
      CitedSourcesMembers(init, x);
      if x in CitedSources(init) {
        var k :| 0 <= k < |init| && IsCitable(init[k]) && CitedSource(init[k]) == x;
        assert chunks[k] == init[k];
      }
      if k :| 0 <= k < |chunks| && IsCitable(chunks[k]) && CitedSource(chunks[k]) == x {
        if k < |init| {
          assert init[k] == chunks[k];
        }
      }
    }
  }

  /** Sources keep the order of the chunks: collecting over two runs of
      chunks is collecting over each in turn. */
  lemma {:induction false} CitedSourcesAppend(a: seq<GroundingChunk>, b: seq<GroundingChunk>)
    ensures CitedSources(a + b) == CitedSources(a) + CitedSources(b)
    decreases |b|
  {
    if b == [] {
      assert a + b == a;
    } else {
      var init, last := b[..|b| - 1], b[|b| - 1];
      var extra := if IsCitable(last) then [CitedSource(last)] else [];
      CitedSourcesAppend(a, init);
      assert (a + b)[..|a + b| - 1] == a + init;
      assert (a + b)[|a + b| - 1] == last;
      calc {
        CitedSources(a + b);
        CitedSources(a + init) + extra;
        CitedSources(a) + CitedSources(init) + extra;
        CitedSources(a) + (CitedSources(init) + extra);
        CitedSources(a) + CitedSources(b);
      }
    }
  }

  /** Every collected source has a non-empty `uri` and `title`. */
  lemma CitedSourcesNonEmpty(chunks: seq<GroundingChunk>)
    ensures forall x :: x in CitedSources(chunks) ==> x.uri != "" && x.title != ""
  {
    forall x | x in CitedSources(chunks) ensures x.uri != "" && x.title != "" {
      CitedSourcesMembers(chunks, x);
    }
  }

  /** The set of `uri`s of a list of sources. */
  function UrisOf(a: seq<Source>): set<string> {
    set k | 0 <= k < |a| :: a[k].uri
  }

  predicate DistinctUris(a: seq<Source>) {
    forall j, k :: 0 <= j < k < |a| ==> a[j].uri != a[k].uri
  }

  /** Reference de-duplication: scan left to right, keep a source when its
      `uri` has not been seen yet. */
  function KeepUnseen(a: seq<Source>, seen: set<string>): seq<Source>
    decreases |a|
  {
    if a == [] then []
    else if a[0].uri in seen then KeepUnseen(a[1..], seen)
    else [a[0]] + KeepUnseen(a[1..], seen + {a[0].uri})
  }

  lemma UrisOfCons(x: Source, a: seq<Source>)
    ensures UrisOf([x] + a) == {x.uri} + UrisOf(a)
  {
    var xa := [x] + a;
    forall u | u in UrisOf(xa) ensures u in {x.uri} + UrisOf(a) {
      var k :| 0 <= k < |xa| && xa[k].uri == u;
      if k > 0 { assert a[k - 1] == xa[k]; }
    }
    forall u | u in UrisOf(a) ensures u in UrisOf(xa) {
      var k :| 0 <= k < |a| && a[k].uri == u;
      assert xa[k + 1] == a[k];
    }
    assert xa[0] == x;
  }

  /** What the reference scan keeps: a sub-sequence with distinct `uri`s,
      covering every `uri` not seen before. */
  lemma {:induction false} KeepUnseenSpec(a: seq<Source>, seen: set<string>)
    ensures IsSubsequence(KeepUnseen(a, seen), a)
    ensures UrisOf(KeepUnseen(a, seen)) == UrisOf(a) - seen
    ensures DistinctUris(KeepUnseen(a, seen))
    decreases |a|
  {
    if a == [] {
    } else {
      var x, rest := a[0], a[1..];
      assert a == [x] + rest;
      UrisOfCons(x, rest);
      if x.uri in seen {
        KeepUnseenSpec(rest, seen);
        SubsequenceSkip(x, KeepUnseen(rest, seen), rest);
      } else {
        var r' := KeepUnseen(rest, seen + {x.uri});
        KeepUnseenSpec(rest, seen + {x.uri});
        SubsequenceCons(x, r', rest);
        UrisOfCons(x, r');
        var r := [x] + r';
        forall j, k | 0 <= j < k < |r| ensures r[j].uri != r[k].uri {
          if j == 0 {
            assert r[k] == r'[k - 1];
            assert r'[k - 1].uri in UrisOf(r');
          } else {
            assert r[j] == r'[j - 1] && r[k] == r'[k - 1];
          }
        }
      }
    }
  }

  /** `findIndex` finds position `i` exactly when no earlier source has its `uri`. */
  lemma FindIndexIsSelf(a: seq<Source>, i: nat)
    requires i < |a|
    ensures FindIndexByUri(a, a[i].uri) == i <==> a[i].uri !in UrisOf(a[..i])
  {
    var r := FindIndexByUri(a, a[i].uri);
    var pre := a[..i];
    assert 0 <= r <= i;
    if r < i {
      assert pre[r].uri == a[i].uri;
      assert a[i].uri in UrisOf(pre);
    } else {
      forall u | u in UrisOf(pre) ensures u != a[i].uri {
        var k :| 0 <= k < |pre| && pre[k].uri == u;
        assert pre[k] == a[k];
      }
    }
  }

  /** Extending a prefix by one source adds its `uri`. */
  lemma UrisOfSnoc(a: seq<Source>, i: nat)
    requires i < |a|
    ensures UrisOf(a[..i + 1]) == UrisOf(a[..i]) + {a[i].uri}
  {
    var pre := a[..i + 1];
    forall u | u in UrisOf(pre) ensures u in UrisOf(a[..i]) + {a[i].uri} {
      var k :| 0 <= k < |pre| && pre[k].uri == u;
      if k < i { assert a[..i][k] == pre[k]; }
    }
    forall u | u in UrisOf(a[..i]) ensures u in UrisOf(pre) {
      var k :| 0 <= k < i && a[..i][k].uri == u;
      assert pre[k] == a[..i][k];
    }
    assert pre[i] == a[i];
  }

  /** The filter over positions from `i` on is the reference scan of the
      suffix, with the `uri`s of the prefix already seen. */
  lemma {:induction false} KeepFirstFromIsScan(a: seq<Source>, i: nat)
    requires i <= |a|
    ensures KeepFirstFrom(a, i) == KeepUnseen(a[i..], UrisOf(a[..i]))
    decreases |a| - i
  {
    if i < |a| {
      KeepFirstFromIsScan(a, i + 1);
      UrisOfSnoc(a, i);
      KeepFirstStep(a, i);
      KeepUnseenStep(a, i, UrisOf(a[..i]));
    }
  }

  /** One step of the filter: position `i` is kept exactly when its `uri` is
      not among the earlier ones. */
  lemma KeepFirstStep(a: seq<Source>, i: nat)
    requires i < |a|
    ensures KeepFirstFrom(a, i) ==
      (if a[i].uri in UrisOf(a[..i]) then [] else [a[i]]) + KeepFirstFrom(a, i + 1)
  {
    FindIndexIsSelf(a, i);
  }

  /** One step of the reference scan over the suffix from `i`. */
  lemma KeepUnseenStep(a: seq<Source>, i: nat, seen: set<string>)
    requires i < |a|
    ensures KeepUnseen(a[i..], seen) ==
      (if a[i].uri in seen then [] else [a[i]]) + KeepUnseen(a[i + 1..], seen + {a[i].uri})
  {
    var suffix := a[i..];
    assert suffix[0] == a[i] && suffix[1..] == a[i + 1..];
    if a[i].uri in seen {
      assert seen + {a[i].uri} == seen;
    }
  }

  /** The source filter is the reference left-to-right de-duplication. */
  lemma UniqueByUriIsScan(a: seq<Source>)
    ensures UniqueByUri(a) == KeepUnseen(a, {})
  {
    KeepFirstFromIsScan(a, 0);
    assert a[0..] == a;
    assert UrisOf(a[..0]) == {};
  }

  /** Every source the filter keeps is the first in the list with its `uri`. */
  lemma {:induction false} KeepFirstFromKeepsFirst(a: seq<Source>, i: nat)
    requires i <= |a|
    ensures forall x :: x in KeepFirstFrom(a, i) ==>
      0 <= FindIndexByUri(a, x.uri) && a[FindIndexByUri(a, x.uri)] == x
    decreases |a| - i
  {
    if i < |a| {
      KeepFirstFromKeepsFirst(a, i + 1);
      var head := if FindIndexByUri(a, a[i].uri) == i then [a[i]] else [];
      assert KeepFirstFrom(a, i) == head + KeepFirstFrom(a, i + 1);
      forall x | x in KeepFirstFrom(a, i)
        ensures 0 <= FindIndexByUri(a, x.uri) && a[FindIndexByUri(a, x.uri)] == x
      {
        if x !in KeepFirstFrom(a, i + 1) {
          assert x in head;
        }
      }
    }
  }

  /** De-duplication by `uri`: no two sources share a `uri`; each kept source
      is the first in the list with its `uri`; relative order is kept; and
      every `uri` of the list is still present. */
  lemma UniqueByUriSpec(a: seq<Source>)
    ensures DistinctUris(UniqueByUri(a))
    ensures forall x :: x in UniqueByUri(a) ==>
      0 <= FindIndexByUri(a, x.uri) && a[FindIndexByUri(a, x.uri)] == x
    ensures IsSubsequence(UniqueByUri(a), a)
    ensures UrisOf(UniqueByUri(a)) == UrisOf(a)
  {
    UniqueByUriIsScan(a);
    KeepUnseenSpec(a, {});
    KeepFirstFromKeepsFirst(a, 0);
  }

  /** The plan's sources: distinct `uri`s, all non-empty, taken in order from
      the citable chunks, and covering every `uri` cited. */
  lemma PlanSources(topic: string, text: string, chunks: seq<GroundingChunk>)
    ensures var r := ParsePlan(topic, text, Some(chunks)).sources;
      && DistinctUris(r)
      && IsSubsequence(r, CitedSources(chunks))
      && UrisOf(r) == UrisOf(CitedSources(chunks))
      && forall x :: x in r ==> x.uri != "" && x.title != ""
  {
    var cited := CitedSources(chunks);
    UniqueByUriSpec(cited);
    CitedSourcesNonEmpty(chunks);
    SubsequenceBounds(UniqueByUri(cited), cited);
  }

  /** Without grounding chunks there are no sources. */
  lemma PlanNoChunks(topic: string, text: string)
    ensures ParsePlan(topic, text, None).sources == []
  {
  }
}
