/** Phase two of the lesson pipeline (services/geminiService.ts,
    `generateSectionImages`): one image call per section; a section gets a
    `data:` URL built from the first part of the reply that carries inline
    data, and a section whose call throws is returned as it was. The remote
    calls are replaced by their outcomes, one per section, in section order. */
module SectionImages {
  import opened Wrappers
  import opened Types

  /** Inline image bytes of a reply part; the payload is an opaque base64 string. */
  datatype InlineData = InlineData(mimeType: string, data: string)

  /** One part of the image reply. */
  datatype Part = Part(text: Option<string>, inlineData: Option<InlineData>)

  /** The outcome of one image call: thrown, or the parts of the first
      candidate (`|| []` when the reply has none). */
  datatype ImageOutcome = ImageFailed | ImageReply(parts: seq<Part>)

  /** The prefix of every image URL: a base64 PNG `data:` URL. The declared
      MIME type of the part is not consulted. */
  const DataUrlPrefix: string := "data:image/png;base64,"

  function DataUrl(payload: string): string {
    DataUrlPrefix + payload
  }

  /** The image URL of a reply: from the first part that carries inline
      data, if any. */
  function ImageUrlOf(parts: seq<Part>): (r: Option<string>)
    ensures r.None? <==> forall k :: 0 <= k < |parts| ==> parts[k].inlineData.None?
    ensures r.Some? ==>
      exists k :: (0 <= k < |parts| && parts[k].inlineData.Some?
        && (forall j :: 0 <= j < k ==> parts[j].inlineData.None?)
        && r.value == DataUrl(parts[k].inlineData.value.data))
    decreases |parts|
  {
    if parts == [] then None
    else if parts[0].inlineData.Some? then Some(DataUrl(parts[0].inlineData.value.data))
    else
      var r := ImageUrlOf(parts[1..]);
      assert forall j :: 1 <= j < |parts| ==> parts[j] == parts[1..][j - 1];
      if r.Some? then
        var k :| 0 <= k < |parts[1..]| && parts[1..][k].inlineData.Some?
          && (forall j :: 0 <= j < k ==> parts[1..][j].inlineData.None?)
          && r.value == DataUrl(parts[1..][k].inlineData.value.data);
        assert parts[k + 1] == parts[1..][k];
        r
      else r
  }

  /** The loop over the reply parts that assigns the URL and breaks. */
  method ExtractImageUrl(parts: seq<Part>) returns (imageUrl: Option<string>)
    ensures imageUrl == ImageUrlOf(parts)
  {
    imageUrl := None;
    var i := 0;
    while i < |parts|
      invariant 0 <= i <= |parts|
      invariant ImageUrlOf(parts) == ImageUrlOf(parts[i..])
    {
      var part := parts[i];
      if part.inlineData.Some? {
        imageUrl := Some(DataUrl(part.inlineData.value.data));
        break;
      }
      assert parts[i..][1..] == parts[i + 1..];
      i := i + 1;
    }
  }

  /** The per-section result: the section with the URL of its reply, or the
      section unchanged when its call threw. */
  function MergeSection(section: LessonSection, outcome: ImageOutcome): LessonSection {
    match outcome
    case ImageFailed => section
    case ImageReply(parts) => section.(imageUrl := ImageUrlOf(parts))
  }

  /** All sections, each merged with the outcome of its own call. */
  function MergedSections(sections: seq<LessonSection>, outcomes: seq<ImageOutcome>): seq<LessonSection>
    requires |outcomes| == |sections|
  {
    seq(|sections|, k requires 0 <= k < |sections| => MergeSection(sections[k], outcomes[k]))
  }

  /** The per-section callback of the fan-out: a failed call keeps the
      section as it was, a reply sets its image URL. */
  method MergeOne(section: LessonSection, outcome: ImageOutcome) returns (merged: LessonSection)
    ensures merged == MergeSection(section, outcome)
  {
    merged := section;
    if outcome.ImageReply? {
      var imageUrl := ExtractImageUrl(outcome.parts);
      merged := section.(imageUrl := imageUrl);
    }
  }

  /** `generateSectionImages`: the sections in order, each merged with its
      call's outcome; `Promise.all` keeps the order of the calls. */
  method GenerateSectionImages(sections: seq<LessonSection>, outcomes: seq<ImageOutcome>)
    returns (result: seq<LessonSection>)
    requires |outcomes| == |sections|
    ensures result == MergedSections(sections, outcomes)
  {
    result := [];
    for i := 0 to |sections|
      invariant |result| == i
      invariant forall k :: 0 <= k < i ==> result[k] == MergeSection(sections[k], outcomes[k])
    {
      var merged := MergeOne(sections[i], outcomes[i]);
      result := result + [merged];
    }
  }

  /** Only the image URL of a section can change; a successful call sets it
      from the first inline part (or clears it when there is none), and a
      failed call leaves the section as it was. */
  lemma MergeSectionSpec(section: LessonSection, outcome: ImageOutcome)
    ensures var r := MergeSection(section, outcome);
      && r.title == section.title
      && r.content == section.content
      && r.visualPrompt == section.visualPrompt
      && (outcome.ImageFailed? ==> r == section)
      && (outcome.ImageReply? ==> r.imageUrl == ImageUrlOf(outcome.parts))
  {
  }

  /** Each section's result depends on its own outcome only: changing the
      outcome of one call changes no other section. */
  lemma FailureIsolation(sections: seq<LessonSection>, outcomes: seq<ImageOutcome>, k: nat, other: ImageOutcome)
    requires |outcomes| == |sections| && k < |sections|
    ensures var before := MergedSections(sections, outcomes);
      var after := MergedSections(sections, outcomes[k := other]);
      |after| == |before| == |sections|
      && forall j :: 0 <= j < |sections| && j != k ==> after[j] == before[j]
  {
  }

  /** A reply whose only part carries inline data gives that payload's URL. */
  lemma SingleImagePart(section: LessonSection, mimeType: string, payload: string)
    ensures MergeSection(section, ImageReply([Part(None, Some(InlineData(mimeType, payload)))])).imageUrl
      == Some("data:image/png;base64," + payload)
  {
  }
}
