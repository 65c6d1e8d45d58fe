/** The records and the stage enumeration shared by the app (types.ts). */
module Types {
  import opened Wrappers

  /** A web citation; two sources are the same citation when their `uri`s are. */
  datatype Source = Source(title: string, uri: string)

  /** One concept of a lesson; `imageUrl` is absent until an image is attached. */
  datatype LessonSection = LessonSection(
    title: string,
    content: string,
    visualPrompt: string,
    imageUrl: Option<string>)

  /** The finished lesson shown to the user. */
  datatype LessonData = LessonData(
    topic: string,
    intro: string,
    sections: seq<LessonSection>,
    sources: seq<Source>)

  datatype LoadingStage = Idle | Researching | Writing | Designing | Completed | Error

  /** The web part of a grounding chunk; either field may be missing. */
  datatype WebCitation = WebCitation(uri: Option<string>, title: Option<string>)

  /** One grounding chunk of the text-generation reply. */
  datatype GroundingChunk = GroundingChunk(web: Option<WebCitation>)
}
