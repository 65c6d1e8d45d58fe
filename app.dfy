/** The lesson lifecycle of the top-level component (App.tsx): the fields
    `topic`, `stage`, `lessonData` and `errorMsg`, moved by `handleSearch`
    and `handleReset`. The remote calls are replaced by their outcomes: the
    text call's outcome, and one image outcome per section position. */
module App {
  import opened Wrappers
  import opened Types
  import opened JsString
  import opened PlanParser
  import opened SectionImages

  const ErrorMessage: string :=
    "Ocurrió un error al intentar generar la lección. Por favor, intenta de nuevo o prueba con otro tema."

  /** `!topic.trim()`: the topic is empty or only whitespace. */
  predicate IsBlank(topic: string) {
    Trim(topic) == ""
  }

  /** The outcomes of the image calls for `n` sections, in section order. */
  function ImageOutcomes(n: nat, imageCalls: nat -> ImageOutcome): (r: seq<ImageOutcome>)
    ensures |r| == n
  {
    seq(n, i requires 0 <= i < n => imageCalls(i))
  }

  /** The lesson shown for a plan: the plan with its sections merged with
      the outcomes of their image calls. */
  function Illustrated(plan: LessonPlan, imageCalls: nat -> ImageOutcome): LessonData {
    var outcomes := ImageOutcomes(|plan.rawSections|, imageCalls);
    LessonData(plan.topic, plan.intro, MergedSections(plan.rawSections, outcomes), plan.sources)
  }

  /** The lesson a search ends with when the text call returns `reply`. */
  function FinishedLesson(topic: string, reply: TextReply, imageCalls: nat -> ImageOutcome): LessonData {
    Illustrated(ParsePlan(topic, ReplyText(reply), reply.groundingChunks), imageCalls)
  }

  /** The designing stage of a search: one image call per section, merged
      into `{ ...plan, sections: sectionsWithImages }`. */
  method IllustratePlan(plan: LessonPlan, imageCalls: nat -> ImageOutcome) returns (lesson: LessonData)
    ensures lesson == Illustrated(plan, imageCalls)
  {
    var outcomes := ImageOutcomes(|plan.rawSections|, imageCalls);
    var sectionsWithImages := GenerateSectionImages(plan.rawSections, outcomes);
    lesson := LessonData(plan.topic, plan.intro, sectionsWithImages, plan.sources);
  }

  class TutorApp {
    var topic: string
    var stage: LoadingStage
    var lessonData: Option<LessonData>
    var errorMsg: Option<string>
    /** Every stage set so far, in order. */
    ghost var stageLog: seq<LoadingStage>

    /** The lifecycle invariant: a completed lesson has data, an error has a
        message and no data, and only an error has a message. */
    ghost predicate Valid()
      reads this
    {
      && (stage == Completed ==> lessonData.Some?)
      && (stage == Error ==> errorMsg.Some? && lessonData.None?)
      && (stage != Error ==> errorMsg.None?)
    }

    /** The initial state of the four `useState` hooks. */
    constructor ()
      ensures Valid()
      ensures topic == "" && stage == Idle && lessonData == None && errorMsg == None
      ensures stageLog == []
    {
      topic := "";
      stage := Idle;
      lessonData := None;
      errorMsg := None;
      stageLog := [];
    }

    /** The input's `onChange`. */
    method SetTopic(value: string)
      requires Valid()
      modifies this`topic
      ensures Valid()
      ensures topic == value
    {
      topic := value;
    }

    /** The submit button is enabled exactly when the topic holds a
        character that is not whitespace: an empty or whitespace-only topic
        disables it. */
    function SubmitEnabled(): (r: bool)
      reads this
      ensures r <==> exists k :: 0 <= k < |topic| && !IsSpace(topic[k])
    {
      !IsBlank(topic)
    }

    /** `handleSearch`. A blank topic changes nothing. Otherwise the search
        starts (researching, no error, no lesson); a thrown text call ends in
        the error stage with the fixed message and no lesson; a reply goes
        through writing and designing and ends completed with the parsed plan
        and the sections of the image stage. Image failures are absorbed per
        section and never reach the error stage. */
    method HandleSearch(response: Result<TextReply>, imageCalls: nat -> ImageOutcome)
      requires Valid()
      modifies this
      ensures Valid()
      ensures topic == old(topic)
      ensures IsBlank(old(topic)) ==> unchanged(this)
      ensures !IsBlank(old(topic)) && response.Failure? ==>
        && stage == Error && errorMsg == Some(ErrorMessage) && lessonData == None
        && stageLog == old(stageLog) + [Researching, Error]
      ensures !IsBlank(old(topic)) && response.Success? ==>
        && stage == Completed && errorMsg == None
        && lessonData == Some(FinishedLesson(topic, response.value, imageCalls))
        && stageLog == old(stageLog) + [Researching, Writing, Designing, Completed]
    {
      if IsBlank(topic) {
        return;
      }
      ghost var log := stageLog;
      stage, stageLog := Researching, log + [Researching];
      errorMsg := None;
      lessonData := None;

      var plan := GenerateLessonPlan(topic, response);
      if plan.Failure? {
        stage, stageLog := Error, log + [Researching, Error];
        errorMsg := Some(ErrorMessage);
        return;
      }
      var p := plan.value;
      stage, stageLog := Writing, log + [Researching, Writing];
      stage, stageLog := Designing, log + [Researching, Writing, Designing];

      var lesson := IllustratePlan(p, imageCalls);
      lessonData := Some(lesson);
      stage, stageLog := Completed, log + [Researching, Writing, Designing, Completed];
    }

    /** `handleReset`: back to an empty topic in the idle stage. */
    method HandleReset()
      modifies this
      ensures Valid()
      ensures topic == "" && stage == Idle && lessonData == None && errorMsg == None
      ensures stageLog == old(stageLog) + [Idle]
    {
      topic := "";
      stage, stageLog := Idle, stageLog + [Idle];
      lessonData := None;
      errorMsg := None;
    }
  }

  /** A whole session: what a client can conclude from the contracts alone.
      A blank topic is refused, a failing text call ends in the error stage,
      and after a reset a successful search completes with one section per
      `[SECCION]` even when every image call fails. */
  method Session(response: TextReply, otherTopic: string)
    requires !IsBlank(otherTopic)
  {
    var app := new TutorApp();
    app.SetTopic("  ");
    assert IsBlank("  ") by { assert AllSpace("  "); }
    app.HandleSearch(Success(response), _ => ImageFailed);
    assert app.stage == Idle && app.lessonData == None;

    app.SetTopic(otherTopic);
    app.HandleSearch(Failure, _ => ImageFailed);
    assert app.stage == Error && app.lessonData == None && app.errorMsg == Some(ErrorMessage);

    app.HandleReset();
    app.SetTopic(otherTopic);
    app.HandleSearch(Success(response), _ => ImageFailed);
    assert app.stage == Completed;
    var plan := ParsePlan(otherTopic, ReplyText(response), response.groundingChunks);
    assert app.lessonData.value.sections == plan.rawSections;
    assert |app.lessonData.value.sections| == CountOccurrences(ReplyText(response), SectionMarker);
  }
}
