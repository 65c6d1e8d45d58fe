/** The progress display (components/LoadingIndicator.tsx): three steps, each
    shown completed, active or pending according to where the current stage
    falls in the stage order. */
module LoadingIndicator {
  import opened Types

  datatype Step = Step(id: LoadingStage, caption: string, icon: string)

  datatype StepStatus = StepCompleted | StepActive | StepPending

  const Steps: seq<Step> := [
    Step(Researching, "Investigando fuentes fiables...", "🔍"),
    Step(Writing, "Redactando explicación pedagógica...", "✍️"),
    Step(Designing, "Diseñando material visual...", "🎨")
  ]

  const StageOrder: seq<LoadingStage> := [Researching, Writing, Designing, Completed]

  const CompletedIcon: string := "✅"

  /** `Array.prototype.indexOf`: the first position of `x`, or -1. */
  function IndexOf<T(==)>(s: seq<T>, x: T): (r: int)
    ensures -1 <= r < |s|
    ensures r >= 0 ==> s[r] == x && x !in s[..r]
    ensures r == -1 <==> x !in s
    decreases |s|
  {
    if s == [] then -1
    else if s[0] == x then 0
    else
      var r := IndexOf(s[1..], x);
      assert s == [s[0]] + s[1..];
      if r < 0 then -1
      else
        assert s[..r + 1] == [s[0]] + s[1..][..r];
        r + 1
  }

  /** `stageOrder.indexOf(stage)`. */
  function CurrentIndex(stage: LoadingStage): int {
    IndexOf(StageOrder, stage)
  }

  /** The status chosen for the step at `index`. */
  function Status(index: int, currentIndex: int): StepStatus {
    if index < currentIndex then StepCompleted
    else if index == currentIndex then StepActive
    else StepPending
  }

  /** The statuses of the three steps for a stage, in display order. */
  function StepStatuses(stage: LoadingStage): seq<StepStatus> {
    seq(|Steps|, i requires 0 <= i < |Steps| => Status(i, CurrentIndex(stage)))
  }

  /** The icon shown for the step at `index`. */
  function StepIcon(index: int, stage: LoadingStage): string
    requires 0 <= index < |Steps|
  {
    if index < CurrentIndex(stage) then CompletedIcon else Steps[index].icon
  }

  /** The position of each stage in the order; idle and error are not in it. */
  lemma StagePosition()
    ensures CurrentIndex(Researching) == 0
    ensures CurrentIndex(Writing) == 1
    ensures CurrentIndex(Designing) == 2
    ensures CurrentIndex(Completed) == 3
    ensures CurrentIndex(Idle) == -1 && CurrentIndex(Error) == -1
  {
    assert StageOrder[0] == Researching;
    assert StageOrder[1] == Writing;
    assert StageOrder[2] == Designing;
    assert StageOrder[3] == Completed;
  }

  /** Step `i` is completed before the current position, active at it and
      pending after it. */
  lemma StepStatusRule(stage: LoadingStage, i: int)
    requires 0 <= i < |Steps|
    ensures StepStatuses(stage)[i] == StepCompleted <==> i < CurrentIndex(stage)
    ensures StepStatuses(stage)[i] == StepActive <==> i == CurrentIndex(stage)
    ensures StepStatuses(stage)[i] == StepPending <==> i > CurrentIndex(stage)
  {
  }

  /** The number of active steps. */
  function ActiveCount(statuses: seq<StepStatus>): nat
    decreases |statuses|
  {
    if statuses == [] then 0
    else (if statuses[0] == StepActive then 1 else 0) + ActiveCount(statuses[1..])
  }

  /** Exactly one step is active while loading, none otherwise. */
  lemma ActiveStepCount(stage: LoadingStage)
    ensures ActiveCount(StepStatuses(stage)) == if stage in {Researching, Writing, Designing} then 1 else 0
  {
    StagePosition();
    var s := StepStatuses(stage);
    var one := (x: StepStatus) => if x == StepActive then 1 else 0;
    assert s[1..][1..][1..] == [];
    assert ActiveCount(s[1..][1..]) == one(s[2]);
    assert ActiveCount(s[1..]) == one(s[1]) + one(s[2]);
    assert ActiveCount(s) == one(s[0]) + one(s[1]) + one(s[2]);
  }

  /** Completed marks every step completed; idle and error leave every step pending. */
  lemma EdgeStages()
    ensures forall i :: 0 <= i < |Steps| ==> StepStatuses(Completed)[i] == StepCompleted
    ensures forall i :: 0 <= i < |Steps| ==> StepStatuses(Idle)[i] == StepPending
    ensures forall i :: 0 <= i < |Steps| ==> StepStatuses(Error)[i] == StepPending
  {
    StagePosition();
  }

  /** The completed steps always form a prefix, and moving forward along the
      stage order never takes a completed step back to active or pending. */
  lemma MonotoneProgress(earlier: LoadingStage, later: LoadingStage, i: int, j: int)
    requires 0 <= i <= j < |Steps|
    requires 0 <= CurrentIndex(earlier) <= CurrentIndex(later)
    ensures StepStatuses(earlier)[j] == StepCompleted ==> StepStatuses(earlier)[i] == StepCompleted
    ensures StepStatuses(earlier)[i] == StepCompleted ==> StepStatuses(later)[i] == StepCompleted
  {
    StepStatusRule(earlier, i);
    StepStatusRule(earlier, j);
    StepStatusRule(later, i);
  }

  /** A completed step shows the check mark, the others their own icon. */
  lemma StepIconRule(stage: LoadingStage, i: int)
    requires 0 <= i < |Steps|
    ensures StepIcon(i, stage) == if StepStatuses(stage)[i] == StepCompleted then CompletedIcon else Steps[i].icon
  {
  }
}
