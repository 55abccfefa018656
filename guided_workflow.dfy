/** The guided workflow of `src/components/GuidedWorkflow.tsx`: a fixed list
    of eight steps, a current-step index moved by Next and Previous, and an
    Explore action that leaves the workflow for the step's section. */
module GuidedWorkflow {
  import opened Strings
  import opened Docs
  import TierSection
  import NaiveTierSection

  /** A step: its heading and the section it walks through, if any. The
      step's HTML body is presentation only. */
  datatype Step = Step(title: string, section: Option<string>)

  const Steps: seq<Step> := [
    Step("Welcome to the Guided Workflow", None),
    Step("Step 1: AI Model Specification", Some("model-specification")),
    Step("Step 2: Generation Parameters", Some("generation-parameters")),
    Step("Step 3: Prompt Engineering", Some("prompt-engineering")),
    Step("Step 4: Dataset and Input Documentation", Some("dataset-documentation")),
    Step("Step 5: Output Processing and Evaluation", Some("output-processing")),
    Step("Step 6: Reproducibility Materials", Some("reproducibility-materials")),
    Step("Documentation Complete!", None)
  ]

  /** Only the welcome and the closing step have no section. */
  lemma StepSections()
    ensures |Steps| == 8
    ensures forall i :: 0 <= i < |Steps| ==> (Steps[i].section.None? <==> i == 0 || i == |Steps| - 1)
  {
  }

  /** The progress keys of a step's checklist: `section-item`, or none when
      the step has no section or the section is not in the document. */
  function StepKeys(doc: Document, step: Step): (keys: seq<string>)
    ensures step.section.None? ==> keys == []
    ensures step.section.Some? && Lookup(doc, step.section.value).Some? ==>
      keys == ItemKeys(step.section.value, None, Lookup(doc, step.section.value).value.checklist)
  {
    match step.section
    case None => []
    case Some(sid) =>
      match Lookup(doc, sid)
      case None => []
      case Some(section) => ItemKeys(sid, None, section.checklist)
  }

  /** A step's checklist toggles the same progress entries as the section
      view of its section, under either component: the guided keys are the
      top-level keys `section-item`. */
  lemma StepKeysMatchSectionView(doc: Document, step: Step)
    requires step.section.Some? && HasKey(doc, step.section.value)
    ensures var sid := step.section.value;
      && NaiveTierSection.NaiveResolve(doc, sid).Found?
      && StepKeys(doc, step) == NaiveTierSection.NaiveChecklistKeys(NaiveTierSection.NaiveResolve(doc, sid).view)
      && TierSection.Resolve(doc, sid).Render?
      && StepKeys(doc, step) == TierSection.ChecklistKeys(TierSection.Resolve(doc, sid).view)
  {
  }

  class Workflow {
    var currentStep: nat

    /** The index always names a step. */
    ghost predicate Valid()
      reads this
    {
      currentStep < |Steps|
    }

    constructor()
      ensures Valid() && currentStep == 0
    {
      currentStep := 0;
    }

    /** `handleNext`: advance, or on the last step leave the workflow (the
        returned flag is the `setShowGuidedWorkflow(false)` call). */
    method HandleNext() returns (exit: bool)
      requires Valid()
      modifies this
      ensures Valid()
      ensures old(currentStep) < |Steps| - 1 ==> currentStep == old(currentStep) + 1 && !exit
      ensures old(currentStep) == |Steps| - 1 ==> currentStep == old(currentStep) && exit
    {
      if currentStep < |Steps| - 1 {
        currentStep := currentStep + 1;
        exit := false;
      } else {
        exit := true;
      }
    }

    /** `handlePrevious`: step back, nothing at the first step. */
    method HandlePrevious()
      requires Valid()
      modifies this
      ensures Valid()
      ensures old(currentStep) > 0 ==> currentStep == old(currentStep) - 1
      ensures old(currentStep) == 0 ==> currentStep == 0
    {
      if currentStep > 0 {
        currentStep := currentStep - 1;
      }
    }

    /** `handleExploreSection`: the section to activate, after which the
        workflow closes; nothing on a step without a section. */
    method HandleExploreSection() returns (activeSection: Option<string>)
      requires Valid()
      ensures activeSection == Steps[currentStep].section
      ensures activeSection.None? <==> currentStep == 0 || currentStep == |Steps| - 1
    {
      StepSections();
      var step := Steps[currentStep];
      if step.section.Some? {
        activeSection := Some(step.section.value);
      } else {
        activeSection := None;
      }
    }

    /** The label of the forward button. */
    function NextLabel(): (caption: string)
      requires Valid()
      reads this
      ensures caption == "Finish" <==> currentStep == |Steps| - 1
      ensures caption == "Next" <==> currentStep < |Steps| - 1
    {
      if currentStep < |Steps| - 1 then "Next" else "Finish"
    }

    /** The item keys the checklist of the current step toggles: none on a
        step without a section, and otherwise the keys the section's own view
        toggles, so ticking an item here ticks it there. */
    function CurrentKeys(doc: Document): (keys: seq<string>)
      requires Valid()
      reads this
      ensures Steps[currentStep].section.None? ==> keys == []
      ensures Steps[currentStep].section.Some? && HasKey(doc, Steps[currentStep].section.value) ==>
        TierSection.Resolve(doc, Steps[currentStep].section.value).Render?
        && keys == TierSection.ChecklistKeys(TierSection.Resolve(doc, Steps[currentStep].section.value).view)
    {
      var step := Steps[currentStep];
      if step.section.Some? && HasKey(doc, step.section.value) then
        StepKeysMatchSectionView(doc, step);
        StepKeys(doc, step)
      else StepKeys(doc, step)
    }
  }
}
