/**
 * The copy button's feedback: showCopySuccess and showCopyError relabel and
 * recolour the `.copy-btn` element and schedule a revert. Browser timers are
 * a queue of pending callbacks; the event loop may fire any of them, in any
 * order, and firing one removes it from the queue.
 */
module Feedback {

  const SuccessLabel: string := "\U{2705} Copied!"
  const SuccessBackground: string := "#27ca3f"
  const FailureLabel: string := "\U{274C} Copy Failed"
  const FailureBackground: string := "#ff5f56"
  /** The background every revert sets, whatever it was before the feedback. */
  const RevertBackground: string := "#3b82f6"

  datatype Outcome = Copied | CopyFailed

  /** A pending revert: the callback passed to setTimeout, closing over the label captured when it was scheduled. */
  datatype Timer = RestoreCopyButton(captured: string)

  datatype Button = Button(text: string, background: string)

  /** The copy button together with the reverts scheduled for it and not yet fired. */
  datatype Presenter = Presenter(button: Button, pending: seq<Timer>)

  function OutcomeButton(o: Outcome): (b: Button)
    ensures o == Copied ==> b == Button(SuccessLabel, SuccessBackground)
    ensures o == CopyFailed ==> b == Button(FailureLabel, FailureBackground)
  {
    match o
    case Copied => Button(SuccessLabel, SuccessBackground)
    case CopyFailed => Button(FailureLabel, FailureBackground)
  }

  /**
   * showCopySuccess / showCopyError: the button shows the outcome, and exactly
   * one revert is scheduled, capturing the label the button had at the call.
   */
  function Present(p: Presenter, o: Outcome): (r: Presenter)
    ensures r.button == OutcomeButton(o)
    ensures r.pending == p.pending + [RestoreCopyButton(p.button.text)]
  {
    Presenter(OutcomeButton(o), p.pending + [RestoreCopyButton(p.button.text)])
  }

  /** The revert callback firing: the captured label is put back, on the fixed blue background. */
  function Fire(p: Presenter, i: nat): (r: Presenter)
    requires i < |p.pending|
    ensures r.button == Button(p.pending[i].captured, RevertBackground)
    ensures |r.pending| == |p.pending| - 1
    ensures multiset(r.pending) + multiset{p.pending[i]} == multiset(p.pending)
  {
    assert p.pending == p.pending[..i] + [p.pending[i]] + p.pending[i + 1..];
    Presenter(Button(p.pending[i].captured, RevertBackground), p.pending[..i] + p.pending[i + 1..])
  }

  datatype Action = Report(outcome: Outcome) | FireTimer(index: nat)

  /** One action; the event loop only fires timers that are pending. */
  function Apply(p: Presenter, a: Action): Presenter {
    match a
    case Report(o) => Present(p, o)
    case FireTimer(i) => if i < |p.pending| then Fire(p, i) else p
  }

  function RunActions(p: Presenter, actions: seq<Action>): Presenter
    decreases |actions|
  {
    if actions == [] then p else RunActions(Apply(p, actions[0]), actions[1..])
  }

  /** The labels the button can ever show, starting from the label `original`. */
  predicate KnownLabel(text: string, original: string) {
    text == original || text == SuccessLabel || text == FailureLabel
  }

  predicate KnownLabels(p: Presenter, original: string) {
    KnownLabel(p.button.text, original) &&
    forall t :: t in p.pending ==> KnownLabel(t.captured, original)
  }

  /**
   * A feedback followed by its own revert (with no other feedback in between)
   * leaves the label as it was before the feedback and the background blue.
   */
  lemma PresentThenFire(p: Presenter, o: Outcome)
    ensures var q := Fire(Present(p, o), |p.pending|);
      q.button == Button(p.button.text, RevertBackground) && q.pending == p.pending
  {
  }

  /**
   * Two feedbacks in a row, the second before the first revert fires: the
   * second captures the first's label. When both reverts fire, in the order
   * they were scheduled, the first restores the original label and the second
   * then puts the first feedback's label back, where it stays.
   */
  lemma StaleRevert(p: Presenter, first: Outcome, second: Outcome)
    ensures var twice := Present(Present(p, first), second);
      var n := |p.pending|;
      n + 1 < |twice.pending| &&
      Fire(twice, n).button.text == p.button.text &&
      Fire(Fire(twice, n), n).button == Button(OutcomeButton(first).text, RevertBackground) &&
      Fire(Fire(twice, n), n).pending == p.pending
  {
  }

  /**
   * Whatever feedbacks and reverts happen, in whatever order, the button only
   * ever shows its original label or one of the two feedback labels.
   */
  lemma {:induction false} RunKeepsKnownLabels(p: Presenter, original: string, actions: seq<Action>)
    requires KnownLabels(p, original)
    ensures KnownLabels(RunActions(p, actions), original)
    decreases |actions|
  {
    if actions != [] {
      var q := Apply(p, actions[0]);
      match actions[0] {
        case Report(o) =>
        case FireTimer(i) =>
          if i < |p.pending| {
            assert p.pending[i] in p.pending;
            forall t | t in q.pending ensures KnownLabel(t.captured, original) {
              assert t in multiset(q.pending);
            }
          }
      }
      RunKeepsKnownLabels(q, original, actions[1..]);
    }
  }
}
