/**
 * The citation modal as a state machine over the three pieces of page state it
 * touches: the modal's `style.display`, the body's `style.overflow` and the
 * text of the `bibtexContent` element. The handlers of script.js are the
 * transitions; `Run` applies any sequence of them.
 */
module Modal {
  import opened Wrappers
  import Citations

  const DisplayBlock: string := "block"
  const DisplayNone: string := "none"
  const OverflowHidden: string := "hidden"
  const OverflowAuto: string := "auto"

  datatype View = View(display: string, overflow: string, content: string)

  /** What a click landed on: the modal's backdrop, something inside its box, or the rest of the page. */
  datatype Target = Overlay | Inside | Elsewhere

  datatype Event =
    | Show(key: string)     // showBibtex(key), from a citation button
    | CloseButton           // closeBibtex(), from the close button
    | Keydown(key: string)  // a keydown on the document, with its `event.key`
    | Click(target: Target) // window.onclick

  /** The page before any handler ran: no inline style is set yet. */
  const Initial: View := View("", "", "")

  predicate IsOpen(m: View) {
    m.display == DisplayBlock
  }

  /**
   * The modal is shown exactly when background scrolling is locked, and while
   * it is shown it holds one of the citation texts.
   */
  predicate Consistent(m: View) {
    (IsOpen(m) <==> m.overflow == OverflowHidden) &&
    (IsOpen(m) ==> m.content in Citations.BibtexData.Values)
  }

  /** showBibtex: a known key opens the modal on its text, whatever was shown before; an unknown key changes nothing. */
  function ShowBibtex(m: View, key: string): (r: View)
    ensures key !in Citations.BibtexData ==> r == m
    ensures key in Citations.BibtexData ==>
      IsOpen(r) && r.overflow == OverflowHidden && r.content == Citations.BibtexData[key]
    ensures Consistent(m) ==> Consistent(r)
  {
    match Citations.Lookup(key)
    case Some(text) => View(DisplayBlock, OverflowHidden, text)
    case None => m
  }

  /** closeBibtex: from any state, sets display to `none` and restores scrolling, leaving the text as it was. */
  function CloseBibtex(m: View): (r: View)
    ensures r.display == DisplayNone && !IsOpen(r)
    ensures r.overflow == OverflowAuto && r.content == m.content
    ensures Consistent(r)
  {
    View(DisplayNone, OverflowAuto, m.content)
  }

  /** The Escape handler: closes only an open modal on the Escape key. */
  function OnKeydown(m: View, key: string): (r: View)
    ensures key == "Escape" && IsOpen(m) ==> r == CloseBibtex(m)
    ensures key != "Escape" || !IsOpen(m) ==> r == m
  {
    if key == "Escape" && m.display == DisplayBlock then CloseBibtex(m) else m
  }

  /** window.onclick: closes only when the click target is the modal element itself, the backdrop. */
  function OnClick(m: View, target: Target): (r: View)
    ensures target == Overlay ==> r == CloseBibtex(m)
    ensures target != Overlay ==> r == m
  {
    if target == Overlay then CloseBibtex(m) else m
  }

  /** One event; only showing a citation can open a closed modal. */
  function Step(m: View, e: Event): (r: View)
    ensures Consistent(m) ==> Consistent(r)
    ensures IsOpen(r) ==> IsOpen(m) || e.Show?
  {
    match e
    case Show(key) => ShowBibtex(m, key)
    case CloseButton => CloseBibtex(m)
    case Keydown(key) => OnKeydown(m, key)
    case Click(target) => OnClick(m, target)
  }

  function Run(m: View, events: seq<Event>): View
    decreases |events|
  {
    if events == [] then m else Run(Step(m, events[0]), events[1..])
  }

  /** The text of the last event in `events` that showed a known citation, if any. */
  function LastShown(events: seq<Event>): Option<string>
    decreases |events|
  {
    if events == [] then None
    else match LastShown(events[1..])
      case Some(text) => Some(text)
      case None =>
        if events[0].Show? && events[0].key in Citations.BibtexData
        then Some(Citations.BibtexData[events[0].key])
        else None
  }

  /** Every sequence of events keeps the modal consistent. */
  lemma {:induction false} RunPreservesConsistent(m: View, events: seq<Event>)
    requires Consistent(m)
    ensures Consistent(Run(m, events))
    decreases |events|
  {
    if events != [] {
      RunPreservesConsistent(Step(m, events[0]), events[1..]);
    }
  }

  /**
   * From the freshly loaded page, after any sequence of show, close, Escape and
   * click events, the modal is shown exactly when scrolling is locked, and a
   * shown modal holds a citation text.
   */
  lemma {:induction false} RunFromInitial(events: seq<Event>)
    ensures IsOpen(Run(Initial, events)) <==> Run(Initial, events).overflow == OverflowHidden
    ensures IsOpen(Run(Initial, events)) ==> Run(Initial, events).content in Citations.BibtexData.Values
  {
    RunPreservesConsistent(Initial, events);
  }

  /**
   * The content element always holds the text of the last known citation that
   * was shown (closing never clears it); with none shown it is unchanged.
   */
  lemma {:induction false} RunContentIsLastShown(m: View, events: seq<Event>)
    ensures Run(m, events).content == match LastShown(events) case Some(text) => text case None => m.content
    decreases |events|
  {
    if events != [] {
      RunContentIsLastShown(Step(m, events[0]), events[1..]);
    }
  }

  /** Events that show nothing never open a closed modal. */
  lemma {:induction false} RunWithoutShowStaysClosed(m: View, events: seq<Event>)
    requires !IsOpen(m)
    requires forall i :: 0 <= i < |events| ==> !events[i].Show?
    ensures !IsOpen(Run(m, events))
    decreases |events|
  {
    if events != [] {
      RunWithoutShowStaysClosed(Step(m, events[0]), events[1..]);
    }
  }

  /** Closing twice is closing once. */
  lemma CloseIdempotent(m: View)
    ensures CloseBibtex(CloseBibtex(m)) == CloseBibtex(m)
  {
  }
}
