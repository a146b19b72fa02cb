/**
 * The typing animation of the `.command` elements. addTypingAnimation empties
 * each element and later calls typeText, whose interval callback appends one
 * character per tick and, once the text is exhausted, clears the interval and
 * shows a cursor border, which a second timeout removes again.
 */
module Typing {

  const CursorBorder: string := "2px solid #3b82f6"
  const NoBorder: string := "none"

  /**
   * The state one typeText call acts on: the element's text and right border,
   * the closure's counter `i`, whether the interval is still registered, and
   * whether the timeout that removes the cursor is pending.
   */
  datatype Progress = Progress(shown: string, next: nat, active: bool, border: string, cursorPending: bool)

  /** Right after typeText has registered its interval. */
  function Start(shown: string, border: string): Progress {
    Progress(shown, 0, true, border, false)
  }

  /**
   * One firing of the interval. A cleared interval never fires again, so the
   * state of a stopped animation is left alone.
   */
  function Step(source: string, t: Progress): (r: Progress)
    ensures !t.active ==> r == t
    ensures r.shown == t.shown || (t.active && t.next < |source| && r.shown == t.shown + [source[t.next]])
    ensures r.active ==> t.active
  {
    if !t.active then t
    else if t.next < |source| then t.(shown := t.shown + [source[t.next]], next := t.next + 1)
    else t.(active := false, border := CursorBorder, cursorPending := true)
  }

  /** The state after `k` firings of the interval. */
  function Steps(source: string, t: Progress, k: nat): Progress {
    if k == 0 then t else Step(source, Steps(source, t, k - 1))
  }

  /** After k <= |source| ticks the element shows what it held before followed by the first k characters. */
  lemma {:induction false} StepsPrefix(source: string, shown: string, border: string, k: nat)
    requires k <= |source|
    ensures Steps(source, Start(shown, border), k) == Progress(shown + source[..k], k, true, border, false)
  {
    if k > 0 {
      StepsPrefix(source, shown, border, k - 1);
      assert source[..k] == source[..k - 1] + [source[k - 1]];
    }
  }

  /**
   * Tick |source| + 1 clears the interval with the whole text shown, and no
   * later tick changes anything: no character is appended after clearing.
   */
  lemma {:induction false} StepsAfterEnd(source: string, shown: string, border: string, k: nat)
    requires k > |source|
    ensures Steps(source, Start(shown, border), k) == Progress(shown + source, |source|, false, CursorBorder, true)
  {
    if k == |source| + 1 {
      StepsPrefix(source, shown, border, |source|);
      assert source[..|source|] == source;
    } else {
      StepsAfterEnd(source, shown, border, k - 1);
    }
  }

  /** The timeout scheduled when the interval was cleared: if pending, it removes the cursor and is used up. */
  function CursorTimeout(t: Progress): (r: Progress)
    ensures !r.cursorPending
    ensures r.shown == t.shown && r.next == t.next && r.active == t.active
    ensures r.border == if t.cursorPending then NoBorder else t.border
  {
    if t.cursorPending then t.(border := NoBorder, cursorPending := false) else t
  }

  /** The `.command` element: its text and its right border. */
  class CommandElement {
    var text: string
    var border: string

    constructor (text: string)
      ensures this.text == text && border == ""
    {
      this.text := text;
      border := "";
    }
  }

  /** One typeText call: the element it types into, the text it captured, its counter and its interval. */
  class Typewriter {
    const element: CommandElement
    const source: string
    var i: nat
    var active: bool
    var cursorPending: bool

    function View(): Progress
      reads this, element
    {
      Progress(element.text, i, active, element.border, cursorPending)
    }

    /** `let i = 0` and `setInterval`. */
    constructor (element: CommandElement, text: string)
      ensures this.element == element && source == text
      ensures View() == Start(element.text, element.border)
    {
      this.element := element;
      source := text;
      i := 0;
      active := true;
      cursorPending := false;
    }

    /** The interval callback, run only while the interval is registered. */
    method Tick()
      modifies this, element
      ensures View() == Step(source, old(View()))
    {
      if active {
        if i < |source| {
          element.text := element.text + [source[i]];
          i := i + 1;
        } else {
          active := false;
          element.border := CursorBorder;
          cursorPending := true;
        }
      }
    }

    /** The timeout scheduled when the interval was cleared: it removes the cursor. */
    method FireCursorTimeout()
      modifies this`cursorPending, element`border
      ensures View() == CursorTimeout(old(View()))
    {
      if cursorPending {
        element.border := NoBorder;
        cursorPending := false;
      }
    }
  }

  /**
   * typeText, with its interval run until it clears itself. Each pass of the
   * loop is one firing; the element always shows its old text followed by
   * the first `i` characters of `text`.
   */
  method TypeText(element: CommandElement, text: string) returns (w: Typewriter, ticks: nat)
    modifies element
    ensures fresh(w) && w.element == element && w.source == text
    ensures w.View() == Steps(text, Start(old(element.text), old(element.border)), ticks)
    ensures ticks == |text| + 1 && !w.active && w.cursorPending
    ensures element.text == old(element.text) + text && element.border == CursorBorder
  {
    w := new Typewriter(element, text);
    ticks := 0;
    while w.active
      invariant w.i <= |text|
      invariant element.text == old(element.text) + text[..w.i]
      invariant w.active ==> ticks == w.i && element.border == old(element.border) && !w.cursorPending
      invariant !w.active ==> w.i == |text| && ticks == |text| + 1 && element.border == CursorBorder && w.cursorPending
      decreases |text| - w.i + (if w.active then 1 else 0)
    {
      w.Tick();
      ticks := ticks + 1;
    }
    assert text[..|text|] == text;
    StepsAfterEnd(text, old(element.text), old(element.border), ticks);
  }

  /**
   * The part of addTypingAnimation for one `.command-line`: a missing
   * `.command` element is skipped; otherwise its text is captured, the
   * element emptied, and the captured text typed back in from the empty
   * string, so that after k ticks it shows the first k characters
   * (StepsPrefix with an empty `shown`).
   */
  method AnimateCommand(command: CommandElement?) returns (w: Typewriter?, ticks: nat)
    modifies command
    ensures command == null <==> w == null
    ensures command != null ==> w.element == command && w.source == old(command.text)
    ensures command != null ==> w.View() == Steps(old(command.text), Start("", old(command.border)), ticks)
    ensures command != null ==> ticks == |old(command.text)| + 1
    ensures command != null ==> command.text == old(command.text) && command.border == CursorBorder
  {
    w, ticks := null, 0;
    if command != null {
      var originalText := command.text;
      command.text := "";
      w, ticks := TypeText(command, originalText);
    }
  }

  /** What the animated element shows after k of its ticks: exactly the first k characters of its original text. */
  lemma {:induction false} AnimatedPrefix(original: string, border: string, k: nat)
    requires k <= |original|
    ensures Steps(original, Start("", border), k).shown == original[..k]
  {
    StepsPrefix(original, "", border, k);
  }
}
