# Citation modal, copy flow and typing animation of a terminal-style academic website

The website's `script.js` mostly sets up visual effects. This project models its three stateful parts:

- **The BibTeX citation modal.** `showBibtex(paperId)` looks the key up in the constant table `bibtexData`. For a known key it opens the modal with that entry's text and locks background scrolling. `closeBibtex()` hides the modal and unlocks scrolling. The modal also closes on a click on its backdrop (`window.onclick`), or on Escape while it is shown.
- **The copy flow.** `copyBibtex()` copies the modal's text with `navigator.clipboard.writeText`. It falls back to a hidden `textarea` and `document.execCommand('copy')` when that API is missing, the context is not secure, or the write is rejected. Every attempt ends in exactly one call of `showCopySuccess` or `showCopyError`. Each call relabels and recolours the `.copy-btn` button and schedules a timeout that puts back the label captured at the call.
- **The typing animation.** `addTypingAnimation` empties each `.command` element. `typeText` then types the text back in, one character per interval tick, and clears the interval when the text is used up.

The model has two layers:

- **Pure modules.** `Citations`, `Modal`, `Feedback`, `Clipboard`, and the functions of `Typing`:
  - each handler is a function of the state it reads;
  - `Modal.Run`, `Feedback.RunActions` and `Typing.Steps` apply any sequence of events;
  - the lemmas over those sequences are the properties the page relies on.
- **Classes for the DOM state.**
  - `Page.Document` holds the fields the handlers assign: the modal's display, the body's overflow and children, the content text, the button's label and background, the clipboard, and the queue of pending timeouts.
  - `Typing.CommandElement` and `Typing.Typewriter` hold an element and one `typeText` call.
  - The methods that change the modal, the button and its timer queue, or the typing state are proved to leave exactly the state the matching pure function gives.
  - The body's children, the clipboard and the count of fallback runs are stated directly in the contracts of the two copy methods.

Browser timers are a queue of pending callbacks. `Document.FireTimer(i)` runs any one of them, so firing order is arbitrary. `typeText`'s interval is a loop with one pass per tick. The Clipboard API and `execCommand` results are inputs (`Clipboard.Environment`, `Clipboard.ExecResult`).

The model follows the code as written:

- **Escape.** The Escape handler closes the modal only when its inline `display` is exactly `'block'`.
- **Reopening.** `showBibtex` on an already open modal switches it to the new text.
- **Closing.** `closeBibtex` always sets `display` to `'none'` and `overflow` to `'auto'`.
- **Revert background.** A revert always sets the background to `#3b82f6`.
- **Superseded feedback.** A new feedback leaves an earlier pending revert in the queue. `Feedback.StaleRevert` proves the result: two feedbacks within the delay leave the first feedback's label on the button for good.
- **Missing elements.** The modal and copy functions use their elements without checking that they exist. The model assumes they do.

The citation texts are template literals written with CR LF line ends. JavaScript reads each of these as one LF, so the model's strings use `\n`.

## Model

| member | source | states |
|---|---|---|
| `Citations.Lookup` | script.js:290-309 | the truthiness test `bibtexData[paperId]` succeeds exactly for the keys of the table, and then yields that key's entry, which is one of the table's texts |
| `Citations.Paper1Header` | script.js:291 | the text looked up for `paper1` begins with `@article{zhong2025humanoidexo,` |
| `Modal.ShowBibtex` | script.js:305-314 | an unknown key changes nothing; a known key, even with the modal open on another entry, sets the content to exactly that key's entry, display to `block` and overflow to `hidden`; consistency is preserved |
| `Modal.CloseBibtex` | script.js:316-320 | from any state, display is `none`, overflow is `auto`, the content is kept, and the result is consistent |
| `Modal.CloseIdempotent` | script.js:316-320 | closing twice is the same as closing once |
| `Modal.OnKeydown` | script.js:400-407 | Escape closes the modal exactly when display is `block`; any other key, or Escape on a hidden modal, leaves the state unchanged |
| `Modal.OnClick` | script.js:392-397 | a click closes the modal exactly when its target is the modal element (the backdrop); clicks inside the box or elsewhere change nothing |
| `Modal.Step` | script.js:305-407 | every handler preserves "display is `block` iff overflow is `hidden`, and a shown modal holds a citation text"; only a show can open a hidden modal |
| `Modal.RunPreservesConsistent` | script.js:305-407 | that invariant holds after any sequence of show, close, Escape/keydown and click events from a consistent state |
| `Modal.RunFromInitial` | script.js:305-407 | from the loaded page (no inline style set), after any event sequence, display is `block` exactly when overflow is `hidden`, and the open modal shows one of the `bibtexData` values |
| `Modal.RunContentIsLastShown` | script.js:309-320 | after any event sequence the content element holds the entry of the last known key shown (closing never clears it), or its old text if no known key was shown |
| `Modal.RunWithoutShowStaysClosed` | script.js:305-407 | a hidden modal stays hidden under any sequence of close, keydown and click events |
| `Feedback.OutcomeButton` | script.js:370-383 | success shows `✅ Copied!` on `#27ca3f`, failure shows `❌ Copy Failed` on `#ff5f56` |
| `Feedback.Present` | script.js:367-389 | a feedback shows the outcome's label and colour and schedules exactly one revert, capturing the label the button had at the call |
| `Feedback.Fire` | script.js:373-388 | a firing revert puts back its captured label with background `#3b82f6` and leaves the queue with exactly that timer removed |
| `Feedback.PresentThenFire` | script.js:367-377 | a feedback followed by its own revert restores the label from before the call, sets the background to `#3b82f6`, and leaves the queue as it was |
| `Feedback.StaleRevert` | script.js:367-389 | a second feedback before the first revert captures the first feedback's label; after both reverts fire in order the button keeps that feedback label |
| `Feedback.RunKeepsKnownLabels` | script.js:367-389 | under any interleaving of feedbacks and reverts, the button and every pending revert carry only the original label or one of the two feedback labels |
| `Clipboard.FallbackOutcome` | script.js:352-362 | the fallback reports success exactly when `execCommand('copy')` returned true without throwing |
| `Clipboard.CopyOutcome` | script.js:322-338 | with the API present, a secure context and a resolved write, the result is success without the fallback; otherwise it is the fallback's result; success iff the write succeeded or the legacy command returned true |
| `Clipboard.NoApiFallbackSucceeds` | script.js:334-337 | without the Clipboard API the fallback runs and still reports success when the legacy command succeeds |
| `Typing.Step` | script.js:51-63 | one tick appends at most the next character and only while the interval is registered; a cleared interval changes nothing and never restarts |
| `Typing.StepsPrefix` | script.js:49-54 | after k ticks, k at most the text length n, the element shows its earlier text followed by the first k characters of the text, with the interval still running |
| `Typing.StepsAfterEnd` | script.js:52-62 | tick n+1, n the text length, clears the interval with the whole text shown and the cursor border set; no later tick appends anything |
| `Typing.Typewriter.constructor` | script.js:50-51 | the counter starts at 0 with the interval registered, over the given element and text |
| `Typing.Typewriter.Tick` | script.js:51-63 | the interval callback, in place, leaves exactly the state `Typing.Step` gives |
| `Typing.CursorTimeout` | script.js:58-61 | a pending cursor timeout sets the border to `none` and is used up; the text, the counter and the interval are untouched, and with no timeout pending nothing changes |
| `Typing.Typewriter.FireCursorTimeout` | script.js:58-61 | the cursor timeout, in place, leaves exactly the state `Typing.CursorTimeout` gives |
| `Typing.TypeText` | script.js:49-64 | the loop (invariant: the element shows its old text plus the first i characters) stops after exactly n+1 ticks, n the text length, with the text appended, the interval cleared and the cursor shown, matching `Typing.Steps` |
| `Typing.AnimateCommand` | script.js:36-46 | a missing `.command` element is skipped; otherwise typing starts from the emptied element: the final state is `Typing.Steps` from an empty text over n+1 ticks, n the original text's length, ending with the original text and the cursor shown |
| `Typing.AnimatedPrefix` | script.js:40-54 | typing from the emptied element, after k ticks (k at most the text length) the element shows exactly the first k characters of its original text |
| `Page.Document.ShowBibtex` | script.js:305-314 | updates display, overflow and content in place to exactly `Modal.ShowBibtex` of the old state, touching nothing else |
| `Page.Document.CloseBibtex` | script.js:316-320 | updates display and overflow to `Modal.CloseBibtex` of the old state |
| `Page.Document.OnWindowClick` | script.js:392-397 | leaves exactly `Modal.OnClick` of the old state |
| `Page.Document.OnKeydown` | script.js:400-407 | leaves exactly `Modal.OnKeydown` of the old state |
| `Page.Document.ShowCopySuccess` | script.js:367-377 | leaves the button and timer queue at `Feedback.Present(old, Copied)` |
| `Page.Document.ShowCopyError` | script.js:379-389 | leaves the button and timer queue at `Feedback.Present(old, CopyFailed)` |
| `Page.Document.FireTimer` | script.js:373-388 | running a pending revert leaves exactly `Feedback.Fire` of the old state |
| `Page.Document.FallbackCopyTextToClipboard` | script.js:340-365 | the body's children are the same before and after, on every path; exactly one feedback, success iff the command returned true; on success the clipboard holds the text |
| `Page.Document.CopyBibtex` | script.js:322-338 | exactly one feedback with outcome `Clipboard.CopyOutcome`; the fallback runs exactly when the API path was skipped or rejected; the body's children are unchanged; on success the clipboard holds the content text |

## Left out

- Timing. The delays of `setTimeout` and `setInterval` are not modelled: the 2000 ms revert, the 50 ms tick, the 1000 ms cursor, and the staggered start `index * 500 + 1000`. Pending timeouts form a queue, and the event loop may fire any of them in any order.
- Asynchrony of `navigator.clipboard.writeText`. Its promise is taken to settle straight away. Other events arriving before the `then`/`catch` continuation runs are not modelled.
- Browser calls: `writeText`, `execCommand('copy')`, `focus()` and `select()`. Their results are inputs, and the selection is taken to be the textarea's value. The textarea's style assignments, at script.js:343-346, are left out.
- The clipboard contents. They are a field the successful copy paths write. The system clipboard itself is outside the page.
- Textarea removal. `removeChild(textArea)` is modelled as removing the last body child. That child is the textarea appended at script.js:348, because nothing else touches the body in between.
- Prototype keys. `bibtexData[paperId]` would also be truthy for names inherited from `Object.prototype`, such as `constructor`. The model looks up only the table's own keys, the only keys the page passes.
- Missing elements. `getElementById` and `querySelector` are taken to find their elements. Only the `if (command)` check of script.js:38 is modelled.
- `Typing.AnimateCommand`: models one `.command-line` element. The `forEach` over all of them runs independent copies that interleave in time; that is not modelled.
- `Typing.Step`: strings are sequences of Unicode characters. JavaScript's `charAt` indexes UTF-16 code units, so surrogate pairs would be split differently.
- `Feedback.RunActions`: ignores a fire of a timer that is not pending. The event loop never does that.
- The other Escape listener (script.js:231-233). It scrolls the window to the top, a viewport effect.
- Presentational and browser-resource code:
  - the startup fade, hover effects, the ripple geometry and video clicks;
  - autoplay, image load/error handlers and smooth scrolling;
  - the Ctrl+K shortcut and the injected ripple CSS;
  - scroll animations through `IntersectionObserver`;
  - `terminalLog`, `console` calls and `performance.now`.
