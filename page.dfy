/**
 * The page state the citation modal and the copy flow work on, as one object
 * whose fields the handlers of script.js update in place: the modal's
 * display, the body's overflow and children, the content element's text, the
 * copy button's label and background, the system clipboard, and the queue of
 * pending timeouts.
 */
module Page {
  import opened Wrappers
  import Citations
  import Modal
  import Feedback
  import Clipboard

  /** A child of the document body; the fallback copy appends a `textarea` holding the text to copy. */
  datatype Element = Element(tag: string, value: string)

  class Document {
    var modalDisplay: string
    var bodyOverflow: string
    var bibtexContent: string
    var copyLabel: string
    var copyBackground: string
    var bodyChildren: seq<Element>
    var clipboard: string
    var pending: seq<Feedback.Timer>
    /** How many times fallbackCopyTextToClipboard has run. */
    ghost var fallbackRuns: nat

    function ModalView(): Modal.View
      reads this
    {
      Modal.View(modalDisplay, bodyOverflow, bibtexContent)
    }

    function Presenter(): Feedback.Presenter
      reads this
    {
      Feedback.Presenter(Feedback.Button(copyLabel, copyBackground), pending)
    }

    /**
     * The modal invariant. The modal handlers preserve it; the copy and timer
     * methods keep it because their frames leave the modal fields out.
     */
    ghost predicate Valid()
      reads this
    {
      Modal.Consistent(ModalView())
    }

    /** The loaded page: no inline style set, an empty content element, no timeout pending. */
    constructor (copyLabel: string, bodyChildren: seq<Element>, clipboard: string)
      ensures Valid() && ModalView() == Modal.Initial
      ensures Presenter() == Feedback.Presenter(Feedback.Button(copyLabel, ""), [])
      ensures this.bodyChildren == bodyChildren && this.clipboard == clipboard && fallbackRuns == 0
    {
      modalDisplay, bodyOverflow, bibtexContent := "", "", "";
      this.copyLabel, copyBackground := copyLabel, "";
      this.bodyChildren, this.clipboard := bodyChildren, clipboard;
      pending := [];
      fallbackRuns := 0;
    }

    method ShowBibtex(paperId: string)
      modifies this`modalDisplay, this`bodyOverflow, this`bibtexContent
      ensures ModalView() == Modal.ShowBibtex(old(ModalView()), paperId)
      ensures old(Valid()) ==> Valid()
    {
      match Citations.Lookup(paperId) {
        case Some(text) =>
          bibtexContent := text;
          modalDisplay := Modal.DisplayBlock;
          bodyOverflow := Modal.OverflowHidden;
        case None =>
      }
    }

    method CloseBibtex()
      modifies this`modalDisplay, this`bodyOverflow
      ensures ModalView() == Modal.CloseBibtex(old(ModalView()))
      ensures Valid()
    {
      modalDisplay := Modal.DisplayNone;
      bodyOverflow := Modal.OverflowAuto;
    }

    /** window.onclick. */
    method OnWindowClick(target: Modal.Target)
      modifies this`modalDisplay, this`bodyOverflow
      ensures ModalView() == Modal.OnClick(old(ModalView()), target)
      ensures old(Valid()) ==> Valid()
    {
      if target == Modal.Overlay {
        CloseBibtex();
      }
    }

    /** The keydown listener that closes the modal on Escape. */
    method OnKeydown(key: string)
      modifies this`modalDisplay, this`bodyOverflow
      ensures ModalView() == Modal.OnKeydown(old(ModalView()), key)
      ensures old(Valid()) ==> Valid()
    {
      if key == "Escape" {
        if modalDisplay == Modal.DisplayBlock {
          CloseBibtex();
        }
      }
    }

    method ShowCopySuccess()
      modifies this`copyLabel, this`copyBackground, this`pending
      ensures Presenter() == Feedback.Present(old(Presenter()), Feedback.Copied)
    {
      var originalText := copyLabel;
      copyLabel := Feedback.SuccessLabel;
      copyBackground := Feedback.SuccessBackground;
      pending := pending + [Feedback.RestoreCopyButton(originalText)];
    }

    method ShowCopyError()
      modifies this`copyLabel, this`copyBackground, this`pending
      ensures Presenter() == Feedback.Present(old(Presenter()), Feedback.CopyFailed)
    {
      var originalText := copyLabel;
      copyLabel := Feedback.FailureLabel;
      copyBackground := Feedback.FailureBackground;
      pending := pending + [Feedback.RestoreCopyButton(originalText)];
    }

    /** The event loop runs the pending timeout at position `i` and drops it from the queue. */
    method FireTimer(i: nat)
      requires i < |pending|
      modifies this`copyLabel, this`copyBackground, this`pending
      ensures Presenter() == Feedback.Fire(old(Presenter()), i)
    {
      match pending[i] {
        case RestoreCopyButton(originalText) =>
          copyLabel := originalText;
          copyBackground := Feedback.RevertBackground;
      }
      pending := pending[..i] + pending[i + 1..];
    }

    /**
     * The legacy copy: a hidden textarea holding `text` is appended to the
     * body and selected, `execCommand('copy')` (whose result is `exec`)
     * copies the selection, exactly one feedback is shown, and the textarea
     * is removed again on every path.
     */
    method FallbackCopyTextToClipboard(text: string, exec: Clipboard.ExecResult)
      modifies this`bodyChildren, this`clipboard, this`copyLabel, this`copyBackground, this`pending, this`fallbackRuns
      ensures bodyChildren == old(bodyChildren)
      ensures Presenter() == Feedback.Present(old(Presenter()), Clipboard.FallbackOutcome(exec))
      ensures clipboard == if exec == Clipboard.Returned(true) then text else old(clipboard)
      ensures fallbackRuns == old(fallbackRuns) + 1
    {
      fallbackRuns := fallbackRuns + 1;
      var textArea := Element("textarea", text);
      bodyChildren := bodyChildren + [textArea];
      // focus() and select(): the selection is the textarea's value
      var selection := textArea.value;
      match exec {
        case Returned(successful) =>
          if successful {
            clipboard := selection;
            ShowCopySuccess();
          } else {
            ShowCopyError();
          }
        case Threw =>
          ShowCopyError();
      }
      assert bodyChildren[|bodyChildren| - 1] == textArea;
      bodyChildren := bodyChildren[..|bodyChildren| - 1];
    }

    /**
     * copyBibtex: copies the content element's text through the Clipboard API
     * when it is there and the context is secure, falling back to the legacy
     * copy when it is absent or its promise rejects. One feedback per call.
     */
    method CopyBibtex(env: Clipboard.Environment)
      modifies this`bodyChildren, this`clipboard, this`copyLabel, this`copyBackground, this`pending, this`fallbackRuns
      ensures bodyChildren == old(bodyChildren)
      ensures Presenter() == Feedback.Present(old(Presenter()), Clipboard.CopyOutcome(env))
      ensures clipboard == if Clipboard.CopyOutcome(env) == Feedback.Copied then old(bibtexContent) else old(clipboard)
      ensures fallbackRuns == old(fallbackRuns) + (if Clipboard.RunsFallback(env) then 1 else 0)
    {
      var text := bibtexContent;
      if env.hasClipboardApi && env.secureContext {
        if env.writeResolves {
          clipboard := text;
          ShowCopySuccess();
        } else {
          FallbackCopyTextToClipboard(text, env.exec);
        }
      } else {
        FallbackCopyTextToClipboard(text, env.exec);
      }
    }
  }
}
