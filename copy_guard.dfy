/**
  The copy protection of script.js: which browser events have their default
  action cancelled by `preventCopy`. A right-click menu and a text selection
  are always cancelled; a key press only when it is Ctrl together with one of
  the keys `c`, `C`, `u`, `U` (copy and view-source).
*/
module CopyGuard {

  /** The two fields of a `keydown` event that the listener reads. */
  datatype KeyEvent = KeyEvent(ctrlKey: bool, key: string)

  /** The events `preventCopy` is attached to. */
  datatype PageEvent = ContextMenu | SelectStart | KeyDown(e: KeyEvent)

  /** The array literal the key is looked up in. */
  const CopyKeys: seq<string> := ["c", "C", "u", "U"]

  /** `xs.includes(x)` on an array of strings: a scan comparing each element with `x`. */
  function Includes(xs: seq<string>, x: string): (r: bool)
    ensures r <==> x in xs
  {
    if xs == [] then false else xs[0] == x || Includes(xs[1..], x)
  }

  /** The `keydown` listener's condition for calling `preventCopy`. */
  function KeyDownCancelled(e: KeyEvent): (r: bool)
    ensures !e.ctrlKey ==> !r
    ensures r ==> |e.key| == 1
  {
    e.ctrlKey && Includes(CopyKeys, e.key)
  }

  /** Whether `preventDefault` is called for the event. */
  function Cancelled(ev: PageEvent): (r: bool)
    ensures !ev.KeyDown? ==> r
    ensures ev.KeyDown? && !ev.e.ctrlKey ==> !r
  {
    match ev
    case ContextMenu => true
    case SelectStart => true
    case KeyDown(e) => KeyDownCancelled(e)
  }

  /** ASCII lower-casing of one character; every other character is left as it is. */
  function LowerAscii(c: char): char
  {
    if 'A' <= c <= 'Z' then (c as int + 32) as char else c
  }

  /** A key press is cancelled exactly when Ctrl is down and the key is one of the four listed. */
  lemma KeyDownCancelledIff(e: KeyEvent)
    ensures KeyDownCancelled(e) <==> e.ctrlKey && (e.key == "c" || e.key == "C" || e.key == "u" || e.key == "U")
  {
  }

  /**
    Stated without the list: a key press is cancelled exactly when Ctrl is
    down and the key is the single letter C or U, in either case. Any other
    key, and any key without Ctrl, goes through.
  */
  lemma KeyDownCancelledIsCtrlCOrU(e: KeyEvent)
    ensures KeyDownCancelled(e) <==> e.ctrlKey && |e.key| == 1 && LowerAscii(e.key[0]) in {'c', 'u'}
  {
    if e.ctrlKey && |e.key| == 1 && LowerAscii(e.key[0]) in {'c', 'u'} {
      var k := e.key[0];
      assert k in {'c', 'C', 'u', 'U'};
      assert e.key == [k];
    }
  }

  /** What the page cancels: every context menu and text selection, and of the key presses only Ctrl+C and Ctrl+U. */
  lemma CancelledEvents(ev: PageEvent)
    ensures Cancelled(ev) <==> !ev.KeyDown? || (ev.e.ctrlKey && |ev.e.key| == 1 && LowerAscii(ev.e.key[0]) in {'c', 'u'})
  {
    if ev.KeyDown? {
      KeyDownCancelledIsCtrlCOrU(ev.e);
    }
  }
}
