/**
  The modal that shows a created link: the `copied` acknowledgement with its
  fire-and-forget 2000 ms timers, and which clicks reach `onClose`. Time is a
  simulated clock in milliseconds; each pending `setTimeout` callback is kept
  as the instant it is due.
*/
module ShareLinkModal {
  import opened Wrappers
  import SubmissionForm

  const CopiedResetMs: int := 2000
  const CopyLabel: string := "\U{1F4CB} Copy Link"
  const CopiedLabel: string := "\U{2713} Copied!"

  /** The modal's `url` prop, its `copied` state, the clock and the due times of pending timers. */
  datatype Modal = Modal(url: string, copied: bool, clock: int, timers: seq<int>)

  /** A freshly mounted modal: `useState(false)` and no timer. */
  function Mount(url: string, clock: int): (m: Modal)
    ensures !m.copied && m.timers == [] && m.url == url
    ensures Valid(m)
  {
    Modal(url, false, clock, [])
  }

  /**
    The reachable shapes: every pending timer is due after the clock and at
    most 2000 ms ahead, timers are due in the order they were set, and the
    flag is only up while some timer will take it down.
  */
  predicate Valid(m: Modal) {
    && (forall i :: 0 <= i < |m.timers| ==> m.clock < m.timers[i] <= m.clock + CopiedResetMs)
    && Ordered(m.timers)
    && (m.copied ==> |m.timers| > 0)
  }

  /** Non-decreasing: callbacks set later with the same delay are due later. */
  predicate Ordered(s: seq<int>) {
    forall i, j :: 0 <= i < j < |s| ==> s[i] <= s[j]
  }

  /** The text shown in the link box (`{url}`). */
  function DisplayedText(m: Modal): string {
    m.url
  }

  /** The text handed to `navigator.clipboard.writeText`. */
  function ClipboardText(m: Modal): string {
    m.url
  }

  /** The copy button's label. */
  function ButtonLabel(m: Modal): (text: string)
    ensures text == CopiedLabel <==> m.copied
    ensures text == CopyLabel <==> !m.copied
  {
    if m.copied then CopiedLabel else CopyLabel
  }

  /**
    `copyToClipboard` once the clipboard write settles. A successful write
    raises the flag and schedules one callback 2000 ms ahead; earlier
    callbacks stay scheduled (no `clearTimeout`). A rejected write is only
    logged.
  */
  function CopyToClipboard(m: Modal, writeSucceeded: bool): (r: Modal)
    requires Valid(m)
    ensures Valid(r)
    ensures writeSucceeded ==> r.copied && r.timers == m.timers + [m.clock + CopiedResetMs]
    ensures writeSucceeded ==> r.url == m.url && r.clock == m.clock
    ensures !writeSucceeded ==> r == m
  {
    if writeSucceeded then m.(copied := true, timers := m.timers + [m.clock + CopiedResetMs]) else m
  }

  /** Some pending timer is due at or before `now`. */
  predicate AnyDue(timers: seq<int>, now: int) {
    exists i :: 0 <= i < |timers| && timers[i] <= now
  }

  /** The timers still pending at `now`, in their order. */
  function StillPending(timers: seq<int>, now: int): (rest: seq<int>)
    ensures forall t :: t in rest <==> t in timers && t > now
    ensures |rest| <= |timers|
    ensures Ordered(timers) ==> Ordered(rest)
    decreases |timers|
  {
    if timers == [] then []
    else
      var tail := StillPending(timers[1..], now);
      assert forall t :: t in timers[1..] ==> t in timers;
      if timers[0] <= now then tail
      else
        assert Ordered(timers) ==> forall k :: 0 <= k < |tail| ==> timers[0] <= tail[k] by {
          if Ordered(timers) {
            forall k | 0 <= k < |tail|
              ensures timers[0] <= tail[k]
            {
              assert tail[k] in timers[1..];
              var idx :| 0 <= idx < |timers[1..]| && timers[1..][idx] == tail[k];
              assert timers[idx + 1] == tail[k];
            }
          }
        }
        [timers[0]] + tail
  }

  /**
    Let `elapsed` ms pass. Every callback due by then runs and sets `copied`
    to false; the others stay pending.
  */
  function Advance(m: Modal, elapsed: nat): (r: Modal)
    requires Valid(m)
    ensures Valid(r)
    ensures r.clock == m.clock + elapsed && r.url == m.url
    ensures r.copied <==> m.copied && !AnyDue(m.timers, r.clock)
    ensures forall t :: t in r.timers <==> t in m.timers && t > r.clock
  {
    var now := m.clock + elapsed;
    var rest := StillPending(m.timers, now);
    var r := Modal(m.url, m.copied && !AnyDue(m.timers, now), now, rest);
    assert forall i :: 0 <= i < |rest| ==> rest[i] in m.timers;
    assert r.copied ==> m.timers[0] in rest;
    r
  }

  /** Whatever happened before, a raised acknowledgement is gone within 2000 ms. */
  lemma AcknowledgementClearsWithinWindow(m: Modal)
    requires Valid(m) && m.copied
    ensures !Advance(m, CopiedResetMs).copied
  {
    assert m.timers[0] <= m.clock + CopiedResetMs;
  }

  /** A single successful copy shows "Copied" for 1999 ms and clears at 2000 ms. */
  lemma SingleCopyLastsTwoSeconds(url: string, clock: int)
    ensures var m := CopyToClipboard(Mount(url, clock), true);
      && ButtonLabel(m) == CopiedLabel
      && Advance(m, CopiedResetMs - 1).copied
      && !Advance(m, CopiedResetMs).copied
  {
    var m := CopyToClipboard(Mount(url, clock), true);
    assert m.timers == [clock + CopiedResetMs];
  }

  /**
    Timers are never cleared: after copies at `clock` and `clock + d`, with d
    under 2000 ms, the flag drops 2000 ms after the first copy, only
    2000 - d ms after the second, and the second callback is still pending.
  */
  lemma SecondCopyDoesNotRestartWindow(url: string, clock: int, d: nat)
    requires 0 < d < CopiedResetMs
    ensures var first := CopyToClipboard(Mount(url, clock), true);
      var second := CopyToClipboard(Advance(first, d), true);
      var later := Advance(second, CopiedResetMs - d);
      && second.copied
      && !later.copied
      && later.clock == clock + CopiedResetMs
      && later.timers == [clock + d + CopiedResetMs]
  {
    var first := CopyToClipboard(Mount(url, clock), true);
    var mid := Advance(first, d);
    assert mid.timers == [clock + CopiedResetMs];
    var second := CopyToClipboard(mid, true);
    assert second.timers == [clock + CopiedResetMs, clock + d + CopiedResetMs];
    var later := Advance(second, CopiedResetMs - d);
    assert AnyDue(second.timers, later.clock) by {
      assert second.timers[0] <= later.clock;
    }
    assert StillPending(second.timers, later.clock) == [clock + d + CopiedResetMs] by {
      var tail := [clock + d + CopiedResetMs];
      assert second.timers[1..] == tail;
      assert StillPending(tail, later.clock) == tail by {
        assert tail[1..] == [];
      }
    }
  }

  /** What the modal's own DOM elements are. */
  datatype Element = Backdrop | Panel | CloseButton | LinkBox | CopyButton | DoneButton

  /** The handlers wired to `onClick`. */
  datatype Handler = OnClose | Copy | StopPropagation

  function HandlerOf(e: Element): Option<Handler> {
    match e
    case Backdrop => Some(OnClose)
    case Panel => Some(StopPropagation)
    case CloseButton => Some(OnClose)
    case CopyButton => Some(Copy)
    case DoneButton => Some(OnClose)
    case LinkBox => None
  }

  /** The element a click lands on, then the elements it bubbles through. */
  function BubblePath(e: Element): (path: seq<Element>)
    ensures |path| > 0 && path[0] == e && path[|path| - 1] == Backdrop
  {
    match e
    case Backdrop => [Backdrop]
    case Panel => [Panel, Backdrop]
    case _ => [e, Panel, Backdrop]
  }

  /** The visible handlers run, in order, until one stops propagation. */
  function Bubble(path: seq<Element>): (handlers: seq<Handler>)
    ensures StopPropagation !in handlers
    ensures |handlers| <= |path|
  {
    if path == [] then []
    else
      match HandlerOf(path[0])
      case Some(StopPropagation) => []
      case Some(h) => [h] + Bubble(path[1..])
      case None => Bubble(path[1..])
  }

  function HandlersOfClick(e: Element): seq<Handler> {
    Bubble(BubblePath(e))
  }

  /**
    The backdrop, the close button and the Done button each call `onClose`
    exactly once; the copy button only copies; a click anywhere else inside
    the panel stops before the backdrop and does nothing.
  */
  lemma ClickWiring(e: Element)
    ensures HandlersOfClick(e) == [OnClose] <==> e == Backdrop || e == CloseButton || e == DoneButton
    ensures HandlersOfClick(e) == [Copy] <==> e == CopyButton
    ensures HandlersOfClick(e) == [] <==> e == Panel || e == LinkBox
  {
    match e
    case Backdrop =>
    case Panel =>
    case CloseButton => InnerClickStopsAtPanel(e);
    case CopyButton => InnerClickStopsAtPanel(e);
    case DoneButton => InnerClickStopsAtPanel(e);
    case LinkBox => InnerClickStopsAtPanel(e);
  }

  lemma InnerClickStopsAtPanel(e: Element)
    requires e != Backdrop && e != Panel
    ensures HandlersOfClick(e) == if HandlerOf(e).Some? then [HandlerOf(e).value] else []
  {
    var path := BubblePath(e);
    assert path[1..] == [Panel, Backdrop];
    assert Bubble(path[1..]) == [];
  }

  /** The form and, while `showModal` holds, the mounted modal. */
  datatype Screen = Screen(page: SubmissionForm.Page, modal: Option<Modal>)

  /** A click inside the open modal, the clipboard answering `writeSucceeded`. */
  function ClickModal(s: Screen, e: Element, writeSucceeded: bool): (r: Screen)
    requires s.modal.Some? && Valid(s.modal.value)
    ensures HandlersOfClick(e) == [OnClose] ==>
      r.modal.None? && r.page == SubmissionForm.CloseModal(s.page)
    ensures HandlersOfClick(e) == [] ==> r == s
    ensures e == CopyButton ==>
      r.page == s.page && r.modal == Some(CopyToClipboard(s.modal.value, writeSucceeded))
  {
    ClickWiring(e);
    if HandlersOfClick(e) == [OnClose] then Screen(SubmissionForm.CloseModal(s.page), None)
    else if e == CopyButton then s.(modal := Some(CopyToClipboard(s.modal.value, writeSucceeded)))
    else s
  }

  /**
    The link the form received is the link shown and the link copied: the
    modal is mounted with the form's `shareableUrl`.
  */
  lemma ModalShowsAndCopiesTheLink(p: SubmissionForm.Page, clock: int, writeSucceeded: bool)
    ensures var m := Mount(p.shareableUrl, clock);
      && DisplayedText(m) == p.shareableUrl
      && ClipboardText(m) == p.shareableUrl
      && ClipboardText(CopyToClipboard(m, writeSucceeded)) == p.shareableUrl
      && !m.copied
  {
  }
}
