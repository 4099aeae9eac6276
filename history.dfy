/** The linear undo/redo history of useHistory.ts: past states, the present one and the undone ones. */
module History {

  datatype History<T> = History(past: seq<T>, present: T, future: seq<T>)

  /** The initial history of the hook: nothing to undo or redo. */
  function Init<T>(initialState: T): (h: History<T>)
    ensures !CanUndo(h) && !CanRedo(h)
    ensures Timeline(h) == [initialState]
    ensures Undo(h) == h && Redo(h) == h
  {
    History([], initialState, [])
  }

  /** The action given to setState: a new value or an updater applied to the present one. */
  datatype Action<!T> = Value(v: T) | Updater(f: T -> T)

  /** setState: the old present joins the end of the past and the redo list is cleared. */
  function SetState<T>(h: History<T>, action: Action<T>): History<T>
  {
    var newPresent := match action case Value(v) => v case Updater(f) => f(h.present);
    History(h.past + [h.present], newPresent, [])
  }

  function Undo<T>(h: History<T>): History<T>
  {
    if |h.past| == 0 then h
    else History(h.past[..|h.past| - 1], h.past[|h.past| - 1], [h.present] + h.future)
  }

  function Redo<T>(h: History<T>): History<T>
  {
    if |h.future| == 0 then h
    else History(h.past + [h.present], h.future[0], h.future[1..])
  }

  /** reset: a fresh history around the given state. */
  function Reset<T>(h: History<T>, newState: T): History<T>
  {
    History([], newState, [])
  }

  predicate CanUndo<T>(h: History<T>)
  {
    |h.past| > 0
  }

  predicate CanRedo<T>(h: History<T>)
  {
    |h.future| > 0
  }

  /** Every state the history can reach by undo and redo, oldest first. */
  function Timeline<T>(h: History<T>): seq<T>
  {
    h.past + [h.present] + h.future
  }

  /** setState keeps all the past, makes the new value present (the updater sees the old present) and forgets the future. */
  lemma SetStateEffect<T>(h: History<T>, action: Action<T>)
    ensures SetState(h, action).past == h.past + [h.present]
    ensures SetState(h, action).future == []
    ensures action.Value? ==> SetState(h, action).present == action.v
    ensures action.Updater? ==> SetState(h, action).present == action.f(h.present)
    ensures CanUndo(SetState(h, action)) && !CanRedo(SetState(h, action))
  {
  }

  /** Undo with nothing to undo, and redo with nothing to redo, leave the history as it is. */
  lemma NoOpTransitions<T>(h: History<T>)
    ensures !CanUndo(h) ==> Undo(h) == h
    ensures !CanRedo(h) ==> Redo(h) == h
  {
  }

  /** Undo is reversed by redo. */
  lemma UndoThenRedo<T>(h: History<T>)
    requires CanUndo(h)
    ensures Redo(Undo(h)) == h
  {
    assert h.past[..|h.past| - 1] + [h.past[|h.past| - 1]] == h.past;
    assert ([h.present] + h.future)[1..] == h.future;
  }

  /** Redo is reversed by undo. */
  lemma RedoThenUndo<T>(h: History<T>)
    requires CanRedo(h)
    ensures Undo(Redo(h)) == h
  {
    var p := h.past + [h.present];
    assert p[..|p| - 1] == h.past;
    assert [h.future[0]] + h.future[1..] == h.future;
  }

  /** Undo and redo move through the timeline without changing it, one step back or forward. */
  lemma UndoRedoKeepTimeline<T>(h: History<T>)
    ensures Timeline(Undo(h)) == Timeline(h)
    ensures Timeline(Redo(h)) == Timeline(h)
    ensures |Undo(h).past| + 1 + |Undo(h).future| == |h.past| + 1 + |h.future|
    ensures |Redo(h).past| + 1 + |Redo(h).future| == |h.past| + 1 + |h.future|
    ensures CanUndo(h) ==> |Undo(h).past| == |h.past| - 1
    ensures CanRedo(h) ==> |Redo(h).past| == |h.past| + 1
  {
    if CanUndo(h) {
      var u := Undo(h);
      assert u.past + [u.present] == h.past;
      assert Timeline(u) == u.past + [u.present] + ([h.present] + h.future);
    }
    if CanRedo(h) {
      var r := Redo(h);
      assert [r.present] + r.future == h.future;
      assert Timeline(r) == h.past + [h.present] + ([r.present] + r.future);
    }
  }

  /** The present is always the timeline entry at the length of the past. */
  lemma PresentInTimeline<T>(h: History<T>)
    ensures |h.past| < |Timeline(h)| && Timeline(h)[|h.past|] == h.present
  {
  }

  /** reset leaves nothing to undo or redo. */
  lemma ResetEffect<T>(h: History<T>, s: T)
    ensures Reset(h, s).past == [] && Reset(h, s).present == s && Reset(h, s).future == []
    ensures !CanUndo(Reset(h, s)) && !CanRedo(Reset(h, s))
  {
  }

  /** Undoing a setState returns to the state before it, except that the redo list now holds the discarded value. */
  lemma UndoSetState<T>(h: History<T>, action: Action<T>)
    ensures Undo(SetState(h, action)).past == h.past
    ensures Undo(SetState(h, action)).present == h.present
    ensures Undo(SetState(h, action)).future == [SetState(h, action).present]
  {
    var p := h.past + [h.present];
    assert p[..|p| - 1] == h.past;
  }
}
