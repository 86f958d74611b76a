/** The undo stack: each command carries the event that applies it and the
    event that reverts it. Pushing applies a command, undo reverts the most
    recent one, replay re-applies the whole stack in order, and clear empties
    it and resets the stopwatch. The events a call dispatches are returned
    alongside the new stack; saving the stack and the time is not modelled. */
module UndoStack {
  import opened Clock

  datatype Command<E> = Command(redo: E, undo: E)

  /** The undo stack together with the stopwatch it resets. */
  datatype History<E> = History(stack: seq<Command<E>>, watch: Stopwatch)

  /** The state after a call and the events it dispatched, in order. */
  datatype Effect<E> = Effect(after: History<E>, events: seq<E>)

  /** `push`: the command goes on top and its redo event is dispatched. */
  function Push<E>(h: History<E>, cmd: Command<E>): (r: Effect<E>)
    ensures |r.after.stack| == |h.stack| + 1 && r.after.stack[..|h.stack|] == h.stack
    ensures r.after.stack[|h.stack|] == cmd && r.events == [cmd.redo]
    ensures r.after.watch == h.watch
  {
    Effect(h.(stack := h.stack + [cmd]), [cmd.redo])
  }

  /** `undo`: nothing happens on an empty stack; otherwise the top command
      is removed and its undo event dispatched. */
  function Undo<E>(h: History<E>): (r: Effect<E>)
    ensures |h.stack| == 0 ==> r == Effect(h, [])
    ensures |h.stack| > 0 ==>
              && r.after.stack + [h.stack[|h.stack| - 1]] == h.stack
              && r.events == [h.stack[|h.stack| - 1].undo]
    ensures r.after.watch == h.watch
  {
    if |h.stack| > 0 then
      var n := |h.stack| - 1;
      Effect(h.(stack := h.stack[..n]), [h.stack[n].undo])
    else Effect(h, [])
  }

  /** `clear`: empty the stack and reset the stopwatch; nothing is dispatched. */
  function Clear<E>(h: History<E>): (r: Effect<E>)
    ensures |r.after.stack| == 0 && |r.events| == 0
    ensures r.after.watch == Zero
  {
    var w := Reset(h.watch);
    Effect(History([], w), [])
  }

  /** `replay`: the redo events of the stack, bottom first. */
  function Replay<E>(stack: seq<Command<E>>): (events: seq<E>)
    ensures |events| == |stack|
    ensures forall i :: 0 <= i < |stack| ==> events[i] == stack[i].redo
  {
    if stack == [] then [] else Replay(stack[..|stack| - 1]) + [stack[|stack| - 1].redo]
  }

  /** Undo reverts exactly the last push, restoring the stack. */
  lemma PushThenUndo<E>(h: History<E>, cmd: Command<E>)
    ensures Undo(Push(h, cmd).after) == Effect(h, [cmd.undo])
  {
    assert (h.stack + [cmd])[..|h.stack|] == h.stack;
  }

  /** Replaying after a push dispatches what replaying before did, then the
      pushed command's redo event. */
  lemma ReplayAfterPush<E>(h: History<E>, cmd: Command<E>)
    ensures Replay(Push(h, cmd).after.stack) == Replay(h.stack) + [cmd.redo]
  {
  }

  /** `n` undo calls in a row. */
  function UndoTimes<E>(h: History<E>, n: nat): (r: Effect<E>)
    decreases n
    ensures r.after.watch == h.watch
  {
    if n == 0 then Effect(h, [])
    else
      var first := Undo(h);
      var rest := UndoTimes(first.after, n - 1);
      Effect(rest.after, first.events + rest.events)
  }

  /** The undo events of a stack, top first. */
  function Reverts<E>(stack: seq<Command<E>>): (events: seq<E>)
    ensures |events| == |stack|
    ensures forall i :: 0 <= i < |stack| ==> events[i] == stack[|stack| - 1 - i].undo
  {
    if stack == [] then [] else [stack[|stack| - 1].undo] + Reverts(stack[..|stack| - 1])
  }

  /** Undoing as many times as there are commands empties the stack and
      reverts every command, most recent first; further undo calls do
      nothing. */
  lemma {:induction false} UndoEverything<E>(h: History<E>, extra: nat)
    decreases |h.stack|
    ensures UndoTimes(h, |h.stack| + extra) == Effect(h.(stack := []), Reverts(h.stack))
  {
    if |h.stack| == 0 {
      UndoNothing(h, extra);
    } else {
      var n := |h.stack| - 1;
      var h1 := h.(stack := h.stack[..n]);
      assert Undo(h).after == h1;
      UndoEverything(h1, extra);
    }
  }

  lemma {:induction false} UndoNothing<E>(h: History<E>, n: nat)
    requires h.stack == []
    ensures UndoTimes(h, n) == Effect(h, [])
  {
    if n > 0 {
      UndoNothing(h, n - 1);
    }
  }
}
