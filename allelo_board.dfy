/**
 * The `AlleloBoard` object: its board dimensions and stone radius, its
 * listener registry (event type to ordered handler list), and the leaf
 * overlay it keeps in step with the board. WebGL and the DOM are replaced by
 * the trace `DrawStone` returns and by the `leaves` field.
 */
module Allelo {
  import opened Wrappers
  import opened Geometry
  import opened Listeners
  import opened Animation

  /** One listener invocation `handler(x, y)`. */
  datatype Call<H> = Call(handler: H, x: int, y: int)

  /** The handlers registered for `eventType`; a missing entry reads as none. */
  function ListenersOf<H>(m: map<string, seq<H>>, eventType: string): seq<H> {
    if eventType in m then m[eventType] else []
  }

  /**
   * The registry after `addEventListener(t, h)` and then
   * `removeEventListener(t, h)`: when `h` was not registered for `t`, the
   * list for `t` is back to what it was.
   */
  lemma AddThenRemoveRestores<H>(m: map<string, seq<H>>, t: string, h: H)
    requires h !in ListenersOf(m, t)
    ensures var added := m[t := ListenersOf(m, t) + [h]];
      ListenersOf(added[t := RemoveElement(added[t], h)], t) == ListenersOf(m, t)
  {
    RemoveElementUndoesAppend(ListenersOf(m, t), h);
  }

  class AlleloBoard<H(==)> {
    const boardWidth: int
    const boardHeight: int
    const stoneSize: real
    var listeners: map<string, seq<H>>
    /** The overlay: the display state of leaf `i`, for every cell index i. */
    var leaves: seq<LeafState>

    ghost predicate Valid()
      reads this
    {
      boardWidth >= 1 && boardHeight >= 1 && |leaves| == boardWidth * boardHeight
    }

    /**
     * A board of `boardWidth` by `boardHeight` cells drawn on a canvas of
     * `width` by `height` pixels: no listeners, every leaf hidden.
     */
    constructor (boardWidth: int, boardHeight: int, width: int, height: int)
      requires boardWidth >= 1 && boardHeight >= 1
      ensures Valid()
      ensures this.boardWidth == boardWidth && this.boardHeight == boardHeight
      ensures stoneSize == StoneSize(width, height, boardWidth, boardHeight)
      ensures listeners == map[]
      ensures leaves == seq(boardWidth * boardHeight, _ => Hidden)
    {
      this.boardWidth := boardWidth;
      this.boardHeight := boardHeight;
      stoneSize := StoneSize(width, height, boardWidth, boardHeight);
      listeners := map[];
      leaves := seq(boardWidth * boardHeight, _ => Hidden);
    }

    /** `addEventListener`: append the handler to the type's list, creating the list if missing. */
    method AddEventListener(eventType: string, handler: H)
      modifies this`listeners
      ensures listeners == old(listeners)[eventType := ListenersOf(old(listeners), eventType) + [handler]]
    {
      if eventType !in listeners {
        listeners := listeners[eventType := []];
      }
      listeners := listeners[eventType := listeners[eventType] + [handler]];
    }

    /**
     * `removeEventListener`: nothing happens for a type never registered;
     * otherwise a given handler loses its first occurrence, and an omitted
     * handler empties the type's list.
     */
    method RemoveEventListener(eventType: string, handler: Option<H>)
      modifies this`listeners
      ensures eventType !in old(listeners) ==> listeners == old(listeners)
      ensures eventType in old(listeners) && handler.None? ==> listeners == old(listeners)[eventType := []]
      ensures eventType in old(listeners) && handler.Some? ==>
        listeners == old(listeners)[eventType := RemoveElement(old(listeners)[eventType], handler.value)]
    {
      if eventType !in listeners {
        return;
      }
      if handler.Some? {
        listeners := listeners[eventType := RemoveElement(listeners[eventType], handler.value)];
      } else {
        listeners := listeners[eventType := []];
      }
    }

    /**
     * `clickHandler`: map the pointer offset (pixels from the surface's left
     * and top edges) on a surface of `offsetWidth` by `offsetHeight` pixels to
     * board coordinates, then call every "click" listener, in registration
     * order, with the same coordinates.
     */
    method ClickHandler(offsetX: real, offsetY: real, offsetWidth: int, offsetHeight: int)
      returns (calls: seq<Call<H>>)
      requires offsetWidth > 0 && offsetHeight > 0
      ensures var x := ClickCoordinate(boardWidth, offsetX, offsetWidth);
        var y := ClickCoordinate(boardHeight, offsetY, offsetHeight);
        var l := ListenersOf(listeners, "click");
        |calls| == |l| && forall k :: 0 <= k < |l| ==> calls[k] == Call(l[k], x, y)
    {
      var x := ClickCoordinate(boardWidth, offsetX, offsetWidth);
      var y := ClickCoordinate(boardHeight, offsetY, offsetHeight);
      calls := [];
      if "click" in listeners {
        var l := listeners["click"];
        for k := 0 to |l|
          invariant |calls| == k
          invariant forall m :: 0 <= m < k ==> calls[m] == Call(l[m], x, y)
        {
          calls := calls + [Call(l[k], x, y)];
        }
      }
    }

    /**
     * `updateLeaves`: leaf i is shown dark where `state[i] > 0`, shown light
     * where `state[i] < 0`, and hidden elsewhere. The new overlay depends on
     * `state` alone, so refreshing twice with one snapshot changes nothing.
     */
    method UpdateLeaves(state: seq<real>)
      requires Valid()
      modifies this`leaves
      ensures Valid()
      ensures leaves == Overlay(state, boardWidth * boardHeight)
    {
      var n := boardWidth * boardHeight;
      for i := 0 to n
        invariant |leaves| == n
        invariant forall j :: 0 <= j < i ==> leaves[j] == Overlay(state, n)[j]
      {
        if i < |state| && state[i] != 0.0 {
          leaves := leaves[i := if state[i] > 0.0 then Dark else Light];
        } else {
          leaves := leaves[i := Hidden];
        }
      }
    }

    /**
     * `drawStone(boardState, color, addIndex, removeIndices)`, reading the
     * clock from `clock`: the events it produces are those of `Timeline`; the
     * caller's `boardState` is only read; the overlay is refreshed from it
     * once the grow phase (or the immediate draw) is over.
     */
    method DrawStone(boardState: array<real>, color: real, addIndex: Option<int>,
                     removeIndices: seq<int>, clock: seq<int>)
      returns (trace: seq<Event>, completed: bool)
      requires Valid()
      requires forall e :: e in removeIndices ==> e < boardState.Length
      modifies this`leaves
      ensures Valid()
      ensures Outcome(trace, completed) ==
        Timeline(boardState[..], color, addIndex, removeIndices, clock, stoneSize)
      ensures var g := GrowRun(Recolour(boardState[..], color, addIndex, removeIndices),
                               stoneSize, addIndex, clock);
        leaves == if g.done then Overlay(boardState[..], boardWidth * boardHeight) else old(leaves)
    {
      var s := boardState[..];
      var b := WorkingCopy(s, color, addIndex, removeIndices);
      var frames: seq<seq<real>>, next: nat, done: bool;
      if addIndex.Some? {
        frames, next, done := RunPhase(Grow(addIndex.value), b, stoneSize, clock, 0);
      } else {
        var frame := ComputeFrame(Still, b, stoneSize, 0);
        frames, next, done := [frame], 0, true;
      }
      trace := Draws(frames);
      if !done {
        completed := false;
        return;
      }
      UpdateLeaves(s);
      trace := trace + [Refresh(s)];
      if |removeIndices| > 0 {
        var declined: seq<seq<real>>, _, finished := RunPhase(Decline(removeIndices), b, stoneSize, clock, next);
        trace := trace + Draws(declined);
        completed := finished;
      } else {
        completed := true;
      }
    }
  }
}
