/**
 * The command history (Classes/managers/UndoManager.cpp), a std::stack of UndoCommand.
 * The history is kept bottom first, so the top of the stack is the last element.
 */
module UndoManagers {
  import opened UndoModels

  /** What one popCommand call yields on history h: the command returned and the history left. */
  function Pop(h: seq<UndoCommand>): (r: (UndoCommand, seq<UndoCommand>))
    ensures h == [] ==> r == (DefaultCommand, [])
    ensures h != [] ==> r.1 + [r.0] == h
  {
    if h == [] then (DefaultCommand, []) else (h[|h| - 1], h[..|h| - 1])
  }

  /** The commands returned by n successive popCommand calls, and the history left. */
  function PopTimes(h: seq<UndoCommand>, n: nat): (seq<UndoCommand>, seq<UndoCommand>)
  {
    if n == 0 then ([], h)
    else
      var next := PopTimes(Pop(h).1, n - 1);
      ([Pop(h).0] + next.0, next.1)
  }

  function Reverse<T>(s: seq<T>): (r: seq<T>)
    ensures |r| == |s|
    ensures forall i :: 0 <= i < |s| ==> r[i] == s[|s| - 1 - i]
  {
    if s == [] then [] else [s[|s| - 1]] + Reverse(s[..|s| - 1])
  }

  /** Pushing cmds onto h and then popping |cmds| times returns cmds in reverse and leaves h. */
  lemma {:induction false} PushesThenPops(h: seq<UndoCommand>, cmds: seq<UndoCommand>)
    ensures PopTimes(h + cmds, |cmds|) == (Reverse(cmds), h)
  {
    if cmds == [] {
      assert h + cmds == h;
    } else {
      var init, last := cmds[..|cmds| - 1], cmds[|cmds| - 1];
      assert h + cmds == (h + init) + [last];
      assert Pop(h + cmds) == (last, h + init);
      PushesThenPops(h, init);
      var next := PopTimes(h + init, |cmds| - 1);
      assert next == (Reverse(init), h);
      assert PopTimes(h + cmds, |cmds|) == ([last] + next.0, next.1);
      assert Reverse(cmds) == [last] + Reverse(init);
    }
  }

  /** Popping a+b times is popping a times and then b times. */
  lemma {:induction false} PopTimesSplit(h: seq<UndoCommand>, a: nat, b: nat)
    ensures PopTimes(h, a + b).0 == PopTimes(h, a).0 + PopTimes(PopTimes(h, a).1, b).0
    ensures PopTimes(h, a + b).1 == PopTimes(PopTimes(h, a).1, b).1
  {
    if a > 0 {
      var rest := Pop(h).1;
      PopTimesSplit(rest, a - 1, b);
      assert PopTimes(h, a + b) == ([Pop(h).0] + PopTimes(rest, (a - 1) + b).0, PopTimes(rest, (a - 1) + b).1);
      assert PopTimes(h, a) == ([Pop(h).0] + PopTimes(rest, a - 1).0, PopTimes(rest, a - 1).1);
    }
  }

  /** After all pushed commands are popped, one more pop yields the sentinel and changes nothing. */
  lemma ExtraPopYieldsSentinel(cmds: seq<UndoCommand>)
    ensures PopTimes(cmds, |cmds| + 1) == (Reverse(cmds) + [DefaultCommand], [])
  {
    var empty: seq<UndoCommand> := [];
    PushesThenPops(empty, cmds);
    assert empty + cmds == cmds;
    PopTimesSplit(cmds, |cmds|, 1);
    PopEmpty();
  }

  lemma PopEmpty()
    ensures PopTimes([], 1) == ([DefaultCommand], [])
  {
    var empty: seq<UndoCommand> := [];
    assert Pop(empty) == (DefaultCommand, empty);
    assert PopTimes(empty, 0) == (empty, empty);
    assert [DefaultCommand] + empty == [DefaultCommand];
  }

  class UndoManager {
    var history: seq<UndoCommand>

    constructor ()
      ensures history == []
    {
      history := [];
    }

    method PushCommand(cmd: UndoCommand)
      modifies this
      ensures history == old(history) + [cmd]
    {
      history := history + [cmd];
    }

    method CanUndo() returns (b: bool)
      ensures b <==> history != []
    {
      b := history != [];
    }

    method PopCommand() returns (cmd: UndoCommand)
      modifies this
      ensures (cmd, history) == Pop(old(history))
    {
      if history == [] {
        return DefaultCommand;
      }
      cmd := history[|history| - 1];
      history := history[..|history| - 1];
    }
  }
}
