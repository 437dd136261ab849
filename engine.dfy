/** Execution of an instruction list on an execution context: the meaning of
    every instruction kind (html_execute in src/html.c), the context itself
    (html_context) and the stop request (html_execution_stop). */
module Engine {
  import opened Html

  /** The two bounds errors after which the interpreter prints a message on
      standard error and ends the process with EXIT_FAILURE. */
  datatype Fault = Overrun | Underrun

  /** How a walk over an instruction list ended. `OutOfFuel` means that the
      bound the model puts on loop iterations ran out first. */
  datatype Status = Completed | Fatal(fault: Fault) | OutOfFuel

  /** The observable state of an execution context: the tape cells, the tape
      index, the values the input handler has yet to return and the values
      the output handler has received so far. */
  datatype Machine = Machine(tape: seq<Byte>, index: int, input: seq<SChar>, output: seq<Byte>)
  {
    /** The index designates a cell of a tape whose size fits a C `int`. */
    predicate Valid()
    {
      0 <= index < |tape| <= IntMax
    }

    function Cell(): Byte
      requires Valid()
    {
      tape[index]
    }
  }

  datatype Outcome = Outcome(status: Status, m: Machine)

  /** What one instruction other than a loop does: go on with a new state,
      end the process, or end the current walk (the `default` branch). */
  datatype Effect = Continue(m: Machine) | Halt(fault: Fault) | Return

  /** Storing an `int` into an `unsigned char` cell keeps it modulo 256. */
  function Wrap(x: int): (b: Byte)
    ensures (x - b) % 256 == 0
  {
    x % 256
  }

  /** The values `T` hands to the output handler: `k` copies of the cell. */
  function Repeat(v: Byte, k: int): (r: seq<Byte>)
    ensures |r| == if k > 0 then k else 0
    ensures forall i :: 0 <= i < |r| ==> r[i] == v
    decreases if k > 0 then k else 0
  {
    if k <= 0 then [] else [v] + Repeat(v, k - 1)
  }

  /** One call of the input handler: the next value, or EOF once the input
      is exhausted. */
  function Received(input: seq<SChar>): (v: SChar)
    ensures input != [] ==> v == input[0]
    ensures input == [] ==> v == Eof
  {
    if input == [] then Eof else input[0]
  }

  /** The input left after one call of the input handler. */
  function Remaining(input: seq<SChar>): (rest: seq<SChar>)
    ensures input != [] ==> [input[0]] + rest == input
    ensures input == [] ==> rest == []
  {
    if input == [] then [] else input[1..]
  }

  /** The cell after the value `v` is read into it: EOF applies
      HTML_EOF_BEHAVIOR (1: the cell is left unchanged), any other value is
      stored modulo 256. */
  function Store(cell: Byte, v: SChar): (r: Byte)
    ensures v == Eof ==> r == cell
    ensures v != Eof ==> r == Wrap(v)
  {
    if v == Eof then (if EofBehavior != 1 then Wrap(EofBehavior) else cell) else Wrap(v)
  }

  /** `M` with difference `k`: `k` calls of the input handler, each stored
      into the cell; the result is the cell and the input left. */
  function ReadTimes(cell: Byte, input: seq<SChar>, k: int): (r: (Byte, seq<SChar>))
    ensures k <= 0 ==> r == (cell, input)
    ensures 0 < k <= |input| ==> r.1 == input[k..]
    ensures |input| < k ==> r.1 == []
    decreases if k > 0 then k else 0
  {
    if k <= 0 then (cell, input)
    else ReadTimes(Store(cell, Received(input)), Remaining(input), k - 1)
  }

  /** Moving right by `d` passes the bounds check exactly when `d` is not
      negative (the C code compares it as an unsigned long), is below
      INT_MAX minus the tape size and the target lies on the tape. */
  function CanMoveRight(m: Machine, d: int): (ok: bool)
    ensures d < 0 ==> !ok
    ensures ok && 0 <= m.index ==> 0 <= m.index + d < |m.tape|
    ensures 0 <= d < IntMax - |m.tape| ==> (ok <==> m.index + d < |m.tape|)
  {
    0 <= d < IntMax - |m.tape| && m.index + d < |m.tape|
  }

  /** Moving left by `d` passes the bounds check exactly when `d` is not
      negative, is below INT_MAX minus the tape size and the target is not
      before the first cell. */
  function CanMoveLeft(m: Machine, d: int): (ok: bool)
    ensures d < 0 ==> !ok
    ensures ok && m.index < |m.tape| ==> 0 <= m.index - d < |m.tape|
    ensures 0 <= d < IntMax - |m.tape| ==> (ok <==> 0 <= m.index - d)
  {
    0 <= d < IntMax - |m.tape| && m.index - d >= 0
  }

  /** The effect of one instruction that is neither a loop start nor a loop
      end, as the `switch` of html_execute performs it. */
  function Apply(n: Node, m: Machine): (e: Effect)
    requires m.Valid()
    ensures e.Continue? ==> e.m.Valid() && |e.m.tape| == |m.tape| && m.output <= e.m.output
    ensures e.Halt? ==> n.kind == Next || n.kind == Previous
  {
    var cell := m.Cell();
    if n.kind == Plus then
      Continue(m.(tape := m.tape[m.index := Wrap(cell + n.diff)]))
    else if n.kind == Minus then
      Continue(m.(tape := m.tape[m.index := Wrap(cell - n.diff)]))
    else if n.kind == Next then
      if CanMoveRight(m, n.diff) then Continue(m.(index := m.index + n.diff)) else Halt(Overrun)
    else if n.kind == Previous then
      if CanMoveLeft(m, n.diff) then Continue(m.(index := m.index - n.diff)) else Halt(Underrun)
    else if n.kind == Output then
      Continue(m.(output := m.output + Repeat(cell, n.diff)))
    else if n.kind == Input then
      var r := ReadTimes(cell, m.input, n.diff);
      Continue(m.(tape := m.tape[m.index := r.0], input := r.1))
    else if n.kind == Break then
      Continue(m)
    else
      Return
  }

  /** html_execute on an instruction list: run the instructions in order
      until the list or a loop end is reached; after every instruction that
      was carried out, a set stop flag ends the walk. A bounds error ends
      everything with the state before the failing instruction. */
  function Run(prog: seq<Node>, m: Machine, stop: bool, fuel: nat): (r: Outcome)
    requires m.Valid()
    ensures r.m.Valid() && |r.m.tape| == |m.tape|
    ensures m.output <= r.m.output
    decreases fuel, Size(prog), 1
  {
    if prog == [] || prog[0].kind == LoopEnd then Outcome(Completed, m)
    else if prog[0].kind == LoopStart then
      var r := Loop(prog[0].body, m, stop, fuel);
      if r.status != Completed || stop then r else Run(prog[1..], r.m, stop, fuel)
    else
      match Apply(prog[0], m)
      case Halt(f) => Outcome(Fatal(f), m)
      case Return => Outcome(Completed, m)
      case Continue(m') => if stop then Outcome(Completed, m') else Run(prog[1..], m', stop, fuel)
  }

  /** `while (tape[index]) html_execute(loop, context)`: each iteration
      spends one unit of fuel. The stop flag is not consulted here. */
  function Loop(body: seq<Node>, m: Machine, stop: bool, fuel: nat): (r: Outcome)
    requires m.Valid()
    ensures r.m.Valid() && |r.m.tape| == |m.tape|
    ensures m.output <= r.m.output
    ensures r.status == Completed ==> r.m.Cell() == 0
    decreases fuel, Size(body), 0
  {
    if m.Cell() == 0 then Outcome(Completed, m)
    else if fuel == 0 then Outcome(OutOfFuel, m)
    else
      var r := Run(body, m, stop, fuel - 1);
      if r.status != Completed then r else Loop(body, r.m, stop, fuel - 1)
  }

  // ---------------------------------------------------------------------
  // Properties of single instructions

  /** `Size` of a loop body is smaller than the size of the list it sits in. */
  lemma {:induction false} SizeOfElement(prog: seq<Node>, i: nat)
    requires i < |prog|
    ensures Size(prog[i].body) < Size(prog)
  {
    if i > 0 {
      SizeOfElement(prog[1..], i - 1);
      assert prog[1..][i - 1] == prog[i];
    }
  }

  lemma WrapCancel(c: Byte, d: int)
    ensures Wrap(Wrap(c + d) - d) == c
  {
    var q := (c + d) / 256;
    assert c + d == 256 * q + Wrap(c + d);
    assert Wrap(c + d) - d == c - 256 * q;
  }

  /** `Wrap` of a sum only depends on the summands modulo 256. */
  lemma WrapAdd(x: int, y: int)
    ensures Wrap(Wrap(x) + y) == Wrap(x + y)
  {
    var q := x / 256;
    assert x == 256 * q + Wrap(x);
    assert Wrap(x) + y == x + y - 256 * q;
  }

  /** `t` and `m` change only the current cell, to its value plus or minus
      the difference modulo 256. */
  lemma CellEffect(m: Machine, d: int)
    requires m.Valid()
    ensures var e := Apply(Node(Plus, d, []), m);
      && e.Continue? && e.m.index == m.index && e.m.input == m.input && e.m.output == m.output
      && |e.m.tape| == |m.tape| && e.m.Cell() == Wrap(m.Cell() + d)
      && forall j :: 0 <= j < |m.tape| && j != m.index ==> e.m.tape[j] == m.tape[j]
    ensures var e := Apply(Node(Minus, d, []), m);
      && e.Continue? && e.m.index == m.index && e.m.input == m.input && e.m.output == m.output
      && |e.m.tape| == |m.tape| && e.m.Cell() == Wrap(m.Cell() - d)
      && forall j :: 0 <= j < |m.tape| && j != m.index ==> e.m.tape[j] == m.tape[j]
  {
  }

  /** Two `t` instructions in a row act as one whose difference is the sum. */
  lemma PlusCompose(m: Machine, a: int, b: int)
    requires m.Valid()
    ensures Apply(Node(Plus, a, []), m).Continue?
    ensures Apply(Node(Plus, b, []), Apply(Node(Plus, a, []), m).m) == Apply(Node(Plus, a + b, []), m)
  {
    WrapAdd(m.Cell() + a, b);
    var m1 := Apply(Node(Plus, a, []), m).m;
    assert m1.tape[m.index := Wrap(m1.Cell() + b)] == m.tape[m.index := Wrap(m.Cell() + a + b)];
  }

  /** Adding 256 in two steps wraps the cell round to where it was. */
  lemma PlusWrapsAround(m: Machine, a: int)
    requires m.Valid()
    ensures Apply(Node(Plus, a, []), m).Continue?
    ensures Apply(Node(Plus, 256 - a, []), Apply(Node(Plus, a, []), m).m) == Continue(m)
  {
    PlusCompose(m, a, 256 - a);
    assert Wrap(m.Cell() + 256) == m.Cell();
    assert m.tape[m.index := m.Cell()] == m.tape;
  }

  /** `t` and `m` with the same difference undo each other, whatever the
      difference, because both work modulo 256. */
  lemma CellInverse(m: Machine, d: int)
    requires m.Valid()
    ensures Apply(Node(Plus, d, []), m).Continue?
    ensures Apply(Node(Minus, d, []), Apply(Node(Plus, d, []), m).m) == Continue(m)
  {
    WrapCancel(m.Cell(), d);
    var m' := Apply(Node(Plus, d, []), m).m;
    assert m'.tape[m.index := m.Cell()] == m.tape;
  }

  /** A successful move right by `d` is undone by a move left by `d`. */
  lemma MoveRoundTrip(m: Machine, d: int)
    requires m.Valid() && CanMoveRight(m, d)
    ensures Apply(Node(Next, d, []), m) == Continue(m.(index := m.index + d))
    ensures Apply(Node(Previous, d, []), m.(index := m.index + d)) == Continue(m)
  {
  }

  /** Within the limit on the difference, a move succeeds exactly when its
      target is a cell of the tape; a move never changes a cell. */
  lemma MoveBounds(m: Machine, d: int)
    requires m.Valid() && 0 <= d < IntMax - |m.tape|
    ensures Apply(Node(Next, d, []), m).Continue? <==> m.index + d < |m.tape|
    ensures Apply(Node(Previous, d, []), m).Continue? <==> 0 <= m.index - d
    ensures Apply(Node(Next, d, []), m).Continue? ==> Apply(Node(Next, d, []), m).m.tape == m.tape
    ensures Apply(Node(Previous, d, []), m).Continue? ==> Apply(Node(Previous, d, []), m).m.tape == m.tape
  {
  }

  /** A negative difference fails the unsigned comparison: it is an overrun
      for `L` and an underrun for `H`, wherever the index stands. */
  lemma NegativeMoveFaults(m: Machine, d: int, body: seq<Node>)
    requires m.Valid() && d < 0
    ensures Apply(Node(Next, d, body), m) == Halt(Overrun)
    ensures Apply(Node(Previous, d, body), m) == Halt(Underrun)
  {
  }

  /** `T` hands the cell to the output handler `d` times and changes nothing else. */
  lemma OutputRepeats(m: Machine, d: int)
    requires m.Valid()
    ensures var e := Apply(Node(Output, d, []), m);
      && e.Continue? && e.m.tape == m.tape && e.m.index == m.index
      && |e.m.output| == |m.output| + (if d > 0 then d else 0)
      && forall i :: |m.output| <= i < |e.m.output| ==> e.m.output[i] == m.Cell()
  {
  }

  /** After `k` reads from an input with at least `k` values, the cell holds
      the last value read, unless that value is EOF. */
  lemma {:induction false} ReadKeepsLast(cell: Byte, input: seq<SChar>, k: nat)
    requires 0 < k <= |input| && input[k - 1] != Eof
    ensures ReadTimes(cell, input, k).0 == Wrap(input[k - 1])
    decreases k
  {
    if k > 1 {
      ReadKeepsLast(Store(cell, input[0]), input[1..], k - 1);
      assert input[1..][k - 2] == input[k - 1];
    }
  }

  /** Reading at the end of the input leaves the cell unchanged (HTML_EOF_BEHAVIOR 1). */
  lemma {:induction false} ReadAtEndOfInput(cell: Byte, k: int)
    ensures ReadTimes(cell, [], k) == (cell, [])
    decreases if k > 0 then k else 0
  {
    if k > 0 {
      ReadAtEndOfInput(cell, k - 1);
    }
  }

  /** The input handler returns a signed `char`, so the byte 0xFF reads as
      EOF: it is consumed and the cell keeps its value. */
  lemma ByteFFReadsAsEof(cell: Byte, rest: seq<SChar>)
    ensures ReadTimes(cell, [-1] + rest, 1) == (cell, rest)
  {
    assert ([-1] + rest)[1..] == rest;
  }

  // ---------------------------------------------------------------------
  // Properties of walks

  /** A completed loop leaves the current cell at 0; a loop entered on a
      zero cell does nothing. */
  lemma LoopExit(body: seq<Node>, m: Machine, stop: bool, fuel: nat)
    requires m.Valid()
    ensures Loop(body, m, stop, fuel).status == Completed ==> Loop(body, m, stop, fuel).m.Cell() == 0
    ensures m.Cell() == 0 ==> Loop(body, m, stop, fuel) == Outcome(Completed, m)
  {
  }

  /** An instruction of none of the nine kinds takes the `default` branch:
      the walk ends quietly and the state is left as it was. */
  lemma UnknownKindEndsWalk(prog: seq<Node>, m: Machine, stop: bool, fuel: nat)
    requires m.Valid() && prog != [] && !IsToken(prog[0].kind) && prog[0].kind != Break
    ensures Run(prog, m, stop, fuel) == Outcome(Completed, m)
  {
  }

  /** With the stop flag set, only the first instruction is carried out. */
  lemma StopAfterFirst(prog: seq<Node>, m: Machine, fuel: nat)
    requires m.Valid() && prog != []
    ensures Run(prog, m, true, fuel) == Run(prog[..1], m, true, fuel)
  {
    assert prog[..1][0] == prog[0];
  }

  /** The walk ends at the first loop end: nothing after it is reachable. */
  lemma {:induction false} EndStopsWalk(a: seq<Node>, end: Node, rest: seq<Node>, m: Machine, stop: bool, fuel: nat)
    requires m.Valid() && end.kind == LoopEnd
    ensures Run(a + [end] + rest, m, stop, fuel) == Run(a + [end], m, stop, fuel)
    decreases |a|
  {
    var s, t := a + [end] + rest, a + [end];
    if a == [] {
      assert s[0] == end && t[0] == end;
    } else {
      assert s[0] == a[0] && t[0] == a[0];
      assert s[1..] == a[1..] + [end] + rest && t[1..] == a[1..] + [end];
      if a[0].kind == LoopStart {
        var r := Loop(a[0].body, m, stop, fuel);
        if r.status == Completed && !stop {
          EndStopsWalk(a[1..], end, rest, r.m, stop, fuel);
        }
      } else if a[0].kind != LoopEnd {
        match Apply(a[0], m)
        case Continue(m') =>
          if !stop {
            EndStopsWalk(a[1..], end, rest, m', stop, fuel);
          }
        case _ =>
      }
    }
  }

  /** More fuel changes nothing once a run finishes without running out. */
  lemma {:induction false} RunFuelMonotone(prog: seq<Node>, m: Machine, stop: bool, f: nat, g: nat)
    requires m.Valid() && f <= g && Run(prog, m, stop, f).status != OutOfFuel
    ensures Run(prog, m, stop, g) == Run(prog, m, stop, f)
    decreases f, Size(prog), 1
  {
    if prog == [] || prog[0].kind == LoopEnd {
    } else if prog[0].kind == LoopStart {
      var r := Loop(prog[0].body, m, stop, f);
      LoopFuelMonotone(prog[0].body, m, stop, f, g);
      if r.status == Completed && !stop {
        RunFuelMonotone(prog[1..], r.m, stop, f, g);
      }
    } else {
      match Apply(prog[0], m)
      case Continue(m') =>
        if !stop {
          RunFuelMonotone(prog[1..], m', stop, f, g);
        }
      case _ =>
    }
  }

  lemma {:induction false} LoopFuelMonotone(body: seq<Node>, m: Machine, stop: bool, f: nat, g: nat)
    requires m.Valid() && f <= g && Loop(body, m, stop, f).status != OutOfFuel
    ensures Loop(body, m, stop, g) == Loop(body, m, stop, f)
    decreases f, Size(body), 0
  {
    if m.Cell() != 0 {
      var r := Run(body, m, stop, f - 1);
      RunFuelMonotone(body, m, stop, f - 1, g - 1);
      if r.status == Completed {
        LoopFuelMonotone(body, r.m, stop, f - 1, g - 1);
      }
    }
  }

  /** The loop `hml` counts the cell down to 0, one iteration per unit,
      even with the stop flag set: the `while` never tests it, and the
      body's only instruction ends in its sentinel either way. */
  lemma {:induction false} ClearLoop(m: Machine, stop: bool, fuel: nat)
    requires m.Valid() && m.Cell() <= fuel
    ensures Loop([Node(Minus, 1, []), Sentinel], m, stop, fuel) ==
      Outcome(Completed, m.(tape := m.tape[m.index := 0]))
    decreases m.Cell()
  {
    var body := [Node(Minus, 1, []), Sentinel];
    if m.Cell() == 0 {
      assert m.tape[m.index := 0] == m.tape;
    } else {
      var m' := m.(tape := m.tape[m.index := m.Cell() - 1]);
      assert Apply(body[0], m) == Continue(m');
      assert body[1..] == [Sentinel];
      assert Run(body, m, stop, fuel - 1) == Outcome(Completed, m');
      ClearLoop(m', stop, fuel - 1);
      assert m'.tape[m.index := 0] == m.tape[m.index := 0];
    }
  }

  // ---------------------------------------------------------------------
  // The execution context

  /** HtmlExecutionContext. The output and input handlers are modelled by
      the values they have received (`output`) and have still to return
      (`input`). */
  class Context {
    var tape: array<Byte>
    var index: int
    var shouldStop: bool
    var input: seq<SChar>
    var output: seq<Byte>

    predicate Valid()
      reads this, tape
    {
      0 <= index < tape.Length <= IntMax
    }

    /** The context as a value, for the specification functions. */
    function State(): (m: Machine)
      reads this, tape
      ensures m.Valid() <==> Valid()
    {
      Machine(tape[..], index, input, output)
    }

    /** html_context: a zero-filled tape of `size` cells, or of the default
        size when `size` is negative; index 0 and no stop request. The
        context can run a program unless the tape is empty. */
    constructor(size: int, input: seq<SChar>)
      requires -IntMax - 1 <= size <= IntMax
      ensures tape.Length == if size < 0 then TapeSize else size
      ensures forall i :: 0 <= i < tape.Length ==> tape[i] == 0
      ensures index == 0 && !shouldStop && this.input == input && output == []
      ensures Valid() <==> size != 0
      ensures fresh(tape)
    {
      var n := if size < 0 then TapeSize else size;
      tape := new Byte[n](_ => 0);
      index := 0;
      shouldStop := false;
      this.input := input;
      output := [];
    }

    /** html_execution_stop: request that execution stop. */
    method Stop()
      modifies this
      ensures shouldStop
      ensures tape == old(tape) && index == old(index)
      ensures input == old(input) && output == old(output)
    {
      shouldStop := true;
    }

    /** The output handler receives one value. */
    method OutputHandler(v: Byte)
      modifies this
      ensures output == old(output) + [v]
      ensures tape == old(tape) && index == old(index)
      ensures input == old(input) && shouldStop == old(shouldStop)
    {
      output := output + [v];
    }

    /** The input handler returns the next value, or EOF once the input is exhausted. */
    method InputHandler() returns (v: SChar)
      modifies this
      ensures v == Received(old(input)) && input == Remaining(old(input))
      ensures tape == old(tape) && index == old(index)
      ensures output == old(output) && shouldStop == old(shouldStop)
    {
      if input == [] {
        v := Eof;
      } else {
        v := input[0];
        input := input[1..];
      }
    }

    /** The `T` case: hand the current cell to the output handler `count` times. */
    method Emit(count: int)
      requires Valid()
      modifies this
      ensures tape == old(tape) && index == old(index) && Valid()
      ensures output == old(output) + Repeat(tape[index], count)
      ensures input == old(input) && shouldStop == old(shouldStop)
    {
      var k := 0;
      while k < count
        invariant 0 <= k <= if count > 0 then count else 0
        invariant tape == old(tape) && index == old(index) && Valid()
        invariant output == old(output) + Repeat(tape[index], k)
        invariant input == old(input) && shouldStop == old(shouldStop)
        decreases count - k
      {
        RepeatSnoc(tape[index], k);
        OutputHandler(tape[index]);
        k := k + 1;
      }
    }

    /** The `M` case: `count` calls of the input handler, each stored into
        the current cell. */
    method Receive(count: int)
      requires Valid()
      modifies this, tape
      ensures tape == old(tape) && index == old(index) && Valid()
      ensures tape[..] == old(tape[..])[index := ReadTimes(old(tape[index]), old(input), count).0]
      ensures input == ReadTimes(old(tape[index]), old(input), count).1
      ensures output == old(output) && shouldStop == old(shouldStop)
    {
      var k := 0;
      while k < count
        invariant 0 <= k <= if count > 0 then count else 0
        invariant tape == old(tape) && index == old(index) && Valid()
        invariant tape[..] == old(tape[..])[index := tape[index]]
        invariant ReadTimes(old(tape[index]), old(input), count) == ReadTimes(tape[index], input, count - k)
        invariant output == old(output) && shouldStop == old(shouldStop)
        decreases count - k
      {
        var v := InputHandler();
        tape[index] := Store(tape[index], v);
        k := k + 1;
      }
    }

    /** One pass of the `switch` of html_execute for an instruction other
        than a loop: `proceed` says whether the walk goes on to the next one. */
    method ExecuteInstruction(n: Node) returns (status: Status, proceed: bool)
      requires Valid() && n.kind != LoopStart && n.kind != LoopEnd
      modifies this, tape
      ensures tape == old(tape) && shouldStop == old(shouldStop) && Valid()
      ensures Apply(n, old(State())).Continue? ==>
        status == Completed && proceed && State() == Apply(n, old(State())).m
      ensures Apply(n, old(State())).Halt? ==>
        status == Fatal(Apply(n, old(State())).fault) && !proceed && State() == old(State())
      ensures Apply(n, old(State())).Return? ==>
        status == Completed && !proceed && State() == old(State())
    {
      status, proceed := Completed, true;
      if n.kind == Plus {
        tape[index] := Wrap(tape[index] + n.diff);
      } else if n.kind == Minus {
        tape[index] := Wrap(tape[index] - n.diff);
      } else if n.kind == Next {
        // the C code compares the difference as an unsigned long
        if n.diff < 0 || n.diff >= IntMax - tape.Length || index + n.diff >= tape.Length {
          return Fatal(Overrun), false;
        }
        index := index + n.diff;
      } else if n.kind == Previous {
        if n.diff < 0 || n.diff >= IntMax - tape.Length || index - n.diff < 0 {
          return Fatal(Underrun), false;
        }
        index := index - n.diff;
      } else if n.kind == Output {
        Emit(n.diff);
      } else if n.kind == Input {
        Receive(n.diff);
      } else if n.kind == Break {
      } else {
        proceed := false;
      }
    }

    /** html_execute: walk the list until its end or a loop end. */
    method Execute(prog: seq<Node>, fuel: nat) returns (status: Status)
      requires Valid()
      modifies this, tape
      ensures tape == old(tape) && shouldStop == old(shouldStop) && Valid()
      ensures Outcome(status, State()) == Run(prog, old(State()), shouldStop, fuel)
      decreases fuel, Size(prog), 1
    {
      var i := 0;
      while i < |prog| && prog[i].kind != LoopEnd
        invariant 0 <= i <= |prog|
        invariant tape == old(tape) && shouldStop == old(shouldStop) && Valid()
        invariant Run(prog, old(State()), shouldStop, fuel) == Run(prog[i..], State(), shouldStop, fuel)
        decreases |prog| - i
      {
        var n := prog[i];
        assert prog[i..][0] == n && prog[i..][1..] == prog[i + 1..];
        if n.kind == LoopStart {
          SizeOfElement(prog, i);
          status := ExecuteLoop(n.body, fuel);
          if status != Completed {
            return;
          }
        } else {
          var proceed;
          status, proceed := ExecuteInstruction(n);
          if !proceed {
            return;
          }
        }
        i := i + 1;
        if shouldStop {
          return Completed;
        }
      }
      return Completed;
    }

    /** The `h` case: run the body while the current cell is nonzero. */
    method ExecuteLoop(body: seq<Node>, fuel: nat) returns (status: Status)
      requires Valid()
      modifies this, tape
      ensures tape == old(tape) && shouldStop == old(shouldStop) && Valid()
      ensures Outcome(status, State()) == Loop(body, old(State()), shouldStop, fuel)
      decreases fuel, Size(body), 0
    {
      var f: nat := fuel;
      while tape[index] != 0
        invariant f <= fuel
        invariant tape == old(tape) && shouldStop == old(shouldStop) && Valid()
        invariant Loop(body, old(State()), shouldStop, fuel) == Loop(body, State(), shouldStop, f)
        decreases f
      {
        if f == 0 {
          return OutOfFuel;
        }
        f := f - 1;
        status := Execute(body, f);
        if status != Completed {
          return;
        }
      }
      return Completed;
    }
  }

  lemma RepeatSnoc(v: Byte, k: nat)
    ensures Repeat(v, k) + [v] == Repeat(v, k + 1)
  {
    var a, b := Repeat(v, k) + [v], Repeat(v, k + 1);
    assert |a| == |b| && forall i :: 0 <= i < |a| ==> a[i] == b[i];
  }
}
