/** Whole programs: the parser, the execution engine and the instruction
    list working together. */
module Programs {
  import opened Html
  import opened Parser
  import opened Engine
  import opened ListState

  /** A parsed program ends at its own sentinel, so whatever html_add links
      in behind it is never executed from its root. */
  lemma AddedBehindParsedIsUnreachable(s: seq<char>, list: seq<Node>, m: Machine, stop: bool, fuel: nat)
    requires m.Valid()
    ensures Run(Parse(s) + list, m, stop, fuel) == Run(Parse(s), m, stop, fuel)
  {
    var p := Parse(s);
    ParseWellFormed(s, 0, StrLen(s));
    var a := p[..|p| - 1];
    assert p == a + [Sentinel];
    EndStopsWalk(a, Sentinel, list, m, stop, fuel);
  }

  /** `MT` reads one value into the cell and writes it back out. */
  lemma CopyByte(m: Machine, v: SChar, rest: seq<SChar>, fuel: nat)
    requires m.Valid() && m.input == [v] + rest && v != Eof
    ensures Parse([Input, Output]) == [Node(Input, 1, []), Node(Output, 1, []), Sentinel]
    ensures var r := Run(Parse([Input, Output]), m, false, fuel);
      && r.status == Completed && r.m.output == m.output + [Wrap(v)]
      && r.m.Cell() == Wrap(v) && r.m.input == rest && r.m.index == m.index
  {
    var s := [Input, Output];
    assert StrLen(s) == 2;
    RepeatRun(s, 1, 2, 2);
    RepeatRun(s, 0, 1, 2);
    var prog := [Node(Input, 1, []), Node(Output, 1, []), Sentinel];
    assert ([v] + rest)[1..] == rest;
    var m1 := m.(tape := m.tape[m.index := Wrap(v)], input := rest);
    assert ReadTimes(m.Cell(), m.input, 1) == (Wrap(v), rest);
    assert Apply(prog[0], m) == Continue(m1);
    var m2 := m1.(output := m.output + [Wrap(v)]);
    assert Repeat(Wrap(v), 1) == [Wrap(v)];
    assert Apply(prog[1], m1) == Continue(m2);
    assert prog[1..][0] == prog[1] && prog[1..][1..] == [Sentinel];
    assert Run(prog[1..], m1, false, fuel) == Outcome(Completed, m2);
    assert Run(prog, m, false, fuel) == Outcome(Completed, m2);
  }

  /** `LHH` parses to an `L` node with difference -1, which the bounds check
      rejects as an overrun wherever the index stands: the program never
      moves one cell left, even when that cell exists. */
  lemma NetLeftRunFaults(m: Machine, stop: bool, fuel: nat)
    requires m.Valid()
    ensures Parse([Next, Previous, Previous]) == [Node(Next, -1, []), Sentinel]
    ensures Run(Parse([Next, Previous, Previous]), m, stop, fuel) == Outcome(Fatal(Overrun), m)
  {
    MixedRunNetDifference(Next);
    NegativeMoveFaults(m, -1, []);
  }

  /** `hml` clears the current cell when there is fuel for one iteration
      per unit of the cell, whether or not a stop was requested: the whole
      loop is one top-level instruction. */
  lemma ClearCell(m: Machine, stop: bool, fuel: nat)
    requires m.Valid() && m.Cell() <= fuel
    ensures Run(Parse([LoopStart, Minus, LoopEnd]), m, stop, fuel) ==
      Outcome(Completed, m.(tape := m.tape[m.index := 0]))
  {
    LoopExample(Minus);
    ClearLoop(m, stop, fuel);
  }
}
