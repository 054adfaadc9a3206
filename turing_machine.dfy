/**
 * The Turing-machine simulator: a tape of characters that grows on demand,
 * a carriage position and a table of states, each mapping the symbol under
 * the carriage to a command (symbol to write, shift, next state).
 *
 * The classes `Tape` and `TuringMachine` keep the source's mutable state;
 * the functions `Grown`, `Written`, `Step` and `Execute` are the
 * specification the methods are proved against.
 */
module TuringMachines {
  import opened CharSets

  /** The carriage movement of a command; `Stop` also ends the run. */
  datatype Shift = Left | Right | Stop

  /** The signed amount `Shift` adds to the carriage: -1, +1 or 0. */
  function Offset(shift: Shift): int {
    match shift
    case Left => -1
    case Right => 1
    case Stop => 0
  }

  datatype Command = Command(replacement: char, shift: Shift, nextStateIndex: nat)

  /** One state of the machine: the command for each symbol it knows. */
  type State = map<char, Command>

  /** The blank symbol used to pad the tape when it grows. */
  const Blank := ' '

  /**
   * The tape contents after cell `index` has been accessed: beyond its end
   * the tape is padded with blanks up to and including `index`; a cell that
   * already exists leaves the contents unchanged.
   */
  function Grown(data: string, index: nat): (r: string)
    ensures index < |data| ==> r == data
    ensures index >= |data| ==> |r| == index + 1
    ensures |r| >= |data| && index < |r|
    ensures r[..|data|] == data
    ensures forall i :: |data| <= i < |r| ==> r[i] == Blank
  {
    if index < |data| then data else data + seq(index + 1 - |data|, _ => Blank)
  }

  /**
   * The tape contents after `symbol` has been stored in cell `index`: the
   * tape grows as for an access, that cell holds `symbol`, every other cell
   * keeps its symbol (or is a blank if it is new).
   */
  function Written(data: string, index: nat, symbol: char): (r: string)
    ensures |r| == if index < |data| then |data| else index + 1
    ensures r[index] == symbol
    ensures forall i :: 0 <= i < |data| && i != index ==> r[i] == data[i]
    ensures forall i :: |data| <= i < |r| && i != index ==> r[i] == Blank
  {
    Grown(data, index)[index := symbol]
  }

  /** The growable tape; every access to a cell makes that cell exist. */
  class Tape {
    var data: string

    constructor(str: string)
      ensures data == str
    {
      data := str;
    }

    /** Reads cell `index` through the indexing operator, growing the tape. */
    method Read(index: nat) returns (symbol: char)
      modifies this
      ensures data == Grown(old(data), index)
      ensures symbol == data[index]
    {
      if index >= |data| {
        data := data + seq(index + 1 - |data|, _ => Blank);
      }
      symbol := data[index];
    }

    /** Assigns cell `index` through the indexing operator, growing the tape. */
    method Write(index: nat, symbol: char)
      modifies this
      ensures data == Written(old(data), index, symbol)
    {
      if index >= |data| {
        data := data + seq(index + 1 - |data|, _ => Blank);
      }
      data := data[index := symbol];
    }

    /** The current contents. */
    function Str(): (s: string)
      reads this
      ensures |s| == |data| && forall i :: 0 <= i < |s| ==> s[i] == data[i]
    {
      data
    }
  }

  /** Why a run stops without reaching a `Stop` command. */
  datatype Fault =
    | MissingCommand  // the current state has no command for the symbol read
    | LeftOfCellZero  // the command would move the carriage left of cell 0
    | NoSuchState     // a state index outside the table

  datatype Outcome = Halted | Faulted(fault: Fault) | OutOfFuel

  /** What a run can observe: the tape, the carriage and the state index. */
  datatype Config = Config(data: string, carriage: nat, state: nat)

  /** The result of one iteration of the run loop. */
  datatype Transition = Next(config: Config) | Done(outcome: Outcome, config: Config)

  /** The symbol under the carriage, as read by the run loop. */
  function Symbol(c: Config): char {
    Grown(c.data, c.carriage)[c.carriage]
  }

  /**
   * One iteration of the run loop from a configuration in state
   * `c.state`: read the cell under the carriage, look up its command, write
   * the replacement, move, and continue in the next state unless the shift
   * was `Stop`. A command that would move left of cell 0 is reported
   * before it is carried out.
   */
  function Step(states: seq<State>, c: Config): (t: Transition)
    requires c.state < |states|
    ensures t.Done? ==> t.outcome != OutOfFuel
    ensures t.Next? ==> t.config.state < |states|
  {
    var data := Grown(c.data, c.carriage);
    var symbol := data[c.carriage];
    if symbol !in states[c.state] then
      Done(Faulted(MissingCommand), Config(data, c.carriage, c.state))
    else
      var cmd := states[c.state][symbol];
      if cmd.shift == Left && c.carriage == 0 then
        Done(Faulted(LeftOfCellZero), Config(data, c.carriage, c.state))
      else
        var next := Config(data[c.carriage := cmd.replacement], c.carriage + Offset(cmd.shift), cmd.nextStateIndex);
        if cmd.nextStateIndex >= |states| then Done(Faulted(NoSuchState), next)
        else if cmd.shift == Stop then Done(Halted, next)
        else Next(next)
  }

  /**
   * What one iteration does: the tape never shrinks and covers the carriage;
   * only the cell under the carriage can change; a missing command or a
   * left move from cell 0 faults before anything is written; otherwise the
   * replacement is written, the carriage moves by the shift, and the run
   * goes on exactly when the shift is not `Stop` and the next state exists.
   */
  lemma StepSpec(states: seq<State>, c: Config)
    requires c.state < |states|
    ensures var t := Step(states, c);
      && |t.config.data| >= |c.data| && c.carriage < |t.config.data|
      && (forall i :: 0 <= i < |c.data| && i != c.carriage ==> t.config.data[i] == c.data[i])
      && ((t == Done(Faulted(MissingCommand), Config(Grown(c.data, c.carriage), c.carriage, c.state)))
          <==> Symbol(c) !in states[c.state])
      && (Symbol(c) in states[c.state] ==>
            var cmd := states[c.state][Symbol(c)];
            if cmd.shift == Left && c.carriage == 0 then
              t == Done(Faulted(LeftOfCellZero), Config(Grown(c.data, c.carriage), c.carriage, c.state))
            else
              && t.config.data[c.carriage] == cmd.replacement
              && t.config.carriage == c.carriage + Offset(cmd.shift)
              && (t.Next? <==> cmd.shift != Stop && cmd.nextStateIndex < |states|)
              && (t.Next? ==> t.config.state == cmd.nextStateIndex)
              && (t == Done(Halted, t.config) <==> cmd.shift == Stop && cmd.nextStateIndex < |states|))
  {
  }

  /** How a run ended: its outcome and the last configuration. */
  datatype Ending = Ending(outcome: Outcome, config: Config)

  /** The run loop from a configuration, for at most `fuel` iterations. */
  function RunFrom(states: seq<State>, c: Config, fuel: nat): (r: Ending)
    requires c.state < |states|
    decreases fuel
  {
    if fuel == 0 then Ending(OutOfFuel, c)
    else match Step(states, c)
      case Next(c') => RunFrom(states, c', fuel - 1)
      case Done(outcome, c') => Ending(outcome, c')
  }

  /** `run`: start in state 0 (a missing state 0 is itself a fault). */
  function Execute(states: seq<State>, data: string, carriage: nat, fuel: nat): Ending {
    if |states| == 0 then Ending(Faulted(NoSuchState), Config(data, carriage, 0))
    else RunFrom(states, Config(data, carriage, 0), fuel)
  }

  /** A continuing step hands the rest of the run to the next configuration. */
  lemma RunAdvances(states: seq<State>, c: Config, next: Config, fuel: nat)
    requires c.state < |states| && fuel > 0 && Step(states, c) == Next(next)
    ensures RunFrom(states, c, fuel) == RunFrom(states, next, fuel - 1)
  {
  }

  /** A step that ends the run gives the run's ending. */
  lemma RunStops(states: seq<State>, c: Config, fuel: nat, outcome: Outcome, last: Config)
    requires c.state < |states| && fuel > 0 && Step(states, c) == Done(outcome, last)
    ensures RunFrom(states, c, fuel) == Ending(outcome, last)
  {
  }

  /** The tape never shrinks during a run. */
  lemma {:induction false} TapeNeverShrinks(states: seq<State>, c: Config, fuel: nat)
    requires c.state < |states|
    ensures |RunFrom(states, c, fuel).config.data| >= |c.data|
    decreases fuel
  {
    if fuel > 0 {
      StepSpec(states, c);
      if Step(states, c).Next? {
        TapeNeverShrinks(states, Step(states, c).config, fuel - 1);
      }
    }
  }

  /** A run that ends before its fuel runs out ends the same way with more fuel. */
  lemma {:induction false} RunMoreFuel(states: seq<State>, c: Config, fuel: nat, more: nat)
    requires c.state < |states|
    requires fuel <= more && RunFrom(states, c, fuel).outcome != OutOfFuel
    ensures RunFrom(states, c, more) == RunFrom(states, c, fuel)
    decreases fuel
  {
    if Step(states, c).Next? {
      RunMoreFuel(states, Step(states, c).config, fuel - 1, more - 1);
    }
  }

  /**
   * From `last`, the command found is a `Stop` command whose execution
   * halts in `end`: it wrote its replacement and did not move the carriage.
   */
  predicate StopsAt(states: seq<State>, last: Config, end: Config) {
    last.state < |states| && Symbol(last) in states[last.state]
    && var cmd := states[last.state][Symbol(last)];
       cmd.shift == Stop && Step(states, last) == Done(Halted, end)
       && end.carriage == last.carriage && end.data[last.carriage] == cmd.replacement
  }

  /**
   * A halted run ended with a `Stop` command: for some `k` below the fuel,
   * the run reaches a configuration after `k` commands without ending, and
   * from there the command found is a `Stop` command that wrote its
   * replacement, left the carriage where it was, and ended the run.
   */
  lemma {:induction false} HaltedByStop(states: seq<State>, c: Config, fuel: nat)
    requires c.state < |states|
    requires RunFrom(states, c, fuel).outcome == Halted
    ensures exists k :: 0 <= k < fuel
              && RunFrom(states, c, k).outcome == OutOfFuel
              && StopsAt(states, RunFrom(states, c, k).config, RunFrom(states, c, fuel).config)
    decreases fuel
  {
    var t := Step(states, c);
    if t.Next? {
      HaltedByStop(states, t.config, fuel - 1);
      var k :| 0 <= k < fuel - 1
              && RunFrom(states, t.config, k).outcome == OutOfFuel
              && StopsAt(states, RunFrom(states, t.config, k).config, RunFrom(states, t.config, fuel - 1).config);
      RunAdvances(states, c, t.config, k + 1);
      RunAdvances(states, c, t.config, fuel);
      assert RunFrom(states, c, k + 1).outcome == OutOfFuel;
    } else {
      RunStops(states, c, fuel, t.outcome, t.config);
      HaltingStep(states, c);
      assert RunFrom(states, c, 0) == Ending(OutOfFuel, c);
    }
  }

  /** A step that halts executed a `Stop` command. */
  lemma HaltingStep(states: seq<State>, c: Config)
    requires c.state < |states| && Step(states, c) == Done(Halted, Step(states, c).config)
    ensures StopsAt(states, c, Step(states, c).config)
  {
    var data := Grown(c.data, c.carriage);
    assert Symbol(c) == data[c.carriage];
  }

  class TuringMachine {
    const alphabet: CharSet
    const states: seq<State>
    const tape: Tape
    var carriage: nat

    constructor(alphabet: CharSet, states: seq<State>)
      ensures this.alphabet == alphabet && this.states == states
      ensures fresh(tape) && tape.data == "" && carriage == 0
    {
      this.alphabet := alphabet;
      this.states := states;
      tape := new Tape("");
      carriage := 0;
    }

    /**
     * `execCommand`: writes the replacement under the carriage, moves the
     * carriage and returns the next state index. Moving left of cell 0
     * would wrap the unsigned carriage, so callers must not ask for it.
     */
    method ExecCommand(cmd: Command) returns (next: nat)
      requires !(cmd.shift == Left && carriage == 0)
      modifies this, tape
      ensures tape.data == Written(old(tape.data), old(carriage), cmd.replacement)
      ensures carriage == old(carriage) + Offset(cmd.shift)
      ensures next == cmd.nextStateIndex
    {
      tape.Write(carriage, cmd.replacement);
      carriage := carriage + Offset(cmd.shift);
      next := cmd.nextStateIndex;
    }

    /** `fillTape`: replaces the tape contents; the carriage stays where it is. */
    method FillTape(str: string)
      modifies tape
      ensures tape.data == str
      ensures carriage == old(carriage)
    {
      tape.data := str;
    }

    /** `getTape`: the tape contents. */
    method GetTape() returns (str: string)
      ensures str == tape.data
    {
      str := tape.Str();
    }

    /** `isValidTape`: every character of `str` belongs to the alphabet. */
    method IsValidTape(str: string) returns (valid: bool)
      ensures valid <==> forall i :: 0 <= i < |str| ==> str[i] in alphabet
    {
      for i := 0 to |str|
        invariant forall j :: 0 <= j < i ==> str[j] in alphabet
      {
        if str[i] !in alphabet {
          return false;
        }
      }
      return true;
    }

    /**
     * `run`: from state 0, repeatedly executes the command for the symbol
     * under the carriage until a `Stop` command has been executed. The
     * source loops without bound; here at most `fuel` commands run.
     */
    method Run(fuel: nat) returns (outcome: Outcome)
      modifies this, tape
      ensures var r := Execute(states, old(tape.data), old(carriage), fuel);
              outcome == r.outcome && tape.data == r.config.data && carriage == r.config.carriage
    {
      if |states| == 0 {
        return Faulted(NoSuchState);
      }
      ghost var goal := RunFrom(states, Config(tape.data, carriage, 0), fuel);
      var currentState := states[0];
      ghost var index := 0;
      var remaining: nat := fuel;
      while true
        invariant index < |states| && currentState == states[index]
        invariant RunFrom(states, Config(tape.data, carriage, index), remaining) == goal
        decreases remaining
      {
        ghost var c := Config(tape.data, carriage, index);
        if remaining == 0 {
          return OutOfFuel;
        }
        var symbol := tape.Read(carriage);
        if symbol !in currentState {
          RunStops(states, c, remaining, Faulted(MissingCommand), Config(tape.data, carriage, index));
          return Faulted(MissingCommand);
        }
        var currentCommand := currentState[symbol];
        if currentCommand.shift == Left && carriage == 0 {
          RunStops(states, c, remaining, Faulted(LeftOfCellZero), Config(tape.data, carriage, index));
          return Faulted(LeftOfCellZero);
        }
        var next := ExecCommand(currentCommand);
        if next >= |states| {
          RunStops(states, c, remaining, Faulted(NoSuchState), Config(tape.data, carriage, next));
          return Faulted(NoSuchState);
        }
        currentState := states[next];
        index := next;
        if currentCommand.shift == Stop {
          RunStops(states, c, remaining, Halted, Config(tape.data, carriage, index));
          return Halted;
        }
        RunAdvances(states, c, Config(tape.data, carriage, index), remaining);
        remaining := remaining - 1;
      }
    }
  }

}
