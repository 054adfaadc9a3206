/**
 * The example program's unary multiplication machine: on a tape `m*n=`
 * written with `1`s it appends the product after `=`, marking the digits of
 * the first factor with `x` as it goes.
 */
module Multiplication {
  import opened TuringMachines

  /** The transition table of the example program, state 0 first. */
  function Table(): seq<State> {
    [ map['1' := Command('x', Right, 1), '*' := Command('*', Stop, 0)],
      map['1' := Command('1', Right, 1), '*' := Command('*', Right, 2)],
      map['1' := Command('c', Right, 3), '=' := Command('=', Left, 6)],
      map['1' := Command('1', Right, 3), '=' := Command('=', Right, 4)],
      map['1' := Command('1', Right, 4), ' ' := Command('1', Left, 5)],
      map['1' := Command('1', Left, 5), '*' := Command('*', Left, 5), '=' := Command('=', Left, 5),
          'c' := Command('c', Right, 2)],
      map['1' := Command('1', Left, 6), '*' := Command('*', Left, 6), 'x' := Command('x', Right, 0),
          'c' := Command('1', Left, 6)] ]
  }

  /** The first two commands on `1*1=`: mark the factor's digit and pass `*`. */
  lemma MarkFactor(fuel: nat)
    requires fuel >= 2
    ensures RunFrom(Table(), Config("1*1=", 0, 0), fuel) == RunFrom(Table(), Config("x*1=", 2, 2), fuel - 2)
  {
    var t := Table();
    RunAdvances(t, Config("1*1=", 0, 0), Config("x*1=", 1, 1), fuel);
    RunAdvances(t, Config("x*1=", 1, 1), Config("x*1=", 2, 2), fuel - 1);
  }

  /** The next two: mark the multiplier's digit and reach `=`. */
  lemma MarkMultiplier(fuel: nat)
    requires fuel >= 2
    ensures RunFrom(Table(), Config("x*1=", 2, 2), fuel) == RunFrom(Table(), Config("x*c=", 4, 4), fuel - 2)
  {
    var t := Table();
    RunAdvances(t, Config("x*1=", 2, 2), Config("x*c=", 3, 3), fuel);
    RunAdvances(t, Config("x*c=", 3, 3), Config("x*c=", 4, 4), fuel - 1);
  }

  /** The first four commands on `1*1=`: mark the factor's digit and the multiplier's, reach `=`. */
  lemma MarkDigits(fuel: nat)
    requires fuel >= 4
    ensures RunFrom(Table(), Config("1*1=", 0, 0), fuel) == RunFrom(Table(), Config("x*c=", 4, 4), fuel - 4)
  {
    MarkFactor(fuel);
    MarkMultiplier(fuel - 2);
  }

  /** The next four: write a `1` on the blank past `=`, return, find no more multiplier digits. */
  lemma {:induction false} CopyDigit(fuel: nat)
    requires fuel >= 4
    ensures RunFrom(Table(), Config("x*c=", 4, 4), fuel) == RunFrom(Table(), Config("x*c=1", 2, 6), fuel - 4)
  {
    var t := Table();
    RunAdvances(t, Config("x*c=", 4, 4), Config("x*c=1", 3, 5), fuel);
    RunAdvances(t, Config("x*c=1", 3, 5), Config("x*c=1", 2, 5), fuel - 1);
    RunAdvances(t, Config("x*c=1", 2, 5), Config("x*c=1", 3, 2), fuel - 2);
    RunAdvances(t, Config("x*c=1", 3, 2), Config("x*c=1", 2, 6), fuel - 3);
  }

  /** `1*1=` becomes `x*1=1` after twelve commands, the last a `Stop` in state 0. */
  lemma {:induction false} OneTimesOne(fuel: nat)
    requires fuel >= 12
    ensures Execute(Table(), "1*1=", 0, fuel) == Ending(Halted, Config("x*1=1", 1, 0))
  {
    MarkDigits(fuel);
    CopyDigit(fuel - 4);
    RestoreAndStop(fuel - 8);
  }

  /** The last four: restore the multiplier's digit, return to the factor, and stop on `*`. */
  lemma RestoreAndStop(fuel: nat)
    requires fuel >= 4
    ensures RunFrom(Table(), Config("x*c=1", 2, 6), fuel) == Ending(Halted, Config("x*1=1", 1, 0))
  {
    var t := Table();
    RunAdvances(t, Config("x*c=1", 2, 6), Config("x*1=1", 1, 6), fuel);
    RunAdvances(t, Config("x*1=1", 1, 6), Config("x*1=1", 0, 6), fuel - 1);
    RunAdvances(t, Config("x*1=1", 0, 6), Config("x*1=1", 1, 0), fuel - 2);
    RunStops(t, Config("x*1=1", 1, 0), fuel - 3, Halted, Config("x*1=1", 1, 0));
  }
}
