/**
 * `PostSystemEmulator`: a working line rewritten by an ordered list of rules.
 * Each step tries the rules from the first; the first rule whose compiled
 * pattern is found anywhere in the line has its leftmost match replaced by
 * its instantiated placeholder. `run` repeats steps until none applies.
 *
 * The functions say what one rule, one step and a bounded run do to the
 * line; the class performs them on its own fields the way the emulator does.
 */
module PostSystem {
  import opened CharSets
  import opened RegexSyntax
  import opened RegexMatch
  import opened RuleGeneration

  /** A production: the pattern to find and the placeholder to put in its place. */
  datatype Rule = Rule(pattern: string, placeholder: string)

  /** A successful search for a rule: the matched span `[start, end)` and its replacement. */
  datatype Rewrite = Rewrite(start: nat, end: nat, replacement: string)

  /**
   * What `applyRule` finds for `rule` in `line` with a fresh generator: the
   * leftmost match of the compiled pattern and the placeholder instantiated
   * from the matched text; `None` when the pattern is found nowhere.
   */
  function RuleRewrite(x: CharSet, a1: CharSet, rule: Rule, line: string): (r: Option<Rewrite>)
    ensures r.Some? ==> r.value.start <= r.value.end <= |line|
  {
    var c := Compile(x, a1, rule.pattern);
    match Search(c.terms, line)
    case None => None
    case Some(f) =>
      SearchFindsLeftmost(c.terms, line);
      PlaceholderAfterCompile(x, a1, rule.pattern, rule.placeholder, line[f.start..End(f)]);
      Some(Rewrite(f.start, End(f), PlaceholderFrom(x, line[f.start..End(f)], rule.placeholder, ("", c.groups)).0))
  }

  /** `line.replace(start, end - start, replacement)`: only the span changes. */
  function Apply(line: string, rw: Rewrite): (r: string)
    requires rw.start <= rw.end <= |line|
    ensures |r| == |line| - (rw.end - rw.start) + |rw.replacement|
    ensures r[..rw.start] == line[..rw.start]
    ensures r[rw.start..rw.start + |rw.replacement|] == rw.replacement
    ensures r[rw.start + |rw.replacement|..] == line[rw.end..]
  {
    line[..rw.start] + rw.replacement + line[rw.end..]
  }

  /**
   * A rule that applies is applied at the leftmost place its compiled pattern
   * fits, to exactly the text of the fit that comes first in backtracking
   * order there (greedy classes), and the replacement is the placeholder
   * with the pattern's variables replaced by the leftmost longest run of
   * axiom characters in that text.
   */
  lemma RuleRewriteFound(x: CharSet, a1: CharSet, rule: Rule, line: string)
    requires RuleRewrite(x, a1, rule, line).Some?
    ensures var rw := RuleRewrite(x, a1, rule, line).value;
            var ts := Compile(x, a1, rule.pattern).terms;
            && (exists ps ::
                  && Fits(ts, line, rw.start, ps, [])
                  && Concat(ps) == line[rw.start..rw.end]
                  && forall qs :: Fits(ts, line, rw.start, qs, []) ==> NoLaterThan(ps, qs))
            && NoFitBefore(ts, line, rw.start)
            && rw.replacement == Substituted(x, rule.placeholder, rule.pattern, LeftmostRun(a1, line[rw.start..rw.end]))
  {
    var ts := Compile(x, a1, rule.pattern).terms;
    SearchFindsLeftmost(ts, line);
    var f := Search(ts, line).value;
    PlaceholderAfterCompile(x, a1, rule.pattern, rule.placeholder, line[f.start..End(f)]);
    assert Fits(ts, line, f.start, f.pieces, []);
  }

  /** A rule that does not apply fits nowhere in the line. */
  lemma RuleRewriteNone(x: CharSet, a1: CharSet, rule: Rule, line: string)
    requires RuleRewrite(x, a1, rule, line).None?
    ensures forall q: nat, ps :: q <= |line| ==> !Fits(Compile(x, a1, rule.pattern).terms, line, q, ps, [])
  {
    SearchFailsOnlyWithoutFit(Compile(x, a1, rule.pattern).terms, line);
  }

  /** The rule chosen for a step, by its position in the rule list, and what it does. */
  datatype Choice = Choice(index: nat, rewrite: Rewrite)

  /** The first rule from position `i` on that applies to `line`. */
  function FirstApplicableFrom(x: CharSet, a1: CharSet, rules: seq<Rule>, line: string, i: nat): (r: Option<Choice>)
    requires i <= |rules|
    ensures r.Some? ==>
              && i <= r.value.index < |rules|
              && RuleRewrite(x, a1, rules[r.value.index], line) == Some(r.value.rewrite)
              && forall k :: i <= k < r.value.index ==> RuleRewrite(x, a1, rules[k], line).None?
    ensures r.None? ==> forall k :: i <= k < |rules| ==> RuleRewrite(x, a1, rules[k], line).None?
    decreases |rules| - i
  {
    if i == |rules| then None
    else
      match RuleRewrite(x, a1, rules[i], line)
      case Some(rw) => Some(Choice(i, rw))
      case None => FirstApplicableFrom(x, a1, rules, line, i + 1)
  }

  /** The rule a step applies: the first in declaration order that applies. */
  function FirstApplicable(x: CharSet, a1: CharSet, rules: seq<Rule>, line: string): Option<Choice> {
    FirstApplicableFrom(x, a1, rules, line, 0)
  }

  /** The first applicable rule is determined by which rules apply. */
  lemma FirstApplicableIs(x: CharSet, a1: CharSet, rules: seq<Rule>, line: string, i: nat, rw: Rewrite)
    requires i < |rules| && RuleRewrite(x, a1, rules[i], line) == Some(rw)
    requires forall k :: 0 <= k < i ==> RuleRewrite(x, a1, rules[k], line).None?
    ensures FirstApplicable(x, a1, rules, line) == Some(Choice(i, rw))
  {
    var r := FirstApplicable(x, a1, rules, line);
    assert r.Some?;
    assert r.value.index == i;
  }

  /** The text `run` prints for the rule applied. */
  function RuleText(rule: Rule): string {
    rule.pattern + " -> " + rule.placeholder
  }

  /** One row of the trace `run` prints: line before, rule applied, line after. */
  datatype Record = Record(before: string, rule: string, after: string)

  /** A bounded run: the rows printed, the line at the end, and whether it stopped because no rule applied. */
  datatype RunResult = RunResult(records: seq<Record>, final: string, halted: bool)

  /**
   * One step of `run`: the text of the rule `applyAnyRule` applies and the
   * line it leaves; `None` when no rule applies.
   */
  function Step(x: CharSet, a1: CharSet, rules: seq<Rule>, line: string): Option<(string, string)> {
    match FirstApplicable(x, a1, rules, line)
    case None => None
    case Some(c) => Some((RuleText(rules[c.index]), Apply(line, c.rewrite)))
  }

  /** A way of taking one step on a line: the text of the rule applied and the new line, or `None` to stop. */
  type Stepper = string -> Option<(string, string)>

  /**
   * At most `fuel` steps from `line`, recording one row per step. `halted`
   * says that the run stopped because no step was possible, rather than
   * because the fuel ran out.
   */
  function RunWith(step: Stepper, line: string, fuel: nat): (r: RunResult)
    ensures |r.records| <= fuel
    ensures !r.halted ==> |r.records| == fuel
    decreases fuel
  {
    if fuel == 0 then RunResult([], line, false)
    else
      match step(line)
      case None => RunResult([], line, true)
      case Some((text, next)) =>
        var rest := RunWith(step, next, fuel - 1);
        RunResult([Record(line, text, next)] + rest.records, rest.final, rest.halted)
  }

  /** The steps of the emulator. */
  function StepOf(x: CharSet, a1: CharSet, rules: seq<Rule>): Stepper {
    line => Step(x, a1, rules, line)
  }

  /** At most `fuel` steps of `run` from `line`. */
  function RunFrom(x: CharSet, a1: CharSet, rules: seq<Rule>, line: string, fuel: nat): RunResult {
    RunWith(StepOf(x, a1, rules), line, fuel)
  }

  /** A run that cannot take its first step halts at once. */
  lemma RunWithHalts(step: Stepper, line: string, fuel: nat)
    requires fuel > 0 && step(line).None?
    ensures RunWith(step, line, fuel) == RunResult([], line, true)
  {
  }

  /** A run that takes its first step records it and goes on from the new line. */
  lemma RunWithAdvances(step: Stepper, done: seq<Record>, line: string, text: string, next: string, fuel: nat)
    requires fuel > 0 && step(line) == Some((text, next))
    ensures var a := RunWith(step, line, fuel);
            var b := RunWith(step, next, fuel - 1);
            RunResult(done + a.records, a.final, a.halted)
              == RunResult((done + [Record(line, text, next)]) + b.records, b.final, b.halted)
  {
    var b := RunWith(step, next, fuel - 1);
    assert done + ([Record(line, text, next)] + b.records) == (done + [Record(line, text, next)]) + b.records;
  }

  /** The emulator's step from `line` is the first applicable rule's rewrite. */
  lemma StepOfFirstApplicable(x: CharSet, a1: CharSet, rules: seq<Rule>, line: string)
    ensures match FirstApplicable(x, a1, rules, line)
            case None => StepOf(x, a1, rules)(line).None?
            case Some(c) => StepOf(x, a1, rules)(line) == Some((RuleText(rules[c.index]), Apply(line, c.rewrite)))
  {
  }

  /** The last row of a non-empty table. */
  function LastRow(records: seq<Record>): (r: Record)
    requires records != []
    ensures r in records
  {
    records[|records| - 1]
  }

  lemma LastRecord(records: seq<Record>, rec: Record)
    ensures LastRow(records + [rec]) == rec
  {
  }

  /** Every row of the trace is one step from its "before" line. */
  lemma {:induction false} RunSteps(step: Stepper, line: string, fuel: nat)
    ensures var r := RunWith(step, line, fuel);
            forall k :: 0 <= k < |r.records| ==> step(r.records[k].before) == Some((r.records[k].rule, r.records[k].after))
    decreases fuel
  {
    if fuel > 0 && step(line).Some? {
      var text := step(line).value.0;
      var next := step(line).value.1;
      RunSteps(step, next, fuel - 1);
      var rest := RunWith(step, next, fuel - 1);
      var r := RunWith(step, line, fuel);
      assert r.records == [Record(line, text, next)] + rest.records;
      forall k | 0 <= k < |r.records|
        ensures step(r.records[k].before) == Some((r.records[k].rule, r.records[k].after))
      {
        if k > 0 {
          assert r.records[k] == rest.records[k - 1];
          assert var rr := RunWith(step, next, fuel - 1);
                 forall i :: 0 <= i < |rr.records| ==> step(rr.records[i].before) == Some((rr.records[i].rule, rr.records[i].after));
        } else {
          assert step(line) == Some((text, next));
          assert r.records[0] == Record(line, text, next);
        }
      }
    }
  }

  /**
   * The rows of the trace form a chain from the initial line to the final
   * one: each row's "after" is the next row's "before".
   */
  lemma {:induction false} RunChain(step: Stepper, line: string, fuel: nat)
    ensures var r := RunWith(step, line, fuel);
            && (r.records == [] ==> r.final == line)
            && (r.records != [] ==> r.records[0].before == line && r.records[|r.records| - 1].after == r.final)
            && (forall k :: 0 <= k < |r.records| - 1 ==> r.records[k].after == r.records[k + 1].before)
    decreases fuel
  {
    if fuel > 0 && step(line).Some? {
      var text := step(line).value.0;
      var next := step(line).value.1;
      RunChain(step, next, fuel - 1);
      var rest := RunWith(step, next, fuel - 1);
      var r := RunWith(step, line, fuel);
      assert r.records == [Record(line, text, next)] + rest.records;
      forall k | 0 <= k < |r.records| - 1
        ensures r.records[k].after == r.records[k + 1].before
      {
        assert r.records[k + 1] == rest.records[k];
        if k > 0 {
          assert r.records[k] == rest.records[k - 1];
        }
      }
    }
  }

  /** A run that halted ends on a line where no step is possible. */
  lemma {:induction false} RunHaltsAtFixpoint(step: Stepper, line: string, fuel: nat)
    requires RunWith(step, line, fuel).halted
    ensures step(RunWith(step, line, fuel).final).None?
    decreases fuel
  {
    if step(line).Some? {
      RunHaltsAtFixpoint(step, step(line).value.1, fuel - 1);
    }
  }

  /** Once no step is possible, the run stops at once, with no rows, on the same line. */
  lemma HaltIsFinal(step: Stepper, line: string, fuel: nat)
    requires step(line).None?
    ensures RunWith(step, line, fuel) == RunResult([], line, fuel > 0)
  {
  }

  /** A run that halted gives the same rows and line with any larger bound. */
  lemma {:induction false} RunMoreFuel(step: Stepper, line: string, fuel: nat, more: nat)
    requires RunWith(step, line, fuel).halted && fuel <= more
    ensures RunWith(step, line, more) == RunWith(step, line, fuel)
    decreases fuel
  {
    if step(line).Some? {
      RunMoreFuel(step, step(line).value.1, fuel - 1, more - 1);
    }
  }

  /** A halted run of the emulator ends on a line that no rule applies to. */
  lemma EmulatorHaltsAtFixpoint(x: CharSet, a1: CharSet, rules: seq<Rule>, line: string, fuel: nat)
    requires RunFrom(x, a1, rules, line, fuel).halted
    ensures FirstApplicable(x, a1, rules, RunFrom(x, a1, rules, line, fuel).final).None?
  {
    var step := StepOf(x, a1, rules);
    RunHaltsAtFixpoint(step, line, fuel);
    var final := RunFrom(x, a1, rules, line, fuel).final;
    assert step(final) == Step(x, a1, rules, final);
  }

  /**
   * `PostSystemEmulator`: the four parsed collections and the working line.
   * Every rule attempt builds a fresh `RuleGenerator`.
   */
  class PostSystemEmulator {
    const alphabet: CharSet
    const variables: CharSet
    const axioms: CharSet
    const rules: seq<Rule>
    var line: string
    var lastRule: Rule

    constructor(alphabet: CharSet, variables: CharSet, axioms: CharSet, rules: seq<Rule>)
      ensures this.alphabet == alphabet && this.variables == variables
      ensures this.axioms == axioms && this.rules == rules
      ensures line == "" && lastRule == Rule("", "")
    {
      this.alphabet := alphabet;
      this.variables := variables;
      this.axioms := axioms;
      this.rules := rules;
      line := "";
      lastRule := Rule("", "");
    }

    /**
     * `applyRule`: compiles the rule with a fresh generator, searches the
     * line and, on a match, replaces the matched span by the instantiated
     * placeholder.
     */
    method ApplyRule(rule: Rule) returns (applied: bool)
      modifies this
      ensures applied <==> RuleRewrite(variables, axioms, rule, old(line)).Some?
      ensures applied ==> line == Apply(old(line), RuleRewrite(variables, axioms, rule, old(line)).value)
      ensures !applied ==> line == old(line)
      ensures lastRule == old(lastRule)
    {
      var gen := new RuleGenerator();
      var text := gen.CreateRegPattern(alphabet, variables, axioms, rule.pattern);
      ghost var c := Compile(variables, axioms, rule.pattern);
      assert text == Render(c.terms);
      CompiledWellFormed(variables, axioms, rule.pattern);
      ParseRender(c.terms);
      var regRule := Parse(text).value;
      var found := Search(regRule, line);
      if found.Some? {
        var f := found.value;
        SearchFindsLeftmost(regRule, line);
        PlaceholderAfterCompile(variables, axioms, rule.pattern, rule.placeholder, line[f.start..End(f)]);
        var replacement := gen.ProcessPlaceholder(variables, rule.placeholder, line[f.start..End(f)]);
        line := line[..f.start] + replacement + line[End(f)..];
        applied := true;
      } else {
        applied := false;
      }
    }

    /**
     * `applyAnyRule`: applies the first rule, in declaration order, that
     * matches, and records it as the last rule applied.
     */
    method ApplyAnyRule() returns (applied: bool)
      modifies this
      ensures match FirstApplicable(variables, axioms, rules, old(line))
              case None => !applied && line == old(line) && lastRule == old(lastRule)
              case Some(c) => applied && line == Apply(old(line), c.rewrite) && lastRule == rules[c.index]
    {
      for i := 0 to |rules|
        invariant line == old(line) && lastRule == old(lastRule)
        invariant forall k :: 0 <= k < i ==> RuleRewrite(variables, axioms, rules[k], line).None?
      {
        applied := ApplyRule(rules[i]);
        if applied {
          FirstApplicableIs(variables, axioms, rules, old(line), i, RuleRewrite(variables, axioms, rules[i], old(line)).value);
          lastRule := rules[i];
          return;
        }
      }
      applied := false;
    }

    method SetLine(line: string)
      modifies this
      ensures this.line == line && lastRule == old(lastRule)
    {
      this.line := line;
    }

    /** What is left of a run of `remaining` steps from `line` completes `records` to `total`. */
    ghost predicate Continues(total: RunResult, records: seq<Record>, remaining: nat)
      reads this
    {
      var rest := RunWith(StepOf(variables, axioms, rules), line, remaining);
      total == RunResult(records + rest.records, rest.final, rest.halted)
    }

    /** `lastRule` is the rule of the last row printed, or `start` when none was. */
    ghost predicate Tracks(records: seq<Record>, start: Rule)
      reads this
    {
      && (records == [] ==> lastRule == start)
      && (records != [] ==> RuleText(lastRule) == LastRow(records).rule)
    }

    /** One iteration of `run`'s loop: `applyAnyRule` and the row printed when it succeeds. */
    method Advance(ghost total: RunResult, records: seq<Record>, remaining: nat, ghost start: Rule)
      returns (applied: bool, next: seq<Record>)
      modifies this
      requires remaining > 0 && Continues(total, records, remaining) && Tracks(records, start)
      ensures !applied ==> total == RunResult(records, line, true) && Tracks(records, start)
      ensures applied ==> Continues(total, next, remaining - 1) && Tracks(next, start)
    {
      var lineBefore := line;
      StepOfFirstApplicable(variables, axioms, rules, lineBefore);
      applied := ApplyAnyRule();
      if !applied {
        RunWithHalts(StepOf(variables, axioms, rules), lineBefore, remaining);
        assert records + [] == records;
        next := records;
        return;
      }
      var row := Record(lineBefore, RuleText(lastRule), line);
      RunWithAdvances(StepOf(variables, axioms, rules), records, lineBefore, row.rule, row.after, remaining);
      LastRecord(records, row);
      next := records + [row];
    }

    /**
     * `run`, for at most `fuel` steps: the rows it prints, the line it
     * returns, and whether it stopped because no rule applied.
     */
    method Run(fuel: nat) returns (result: string, records: seq<Record>, halted: bool)
      modifies this
      ensures var r := RunFrom(variables, axioms, rules, old(line), fuel);
              result == r.final && line == r.final && records == r.records && halted == r.halted
      ensures records == [] ==> lastRule == old(lastRule)
      ensures records != [] ==> RuleText(lastRule) == LastRow(records).rule
    {
      ghost var total := RunWith(StepOf(variables, axioms, rules), line, fuel);
      records := [];
      halted := false;
      var remaining: nat := fuel;
      while remaining > 0
        invariant remaining <= fuel
        invariant Continues(total, records, remaining)
        invariant Tracks(records, old(lastRule))
        decreases remaining
      {
        var applied, next := Advance(total, records, remaining, old(lastRule));
        if !applied {
          halted := true;
          break;
        }
        records := next;
        remaining := remaining - 1;
      }
      if remaining == 0 {
        assert records + [] == records;
      }
      result := line;
    }
  }
}
