/**
 * Consequences of the rewrite model for particular kinds of rule: rules
 * without variables behave as plain substring replacement at the first
 * occurrence; the rule `1 -> 11` never lets a run halt; and a variable's
 * back-reference is not anchored, so `v#v -> #` rewrites `11#111`.
 */
module PostScenarios {
  import opened CharSets
  import opened RegexSyntax
  import opened RegexMatch
  import opened RuleGeneration
  import opened PostSystem

  // ---------------------------------------------------------------------
  // Rules without variables

  /** No character of `s` is a variable. */
  predicate NoVariables(x: CharSet, s: string) {
    forall i :: 0 <= i < |s| ==> s[i] !in x
  }

  /** `p` occurs in `line` at position `q`. */
  predicate OccursAt(p: string, line: string, q: nat) {
    q + |p| <= |line| && line[q..q + |p|] == p
  }

  /** The expression that matches the text `p` character by character. */
  function Literals(p: string): (ts: seq<Term>)
    ensures |ts| == |p| && forall i :: 0 <= i < |p| ==> ts[i] == Literal(p[i])
  {
    seq(|p|, i requires 0 <= i < |p| => Literal(p[i]))
  }

  /** The one-character pieces of `p`. */
  function Singles(p: string): (ps: seq<string>)
    ensures |ps| == |p| && forall i :: 0 <= i < |p| ==> ps[i] == [p[i]]
  {
    seq(|p|, i requires 0 <= i < |p| => [p[i]])
  }

  /** A pattern without variables compiles to its own characters as literals. */
  lemma LiteralCompile(x: CharSet, a1: CharSet, p: string)
    requires NoVariables(x, p)
    ensures Compile(x, a1, p).terms == Literals(p)
  {
    CompileFresh(x, a1, p);
  }

  /** The literal expression fits exactly where the text occurs, one character per term. */
  lemma {:induction false} FitsLiterals(p: string, line: string, q: nat, ps: seq<string>, caps: seq<string>)
    requires q <= |line|
    ensures Fits(Literals(p), line, q, ps, caps) <==> OccursAt(p, line, q) && ps == Singles(p)
    decreases |p|
  {
    var ts := Literals(p);
    if p != [] && |ps| == |p| {
      assert ts[1..] == Literals(p[1..]);
      assert Singles(p)[1..] == Singles(p[1..]);
      if q < |line| {
        FitsLiterals(p[1..], line, q + 1, ps[1..], caps + Recorded(ts[0], ps[0]));
      }
      if Fits(ts, line, q, ps, caps) {
        assert ps[0] == [p[0]];
        assert line[q..q + |p|] == line[q..q + 1] + line[q + 1..q + 1 + |p[1..]|];
        assert p == [p[0]] + p[1..];
        assert ps == [ps[0]] + ps[1..];
      }
      if OccursAt(p, line, q) && ps == Singles(p) {
        assert line[q..q + |p|] == line[q..q + 1] + line[q + 1..q + 1 + |p[1..]|];
        assert line[q..q + |p|][1..] == line[q + 1..q + 1 + |p[1..]|];
        assert Recorded(ts[0], ps[0]) == [];
        assert caps + [] == caps;
      }
    }
  }

  /** The pieces of the literal expression spell the text. */
  lemma {:induction false} ConcatSingles(p: string)
    ensures Concat(Singles(p)) == p
    decreases |p|
  {
    if p != [] {
      assert Singles(p)[1..] == Singles(p[1..]);
      ConcatSingles(p[1..]);
      assert p == [p[0]] + p[1..];
    }
  }

  /** A placeholder without variables is copied unchanged. */
  lemma {:induction false} SubstitutedLiteral(x: CharSet, ph: string, p: string, run: string)
    requires NoVariables(x, ph)
    ensures Substituted(x, ph, p, run) == ph
    decreases |ph|
  {
    if ph != [] {
      SubstitutedLiteral(x, ph[1..], p, run);
      assert ph == [ph[0]] + ph[1..];
    }
  }

  /**
   * A rule without variables applies exactly when its pattern occurs in the
   * line; it then replaces the first occurrence by the placeholder.
   */
  lemma LiteralRuleRewrite(x: CharSet, a1: CharSet, rule: Rule, line: string)
    requires NoVariables(x, rule.pattern) && NoVariables(x, rule.placeholder)
    ensures RuleRewrite(x, a1, rule, line).Some? <==> exists q: nat :: OccursAt(rule.pattern, line, q)
    ensures RuleRewrite(x, a1, rule, line).Some? ==>
              var rw := RuleRewrite(x, a1, rule, line).value;
              && OccursAt(rule.pattern, line, rw.start)
              && rw.end == rw.start + |rule.pattern|
              && rw.replacement == rule.placeholder
              && forall q: nat :: q < rw.start ==> !OccursAt(rule.pattern, line, q)
  {
    var p := rule.pattern;
    LiteralCompile(x, a1, p);
    if RuleRewrite(x, a1, rule, line).Some? {
      var rw := RuleRewrite(x, a1, rule, line).value;
      RuleRewriteFound(x, a1, rule, line);
      var ps :| Fits(Literals(p), line, rw.start, ps, []) && Concat(ps) == line[rw.start..rw.end];
      FitsLiterals(p, line, rw.start, ps, []);
      ConcatSingles(p);
      SubstitutedLiteral(x, rule.placeholder, p, LeftmostRun(a1, line[rw.start..rw.end]));
      forall q: nat | q < rw.start && OccursAt(p, line, q)
        ensures false
      {
        FitsLiterals(p, line, q, Singles(p), []);
      }
    } else {
      RuleRewriteNone(x, a1, rule, line);
      forall q: nat | OccursAt(p, line, q)
        ensures false
      {
        FitsLiterals(p, line, q, Singles(p), []);
      }
    }
  }

  // ---------------------------------------------------------------------
  // A rule that never lets the run halt

  /** With `1` not a variable, `1 -> 11` applies to any line holding a `1` and adds one `1`. */
  lemma GrowthStep(x: CharSet, a1: CharSet, rules: seq<Rule>, line: string)
    requires rules == [Rule("1", "11")] && '1' !in x && '1' in line
    ensures Step(x, a1, rules, line).Some?
    ensures var (text, next) := Step(x, a1, rules, line).value;
            text == RuleText(rules[0]) && |next| == |line| + 1 && '1' in next
  {
    var rule := rules[0];
    LiteralRuleRewrite(x, a1, rule, line);
    var q :| 0 <= q < |line| && line[q] == '1';
    assert OccursAt(rule.pattern, line, q) by {
      assert line[q..q + 1] == [line[q]];
    }
    var rw := RuleRewrite(x, a1, rule, line).value;
    FirstApplicableIs(x, a1, rules, line, 0, rw);
    var next := Apply(line, rw);
    assert next[rw.start..rw.start + 2] == "11";
    assert next[rw.start] == '1';
  }

  /** A run whose every step keeps a `1` in the line and lengthens it by one never halts. */
  lemma {:induction false} GrowingRun(step: Stepper, line: string, fuel: nat)
    requires '1' in line
    requires forall l: string :: '1' in l ==> step(l).Some? && |step(l).value.1| == |l| + 1 && '1' in step(l).value.1
    ensures var r := RunWith(step, line, fuel);
            !r.halted && |r.records| == fuel && |r.final| == |line| + fuel
    decreases fuel
  {
    if fuel > 0 {
      GrowingRun(step, step(line).value.1, fuel - 1);
    }
  }

  /** So every run of `1 -> 11` from a line holding a `1` uses all its fuel, one `1` per step. */
  lemma GrowthNeverHalts(x: CharSet, a1: CharSet, rules: seq<Rule>, line: string, fuel: nat)
    requires rules == [Rule("1", "11")] && '1' !in x && '1' in line
    ensures var r := RunFrom(x, a1, rules, line, fuel);
            !r.halted && |r.records| == fuel && |r.final| == |line| + fuel
  {
    var step := StepOf(x, a1, rules);
    forall l: string | '1' in l
      ensures step(l).Some? && |step(l).value.1| == |l| + 1 && '1' in step(l).value.1
    {
      GrowthStep(x, a1, rules, l);
      assert step(l) == Step(x, a1, rules, l);
    }
    GrowingRun(step, line, fuel);
  }

  // ---------------------------------------------------------------------
  // The back-reference is not anchored

  /** `v#v` over the variable `v` and the axiom `1`: a class group, the literal `#`, a back-reference to group 1. */
  lemma BackRefTerms(x: CharSet, a1: CharSet, p: string)
    requires x == "v" && a1 == "1" && p == "v#v"
    ensures Compile(x, a1, p).terms == [Capture(Class(a1)), Literal('#'), Capture(BackRef(1))]
  {
    var st := Compiled([], map[], 1);
    var p1 := ['v'];
    var p2 := p1 + ['#'];
    assert p == p2 + ['v'];
    assert p1 == [] + ['v'];
    var c1 := CompileFrom(x, a1, p1, st);
    assert c1.terms == [Capture(Class(a1))] && 'v' in c1.groups && c1.groups['v'].0 == 1 by {
      CompileFromSnoc(x, a1, [], 'v', st);
    }
    var c2 := CompileFrom(x, a1, p2, st);
    assert c2.terms == [Capture(Class(a1)), Literal('#')] && c2.groups == c1.groups by {
      CompileFromSnoc(x, a1, p1, '#', st);
    }
    CompileFromSnoc(x, a1, p2, 'v', st);
  }

  /** A fit of `v#v` ends its first piece, a run of `1`s, just before a `#`. */
  lemma BackRefFitShape(x: CharSet, a1: CharSet, p: string, line: string, q: nat, ps: seq<string>)
    requires x == "v" && a1 == "1" && p == "v#v"
    requires Fits(Compile(x, a1, p).terms, line, q, ps, [])
    ensures |ps| == 3 && |ps[0]| >= 1 && q + |ps[0]| < |line|
    ensures forall i :: q <= i < q + |ps[0]| ==> line[i] == '1'
    ensures line[q + |ps[0]|] == '#' && ps[1] == "#" && ps[2] == ps[0]
  {
    BackRefTerms(x, a1, p);
    var ts := Compile(x, a1, p).terms;
    assert ts[1..][1..] == [ts[2]];
    assert ps[1..][1..] == [ps[2]];
    assert [] + Recorded(ts[0], ps[0]) == [ps[0]];
    assert [ps[0]] + Recorded(ts[1], ps[1]) == [ps[0]];
    assert Fits(ts[1..][1..], line, q + |ps[0]| + |ps[1]|, ps[1..][1..], [ps[0]]);
    assert Accepts(ts[2], ps[2], [ps[0]]);
    forall i | q <= i < q + |ps[0]|
      ensures line[i] == '1'
    {
      assert line[i] == ps[0][i - q];
    }
    assert line[q + |ps[0]|] == line[q + |ps[0]|..q + |ps[0]| + 1][0];
  }

  /** `v#v` fits at the start of a line beginning `11#11`, with `v` standing for `11`. */
  lemma BackRefFitsAtStart(x: CharSet, a1: CharSet, p: string, line: string, rest: string)
    requires x == "v" && a1 == "1" && p == "v#v" && line == "11#11" + rest
    ensures Fits(Compile(x, a1, p).terms, line, 0, ["11", "#", "11"], [])
  {
    BackRefTerms(x, a1, p);
    var ts := Compile(x, a1, p).terms;
    var ps := ["11", "#", "11"];
    assert line[0..2] == "11" && line[2..3] == "#" && line[3..5] == "11";
    assert ts[1..][1..] == ts[2..] && ts[2..][1..] == ts[3..];
    assert ps[1..][1..] == ps[2..] && ps[2..][1..] == ps[3..];
    assert Fits(ts[3..], line, 5, ps[3..], ["11", "11"]);
    assert ["11"] + ["11"] == ["11", "11"];
    assert Fits(ts[2..], line, 3, ps[2..], ["11"]);
    assert ["11"] + [] == ["11"];
    assert Fits(ts[1..], line, 2, ps[1..], ["11"]);
    assert [] + ["11"] == ["11"];
  }

  /** Every fit of `v#v` at the start of such a line spans exactly `11#11`. */
  lemma BackRefSpanAtStart(x: CharSet, a1: CharSet, p: string, line: string, rest: string, ps: seq<string>)
    requires x == "v" && a1 == "1" && p == "v#v" && line == "11#11" + rest
    requires Fits(Compile(x, a1, p).terms, line, 0, ps, [])
    ensures |Concat(ps)| == 5
  {
    BackRefFitShape(x, a1, p, line, 0, ps);
    assert line[1] == '1' && line[2] == '#';
    assert |ps[0]| == 2;
    assert ps[1..][1..] == ps[2..] && ps[2..][1..] == ps[3..];
    assert Concat(ps[2..]) == ps[2] + Concat(ps[3..]);
    assert Concat(ps[1..]) == ps[1] + Concat(ps[2..]);
  }

  /**
   * `v#v -> #` on a line starting with `11#11` replaces those five
   * characters by `#`, whatever follows: the back-reference matches the
   * `11` after `#` even when more `1`s follow it.
   */
  lemma UnanchoredBackReference(x: CharSet, a1: CharSet, rule: Rule, line: string, rest: string)
    requires x == "v" && a1 == "1" && rule == Rule("v#v", "#") && line == "11#11" + rest
    ensures RuleRewrite(x, a1, rule, line) == Some(Rewrite(0, 5, "#"))
    ensures Apply(line, Rewrite(0, 5, "#")) == "#" + rest
  {
    var p := rule.pattern;
    var ts := Compile(x, a1, p).terms;
    BackRefFitsAtStart(x, a1, p, line, rest);
    if RuleRewrite(x, a1, rule, line).None? {
      RuleRewriteNone(x, a1, rule, line);
      assert false;
    }
    var rw := RuleRewrite(x, a1, rule, line).value;
    RuleRewriteFound(x, a1, rule, line);
    assert rw.start == 0;
    var ps :| Fits(ts, line, 0, ps, []) && Concat(ps) == line[0..rw.end];
    BackRefSpanAtStart(x, a1, p, line, rest, ps);
    assert NoVariables(x, rule.placeholder);
    SubstitutedLiteral(x, rule.placeholder, p, LeftmostRun(a1, line[rw.start..rw.end]));
  }

  /** A line in which every `#` is the first character admits no fit of `v#v`. */
  lemma BackRefNowhere(x: CharSet, a1: CharSet, rule: Rule, line: string)
    requires x == "v" && a1 == "1" && rule == Rule("v#v", "#")
    requires forall i :: 0 < i < |line| ==> line[i] != '#'
    ensures RuleRewrite(x, a1, rule, line).None?
  {
    if RuleRewrite(x, a1, rule, line).Some? {
      RuleRewriteFound(x, a1, rule, line);
      var rw := RuleRewrite(x, a1, rule, line).value;
      var ps :| Fits(Compile(x, a1, rule.pattern).terms, line, rw.start, ps, []) && Concat(ps) == line[rw.start..rw.end];
      BackRefFitShape(x, a1, rule.pattern, line, rw.start, ps);
    }
  }

  /**
   * The runs of `v#v -> #` from `11#11` and from `11#111`: the first ends
   * with `#`, the second with `#1`, each after one rewrite.
   */
  lemma BackReferenceRuns(x: CharSet, a1: CharSet, rules: seq<Rule>, rest: string, fuel: nat)
    requires x == "v" && a1 == "1" && rules == [Rule("v#v", "#")]
    requires rest == "" || rest == "1"
    requires fuel >= 2
    ensures RunFrom(x, a1, rules, "11#11" + rest, fuel)
         == RunResult([Record("11#11" + rest, RuleText(rules[0]), "#" + rest)], "#" + rest, true)
  {
    var line := "11#11" + rest;
    var after := "#" + rest;
    UnanchoredBackReference(x, a1, rules[0], line, rest);
    FirstApplicableIs(x, a1, rules, line, 0, Rewrite(0, 5, "#"));
    assert StepOf(x, a1, rules)(line) == Some((RuleText(rules[0]), after));
    BackRefNowhere(x, a1, rules[0], after);
    assert StepOf(x, a1, rules)(after) == None;
    assert RunFrom(x, a1, rules, after, fuel - 1) == RunResult([], after, true);
  }
}
