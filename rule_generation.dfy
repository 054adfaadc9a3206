/**
 * `RegexableRuleGenerator`: compiles a rule's pattern into the regular
 * expression the emulator searches with, and instantiates a rule's placeholder
 * from the matched text.
 *
 * The compile functions describe one pass of `createRegPattern`'s loop, one
 * pattern character at a time; the class below runs that loop on the
 * generator's own fields. The lemmas describe the result for a fresh generator,
 * the only way the emulator uses one:
 *   - a character that is not a variable becomes a literal;
 *   - the first occurrence of a variable becomes a captured `[axioms]+` and
 *     records the variable under the next ordinal, counting from 1;
 *   - a later occurrence becomes a captured back-reference to that ordinal.
 * Every variable occurrence opens a capturing group, back-references included,
 * while a back-reference names its variable's ordinal among DISTINCT variables;
 * `BackRefNamesOrdinalOccurrence` states what the match therefore enforces, and
 * `SameVariableSameText` when that is "same variable, same text".
 */
module RuleGeneration {
  import opened CharSets
  import opened RegexSyntax
  import opened RegexMatch
  import opened Decimal

  /** `variableGroupMap`: a variable's ordinal and the group text of its first occurrence. */
  type Groups = map<char, (nat, string)>

  /** The state of one `createRegPattern` pass: terms emitted so far, the map, the counter. */
  datatype Compiled = Compiled(terms: seq<Term>, groups: Groups, counter: nat)

  /** One iteration of `createRegPattern`'s loop (with `createVarGroup` / `createConstGroup`). */
  function CompileChar(x: CharSet, a1: CharSet, st: Compiled, ch: char): Compiled {
    if ch in x then
      if ch in st.groups then
        Compiled(st.terms + [Capture(BackRef(st.groups[ch].0))], st.groups, st.counter)
      else
        Compiled(st.terms + [Capture(Class(a1))], st.groups[ch := (st.counter, ClassText(a1))], st.counter + 1)
    else
      Compiled(st.terms + [Literal(ch)], st.groups, st.counter)
  }

  /** The loop over the characters of `p`, left to right, from state `st`. */
  function CompileFrom(x: CharSet, a1: CharSet, p: string, st: Compiled): Compiled
    decreases |p|
  {
    if p == [] then st else CompileChar(x, a1, CompileFrom(x, a1, p[..|p| - 1], st), p[|p| - 1])
  }

  /** A fresh generator: no groups yet, and the counter is set to 1. */
  function Compile(x: CharSet, a1: CharSet, p: string): Compiled {
    CompileFrom(x, a1, p, Compiled([], map[], 1))
  }

  // ---------------------------------------------------------------------
  // Variables of a pattern

  /** The first index of `c` in `s`. */
  function IndexOf(s: seq<char>, c: char): (i: nat)
    requires c in s
    ensures i < |s| && s[i] == c && c !in s[..i]
  {
    if s[0] == c then 0
    else
      var i := 1 + IndexOf(s[1..], c);
      assert s[..i] == [s[0]] + s[1..][..i - 1];
      i
  }

  /** The variables of `p`, each once, in the order of their first occurrence. */
  function FirstOccurrences(x: CharSet, p: string): (d: seq<char>)
    ensures forall c :: c in d <==> c in x && c in p
    ensures forall i, j :: 0 <= i < j < |d| ==> d[i] != d[j]
    decreases |p|
  {
    if p == [] then []
    else
      var q := p[..|p| - 1];
      var c := p[|p| - 1];
      assert p == q + [c];
      var d := FirstOccurrences(x, q);
      if c in x && c !in d then d + [c] else d
  }

  /** The number `createVarGroup` records for variable `v`: its rank among the distinct variables. */
  function Ordinal(x: CharSet, p: string, v: char): (k: nat)
    requires v in x && v in p
    ensures 1 <= k <= |FirstOccurrences(x, p)|
  {
    IndexOf(FirstOccurrences(x, p), v) + 1
  }

  /** The positions of `p` that hold a variable, in increasing order. */
  function VarPositions(x: CharSet, p: string): (vp: seq<nat>)
    ensures forall i :: 0 <= i < |vp| ==> vp[i] < |p| && p[vp[i]] in x
    decreases |p|
  {
    if p == [] then []
    else
      var q := p[..|p| - 1];
      VarPositions(x, q) + (if p[|p| - 1] in x then [|p| - 1] else [])
  }

  /** The term `createRegPattern` emits for position `j` of `p`, by the rules above. */
  function TermFor(x: CharSet, a1: CharSet, p: string, j: nat): Term
    requires j < |p|
  {
    if p[j] !in x then Literal(p[j])
    else if p[j] !in p[..j] then Capture(Class(a1))
    else Capture(BackRef(Ordinal(x, p, p[j])))
  }

  lemma IndexOfPrefix(s: seq<char>, t: seq<char>, c: char)
    requires c in s
    ensures IndexOf(s + t, c) == IndexOf(s, c)
  {
    var i := IndexOf(s, c);
    assert (s + t)[i] == c;
  }

  /** The first occurrences of a prefix are a prefix of the first occurrences. */
  lemma {:induction false} FirstOccurrencesPrefix(x: CharSet, p: string, j: nat)
    requires j <= |p|
    ensures |FirstOccurrences(x, p[..j])| <= |FirstOccurrences(x, p)|
    ensures FirstOccurrences(x, p[..j]) == FirstOccurrences(x, p)[..|FirstOccurrences(x, p[..j])|]
    decreases |p|
  {
    if j < |p| {
      var q := p[..|p| - 1];
      assert q[..j] == p[..j];
      FirstOccurrencesPrefix(x, q, j);
    } else {
      assert p[..j] == p;
    }
  }

  /** Ordinals do not change as the pattern is read further. */
  lemma OrdinalOfPrefix(x: CharSet, p: string, j: nat, v: char)
    requires j <= |p| && v in x && v in p[..j]
    ensures v in p
    ensures Ordinal(x, p[..j], v) == Ordinal(x, p, v)
  {
    assert v in p by {
      var i :| 0 <= i < j && p[..j][i] == v;
      assert p[i] == v;
    }
    FirstOccurrencesPrefix(x, p, j);
    var d := FirstOccurrences(x, p);
    var dj := FirstOccurrences(x, p[..j]);
    assert d == dj + d[|dj|..];
    IndexOfPrefix(dj, d[|dj|..], v);
  }

  lemma {:induction false} VarPositionsPrefix(x: CharSet, p: string, j: nat)
    requires j <= |p|
    ensures |VarPositions(x, p[..j])| <= |VarPositions(x, p)|
    ensures VarPositions(x, p[..j]) == VarPositions(x, p)[..|VarPositions(x, p[..j])|]
    decreases |p|
  {
    if j < |p| {
      var q := p[..|p| - 1];
      assert q[..j] == p[..j];
      VarPositionsPrefix(x, q, j);
    } else {
      assert p[..j] == p;
    }
  }

  /** Each distinct variable occurs at least once. */
  lemma {:induction false} FirstOccurrencesBound(x: CharSet, p: string)
    ensures |FirstOccurrences(x, p)| <= |VarPositions(x, p)|
    decreases |p|
  {
    if p != [] {
      FirstOccurrencesBound(x, p[..|p| - 1]);
    }
  }

  // ---------------------------------------------------------------------
  // What a fresh generator emits

  /**
   * For a fresh generator the emitted terms follow `TermFor` position by
   * position, and the map holds exactly the pattern's variables, each with its
   * ordinal and the group text of `[axioms]+`.
   */
  lemma {:induction false} CompileFresh(x: CharSet, a1: CharSet, p: string)
    ensures var c := Compile(x, a1, p);
            && |c.terms| == |p|
            && c.counter == |FirstOccurrences(x, p)| + 1
            && (forall v :: v in c.groups <==> v in x && v in p)
            && (forall v :: v in c.groups ==> c.groups[v] == (Ordinal(x, p, v), ClassText(a1)))
            && (forall j :: 0 <= j < |p| ==> c.terms[j] == TermFor(x, a1, p, j))
    decreases |p|
  {
    if p != [] {
      var q := p[..|p| - 1];
      var ch := p[|p| - 1];
      assert p == q + [ch];
      CompileFresh(x, a1, q);
      var cq := Compile(x, a1, q);
      var c := Compile(x, a1, p);
      assert c == CompileChar(x, a1, cq, ch);
      var dq := FirstOccurrences(x, q);
      forall v | v in x && v in q
        ensures Ordinal(x, q, v) == Ordinal(x, p, v)
      {
        assert p[..|q|] == q;
        OrdinalOfPrefix(x, p, |q|, v);
      }
      forall j | 0 <= j < |q|
        ensures c.terms[j] == TermFor(x, a1, p, j)
      {
        assert c.terms[j] == cq.terms[j];
        assert p[..j] == q[..j] && p[j] == q[j];
        if q[j] in x && q[j] in q[..j] {
          assert q[j] in q;
        }
      }
      if ch in x {
        if ch in q {
          assert ch in cq.groups;
          assert c.terms[|q|] == Capture(BackRef(Ordinal(x, q, ch)));
        } else {
          assert ch !in dq;
          assert FirstOccurrences(x, p) == dq + [ch];
          assert IndexOf(dq + [ch], ch) == |dq|;
          forall v | v in x && v in p
            ensures v in c.groups && c.groups[v] == (Ordinal(x, p, v), ClassText(a1))
          {
            if v != ch {
              assert v in q;
            }
          }
        }
      } else {
        forall v | v in x && v in p
          ensures v in q
        {
        }
      }
    }
  }

  // ---------------------------------------------------------------------
  // What a match of the compiled pattern enforces

  /** The compiled terms are within the fragment the regular-expression compiler reads back. */
  lemma CompiledWellFormed(x: CharSet, a1: CharSet, p: string)
    ensures WellFormed(Compile(x, a1, p).terms)
  {
    CompileFresh(x, a1, p);
  }

  /** The compiled terms, position by position. */
  lemma CompiledTerms(x: CharSet, a1: CharSet, p: string)
    ensures |Compile(x, a1, p).terms| == |p|
    ensures forall j :: 0 <= j < |p| ==> Compile(x, a1, p).terms[j] == TermFor(x, a1, p, j)
  {
    CompileFresh(x, a1, p);
  }

  /** One more position of the match records one more group exactly when its term captures. */
  lemma CapturesOfPrefix(ts: seq<Term>, ps: seq<string>, j: nat)
    requires |ts| == |ps| && 0 < j <= |ts|
    ensures CapturesOf(ts[..j], ps[..j]) == CapturesOf(ts[..j - 1], ps[..j - 1]) + Recorded(ts[j - 1], ps[j - 1])
  {
    assert ts[..j][..j - 1] == ts[..j - 1];
    assert ps[..j][..j - 1] == ps[..j - 1];
  }

  /** The groups captured before position `j` hold the pieces at the variable positions before `j`. */
  lemma {:induction false} CompiledCaptures(x: CharSet, a1: CharSet, p: string, ps: seq<string>, j: nat)
    requires |ps| == |p| && j <= |p|
    ensures |Compile(x, a1, p).terms| == |p|
    ensures var ts := Compile(x, a1, p).terms;
            var vp := VarPositions(x, p[..j]);
            && |CapturesOf(ts[..j], ps[..j])| == |vp|
            && forall i :: 0 <= i < |vp| ==> CapturesOf(ts[..j], ps[..j])[i] == ps[vp[i]]
    decreases j
  {
    CompiledTerms(x, a1, p);
    if j > 0 {
      CompiledCaptures(x, a1, p, ps, j - 1);
      var ts := Compile(x, a1, p).terms;
      var before := CapturesOf(ts[..j - 1], ps[..j - 1]);
      var vpBefore := VarPositions(x, p[..j - 1]);
      var added := if p[j - 1] in x then [ps[j - 1]] else [];
      CapturesOfPrefix(ts, ps, j);
      assert Recorded(ts[j - 1], ps[j - 1]) == added by {
        assert ts[j - 1] == TermFor(x, a1, p, j - 1);
      }
      var vpAdded := if p[j - 1] in x then [j - 1] else [];
      assert VarPositions(x, p[..j]) == vpBefore + vpAdded by {
        assert p[..j][..j - 1] == p[..j - 1];
      }
      forall i | 0 <= i < |vpBefore + vpAdded|
        ensures (before + added)[i] == ps[(vpBefore + vpAdded)[i]]
      {
        if i < |vpBefore| {
          assert (before + added)[i] == before[i];
        }
      }
    }
  }

  /**
   * At a repeated occurrence of a variable, a match holds the text of the
   * variable occurrence whose position among all variable occurrences is that
   * variable's ordinal among distinct variables: an earlier occurrence, but
   * not necessarily of the same variable.
   */
  lemma BackRefNamesOrdinalOccurrence(x: CharSet, a1: CharSet, p: string, s: string, pos: nat, ps: seq<string>)
    requires Fits(Compile(x, a1, p).terms, s, pos, ps, [])
    ensures |ps| == |p|
    ensures forall j :: 0 <= j < |p| && p[j] in x && p[j] in p[..j] ==>
              && Ordinal(x, p, p[j]) <= |VarPositions(x, p)|
              && VarPositions(x, p)[Ordinal(x, p, p[j]) - 1] < j
              && ps[j] == ps[VarPositions(x, p)[Ordinal(x, p, p[j]) - 1]]
  {
    CompiledTerms(x, a1, p);
    var ts := Compile(x, a1, p).terms;
    FitsEach(ts, s, pos, ps, []);
    forall j | 0 <= j < |p| && p[j] in x && p[j] in p[..j]
      ensures Ordinal(x, p, p[j]) <= |VarPositions(x, p)|
      ensures VarPositions(x, p)[Ordinal(x, p, p[j]) - 1] < j
      ensures ps[j] == ps[VarPositions(x, p)[Ordinal(x, p, p[j]) - 1]]
    {
      BackRefAt(x, a1, p, ps, j);
    }
  }

  /** The repeated occurrence at `j` matches the group its ordinal names. */
  lemma BackRefAt(x: CharSet, a1: CharSet, p: string, ps: seq<string>, j: nat)
    requires |ps| == |p| && j < |p| && p[j] in x && p[j] in p[..j]
    requires |Compile(x, a1, p).terms| == |p|
    requires var ts := Compile(x, a1, p).terms;
             Accepts(ts[j], ps[j], [] + CapturesOf(ts[..j], ps[..j]))
    ensures Ordinal(x, p, p[j]) <= |VarPositions(x, p)|
    ensures VarPositions(x, p)[Ordinal(x, p, p[j]) - 1] < j
    ensures ps[j] == ps[VarPositions(x, p)[Ordinal(x, p, p[j]) - 1]]
  {
    var ts := Compile(x, a1, p).terms;
    var v := p[j];
    var k := Ordinal(x, p, v);
    var vpj := VarPositions(x, p[..j]);
    var vp := VarPositions(x, p);
    assert k <= |vpj| <= |vp| && vpj == vp[..|vpj|] by {
      OrdinalOfPrefix(x, p, j, v);
      FirstOccurrencesBound(x, p[..j]);
      VarPositionsPrefix(x, p, j);
    }
    var caps := CapturesOf(ts[..j], ps[..j]);
    assert |caps| == |vpj| && caps[k - 1] == ps[vpj[k - 1]] by {
      CompiledCaptures(x, a1, p, ps, j);
    }
    assert ps[j] == caps[k - 1] by {
      CompiledTerms(x, a1, p);
      assert ts[j] == Capture(BackRef(k));
      assert [] + caps == caps;
    }
    assert vp[k - 1] == vpj[k - 1];
  }

  /** Every variable occurrence in `p` is the first of its variable. */
  predicate AllFirst(x: CharSet, p: string) {
    forall j :: 0 <= j < |p| && p[j] in x ==> p[j] !in p[..j]
  }

  /** No repeated occurrence comes before any variable's first occurrence. */
  predicate FirstOccurrencesLead(x: CharSet, p: string) {
    forall j :: 0 <= j < |p| && p[j] in x && p[j] !in p[..j] ==> AllFirst(x, p[..j])
  }

  lemma {:induction false} AllFirstCount(x: CharSet, p: string)
    requires AllFirst(x, p)
    ensures |VarPositions(x, p)| == |FirstOccurrences(x, p)|
    decreases |p|
  {
    if p != [] {
      var q := p[..|p| - 1];
      forall j | 0 <= j < |q| && q[j] in x
        ensures q[j] !in q[..j]
      {
        assert p[..j] == q[..j];
      }
      AllFirstCount(x, q);
    }
  }

  /** A variable already met keeps its ordinal and its group as the pattern is read further. */
  lemma NumberingKept(x: CharSet, p: string, v: char)
    requires p != [] && v in x && v in p[..|p| - 1]
    requires var q := p[..|p| - 1];
             Ordinal(x, q, v) <= |VarPositions(x, q)| && VarPositions(x, q)[Ordinal(x, q, v) - 1] == IndexOf(q, v)
    ensures v in p
    ensures Ordinal(x, p, v) <= |VarPositions(x, p)|
    ensures VarPositions(x, p)[Ordinal(x, p, v) - 1] == IndexOf(p, v)
  {
    var q := p[..|p| - 1];
    assert p == q + [p[|p| - 1]];
    OrdinalOfPrefix(x, p, |q|, v);
    IndexOfPrefix(q, [p[|p| - 1]], v);
  }

  /** A first occurrence that only first occurrences precede gets the group its ordinal names. */
  lemma NumberingNew(x: CharSet, p: string)
    requires p != [] && p[|p| - 1] in x && p[|p| - 1] !in p[..|p| - 1]
    requires AllFirst(x, p[..|p| - 1])
    ensures Ordinal(x, p, p[|p| - 1]) <= |VarPositions(x, p)|
    ensures VarPositions(x, p)[Ordinal(x, p, p[|p| - 1]) - 1] == IndexOf(p, p[|p| - 1])
  {
    var q := p[..|p| - 1];
    var ch := p[|p| - 1];
    assert p == q + [ch];
    AllFirstCount(x, q);
    var dq := FirstOccurrences(x, q);
    assert ch !in dq;
    assert FirstOccurrences(x, p) == dq + [ch];
    assert IndexOf(dq + [ch], ch) == |dq|;
    assert IndexOf(p, ch) == |q|;
  }

  lemma LeadPrefix(x: CharSet, p: string)
    requires p != [] && FirstOccurrencesLead(x, p)
    ensures FirstOccurrencesLead(x, p[..|p| - 1])
  {
    var q := p[..|p| - 1];
    forall j | 0 <= j < |q| && q[j] in x && q[j] !in q[..j]
      ensures AllFirst(x, q[..j])
    {
      assert p[..j] == q[..j];
    }
  }

  /** The capturing group variable `v`'s ordinal names is its first occurrence in `p`. */
  predicate Agrees(x: CharSet, p: string, v: char) {
    v in x && v in p ==>
      && Ordinal(x, p, v) <= |VarPositions(x, p)|
      && VarPositions(x, p)[Ordinal(x, p, v) - 1] == IndexOf(p, v)
  }

  /** One more character keeps the numberings in agreement for `v`. */
  lemma NumberingStep(x: CharSet, p: string, v: char)
    requires p != [] && FirstOccurrencesLead(x, p)
    requires Agrees(x, p[..|p| - 1], v)
    ensures Agrees(x, p, v)
  {
    var q := p[..|p| - 1];
    var ch := p[|p| - 1];
    assert p == q + [ch];
    if v in x && v in p {
      if v in q {
        NumberingKept(x, p, v);
      } else {
        assert v == ch && p[..|q|] == q;
        NumberingNew(x, p);
      }
    }
  }

  /**
   * When first occurrences lead, the capturing group a variable's ordinal
   * names is that variable's first occurrence: the two numberings agree.
   */
  lemma {:induction false} NumberingsAgree(x: CharSet, p: string)
    requires FirstOccurrencesLead(x, p)
    ensures forall v :: Agrees(x, p, v)
    decreases |p|
  {
    if p != [] {
      LeadPrefix(x, p);
      NumberingsAgree(x, p[..|p| - 1]);
      forall v
        ensures Agrees(x, p, v)
      {
        NumberingStep(x, p, v);
      }
    }
  }

  /**
   * When first occurrences lead, a match gives every occurrence of the same
   * variable the same text: the consistency the design asks for.
   */
  lemma SameVariableSameText(x: CharSet, a1: CharSet, p: string, s: string, pos: nat, ps: seq<string>)
    requires FirstOccurrencesLead(x, p)
    requires Fits(Compile(x, a1, p).terms, s, pos, ps, [])
    ensures |ps| == |p|
    ensures forall i, j :: 0 <= i < |p| && 0 <= j < |p| && p[i] == p[j] && p[i] in x ==> ps[i] == ps[j]
  {
    BackRefNamesOrdinalOccurrence(x, a1, p, s, pos, ps);
    NumberingsAgree(x, p);
    forall j | 0 <= j < |p| && p[j] in x
      ensures ps[j] == ps[IndexOf(p, p[j])]
    {
      if p[j] !in p[..j] {
        assert IndexOf(p, p[j]) == j;
      } else {
        assert Agrees(x, p, p[j]);
      }
    }
    forall i, j | 0 <= i < |p| && 0 <= j < |p| && p[i] == p[j] && p[i] in x
      ensures ps[i] == ps[j]
    {
      assert ps[i] == ps[IndexOf(p, p[i])];
      assert ps[j] == ps[IndexOf(p, p[j])];
    }
  }

  /** Appending a character to the pattern runs one more iteration of the loop. */
  lemma CompileFromSnoc(x: CharSet, a1: CharSet, p: string, ch: char, st: Compiled)
    ensures CompileFrom(x, a1, p + [ch], st) == CompileChar(x, a1, CompileFrom(x, a1, p, st), ch)
  {
    assert (p + [ch])[..|p|] == p;
  }

  /** The loop over one more character of `p`. */
  lemma CompileFromNext(x: CharSet, a1: CharSet, p: string, i: nat, st: Compiled)
    requires i < |p|
    ensures CompileFrom(x, a1, p[..i + 1], st) == CompileChar(x, a1, CompileFrom(x, a1, p[..i], st), p[i])
  {
    assert p[..i + 1][..i] == p[..i];
  }

  /**
   * What a fresh generator emits for `vvww` over variables `v`, `w`: the
   * second `w` becomes a back-reference to group 2, which is the second `v`.
   */
  lemma MismatchTerms(x: CharSet, a1: CharSet, p: string)
    requires x == "vw" && a1 == "12" && p == "vvww"
    ensures Compile(x, a1, p).terms
         == [Capture(Class(a1)), Capture(BackRef(1)), Capture(Class(a1)), Capture(BackRef(2))]
  {
    var st := Compiled([], map[], 1);
    var p1 := ['v'];
    var p2 := p1 + ['v'];
    var p3 := p2 + ['w'];
    assert p == p3 + ['w'];
    assert p1 == [] + ['v'];
    var v1 := Capture(Class(a1));
    var c1 := CompileFrom(x, a1, p1, st);
    assert c1.terms == [v1] && c1.groups.Keys == {'v'} && c1.groups['v'].0 == 1 && c1.counter == 2 by {
      CompileFromSnoc(x, a1, [], 'v', st);
    }
    var c2 := CompileFrom(x, a1, p2, st);
    assert c2.terms == [v1, Capture(BackRef(1))] && c2.groups == c1.groups && c2.counter == 2 by {
      CompileFromSnoc(x, a1, p1, 'v', st);
    }
    var c3 := CompileFrom(x, a1, p3, st);
    assert c3.terms == [v1, Capture(BackRef(1)), v1] && 'w' in c3.groups && c3.groups['w'].0 == 2 by {
      CompileFromSnoc(x, a1, p2, 'w', st);
    }
    CompileFromSnoc(x, a1, p3, 'w', st);
  }

  /**
   * The numbering mismatch on `vvww` (variables `v`, `w`, axioms `1`, `2`):
   * the line `1121` matches from its first character with the two `w`
   * occurrences standing for `2` and `1`.
   */
  lemma RepeatedVariableMismatch(x: CharSet, a1: CharSet, p: string, line: string)
    requires x == "vw" && a1 == "12" && p == "vvww" && line == "1121"
    ensures Fits(Compile(x, a1, p).terms, line, 0, ["1", "1", "2", "1"], [])
    ensures Search(Compile(x, a1, p).terms, line).Some?
    ensures Search(Compile(x, a1, p).terms, line).value.start == 0
  {
    MismatchTerms(x, a1, p);
    var ts := Compile(x, a1, p).terms;
    MismatchFits(a1, ts, line);
    if Search(ts, line).None? {
      SearchFailsOnlyWithoutFit(ts, line);
    } else {
      SearchFindsLeftmost(ts, line);
    }
  }

  /** The terms emitted for `vvww` fit `1121` as `1`, `1`, `2`, `1`. */
  lemma MismatchFits(a1: CharSet, ts: seq<Term>, line: string)
    requires a1 == "12" && line == "1121"
    requires ts == [Capture(Class(a1)), Capture(BackRef(1)), Capture(Class(a1)), Capture(BackRef(2))]
    ensures Fits(ts, line, 0, ["1", "1", "2", "1"], [])
  {
    var ps := ["1", "1", "2", "1"];
    assert line[0..1] == "1" && line[1..2] == "1" && line[2..3] == "2" && line[3..4] == "1";
    assert ts[1..][1..] == ts[2..] && ts[2..][1..] == ts[3..] && ts[3..][1..] == ts[4..];
    assert ps[1..][1..] == ps[2..] && ps[2..][1..] == ps[3..] && ps[3..][1..] == ps[4..];
    assert Fits(ts[4..], line, 4, ps[4..], ["1", "1", "2", "1"]);
    assert Fits(ts[3..], line, 3, ps[3..], ["1", "1", "2"]);
    assert ["1", "1"] + ["2"] == ["1", "1", "2"];
    assert Fits(ts[2..], line, 2, ps[2..], ["1", "1"]);
    assert ["1"] + ["1"] == ["1", "1"];
    assert Fits(ts[1..], line, 1, ps[1..], ["1"]);
    assert [] + ["1"] == ["1"];
  }

  // ---------------------------------------------------------------------
  // Instantiating a placeholder

  /** Every group text in the map compiles as a regular expression. */
  predicate GroupsParse(groups: Groups) {
    forall v :: v in groups ==> Parse(groups[v].1).Some?
  }

  /** What `regex_search` with the group text `text` finds in `matched`: its first match, or nothing. */
  function GroupValue(text: string, matched: string): string
    requires Parse(text).Some?
  {
    match Search(Parse(text).value, matched)
    case None => ""
    case Some(f) => Concat(f.pieces)
  }

  /**
   * One iteration of `processPlaceholder`'s loop on (output so far, map).
   * Looking a variable up with `operator[]` inserts `(0, "")` when it is
   * missing, and the empty expression finds the empty text.
   */
  function PlaceholderChar(x: CharSet, matched: string, acc: (string, Groups), ch: char): (r: (string, Groups))
    requires GroupsParse(acc.1)
    ensures GroupsParse(r.1)
  {
    if ch in x then
      var groups := if ch in acc.1 then acc.1 else acc.1[ch := (0, "")];
      (acc.0 + GroupValue(groups[ch].1, matched), groups)
    else
      (acc.0 + [ch], acc.1)
  }

  /** The loop over the characters of the placeholder `ph`, left to right. */
  function PlaceholderFrom(x: CharSet, matched: string, ph: string, acc: (string, Groups)): (r: (string, Groups))
    requires GroupsParse(acc.1)
    ensures GroupsParse(r.1)
    decreases |ph|
  {
    if ph == [] then acc
    else PlaceholderChar(x, matched, PlaceholderFrom(x, matched, ph[..|ph| - 1], acc), ph[|ph| - 1])
  }

  lemma PlaceholderFromSnoc(x: CharSet, matched: string, ph: string, ch: char, acc: (string, Groups))
    requires GroupsParse(acc.1)
    ensures PlaceholderFrom(x, matched, ph + [ch], acc)
         == PlaceholderChar(x, matched, PlaceholderFrom(x, matched, ph, acc), ch)
  {
    assert (ph + [ch])[..|ph|] == ph;
  }

  /**
   * Reference meaning of a placeholder for a rule with pattern `p`: a
   * non-variable stands for itself, a variable of `p` for `run`, and any other
   * variable for nothing.
   */
  function Substituted(x: CharSet, ph: string, p: string, run: string): (r: string)
    decreases |ph|
  {
    if ph == [] then ""
    else (if ph[0] !in x then [ph[0]] else if ph[0] in p then run else "") + Substituted(x, ph[1..], p, run)
  }

  lemma {:induction false} SubstitutedAppend(x: CharSet, ph: string, c: char, p: string, run: string)
    ensures Substituted(x, ph + [c], p, run)
         == Substituted(x, ph, p, run) + (if c !in x then [c] else if c in p then run else "")
    decreases |ph|
  {
    if ph == [] {
      assert [] + [c] == [c];
    } else {
      assert (ph + [c])[1..] == ph[1..] + [c];
      SubstitutedAppend(x, ph[1..], c, p, run);
    }
  }

  /** The group text of a first occurrence compiles to the one-term expression `[a1]+`. */
  lemma ParseClassGroup(a1: CharSet)
    ensures Parse(ClassText(a1)) == Some([Plain(Class(a1))])
  {
    var ts := [Plain(Class(a1))];
    ParseRender(ts);
    assert ts[1..] == [];
    assert TermText(ts[0]) == ClassText(a1);
    assert Render(ts[1..]) == "";
    assert Render(ts) == ClassText(a1) + "";
    assert Render(ts) == ClassText(a1);
  }

  /** The group text of a first occurrence finds the leftmost longest run of axiom characters. */
  lemma ClassGroupValue(a1: CharSet, matched: string)
    ensures Parse(ClassText(a1)).Some?
    ensures GroupValue(ClassText(a1), matched) == LeftmostRun(a1, matched)
  {
    ParseClassGroup(a1);
    var ts := [Plain(Class(a1))];
    SearchClass(a1, matched);
    if Search(ts, matched).Some? {
      SearchFindsLeftmost(ts, matched);
    }
  }

  /**
   * The map a compiled rule leaves for `processPlaceholder`: every variable of
   * `p` is present, a variable of `p` has the group text `[a1]+` and any other
   * entry has the empty text.
   */
  predicate GroupsFor(x: CharSet, a1: CharSet, p: string, g: Groups) {
    && (forall v :: v in x && v in p ==> v in g)
    && (forall v :: v in g ==> if v in p then g[v].1 == ClassText(a1) else g[v].1 == "")
  }

  lemma GroupsForParse(x: CharSet, a1: CharSet, p: string, g: Groups)
    requires GroupsFor(x, a1, p, g)
    ensures GroupsParse(g)
  {
    ParseClassGroup(a1);
    assert Parse("") == Some([]);
    forall v | v in g
      ensures Parse(g[v].1).Some?
    {
      if v !in p {
        assert g[v].1 == "";
      }
    }
  }

  /** One iteration of the placeholder loop from a map of that shape. */
  lemma PlaceholderCharGroups(x: CharSet, a1: CharSet, p: string, ch: char, matched: string, acc: (string, Groups))
    requires GroupsFor(x, a1, p, acc.1)
    ensures GroupsParse(acc.1)
    ensures var r := PlaceholderChar(x, matched, acc, ch);
            && r.0 == acc.0 + (if ch !in x then [ch] else if ch in p then LeftmostRun(a1, matched) else "")
            && GroupsFor(x, a1, p, r.1)
            && (forall v :: v in r.1 <==> v in acc.1 || (v in x && v == ch))
  {
    GroupsForParse(x, a1, p, acc.1);
    if ch in x {
      if ch in p {
        ClassGroupValue(a1, matched);
      } else {
        SearchEmpty(matched);
      }
    }
  }

  /**
   * From a map of that shape, the placeholder loop appends the substituted
   * placeholder, and the map gains exactly the placeholder's variables that
   * it lacked, keeping its shape.
   */
  lemma {:induction false} PlaceholderFromGroups(x: CharSet, a1: CharSet, p: string, ph: string, matched: string, acc: (string, Groups))
    requires GroupsFor(x, a1, p, acc.1)
    ensures GroupsParse(acc.1)
    ensures var r := PlaceholderFrom(x, matched, ph, acc);
            && r.0 == acc.0 + Substituted(x, ph, p, LeftmostRun(a1, matched))
            && GroupsFor(x, a1, p, r.1)
            && (forall v :: v in r.1 <==> v in acc.1 || (v in x && v in ph))
    decreases |ph|
  {
    GroupsForParse(x, a1, p, acc.1);
    if ph != [] {
      var q := ph[..|ph| - 1];
      var ch := ph[|ph| - 1];
      var run := LeftmostRun(a1, matched);
      PlaceholderFromGroups(x, a1, p, q, matched, acc);
      var mid := PlaceholderFrom(x, matched, q, acc);
      PlaceholderCharGroups(x, a1, p, ch, matched, mid);
      var piece := if ch !in x then [ch] else if ch in p then run else "";
      var r := PlaceholderChar(x, matched, mid, ch);
      assert PlaceholderFrom(x, matched, ph, acc) == r;
      assert Substituted(x, ph, p, run) == Substituted(x, q, p, run) + piece by {
        assert ph == q + [ch];
        SubstitutedAppend(x, q, ch, p, run);
      }
      AppendAssociative(acc.0, Substituted(x, q, p, run), piece);
      forall v
        ensures v in r.1 <==> v in acc.1 || (v in x && v in ph)
      {
        assert v in ph <==> v in q || v == ch by {
          assert ph == q + [ch];
        }
      }
    }
  }

  /**
   * `processPlaceholder` after compiling pattern `p` on a fresh generator: the
   * result is the placeholder with every variable of `p` replaced by the
   * leftmost longest run of axiom characters in the matched text, and every
   * other variable dropped.
   */
  lemma PlaceholderAfterCompile(x: CharSet, a1: CharSet, p: string, ph: string, matched: string)
    ensures GroupsParse(Compile(x, a1, p).groups)
    ensures PlaceholderFrom(x, matched, ph, ("", Compile(x, a1, p).groups)).0
         == Substituted(x, ph, p, LeftmostRun(a1, matched))
  {
    CompileFresh(x, a1, p);
    var g := Compile(x, a1, p).groups;
    assert GroupsFor(x, a1, p, g);
    PlaceholderFromGroups(x, a1, p, ph, matched, ("", g));
    assert "" + Substituted(x, ph, p, LeftmostRun(a1, matched)) == Substituted(x, ph, p, LeftmostRun(a1, matched));
  }

  lemma AppendAssociative(a: string, b: string, c: string)
    ensures a + b + c == a + (b + c)
  {
  }

  /** The text one iteration of `createRegPattern` appends. */
  lemma CompileCharText(x: CharSet, a1: CharSet, st: Compiled, ch: char)
    ensures Render(CompileChar(x, a1, st, ch).terms)
         == Render(st.terms)
            + if ch !in x then ConstGroup(ch)
              else if ch in st.groups then "(" + ("\\" + NatToString(st.groups[ch].0)) + ")"
              else "(" + ClassText(a1) + ")"
  {
    var c := CompileChar(x, a1, st, ch);
    var t := c.terms[|st.terms|];
    assert c.terms == st.terms + [t];
    RenderAppend(st.terms, t);
  }

  // ---------------------------------------------------------------------
  // The generator object

  /**
   * `RegexableRuleGenerator`. The map and the pattern text persist across
   * calls; `createRegPattern` only resets the counter. The constructor leaves
   * the counter unset, as the C++ constructor leaves it uninitialised.
   */
  class RuleGenerator {
    var variableGroupMap: Groups
    var groupCounter: nat
    var regexPattern: string

    /** Every group text in the map compiles, so `processPlaceholder` never meets a malformed expression. */
    ghost predicate Valid()
      reads this
    {
      GroupsParse(variableGroupMap)
    }

    constructor()
      ensures Valid()
      ensures variableGroupMap == map[] && regexPattern == ""
    {
      variableGroupMap := map[];
      regexPattern := "";
    }

    /**
     * `createVarGroup`: the first time a variable is met it gets the class
     * text `[a1]+` under the current counter, which then advances; afterwards
     * it yields a back-reference to the number recorded for it.
     */
    method CreateVarGroup(v: char, x: CharSet, a1: CharSet) returns (group: string)
      requires Valid()
      modifies this
      ensures Valid()
      ensures v !in old(variableGroupMap) ==>
                && group == ClassText(a1)
                && variableGroupMap == old(variableGroupMap)[v := (old(groupCounter), ClassText(a1))]
                && groupCounter == old(groupCounter) + 1
      ensures v in old(variableGroupMap) ==>
                && group == "\\" + NatToString(old(variableGroupMap)[v].0)
                && variableGroupMap == old(variableGroupMap)
                && groupCounter == old(groupCounter)
      ensures regexPattern == old(regexPattern)
    {
      if v !in variableGroupMap {
        group := "[";
        for i := 0 to |a1|
          invariant group == "[" + EscapedChars(a1[..i])
          invariant variableGroupMap == old(variableGroupMap) && groupCounter == old(groupCounter)
          invariant regexPattern == old(regexPattern)
        {
          assert a1[..i + 1] == a1[..i] + [a1[i]];
          EscapedCharsAppend(a1[..i], a1[i]);
          if IsSpecialCharacter(a1[i]) {
            group := group + "\\";
          }
          group := group + [a1[i]];
        }
        assert a1[..|a1|] == a1;
        group := group + "]+";
        ParseClassGroup(a1);
        variableGroupMap := variableGroupMap[v := (groupCounter, group)];
        groupCounter := groupCounter + 1;
      } else {
        group := "\\" + NatToString(variableGroupMap[v].0);
      }
    }

    /**
     * One iteration of `createRegPattern`'s loop: appends the group for `ch`,
     * captured when `ch` is a variable, escaped when it is special.
     */
    method AppendGroup(x: CharSet, a1: CharSet, ch: char, ghost pre: string, ghost ts: seq<Term>)
      requires Valid() && regexPattern == pre + Render(ts)
      modifies this
      ensures Valid()
      ensures var c := CompileChar(x, a1, Compiled(ts, old(variableGroupMap), old(groupCounter)), ch);
              && regexPattern == pre + Render(c.terms)
              && variableGroupMap == c.groups
              && groupCounter == c.counter
    {
      ghost var c := Compiled(ts, variableGroupMap, groupCounter);
      CompileCharText(x, a1, c, ch);
      var piece: string;
      if ch in x {
        var group := CreateVarGroup(ch, x, a1);
        piece := "(" + group + ")";
      } else {
        piece := ConstGroup(ch);
      }
      assert Render(CompileChar(x, a1, c, ch).terms) == Render(ts) + piece;
      AppendAssociative(pre, Render(ts), piece);
      regexPattern := regexPattern + piece;
    }

    /**
     * `createRegPattern`: appends the text of the compiled terms to the
     * pattern kept so far and returns the whole of it. The alphabet `a` is
     * not consulted.
     */
    method CreateRegPattern(a: CharSet, x: CharSet, a1: CharSet, pattern: string) returns (r: string)
      requires Valid()
      modifies this
      ensures Valid()
      ensures var c := CompileFrom(x, a1, pattern, Compiled([], old(variableGroupMap), 1));
              && regexPattern == old(regexPattern) + Render(c.terms)
              && variableGroupMap == c.groups
              && groupCounter == c.counter
      ensures r == regexPattern
    {
      groupCounter := 1;
      ghost var pre := regexPattern;
      ghost var st := Compiled([], variableGroupMap, 1);
      ghost var c := st;
      assert pattern[..0] == [];
      for i := 0 to |pattern|
        invariant c == CompileFrom(x, a1, pattern[..i], st)
        invariant regexPattern == pre + Render(c.terms)
        invariant variableGroupMap == c.groups && groupCounter == c.counter
        invariant Valid()
      {
        AppendGroup(x, a1, pattern[i], pre, c.terms);
        CompileFromNext(x, a1, pattern, i, st);
        c := CompileChar(x, a1, c, pattern[i]);
      }
      assert pattern[..|pattern|] == pattern;
      r := regexPattern;
    }

    /**
     * `processPlaceholder`: each variable of the placeholder is replaced by
     * what its group text finds in `matched`; other characters are copied.
     */
    method ProcessPlaceholder(x: CharSet, placeholder: string, matched: string) returns (r: string)
      requires Valid()
      modifies this
      ensures Valid()
      ensures (r, variableGroupMap) == PlaceholderFrom(x, matched, placeholder, ("", old(variableGroupMap)))
      ensures regexPattern == old(regexPattern) && groupCounter == old(groupCounter)
    {
      r := "";
      for i := 0 to |placeholder|
        invariant Valid()
        invariant (r, variableGroupMap) == PlaceholderFrom(x, matched, placeholder[..i], ("", old(variableGroupMap)))
        invariant regexPattern == old(regexPattern) && groupCounter == old(groupCounter)
      {
        var ch := placeholder[i];
        assert placeholder[..i + 1] == placeholder[..i] + [ch];
        PlaceholderFromSnoc(x, matched, placeholder[..i], ch, ("", old(variableGroupMap)));
        if ch in x {
          if ch !in variableGroupMap {
            variableGroupMap := variableGroupMap[ch := (0, "")];
          }
          var reg := Parse(variableGroupMap[ch].1).value;
          var found := Search(reg, matched);
          if found.Some? {
            r := r + Concat(found.value.pieces);
          } else {
            assert r + "" == r;
          }
        } else {
          r := r + [ch];
        }
      }
      assert placeholder[..|placeholder|] == placeholder;
    }
  }
}
