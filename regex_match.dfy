/**
 * What `std::regex_search` does with the fragment the rule generator emits,
 * under the ECMAScript semantics `std::regex` uses by default (ECMA-262 5.1):
 * terms are matched left to right with backtracking; a one-or-more class is
 * greedy, trying its longest run first and giving back one character at a time
 * (section 15.10.2.5); a back-reference matches exactly the text its group
 * captured, or the empty text if that group has not participated (section
 * 15.10.2.9); the search takes the leftmost start position, from 0 up to and
 * including the end of the subject, and there the first match in backtracking
 * order.
 *
 * `MatchHere` is that backtracking matcher; it returns the text each term
 * consumed. `Fits` is an independent description of a decomposition of the
 * subject into pieces, one per term; the lemmas show that the matcher finds a
 * decomposition exactly when one exists, and the greatest one in the order of
 * piece lengths.
 */
module RegexMatch {
  import opened RegexSyntax

  /** The text group `n` captured; empty if the group has not participated. */
  function Captured(caps: seq<string>, n: nat): string {
    if 1 <= n <= |caps| then caps[n - 1] else ""
  }

  /** What a term adds to the captured groups when it consumes `piece`. */
  function Recorded(t: Term, piece: string): seq<string> {
    if t.Capture? then [piece] else []
  }

  /** Class terms consume a variable amount; literals and back-references a fixed text. */
  predicate IsClass(t: Term) {
    !t.Literal? && t.atom.Class?
  }

  function Fixed(t: Term, caps: seq<string>): string
    requires !IsClass(t)
  {
    if t.Literal? then [t.c] else Captured(caps, t.atom.group)
  }

  /** Length of the longest run of class characters starting at `pos`. */
  function RunLength(cs: seq<char>, s: string, pos: nat): (k: nat)
    requires pos <= |s|
    ensures pos + k <= |s|
    ensures forall i :: pos <= i < pos + k ==> s[i] in cs
    ensures pos + k == |s| || s[pos + k] !in cs
    decreases |s| - pos
  {
    if pos == |s| || s[pos] !in cs then 0 else 1 + RunLength(cs, s, pos + 1)
  }

  /**
   * The first match of `ts` starting exactly at `pos` in backtracking order,
   * as the pieces of `s` each term consumed, or `None`.
   */
  function MatchHere(ts: seq<Term>, s: string, pos: nat, caps: seq<string>): (r: Option<seq<string>>)
    requires pos <= |s|
    ensures r.Some? ==> |r.value| == |ts|
    decreases |ts|, 1, 0
  {
    if ts == [] then Some([])
    else if IsClass(ts[0]) then
      TryRuns(ts, s, pos, caps, RunLength(ts[0].atom.chars, s, pos))
    else
      var t := Fixed(ts[0], caps);
      if pos + |t| <= |s| && s[pos..pos + |t|] == t then
        match MatchHere(ts[1..], s, pos + |t|, caps + Recorded(ts[0], t))
        case None => None
        case Some(rest) => Some([t] + rest)
      else None
  }

  /** Greedy backtracking of a leading class term: runs of length `k`, `k - 1`, ..., 1. */
  function TryRuns(ts: seq<Term>, s: string, pos: nat, caps: seq<string>, k: nat): (r: Option<seq<string>>)
    requires ts != [] && IsClass(ts[0])
    requires pos + k <= |s|
    ensures r.Some? ==> |r.value| == |ts| && 1 <= |r.value[0]| <= k
    ensures r.Some? ==> r.value[0] == s[pos..pos + |r.value[0]|]
    decreases |ts|, 0, k
  {
    if k == 0 then None
    else
      var piece := s[pos..pos + k];
      match MatchHere(ts[1..], s, pos + k, caps + Recorded(ts[0], piece))
      case Some(rest) => Some([piece] + rest)
      case None => TryRuns(ts, s, pos, caps, k - 1)
  }

  // ---------------------------------------------------------------------
  // Reference description of a match

  /** A piece a single term may consume, given the groups captured so far. */
  predicate Accepts(t: Term, piece: string, caps: seq<string>) {
    if IsClass(t) then |piece| >= 1 && forall i :: 0 <= i < |piece| ==> piece[i] in t.atom.chars
    else piece == Fixed(t, caps)
  }

  /** `pieces` cut `s` from `pos` on into consecutive parts, each accepted by its term. */
  ghost predicate Fits(ts: seq<Term>, s: string, pos: nat, pieces: seq<string>, caps: seq<string>)
    decreases |ts|
  {
    && |pieces| == |ts|
    && (ts != [] ==>
          && pos + |pieces[0]| <= |s|
          && s[pos..pos + |pieces[0]|] == pieces[0]
          && Accepts(ts[0], pieces[0], caps)
          && Fits(ts[1..], s, pos + |pieces[0]|, pieces[1..], caps + Recorded(ts[0], pieces[0])))
  }

  /** `qs` is found no later than `ps` by the backtracking order: longer first pieces first. */
  ghost predicate NoLaterThan(qs: seq<string>, ps: seq<string>)
    decreases |ps|
  {
    && |qs| == |ps|
    && (ps != [] ==>
          || |qs[0]| > |ps[0]|
          || (|qs[0]| == |ps[0]| && NoLaterThan(qs[1..], ps[1..])))
  }

  function Concat(ps: seq<string>): string {
    if ps == [] then "" else ps[0] + Concat(ps[1..])
  }

  // ---------------------------------------------------------------------
  // The matcher against the reference

  /** Whatever the matcher returns is a decomposition. */
  lemma {:induction false} MatchSound(ts: seq<Term>, s: string, pos: nat, caps: seq<string>)
    requires pos <= |s|
    ensures MatchHere(ts, s, pos, caps).Some? ==> Fits(ts, s, pos, MatchHere(ts, s, pos, caps).value, caps)
    decreases |ts|, 1, 0
  {
    if ts != [] {
      if IsClass(ts[0]) {
        TryRunsSound(ts, s, pos, caps, RunLength(ts[0].atom.chars, s, pos));
      } else {
        var t := Fixed(ts[0], caps);
        if pos + |t| <= |s| && s[pos..pos + |t|] == t {
          MatchSound(ts[1..], s, pos + |t|, caps + Recorded(ts[0], t));
        }
      }
    }
  }

  lemma {:induction false} TryRunsSound(ts: seq<Term>, s: string, pos: nat, caps: seq<string>, k: nat)
    requires ts != [] && IsClass(ts[0])
    requires pos + k <= |s|
    requires k <= RunLength(ts[0].atom.chars, s, pos)
    ensures TryRuns(ts, s, pos, caps, k).Some? ==> Fits(ts, s, pos, TryRuns(ts, s, pos, caps, k).value, caps)
    decreases |ts|, 0, k
  {
    if k > 0 {
      var piece := s[pos..pos + k];
      MatchSound(ts[1..], s, pos + k, caps + Recorded(ts[0], piece));
      TryRunsSound(ts, s, pos, caps, k - 1);
    }
  }

  /** A run accepted by a class never extends past the longest run. */
  lemma RunBound(cs: seq<char>, s: string, pos: nat, j: nat)
    requires pos + j <= |s|
    requires forall i :: pos <= i < pos + j ==> s[i] in cs
    ensures j <= RunLength(cs, s, pos)
  {
  }

  lemma {:induction false} TryRunsBest(ts: seq<Term>, s: string, pos: nat, caps: seq<string>, k: nat, j: nat, rest: seq<string>)
    requires ts != [] && IsClass(ts[0])
    requires 1 <= j <= k && pos + k <= |s|
    requires MatchHere(ts[1..], s, pos + j, caps + Recorded(ts[0], s[pos..pos + j])) == Some(rest)
    ensures TryRuns(ts, s, pos, caps, k).Some?
    ensures |TryRuns(ts, s, pos, caps, k).value[0]| >= j
    ensures |TryRuns(ts, s, pos, caps, k).value[0]| == j ==>
              TryRuns(ts, s, pos, caps, k).value == [s[pos..pos + j]] + rest
    decreases k
  {
    var piece := s[pos..pos + k];
    if MatchHere(ts[1..], s, pos + k, caps + Recorded(ts[0], piece)).None? {
      assert k != j;
      TryRunsBest(ts, s, pos, caps, k - 1, j, rest);
    }
  }

  /**
   * Whenever a decomposition exists the matcher succeeds, and what it returns
   * comes no later in backtracking order than any decomposition.
   */
  lemma {:induction false} MatchBest(ts: seq<Term>, s: string, pos: nat, caps: seq<string>, ps: seq<string>)
    requires pos <= |s|
    requires Fits(ts, s, pos, ps, caps)
    ensures MatchHere(ts, s, pos, caps).Some?
    ensures NoLaterThan(MatchHere(ts, s, pos, caps).value, ps)
    decreases |ts|
  {
    if ts != [] {
      var p0 := ps[0];
      var next := caps + Recorded(ts[0], p0);
      MatchBest(ts[1..], s, pos + |p0|, next, ps[1..]);
      var rest := MatchHere(ts[1..], s, pos + |p0|, next).value;
      if IsClass(ts[0]) {
        ClassBest(ts, s, pos, caps, ps, rest);
      } else {
        FixedBest(ts, s, pos, caps, ps, rest);
      }
    }
  }

  lemma ClassBest(ts: seq<Term>, s: string, pos: nat, caps: seq<string>, ps: seq<string>, rest: seq<string>)
    requires ts != [] && IsClass(ts[0]) && pos <= |s|
    requires Fits(ts, s, pos, ps, caps)
    requires MatchHere(ts[1..], s, pos + |ps[0]|, caps + Recorded(ts[0], ps[0])) == Some(rest)
    requires NoLaterThan(rest, ps[1..])
    ensures MatchHere(ts, s, pos, caps).Some?
    ensures NoLaterThan(MatchHere(ts, s, pos, caps).value, ps)
  {
    var p0 := ps[0];
    var k := RunLength(ts[0].atom.chars, s, pos);
    ClassPieceInRun(ts, s, pos, caps, ps);
    TryRunsBest(ts, s, pos, caps, k, |p0|, rest);
    MatchHereClass(ts, s, pos, caps);
    var qs := TryRuns(ts, s, pos, caps, k).value;
    if |qs[0]| == |p0| {
      assert qs[1..] == rest;
    }
  }

  /** A leading class term is matched by trying its runs, longest first. */
  lemma MatchHereClass(ts: seq<Term>, s: string, pos: nat, caps: seq<string>)
    requires ts != [] && IsClass(ts[0]) && pos <= |s|
    ensures MatchHere(ts, s, pos, caps) == TryRuns(ts, s, pos, caps, RunLength(ts[0].atom.chars, s, pos))
  {
  }

  /** The piece a leading class term takes is a prefix of the run of class characters. */
  lemma ClassPieceInRun(ts: seq<Term>, s: string, pos: nat, caps: seq<string>, ps: seq<string>)
    requires ts != [] && IsClass(ts[0]) && pos <= |s|
    requires Fits(ts, s, pos, ps, caps)
    ensures 1 <= |ps[0]| <= RunLength(ts[0].atom.chars, s, pos)
    ensures s[pos..pos + |ps[0]|] == ps[0]
  {
    var p0 := ps[0];
    var cs := ts[0].atom.chars;
    assert Accepts(ts[0], p0, caps);
    forall i | pos <= i < pos + |p0|
      ensures s[i] in cs
    {
      assert s[i] == p0[i - pos];
    }
    RunBound(cs, s, pos, |p0|);
  }

  lemma FixedBest(ts: seq<Term>, s: string, pos: nat, caps: seq<string>, ps: seq<string>, rest: seq<string>)
    requires ts != [] && !IsClass(ts[0]) && pos <= |s|
    requires Fits(ts, s, pos, ps, caps)
    requires MatchHere(ts[1..], s, pos + |ps[0]|, caps + Recorded(ts[0], ps[0])) == Some(rest)
    requires NoLaterThan(rest, ps[1..])
    ensures MatchHere(ts, s, pos, caps) == Some([ps[0]] + rest)
    ensures NoLaterThan([ps[0]] + rest, ps)
  {
    assert ([ps[0]] + rest)[1..] == rest;
  }

  /** The matched pieces are consecutive text of the subject. */
  lemma {:induction false} FitsSpan(ts: seq<Term>, s: string, pos: nat, ps: seq<string>, caps: seq<string>)
    requires Fits(ts, s, pos, ps, caps)
    ensures pos + |Concat(ps)| <= |s| || (ts == [] && Concat(ps) == [])
    ensures pos + |Concat(ps)| <= |s| ==> s[pos..pos + |Concat(ps)|] == Concat(ps)
  {
    if ts != [] {
      var p0 := ps[0];
      FitsSpan(ts[1..], s, pos + |p0|, ps[1..], caps + Recorded(ts[0], p0));
      assert Concat(ps) == p0 + Concat(ps[1..]);
      if ts[1..] == [] {
        assert ps[1..] == [];
        assert Concat(ps) == p0;
      } else {
        assert s[pos..pos + |Concat(ps)|] == s[pos..pos + |p0|] + s[pos + |p0|..pos + |Concat(ps)|];
      }
    }
  }

  /** The texts the capturing groups among `ts` hold once each term has consumed its piece. */
  function CapturesOf(ts: seq<Term>, ps: seq<string>): seq<string>
    requires |ts| == |ps|
  {
    if ts == [] then []
    else CapturesOf(ts[..|ts| - 1], ps[..|ps| - 1]) + Recorded(ts[|ts| - 1], ps[|ps| - 1])
  }

  lemma {:induction false} CapturesOfCons(ts: seq<Term>, ps: seq<string>)
    requires |ts| == |ps| && ts != []
    ensures CapturesOf(ts, ps) == Recorded(ts[0], ps[0]) + CapturesOf(ts[1..], ps[1..])
    decreases |ts|
  {
    var n := |ts|;
    if n > 1 {
      CapturesOfCons(ts[..n - 1], ps[..n - 1]);
      assert ts[..n - 1][1..] == ts[1..][..n - 2];
      assert ps[..n - 1][1..] == ps[1..][..n - 2];
    } else {
      assert ts[..0] == [] && ps[..0] == [];
    }
  }

  lemma CapturesShift(ts: seq<Term>, ps: seq<string>, caps: seq<string>, j: nat)
    requires |ts| == |ps| && 1 <= j <= |ts|
    ensures caps + CapturesOf(ts[..j], ps[..j])
            == (caps + Recorded(ts[0], ps[0])) + CapturesOf(ts[1..][..j - 1], ps[1..][..j - 1])
  {
    CapturesOfCons(ts[..j], ps[..j]);
    assert ts[..j][1..] == ts[1..][..j - 1];
    assert ps[..j][1..] == ps[1..][..j - 1];
  }

  /** In a decomposition each piece is accepted by its term, given the groups captured before it. */
  lemma {:induction false} FitsEach(ts: seq<Term>, s: string, pos: nat, ps: seq<string>, caps: seq<string>)
    requires Fits(ts, s, pos, ps, caps)
    ensures forall j :: 0 <= j < |ts| ==> Accepts(ts[j], ps[j], caps + CapturesOf(ts[..j], ps[..j]))
    decreases |ts|
  {
    if ts != [] {
      var next := caps + Recorded(ts[0], ps[0]);
      FitsEach(ts[1..], s, pos + |ps[0]|, ps[1..], next);
      forall j | 0 <= j < |ts|
        ensures Accepts(ts[j], ps[j], caps + CapturesOf(ts[..j], ps[..j]))
      {
        if j == 0 {
          assert ts[..0] == [] && ps[..0] == [];
          assert caps + [] == caps;
        } else {
          CapturesShift(ts, ps, caps, j);
          assert ts[j] == ts[1..][j - 1] && ps[j] == ps[1..][j - 1];
        }
      }
    }
  }

  // ---------------------------------------------------------------------
  // Leftmost search

  datatype Found = Found(start: nat, pieces: seq<string>)

  function SearchFrom(ts: seq<Term>, s: string, from: nat): Option<Found>
    requires from <= |s|
    decreases |s| - from
  {
    match MatchHere(ts, s, from, [])
    case Some(ps) => Some(Found(from, ps))
    case None => if from == |s| then None else SearchFrom(ts, s, from + 1)
  }

  /** `std::regex_search`: the first match at the leftmost start position. */
  function Search(ts: seq<Term>, s: string): Option<Found> {
    SearchFrom(ts, s, 0)
  }

  /** The end of the matched span. */
  function End(f: Found): nat {
    f.start + |Concat(f.pieces)|
  }

  lemma SearchFromScan(ts: seq<Term>, s: string, from: nat)
    requires from <= |s|
    ensures SearchFrom(ts, s, from).Some? ==>
              var f := SearchFrom(ts, s, from).value;
              && from <= f.start <= |s|
              && MatchHere(ts, s, f.start, []) == Some(f.pieces)
              && forall q :: from <= q < f.start ==> MatchHere(ts, s, q, []).None?
    ensures SearchFrom(ts, s, from).None? ==>
              forall q :: from <= q <= |s| ==> MatchHere(ts, s, q, []).None?
  {
    if SearchFrom(ts, s, from).Some? {
      SearchFromFound(ts, s, from);
    } else {
      SearchFromNone(ts, s, from);
    }
  }

  /** A reported match starts where a match exists, and no match starts earlier. */
  lemma {:induction false} SearchFromFound(ts: seq<Term>, s: string, from: nat)
    requires from <= |s| && SearchFrom(ts, s, from).Some?
    ensures var f := SearchFrom(ts, s, from).value;
            && from <= f.start <= |s|
            && MatchHere(ts, s, f.start, []) == Some(f.pieces)
            && forall q :: from <= q < f.start ==> MatchHere(ts, s, q, []).None?
    decreases |s| - from
  {
    if MatchHere(ts, s, from, []).None? {
      SearchSkips(ts, s, from);
      SearchFromFound(ts, s, from + 1);
    }
  }

  /** A search that reports nothing found no start position with a match. */
  lemma {:induction false} SearchFromNone(ts: seq<Term>, s: string, from: nat)
    requires from <= |s| && SearchFrom(ts, s, from).None?
    ensures forall q :: from <= q <= |s| ==> MatchHere(ts, s, q, []).None?
    decreases |s| - from
  {
    if from < |s| {
      SearchSkips(ts, s, from);
      SearchFromNone(ts, s, from + 1);
    }
  }

  /** Where no match starts at `from`, the search goes on from the next position. */
  lemma SearchSkips(ts: seq<Term>, s: string, from: nat)
    requires from < |s| && MatchHere(ts, s, from, []).None?
    ensures SearchFrom(ts, s, from) == SearchFrom(ts, s, from + 1)
  {
  }

  /** No start position before `start` admits a decomposition. */
  ghost predicate NoFitBefore(ts: seq<Term>, s: string, start: nat) {
    forall q: nat, ps :: q < start ==> !Fits(ts, s, q, ps, [])
  }

  /**
   * When the search reports a match, it is a decomposition at the leftmost
   * position that has one, preferred there over every other decomposition.
   */
  lemma SearchFindsLeftmost(ts: seq<Term>, s: string)
    requires Search(ts, s).Some?
    ensures var f := Search(ts, s).value;
            && f.start <= End(f) <= |s|
            && Fits(ts, s, f.start, f.pieces, [])
            && s[f.start..End(f)] == Concat(f.pieces)
            && NoFitBefore(ts, s, f.start)
            && (forall ps :: Fits(ts, s, f.start, ps, []) ==> NoLaterThan(f.pieces, ps))
  {
    SearchFromScan(ts, s, 0);
    var f := Search(ts, s).value;
    forall q: nat, ps | q < f.start && Fits(ts, s, q, ps, [])
      ensures false
    {
      assert MatchHere(ts, s, q, []).None?;
      MatchBest(ts, s, q, [], ps);
    }
    MatchSound(ts, s, f.start, []);
    FitsSpan(ts, s, f.start, f.pieces, []);
    forall ps | Fits(ts, s, f.start, ps, [])
      ensures NoLaterThan(f.pieces, ps)
    {
      MatchBest(ts, s, f.start, [], ps);
    }
  }

  /** The search reports nothing exactly when no position admits a decomposition. */
  lemma SearchFailsOnlyWithoutFit(ts: seq<Term>, s: string)
    requires Search(ts, s).None?
    ensures forall q: nat, ps :: q <= |s| ==> !Fits(ts, s, q, ps, [])
  {
    SearchFromScan(ts, s, 0);
    forall q: nat, ps | q <= |s| && Fits(ts, s, q, ps, [])
      ensures false
    {
      MatchBest(ts, s, q, [], ps);
    }
  }

  // ---------------------------------------------------------------------
  // A lone class, as `processPlaceholder` searches with

  /** The first position at or after `from` holding a class character, or the end. */
  function FirstIn(cs: seq<char>, s: string, from: nat): (p: nat)
    requires from <= |s|
    ensures from <= p <= |s|
    ensures forall i :: from <= i < p ==> s[i] !in cs
    ensures p < |s| ==> s[p] in cs
    decreases |s| - from
  {
    if from == |s| || s[from] in cs then from else FirstIn(cs, s, from + 1)
  }

  /** The leftmost maximal run of class characters in `s`; empty when there is none. */
  function LeftmostRun(cs: seq<char>, s: string): (r: string)
    ensures r == "" <==> forall i :: 0 <= i < |s| ==> s[i] !in cs
  {
    var p := FirstIn(cs, s, 0);
    s[p..p + RunLength(cs, s, p)]
  }

  /** Searching with `[cs]+` finds exactly the leftmost maximal run. */
  lemma {:induction false} SearchClassFrom(cs: seq<char>, s: string, from: nat)
    requires from <= |s|
    ensures var p := FirstIn(cs, s, from);
            SearchFrom([Plain(Class(cs))], s, from) ==
              if p == |s| then None else Some(Found(p, [s[p..p + RunLength(cs, s, p)]]))
    decreases |s| - from
  {
    var ts := [Plain(Class(cs))];
    ClassMatchHere(cs, s, from);
    if RunLength(cs, s, from) == 0 && from < |s| {
      SearchSkips(ts, s, from);
      SearchClassFrom(cs, s, from + 1);
    }
  }

  /** A lone class term matches at `pos` exactly the maximal run starting there, if any. */
  lemma ClassMatchHere(cs: seq<char>, s: string, pos: nat)
    requires pos <= |s|
    ensures var k := RunLength(cs, s, pos);
            MatchHere([Plain(Class(cs))], s, pos, []) == if k == 0 then None else Some([s[pos..pos + k]])
  {
    var ts := [Plain(Class(cs))];
    var k := RunLength(cs, s, pos);
    if k > 0 {
      var piece := s[pos..pos + k];
      assert ts[1..] == [];
      assert [] + Recorded(ts[0], piece) == [];
      assert MatchHere(ts[1..], s, pos + k, []) == Some([]);
      assert [piece] + [] == [piece];
      assert TryRuns(ts, s, pos, [], k) == Some([piece]);
    }
  }

  lemma SearchClass(cs: seq<char>, s: string)
    ensures Search([Plain(Class(cs))], s).Some? <==> LeftmostRun(cs, s) != ""
    ensures Search([Plain(Class(cs))], s).Some? ==>
              var f := Search([Plain(Class(cs))], s).value;
              f.start <= End(f) <= |s| && s[f.start..End(f)] == LeftmostRun(cs, s)
  {
    SearchClassFrom(cs, s, 0);
    var p := FirstIn(cs, s, 0);
    if p < |s| {
      var piece := s[p..p + RunLength(cs, s, p)];
      assert Concat([piece]) == piece + Concat([]);
    }
  }

  /** The empty expression matches the empty text at position 0. */
  lemma SearchEmpty(s: string)
    ensures Search([], s) == Some(Found(0, []))
  {
  }
}
