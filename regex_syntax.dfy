/**
 * The fragment of ECMAScript regular-expression syntax that the rule generator
 * emits (section 15.10.1 of ECMA-262 5.1, the grammar `std::regex` uses by
 * default): escaped or plain literal characters, a one-or-more character class
 * `[...]+`, a numbered back-reference `\n`, and a capturing group `( ... )`
 * around either of the last two.
 *
 * `Render` is the text the generator builds; `Parse` reads such text back the
 * way the regular-expression compiler does, and `ParseRender` shows that the
 * text of well-formed terms denotes exactly those terms.
 */
module RegexSyntax {
  import opened Decimal

  datatype Option<T> = None | Some(value: T)

  /** The characters `isSpecialCharacter` escapes. */
  const SpecialChars: string := "\\.^$|()[]{}*+?/-"

  predicate IsSpecialCharacter(c: char) {
    c in SpecialChars
  }

  /**
   * `createConstGroup`: a literal character, preceded by a backslash exactly
   * when it is special; the one text the parser reads back as that literal.
   */
  function ConstGroup(c: char): (r: string)
    ensures |r| == 1 <==> !IsSpecialCharacter(c)
    ensures |r| == 2 <==> IsSpecialCharacter(c)
    ensures r[|r| - 1] == c && (|r| == 2 ==> r[0] == '\\')
  {
    if IsSpecialCharacter(c) then ['\\', c] else [c]
  }

  /** The escaped characters of a class, in the order given. */
  function EscapedChars(cs: seq<char>): string {
    if cs == [] then "" else ConstGroup(cs[0]) + EscapedChars(cs[1..])
  }

  /** The group text `createVarGroup` builds for a first occurrence. */
  function ClassText(cs: seq<char>): string {
    "[" + EscapedChars(cs) + "]+"
  }

  datatype Atom =
    | Class(chars: seq<char>)   // `[c1c2...]+`: one or more characters from `chars`
    | BackRef(group: nat)       // `\n`: the text captured by group `n`

  datatype Term =
    | Literal(c: char)          // the character itself
    | Plain(atom: Atom)         // an atom outside any group
    | Capture(atom: Atom)       // `( atom )`: a capturing group

  function AtomText(a: Atom): string {
    match a
    case Class(cs) => ClassText(cs)
    case BackRef(n) => "\\" + NatToString(n)
  }

  function TermText(t: Term): string {
    match t
    case Literal(c) => ConstGroup(c)
    case Plain(a) => AtomText(a)
    case Capture(a) => "(" + AtomText(a) + ")"
  }

  function Render(ts: seq<Term>): string {
    if ts == [] then "" else TermText(ts[0]) + Render(ts[1..])
  }

  /**
   * The terms the generator can emit: a back-reference number is at least 1
   * and an uncaptured atom is a class (`\n` followed by a digit would read as
   * a different number).
   */
  predicate Emittable(t: Term) {
    match t
    case Literal(_) => true
    case Plain(a) => a.Class?
    case Capture(a) => a.Class? || a.group >= 1
  }

  predicate WellFormed(ts: seq<Term>) {
    forall i :: 0 <= i < |ts| ==> Emittable(ts[i])
  }

  // ---------------------------------------------------------------------
  // Reading the text back

  /** Characters of a class up to its closing `]`; escapes are read as the character. */
  function ParseClassBody(s: string): (r: Option<(seq<char>, string)>)
    ensures r.Some? ==> |r.value.1| < |s|
  {
    if s == [] then None
    else if s[0] == ']' then Some(([], s[1..]))
    else if s[0] == '\\' then
      if |s| >= 2 && IsSpecialCharacter(s[1]) then
        match ParseClassBody(s[2..])
        case None => None
        case Some((cs, rest)) => Some(([s[1]] + cs, rest))
      else None
    else if IsSpecialCharacter(s[0]) then None
    else
      match ParseClassBody(s[1..])
      case None => None
      case Some((cs, rest)) => Some(([s[0]] + cs, rest))
  }

  function ParseAtom(s: string): (r: Option<(Atom, string)>)
    ensures r.Some? ==> |r.value.1| < |s|
  {
    if s != [] && s[0] == '[' then
      match ParseClassBody(s[1..])
      case None => None
      case Some((cs, rest)) =>
        if rest != [] && rest[0] == '+' then Some((Class(cs), rest[1..])) else None
    else if s != [] && s[0] == '\\' then
      var k := DigitPrefix(s[1..]);
      if k == 0 then None
      else
        var n := DigitsValue(s[1..1 + k]);
        if n == 0 then None else Some((BackRef(n), s[1 + k..]))
    else None
  }

  function ParseTerm(s: string): (r: Option<(Term, string)>)
    requires s != []
    ensures r.Some? ==> |r.value.1| < |s|
  {
    if s[0] == '(' then
      match ParseAtom(s[1..])
      case None => None
      case Some((a, rest)) =>
        if rest != [] && rest[0] == ')' then Some((Capture(a), rest[1..])) else None
    else if s[0] == '[' then
      match ParseAtom(s)
      case None => None
      case Some((a, rest)) => Some((Plain(a), rest))
    else if s[0] == '\\' then
      if |s| >= 2 && IsSpecialCharacter(s[1]) then Some((Literal(s[1]), s[2..])) else None
    else if IsSpecialCharacter(s[0]) then None
    else Some((Literal(s[0]), s[1..]))
  }

  /** The terms a text denotes, or `None` when it is not in the fragment. */
  function Parse(s: string): Option<seq<Term>>
    decreases |s|
  {
    if s == [] then Some([])
    else
      match ParseTerm(s)
      case None => None
      case Some((t, rest)) =>
        match Parse(rest)
        case None => None
        case Some(ts) => Some([t] + ts)
  }

  // ---------------------------------------------------------------------
  // Round trip

  lemma {:induction false} ParseClassBodyRender(cs: seq<char>, rest: string)
    ensures ParseClassBody(EscapedChars(cs) + "]" + rest) == Some((cs, rest))
  {
    var s := EscapedChars(cs) + "]" + rest;
    if cs == [] {
      assert s == "]" + rest;
    } else {
      var g := ConstGroup(cs[0]);
      assert s == g + (EscapedChars(cs[1..]) + "]" + rest);
      ParseClassBodyRender(cs[1..], rest);
      assert [cs[0]] + cs[1..] == cs;
      if IsSpecialCharacter(cs[0]) {
        assert s[0] == '\\' && s[1] == cs[0];
        assert s[2..] == EscapedChars(cs[1..]) + "]" + rest;
      } else {
        assert s[0] == cs[0];
        assert s[1..] == EscapedChars(cs[1..]) + "]" + rest;
      }
    }
  }

  lemma ParseClassText(cs: seq<char>, rest: string)
    ensures ParseAtom(ClassText(cs) + rest) == Some((Class(cs), rest))
  {
    var s := ClassText(cs) + rest;
    assert s[1..] == EscapedChars(cs) + "]" + ("+" + rest);
    ParseClassBodyRender(cs, "+" + rest);
  }

  lemma ParseBackRefText(n: nat, rest: string)
    requires n >= 1
    requires rest == [] || !IsDigit(rest[0])
    ensures ParseAtom("\\" + NatToString(n) + rest) == Some((BackRef(n), rest))
  {
    var num := NatToString(n);
    var s := "\\" + num + rest;
    assert s[1..] == num + rest;
    DigitPrefixOfNumeral(n, rest);
    assert s[1..1 + |num|] == num;
    ValueOfNatToString(n);
    assert s[1 + |num|..] == rest;
  }

  lemma ParseLiteralText(c: char, rest: string)
    ensures ParseTerm(ConstGroup(c) + rest) == Some((Literal(c), rest))
  {
    var s := ConstGroup(c) + rest;
    if IsSpecialCharacter(c) {
      assert s[0] == '\\' && s[1] == c && s[2..] == rest;
    } else {
      assert s[0] == c && s[1..] == rest;
      assert c != '(' && c != '[' && c != '\\';
    }
  }

  lemma ParseCaptureText(a: Atom, rest: string)
    requires a.Class? || a.group >= 1
    ensures ParseTerm("(" + AtomText(a) + ")" + rest) == Some((Capture(a), rest))
  {
    var after := ")" + rest;
    GroupTextSplit(AtomText(a), rest);
    ParseAtomText(a, after);
    ParseTermGroup("(" + AtomText(a) + ")" + rest, a, after);
  }

  lemma GroupTextSplit(m: string, rest: string)
    ensures var s := "(" + m + ")" + rest;
            s != [] && s[0] == '(' && s[1..] == m + (")" + rest)
    ensures (")" + rest)[0] == ')' && (")" + rest)[1..] == rest
  {
    var s := "(" + m + ")" + rest;
    assert s[1..] == m + (")" + rest);
  }

  lemma ParseAtomText(a: Atom, after: string)
    requires a.Class? || a.group >= 1
    requires after != [] && after[0] == ')'
    ensures ParseAtom(AtomText(a) + after) == Some((a, after))
  {
    match a
    case Class(cs) =>
      ParseClassText(cs, after);
    case BackRef(n) =>
      ParseBackRefText(n, after);
  }

  lemma ParseTermGroup(s: string, a: Atom, after: string)
    requires s != [] && s[0] == '(' && ParseAtom(s[1..]) == Some((a, after))
    requires after != [] && after[0] == ')'
    ensures ParseTerm(s) == Some((Capture(a), after[1..]))
  {
  }

  lemma ParsePlainText(cs: seq<char>, rest: string)
    ensures ParseTerm(ClassText(cs) + rest) == Some((Plain(Class(cs)), rest))
  {
    ParseClassText(cs, rest);
  }

  lemma ParseTermRender(t: Term, rest: string)
    requires Emittable(t)
    ensures TermText(t) != []
    ensures ParseTerm(TermText(t) + rest) == Some((t, rest))
  {
    match t
    case Literal(c) => ParseLiteralText(c, rest);
    case Plain(a) => ParsePlainText(a.chars, rest);
    case Capture(a) => ParseCaptureText(a, rest);
  }

  /** The text of well-formed terms is read back as exactly those terms. */
  lemma {:induction false} ParseRender(ts: seq<Term>)
    requires WellFormed(ts)
    ensures Parse(Render(ts)) == Some(ts)
  {
    if ts != [] {
      ParseTermRender(ts[0], Render(ts[1..]));
      ParseRender(ts[1..]);
      assert [ts[0]] + ts[1..] == ts;
    }
  }

  lemma {:induction false} RenderAppend(ts: seq<Term>, t: Term)
    ensures Render(ts + [t]) == Render(ts) + TermText(t)
  {
    if ts == [] {
      assert [] + [t] == [t];
    } else {
      assert (ts + [t])[1..] == ts[1..] + [t];
      RenderAppend(ts[1..], t);
    }
  }

  lemma {:induction false} EscapedCharsAppend(cs: seq<char>, c: char)
    ensures EscapedChars(cs + [c]) == EscapedChars(cs) + ConstGroup(c)
  {
    if cs == [] {
      assert [] + [c] == [c];
    } else {
      assert (cs + [c])[1..] == cs[1..] + [c];
      EscapedCharsAppend(cs[1..], c);
    }
  }
}
