/**
 * The grammar of lambdac.py and its parse actions.
 *
 *   term ::= abst | appl | var
 *   abst ::= "fn" ID "=>" term+
 *   appl ::= var var*
 *   var  ::= ID | "(" term ")"
 *   ID   ::= one letter
 *
 * Whitespace and `#` comments to the end of the line are skipped before every
 * token.  Alternatives are tried in order and repetitions are greedy, so the
 * grammar functions return the first match, if any, and where it ends.  They
 * produce a syntax tree; `Build` then runs the parse actions on it bottom-up,
 * in the order the matches complete.
 */
module Grammar {
  import opened Wrappers
  import opened Terms
  import Binding

  datatype Syntax =
    | Ident(letter: char)
    | Abstraction(arg: char, body: seq<Syntax>)
    | Applications(atoms: seq<Syntax>)

  /** Every abstraction has a body and every application run an atom. */
  predicate WellFormed(syn: Syntax) {
    match syn
    case Ident(_) => true
    case Abstraction(_, body) => |body| > 0 && forall x :: x in body ==> WellFormed(x)
    case Applications(atoms) => |atoms| > 0 && forall x :: x in atoms ==> WellFormed(x)
  }

  predicate AllWellFormed(syns: seq<Syntax>) {
    forall k :: 0 <= k < |syns| ==> WellFormed(syns[k])
  }

  datatype Match = Match(tree: Syntax, end: nat)

  predicate IsWhitespace(c: char) {
    c == ' ' || c == '\t' || c == '\n' || c == '\r'
  }

  predicate IsAlpha(c: char) {
    'a' <= c <= 'z' || 'A' <= c <= 'Z'
  }

  /** `restOfLine`: up to, not including, the next line break. */
  function RestOfLine(s: string, pos: nat): (p: nat)
    requires pos <= |s|
    ensures pos <= p <= |s| && (p == |s| || s[p] == '\n')
    ensures forall k :: pos <= k < p ==> s[k] != '\n'
    decreases |s| - pos
  {
    if pos == |s| || s[pos] == '\n' then pos else RestOfLine(s, pos + 1)
  }

  /** Position `k` lies in a `#` comment that starts at or after `pos`: no line break since the `#`. */
  predicate InComment(s: string, pos: nat, k: nat)
    requires k < |s|
  {
    exists j :: pos <= j <= k && s[j] == '#' && forall m :: j <= m <= k ==> s[m] != '\n'
  }

  /** Skips whitespace and comments: the next token starts at a character that is neither. */
  function Skip(s: string, pos: nat): (p: nat)
    requires pos <= |s|
    ensures pos <= p <= |s|
    ensures p < |s| ==> !IsWhitespace(s[p]) && s[p] != '#'
    decreases |s| - pos
  {
    if pos == |s| then pos
    else if IsWhitespace(s[pos]) then Skip(s, pos + 1)
    else if s[pos] == '#' then Skip(s, RestOfLine(s, pos + 1))
    else pos
  }

  /** Everything `Skip` passes over is whitespace or the text of a comment. */
  lemma {:induction false} SkippedTextIsBlank(s: string, pos: nat)
    requires pos <= |s|
    ensures forall k :: pos <= k < Skip(s, pos) ==> IsWhitespace(s[k]) || InComment(s, pos, k)
    decreases |s| - pos
  {
    if pos < |s| {
      if IsWhitespace(s[pos]) {
        SkippedTextIsBlank(s, pos + 1);
        forall k | pos + 1 <= k < Skip(s, pos) && InComment(s, pos + 1, k)
          ensures InComment(s, pos, k)
        {
          var j :| pos + 1 <= j <= k && s[j] == '#' && forall m :: j <= m <= k ==> s[m] != '\n';
          assert pos <= j;
        }
      } else if s[pos] == '#' {
        var e := RestOfLine(s, pos + 1);
        SkippedTextIsBlank(s, e);
        forall k | pos <= k < Skip(s, pos)
          ensures IsWhitespace(s[k]) || InComment(s, pos, k)
        {
          if k < e {
            assert pos <= pos <= k && s[pos] == '#';
          } else if !IsWhitespace(s[k]) {
            assert InComment(s, e, k);
            var j :| e <= j <= k && s[j] == '#' && forall m :: j <= m <= k ==> s[m] != '\n';
            assert pos <= j;
          }
        }
      }
    }
  }

  /** Skipping twice skips nothing more: a token position is already past the blanks. */
  lemma SkipIdempotent(s: string, pos: nat)
    requires pos <= |s|
    ensures Skip(s, Skip(s, pos)) == Skip(s, pos)
  {
  }

  /** A `Literal`: the exact text, after skipping. */
  function Literal(s: string, pos: nat, lit: string): (r: Option<nat>)
    requires pos <= |s|
  {
    var p := Skip(s, pos);
    if p + |lit| <= |s| && s[p..p + |lit|] == lit then Some(p + |lit|) else None
  }

  /** `ID = Word(alphas, exact=1)`: exactly one letter, whatever follows it. */
  function ParseId(s: string, pos: nat): (r: Option<Match>)
    requires pos <= |s|
  {
    var p := Skip(s, pos);
    if p < |s| && IsAlpha(s[p]) then Some(Match(Ident(s[p]), p + 1)) else None
  }

  /** Skipping is unaffected by text before the starting point. */
  lemma {:induction false} SkipShift(p: string, t: string, i: nat)
    requires i <= |t|
    ensures Skip(p + t, |p| + i) == |p| + Skip(t, i)
    decreases |t| - i
  {
    var s := p + t;
    if i < |t| {
      assert s[|p| + i] == t[i];
      if IsWhitespace(t[i]) {
        SkipShift(p, t, i + 1);
      } else if t[i] == '#' {
        RestOfLineShift(p, t, i + 1);
        SkipShift(p, t, RestOfLine(t, i + 1));
      }
    }
  }

  lemma {:induction false} RestOfLineShift(p: string, t: string, i: nat)
    requires i <= |t|
    ensures RestOfLine(p + t, |p| + i) == |p| + RestOfLine(t, i)
    decreases |t| - i
  {
    if i < |t| {
      assert (p + t)[|p| + i] == t[i];
      if t[i] != '\n' {
        RestOfLineShift(p, t, i + 1);
      }
    }
  }

  /** A `#` comment runs to the end of its line and is skipped like whitespace. */
  lemma CommentIsSkipped(c: string, t: string)
    requires '\n' !in c
    ensures Skip("#" + c + "\n" + t, 0) == |c| + 2 + Skip(t, 0)
  {
    var p := "#" + c + "\n";
    var s := p + t;
    assert s == "#" + c + "\n" + t;
    RestOfLineShift("#" + c, "\n" + t, 0);
    assert ("\n" + t)[0] == '\n';
    assert ("#" + c)[1..] == c;
    forall k | 1 <= k < |c| + 1
      ensures s[k] != '\n'
    {
      assert s[k] == c[k - 1];
    }
    RestOfLineSkipsText(s, 1, |c| + 1);
    assert s[|c| + 1] == '\n';
    SkipShift(p, t, 0);
  }

  lemma {:induction false} RestOfLineSkipsText(s: string, i: nat, j: nat)
    requires i <= j < |s| && s[j] == '\n' && forall k :: i <= k < j ==> s[k] != '\n'
    ensures RestOfLine(s, i) == j
    decreases j - i
  {
    if i < j {
      RestOfLineSkipsText(s, i + 1, j);
    }
  }

  /**
   * Blanks before a token never change a match: every token skips them first,
   * so a term parses the same from `pos` as from the first non-blank position.
   */
  lemma LeadingBlanksIgnored(s: string, pos: nat)
    requires pos <= |s|
    ensures ParseId(s, pos) == ParseId(s, Skip(s, pos))
    ensures forall lit :: Literal(s, pos, lit) == Literal(s, Skip(s, pos), lit)
    ensures ParseVar(s, pos) == ParseVar(s, Skip(s, pos))
    ensures ParseTerm(s, pos) == ParseTerm(s, Skip(s, pos))
  {
    SkipIdempotent(s, pos);
  }

  /** `ID` takes exactly one letter, so two adjacent letters are two identifiers applied to each other. */
  lemma AdjacentLettersAreTwoIdentifiers(x: char, y: char)
    requires IsAlpha(x) && IsAlpha(y)
    ensures ParseVar([x, y], 0) == Some(Match(Ident(x), 1))
    ensures ParseAppl([x, y], 0) == Some(Match(Applications([Ident(x), Ident(y)]), 2))
  {
    var s := [x, y];
    assert Skip(s, 0) == 0 && Skip(s, 1) == 1 && Skip(s, 2) == 2;
    assert ParseVar(s, 1) == Some(Match(Ident(y), 2));
    assert ParseVar(s, 2) == None;
    assert ParseVars(s, 2, [Ident(x), Ident(y)]) == ([Ident(x), Ident(y)], 2);
    assert [Ident(x)] + [Ident(y)] == [Ident(x), Ident(y)];
    assert ParseVars(s, 1, [Ident(x)]) == ([Ident(x), Ident(y)], 2);
  }

  /** `term ::= abst | appl | var`, first alternative that matches. */
  function ParseTerm(s: string, pos: nat): (r: Option<Match>)
    requires pos <= |s|
    ensures r.Some? ==> pos < r.value.end <= |s| && WellFormed(r.value.tree)
    decreases |s| - pos, 3
  {
    var abst := ParseAbst(s, pos);
    if abst.Some? then abst
    else
      var appl := ParseAppl(s, pos);
      if appl.Some? then appl else ParseVar(s, pos)
  }

  /** `abst ::= "fn" ID "=>" term+`. */
  function ParseAbst(s: string, pos: nat): (r: Option<Match>)
    requires pos <= |s|
    ensures r.Some? ==> pos < r.value.end <= |s| && WellFormed(r.value.tree) && r.value.tree.Abstraction?
    decreases |s| - pos, 2
  {
    match Literal(s, pos, "fn")
    case None => None
    case Some(p1) =>
      match ParseId(s, p1)
      case None => None
      case Some(arg) =>
        match Literal(s, arg.end, "=>")
        case None => None
        case Some(p2) =>
          match ParseTerm(s, p2)
          case None => None
          case Some(first) =>
            var (body, end) := ParseTerms(s, first.end, [first.tree]);
            Some(Match(Abstraction(arg.tree.letter, body), end))
  }

  /** The greedy tail of `term+`: further terms while one matches. */
  function ParseTerms(s: string, pos: nat, acc: seq<Syntax>): (r: (seq<Syntax>, nat))
    requires pos <= |s| && |acc| > 0 && forall x :: x in acc ==> WellFormed(x)
    ensures pos <= r.1 <= |s| && |acc| <= |r.0| && r.0[..|acc|] == acc
    ensures forall x :: x in r.0 ==> WellFormed(x)
    decreases |s| - pos, 4
  {
    match ParseTerm(s, pos)
    case None => (acc, pos)
    case Some(m) => ParseTerms(s, m.end, acc + [m.tree])
  }

  /** `appl ::= var var*`: a run of one or more atoms. */
  function ParseAppl(s: string, pos: nat): (r: Option<Match>)
    requires pos <= |s|
    ensures r.Some? ==> pos < r.value.end <= |s| && WellFormed(r.value.tree) && r.value.tree.Applications?
    decreases |s| - pos, 2
  {
    match ParseVar(s, pos)
    case None => None
    case Some(first) =>
      var (atoms, end) := ParseVars(s, first.end, [first.tree]);
      Some(Match(Applications(atoms), end))
  }

  /** The greedy tail of an application run. */
  function ParseVars(s: string, pos: nat, acc: seq<Syntax>): (r: (seq<Syntax>, nat))
    requires pos <= |s| && |acc| > 0 && forall x :: x in acc ==> WellFormed(x)
    ensures pos <= r.1 <= |s| && |acc| <= |r.0| && r.0[..|acc|] == acc
    ensures forall x :: x in r.0 ==> WellFormed(x)
    decreases |s| - pos, 4
  {
    match ParseVar(s, pos)
    case None => (acc, pos)
    case Some(m) => ParseVars(s, m.end, acc + [m.tree])
  }

  /** `var ::= ID | "(" term ")"`; the parentheses leave no token. */
  function ParseVar(s: string, pos: nat): (r: Option<Match>)
    requires pos <= |s|
    ensures r.Some? ==> pos < r.value.end <= |s| && WellFormed(r.value.tree)
    ensures r.Some? ==> (
      || r == ParseId(s, pos)
      || (&& ParseId(s, pos).None? && Skip(s, pos) < |s| && s[Skip(s, pos)] == '('
          && s[r.value.end - 1] == ')'
          && ParseTerm(s, Skip(s, pos) + 1).Some?
          && ParseTerm(s, Skip(s, pos) + 1).value.tree == r.value.tree))
    decreases |s| - pos, 1
  {
    var id := ParseId(s, pos);
    if id.Some? then id
    else
      match Literal(s, pos, "(")
      case None => None
      case Some(p1) =>
        match ParseTerm(s, p1)
        case None => None
        case Some(inner) =>
          match Literal(s, inner.end, ")")
          case None => None
          case Some(p2) => Some(Match(inner.tree, p2))
  }

  /** `to_application`: `reduce(Application, atoms)`, folding from the left. */
  function Reduce(acc: Term, rest: seq<Term>): (r: Term)
    ensures Vars(r) == Vars(acc) + VarsOfAll(rest)
    decreases |rest|
  {
    if rest == [] then acc
    else
      assert Vars(acc) + VarsOfAll(rest) == Vars(Application(acc, rest[0])) + VarsOfAll(rest[1..]);
      Reduce(Application(acc, rest[0]), rest[1..])
  }

  /** The variable occurrences of a run of terms, term after term. */
  function VarsOfAll(ts: seq<Term>): seq<Term> {
    if ts == [] then [] else Vars(ts[0]) + VarsOfAll(ts[1..])
  }

  /** `to_application`: the fold keeps every atom's occurrences, in the order of the atoms. */
  function FoldApplications(ts: seq<Term>): (r: Term)
    requires |ts| > 0
    ensures Vars(r) == VarsOfAll(ts)
  {
    Reduce(ts[0], ts[1..])
  }

  lemma {:induction false} ReduceSnoc(acc: Term, rest: seq<Term>, x: Term)
    ensures Reduce(acc, rest + [x]) == Application(Reduce(acc, rest), x)
    decreases |rest|
  {
    if rest != [] {
      assert (rest + [x])[1..] == rest[1..] + [x];
      ReduceSnoc(Application(acc, rest[0]), rest[1..], x);
    }
  }

  /** A run of one atom is that atom; a longer run applies the fold of all but the last atom to the last. */
  lemma FoldIsLeftNested(ts: seq<Term>)
    requires |ts| > 0
    ensures |ts| == 1 ==> FoldApplications(ts) == ts[0]
    ensures |ts| >= 2 ==> FoldApplications(ts) == Application(FoldApplications(ts[..|ts| - 1]), ts[|ts| - 1])
  {
    if |ts| >= 2 {
      assert ts[1..] == ts[1..|ts| - 1] + [ts[|ts| - 1]];
      ReduceSnoc(ts[0], ts[1..|ts| - 1], ts[|ts| - 1]);
      assert ts[..|ts| - 1][1..] == ts[1..|ts| - 1];
    }
  }

  lemma {:induction false} ReduceKeeps(names: seq<Name>, acc: Term, rest: seq<Term>)
    requires IdsBelow(acc, |names|) && Resolved(names, acc, [])
    requires forall k :: 0 <= k < |rest| ==> IdsBelow(rest[k], |names|) && Resolved(names, rest[k], [])
    ensures IdsBelow(Reduce(acc, rest), |names|) && Resolved(names, Reduce(acc, rest), [])
    decreases |rest|
  {
    if rest != [] {
      ReduceKeeps(names, Application(acc, rest[0]), rest[1..]);
    }
  }

  /**
   * Runs the parse actions: `to_variable` makes a free variable of an
   * identifier, `to_application` folds a run, and `to_lambda` builds a lambda
   * from the argument and the first body term.  Lambdas allocate their binder
   * slots in the order their matches complete.
   */
  function Build(names: seq<Name>, syn: Syntax): (r: (seq<Name>, Term))
    requires WellFormed(syn)
    ensures Extends(r.0, names) && IdsBelow(r.1, |r.0|)
    decreases syn
  {
    match syn
    case Ident(c) => (names, FreeVariable([c]))
    case Applications(atoms) =>
      var (names', ts) := BuildAll(names, atoms);
      ReduceKeepsIds(|names'|, ts[0], ts[1..]);
      (names', FoldApplications(ts))
    case Abstraction(c, body) =>
      var (names', ts) := BuildAll(names, body);
      var (names'', t) := Binding.Abstract(names', [c], ts[0]);
      assert names''[..|names|] == names'[..|names|];
      (names'', t)
  }

  function BuildAll(names: seq<Name>, syns: seq<Syntax>): (r: (seq<Name>, seq<Term>))
    requires forall x :: x in syns ==> WellFormed(x)
    ensures Extends(r.0, names) && |r.1| == |syns|
    ensures forall k :: 0 <= k < |r.1| ==> IdsBelow(r.1[k], |r.0|)
    decreases syns
  {
    if syns == [] then (names, [])
    else
      var (names1, t) := Build(names, syns[0]);
      var (names2, ts) := BuildAll(names1, syns[1..]);
      IdsBelowGrow(t, |names1|, |names2|);
      assert names2[..|names|] == names1[..|names|];
      (names2, [t] + ts)
  }

  lemma {:induction false} ReduceKeepsIds(n: nat, acc: Term, rest: seq<Term>)
    requires IdsBelow(acc, n) && forall k :: 0 <= k < |rest| ==> IdsBelow(rest[k], n)
    ensures IdsBelow(Reduce(acc, rest), n)
    decreases |rest|
  {
    if rest != [] {
      ReduceKeepsIds(n, Application(acc, rest[0]), rest[1..]);
    }
  }

  /**
   * The terms the parse actions build satisfy `Resolved` with no enclosing
   * binder: every bound occurrence refers to an enclosing lambda (none
   * dangles), and to the outermost one of its name.
   */
  lemma {:induction false} BuildBindsOutermost(names: seq<Name>, syn: Syntax)
    requires WellFormed(syn)
    ensures Resolved(Build(names, syn).0, Build(names, syn).1, [])
    decreases syn
  {
    match syn
    case Ident(c) =>
    case Applications(atoms) =>
      BuildAllBindsOutermost(names, atoms);
      var (names', ts) := BuildAll(names, atoms);
      ReduceKeeps(names', ts[0], ts[1..]);
    case Abstraction(c, body) =>
      BuildAllBindsOutermost(names, body);
      var (names', ts) := BuildAll(names, body);
      var names'' := names' + [[c]];
      assert Extends(names'', names');
      ResolvedExtends(names', names'', ts[0], []);
      BindResolvesOutermost(names'', ts[0], [], |names'|);
      assert [|names'|] + [] == [] + [|names'|];
  }

  lemma {:induction false} BuildAllBindsOutermost(names: seq<Name>, syns: seq<Syntax>)
    requires forall x :: x in syns ==> WellFormed(x)
    ensures forall k :: 0 <= k < |syns| ==> Resolved(BuildAll(names, syns).0, BuildAll(names, syns).1[k], [])
    decreases syns
  {
    if syns != [] {
      var (names1, t) := Build(names, syns[0]);
      var (names2, ts) := BuildAll(names1, syns[1..]);
      BuildBindsOutermost(names, syns[0]);
      BuildAllBindsOutermost(names1, syns[1..]);
      ResolvedExtends(names1, names2, t, []);
      assert BuildAll(names, syns).1 == [t] + ts;
    }
  }

  /**
   * A whole input: one term, then nothing but whitespace and comments.
   * Returns the grown arena and the term, or None for a parse error.
   */
  function Parse(s: string, names: seq<Name>): (r: Option<(seq<Name>, Term)>)
    ensures r.Some? ==> Extends(r.value.0, names) && IdsBelow(r.value.1, |r.value.0|)
  {
    match ParseTerm(s, 0)
    case None => None
    case Some(m) => if Skip(s, m.end) == |s| then Some(Build(names, m.tree)) else None
  }

  /** A parsed term has no dangling occurrence, and each refers to the outermost lambda of its name. */
  lemma ParseBindsOutermost(s: string, names: seq<Name>)
    ensures Parse(s, names).Some? ==> Resolved(Parse(s, names).value.0, Parse(s, names).value.1, [])
  {
    var m := ParseTerm(s, 0);
    if m.Some? {
      BuildBindsOutermost(names, m.value.tree);
    }
  }

  lemma {:induction false} ParseVarsStops(s: string, pos: nat, acc: seq<Syntax>)
    requires pos <= |s| && |acc| > 0 && forall x :: x in acc ==> WellFormed(x)
    ensures ParseVar(s, ParseVars(s, pos, acc).1).None?
    decreases |s| - pos
  {
    var m := ParseVar(s, pos);
    if m.Some? {
      ParseVarsStops(s, m.value.end, acc + [m.value.tree]);
    }
  }

  lemma {:induction false} ParseTermsStops(s: string, pos: nat, acc: seq<Syntax>)
    requires pos <= |s| && |acc| > 0 && forall x :: x in acc ==> WellFormed(x)
    ensures ParseTerm(s, ParseTerms(s, pos, acc).1).None?
    decreases |s| - pos
  {
    var m := ParseTerm(s, pos);
    if m.Some? {
      ParseTermsStops(s, m.value.end, acc + [m.value.tree]);
    }
  }

  /** Where no atom starts, no term starts: "fn" would begin with the identifier `f`. */
  lemma NoVarNoTerm(s: string, pos: nat)
    requires pos <= |s| && ParseVar(s, pos).None?
    ensures ParseTerm(s, pos).None?
  {
  }

  /** A term always extends as far as any term can: no second term follows it. */
  lemma TermIsMaximal(s: string, pos: nat)
    requires pos <= |s| && ParseTerm(s, pos).Some?
    ensures ParseTerm(s, ParseTerm(s, pos).value.end).None?
  {
    var abst := ParseAbst(s, pos);
    if abst.Some? {
      var p1 := Literal(s, pos, "fn").value;
      var arg := ParseId(s, p1).value;
      var p2 := Literal(s, arg.end, "=>").value;
      var first := ParseTerm(s, p2).value;
      ParseTermsStops(s, first.end, [first.tree]);
    } else if ParseAppl(s, pos).Some? {
      var first := ParseVar(s, pos).value;
      ParseVarsStops(s, first.end, [first.tree]);
      NoVarNoTerm(s, ParseAppl(s, pos).value.end);
    }
  }

  /**
   * `term+` in an abstraction always matches exactly one term, so taking the
   * first body term, as `to_lambda` does, drops nothing.
   */
  lemma AbstractionBodyIsSingle(s: string, pos: nat)
    requires pos <= |s| && ParseAbst(s, pos).Some?
    ensures |ParseAbst(s, pos).value.tree.body| == 1
  {
    var p1 := Literal(s, pos, "fn").value;
    var arg := ParseId(s, p1).value;
    var p2 := Literal(s, arg.end, "=>").value;
    var first := ParseTerm(s, p2).value;
    TermIsMaximal(s, p2);
  }
}
