/**
 * Worked inputs for the lambda-calculus grammar: each lemma follows one input
 * through the grammar and the parse actions down to the term and its printed
 * form.
 */
module LambdaExamples {
  import opened Wrappers
  import opened Terms
  import opened Grammar

  const Chain: string := "fn a => fn b => a b"

  lemma ChainChars()
    ensures |Chain| == 19
    ensures Chain[0] == 'f' && Chain[1] == 'n' && Chain[2] == ' ' && Chain[3] == 'a' && Chain[4] == ' '
    ensures Chain[5] == '=' && Chain[6] == '>' && Chain[7] == ' ' && Chain[8] == 'f' && Chain[9] == 'n'
    ensures Chain[10] == ' ' && Chain[11] == 'b' && Chain[12] == ' ' && Chain[13] == '=' && Chain[14] == '>'
    ensures Chain[15] == ' ' && Chain[16] == 'a' && Chain[17] == ' ' && Chain[18] == 'b'
  {
  }

  /** The tokens of the chained input, as the lexical rules read them. */
  lemma ChainedTokens()
    ensures Literal(Chain, 0, "fn") == Some(2) && ParseId(Chain, 2) == Some(Match(Ident('a'), 4))
    ensures Literal(Chain, 4, "=>") == Some(7) && Literal(Chain, 7, "fn") == Some(10)
    ensures ParseId(Chain, 10) == Some(Match(Ident('b'), 12)) && Literal(Chain, 12, "=>") == Some(15)
    ensures Literal(Chain, 15, "fn") == None
    ensures ParseVar(Chain, 15) == Some(Match(Ident('a'), 17))
    ensures ParseVar(Chain, 17) == Some(Match(Ident('b'), 19))
    ensures ParseVar(Chain, 19) == None && Skip(Chain, 19) == 19
  {
    var s := Chain;
    ChainChars();
    assert Skip(s, 0) == 0 && Skip(s, 2) == 3 && Skip(s, 4) == 5 && Skip(s, 7) == 8;
    assert Skip(s, 10) == 11 && Skip(s, 12) == 13 && Skip(s, 15) == 16 && Skip(s, 17) == 18;
    assert Skip(s, 19) == 19;
  }

  /** The application `a b` at the end of the chained input. */
  lemma ChainedApplicationSyntax()
    ensures ParseTerm(Chain, 15) == Some(Match(Applications([Ident('a'), Ident('b')]), 19))
  {
    var s := Chain;
    assert ParseAbst(s, 15) == None;
    ChainedTokens();
    NoVarNoTerm(s, 19);
    assert ParseVars(s, 19, [Ident('a'), Ident('b')]) == ([Ident('a'), Ident('b')], 19);
    assert [Ident('a')] + [Ident('b')] == [Ident('a'), Ident('b')];
    assert ParseVars(s, 17, [Ident('a')]) == ([Ident('a'), Ident('b')], 19);
  }

  /** The inner abstraction `fn b => a b`. */
  lemma ChainedInnerSyntax()
    ensures ParseTerm(Chain, 7) == Some(Match(Abstraction('b', [Applications([Ident('a'), Ident('b')])]), 19))
  {
    var s := Chain;
    var appl := Applications([Ident('a'), Ident('b')]);
    ChainedApplicationSyntax();
    ChainedTokens();
    NoVarNoTerm(s, 19);
    assert ParseTerms(s, 19, [appl]) == ([appl], 19);
  }

  /** `fn a => fn b => a b` is two nested abstractions around one application. */
  lemma ChainedSyntax()
    ensures ParseTerm(Chain, 0) == Some(Match(
      Abstraction('a', [Abstraction('b', [Applications([Ident('a'), Ident('b')])])]), 19))
  {
    var s := Chain;
    var inner := Abstraction('b', [Applications([Ident('a'), Ident('b')])]);
    ChainedInnerSyntax();
    ChainedTokens();
    NoVarNoTerm(s, 19);
    assert ParseTerms(s, 19, [inner]) == ([inner], 19);
    assert ParseAbst(s, 0) == Some(Match(Abstraction('a', [inner]), 19));
  }

  /** The application action on `a b`: two free variables, applied left to right. */
  lemma ChainedApplicationBuild(names: seq<Name>)
    ensures Build(names, Applications([Ident('a'), Ident('b')]))
      == (names, Application(FreeVariable("a"), FreeVariable("b")))
  {
    var atoms := [Ident('a'), Ident('b')];
    assert atoms[1..][1..] == [];
    assert BuildAll(names, atoms[1..]).1 == [FreeVariable("b")];
    assert BuildAll(names, atoms).1 == [FreeVariable("a"), FreeVariable("b")];
    assert BuildAll(names, atoms).0 == names;
    var fs := [FreeVariable("a"), FreeVariable("b")];
    assert fs[1..][1..] == [];
  }

  /** The lambda actions: the inner lambda is created first, so `b` gets id 0 and `a` id 1. */
  lemma ChainedBuild()
    ensures Build([], Abstraction('a', [Abstraction('b', [Applications([Ident('a'), Ident('b')])])]))
      == (["b", "a"], Lambda(1, Lambda(0, Application(BoundVariable(1), BoundVariable(0)))))
  {
    var appl := Applications([Ident('a'), Ident('b')]);
    var inner := Abstraction('b', [appl]);
    var innerTerm := Lambda(0, Application(FreeVariable("a"), BoundVariable(0)));
    ChainedApplicationBuild([]);
    assert [appl][1..] == [];
    assert Build([], inner) == (["b"], innerTerm);
    assert [inner][1..] == [];
    assert BuildAll([], [inner]).1 == [innerTerm];
    assert BuildAll([], [inner]).0 == ["b"];
    assert ["b"] + [['a']] == ["b", "a"];
    assert Bind(["b", "a"], innerTerm, 1) == Lambda(0, Application(BoundVariable(1), BoundVariable(0)));
  }

  /** Parsing `fn a => fn b => a b`. */
  lemma Chained()
    ensures Parse(Chain, []) == Some((["b", "a"], Lambda(1, Lambda(0, Application(BoundVariable(1), BoundVariable(0))))))
  {
    ChainedSyntax();
    ChainedTokens();
    ChainedBuild();
  }

  /** The body `a b` of the chained term prints its two occurrences with their binders' names. */
  lemma ChainedBodyShow()
    ensures IdsBelow(Application(BoundVariable(1), BoundVariable(0)), 2)
    ensures Show(["b", "a"], Application(BoundVariable(1), BoundVariable(0))) == "BV(a) BV(b)"
  {
    var names := ["b", "a"];
    var a, b := Show(names, BoundVariable(1)), Show(names, BoundVariable(0));
    assert a == "BV(a)" && b == "BV(b)";
    assert Show(names, Application(BoundVariable(1), BoundVariable(0))) == a + " " + b;
  }

  /** The chained term prints with each binder's name at its lambda and at its occurrences. */
  lemma ChainedShow()
    ensures IdsBelow(Lambda(1, Lambda(0, Application(BoundVariable(1), BoundVariable(0)))), 2)
    ensures Show(["b", "a"], Lambda(1, Lambda(0, Application(BoundVariable(1), BoundVariable(0)))))
      == "(λa.(λb.BV(a) BV(b)))"
  {
    var names := ["b", "a"];
    ChainedBodyShow();
    var inner := Show(names, Lambda(0, Application(BoundVariable(1), BoundVariable(0))));
    assert inner == "(λ" + "b" + "." + "BV(a) BV(b)" + ")";
    assert inner == "(λb.BV(a) BV(b))";
    assert Show(names, Lambda(1, Lambda(0, Application(BoundVariable(1), BoundVariable(0)))))
      == "(λ" + "a" + "." + inner + ")";
  }

  const Shadow: string := "fn a => fn a => a"

  lemma ShadowChars()
    ensures |Shadow| == 17
    ensures Shadow[0] == 'f' && Shadow[1] == 'n' && Shadow[2] == ' ' && Shadow[3] == 'a' && Shadow[4] == ' '
    ensures Shadow[5] == '=' && Shadow[6] == '>' && Shadow[7] == ' ' && Shadow[8] == 'f' && Shadow[9] == 'n'
    ensures Shadow[10] == ' ' && Shadow[11] == 'a' && Shadow[12] == ' ' && Shadow[13] == '=' && Shadow[14] == '>'
    ensures Shadow[15] == ' ' && Shadow[16] == 'a'
  {
  }

  /** The tokens of the shadowing input. */
  lemma ShadowTokens()
    ensures Literal(Shadow, 0, "fn") == Some(2) && ParseId(Shadow, 2) == Some(Match(Ident('a'), 4))
    ensures Literal(Shadow, 4, "=>") == Some(7) && Literal(Shadow, 7, "fn") == Some(10)
    ensures ParseId(Shadow, 10) == Some(Match(Ident('a'), 12)) && Literal(Shadow, 12, "=>") == Some(15)
    ensures Literal(Shadow, 15, "fn") == None
    ensures ParseVar(Shadow, 15) == Some(Match(Ident('a'), 17))
    ensures ParseVar(Shadow, 17) == None && Skip(Shadow, 17) == 17
  {
    var s := Shadow;
    ShadowChars();
    assert Skip(s, 0) == 0 && Skip(s, 2) == 3 && Skip(s, 4) == 5 && Skip(s, 7) == 8;
    assert Skip(s, 10) == 11 && Skip(s, 12) == 13 && Skip(s, 15) == 16 && Skip(s, 17) == 17;
  }

  /** The innermost body `a` is a one-atom application run. */
  lemma ShadowInnerSyntax()
    ensures ParseTerm(Shadow, 7) == Some(Match(Abstraction('a', [Applications([Ident('a')])]), 17))
  {
    var s := Shadow;
    var appl := Applications([Ident('a')]);
    ShadowTokens();
    NoVarNoTerm(s, 17);
    assert ParseAbst(s, 15) == None;
    assert ParseVars(s, 17, [Ident('a')]) == ([Ident('a')], 17);
    assert ParseTerm(s, 15) == Some(Match(appl, 17));
    assert ParseTerms(s, 17, [appl]) == ([appl], 17);
  }

  /** `fn a => fn a => a` is two abstractions over the same letter. */
  lemma ShadowSyntax()
    ensures ParseTerm(Shadow, 0) == Some(Match(
      Abstraction('a', [Abstraction('a', [Applications([Ident('a')])])]), 17))
  {
    var s := Shadow;
    var inner := Abstraction('a', [Applications([Ident('a')])]);
    ShadowInnerSyntax();
    ShadowTokens();
    NoVarNoTerm(s, 17);
    assert ParseTerms(s, 17, [inner]) == ([inner], 17);
    assert ParseAbst(s, 0) == Some(Match(Abstraction('a', [inner]), 17));
  }

  /**
   * The lambda actions on the shadowing input: the inner lambda binds `a`
   * first, then the outer lambda, matching by name, takes the occurrence over.
   */
  lemma ShadowBuild()
    ensures Build([], Abstraction('a', [Abstraction('a', [Applications([Ident('a')])])]))
      == (["a", "a"], Lambda(1, Lambda(0, BoundVariable(1))))
  {
    var appl := Applications([Ident('a')]);
    var inner := Abstraction('a', [appl]);
    assert [Ident('a')][1..] == [];
    assert Build([], Ident('a')) == ([], FreeVariable("a"));
    assert BuildAll([], [Ident('a')][1..]) == ([], []);
    assert BuildAll([], [Ident('a')]).1 == [FreeVariable("a")];
    assert Build([], appl) == ([], FreeVariable("a"));
    assert [appl][1..] == [];
    assert BuildAll([], [appl]).1 == [FreeVariable("a")];
    assert Build([], inner) == (["a"], Lambda(0, BoundVariable(0)));
    assert [inner][1..] == [];
    assert BuildAll([], [inner]).1 == [Lambda(0, BoundVariable(0))];
    assert BuildAll([], [inner]).0 == ["a"];
    assert ["a"] + [['a']] == ["a", "a"];
    assert Bind(["a", "a"], Lambda(0, BoundVariable(0)), 1) == Lambda(0, BoundVariable(1));
  }

  /**
   * Parsing `fn a => fn a => a`: the occurrence refers to the OUTER lambda,
   * and the inner lambda binds nothing.
   */
  lemma Shadowed()
    ensures Parse(Shadow, []) == Some((["a", "a"], Lambda(1, Lambda(0, BoundVariable(1)))))
  {
    ShadowSyntax();
    ShadowTokens();
    ShadowBuild();
  }
}
