/**
 * Lambda construction and alpha conversion from lambdac.py.  The arena of
 * binder names is the one piece of state the source updates in place: a new
 * lambda allocates a slot for its bound variable, and renaming that shared
 * variable overwrites the slot.
 */
module Binding {
  import opened Wrappers
  import opened Terms

  /** The refusal of an alpha conversion: the name found free and the printed body. */
  datatype AlphaConversionException = AlphaConversionException(to: Name, body: string)
  {
    function Message(): string {
      "FV(" + to + ") present in " + body + ", cant ɑ-convert"
    }
  }

  /**
   * `Lambda(arg, body)` on values: a new binder slot named after the free
   * variable `arg`, then `body` bound to it.  The new lambda has no free
   * variable of that name and the same free variables as `body` otherwise.
   */
  function Abstract(names: seq<Name>, argName: Name, body: Term): (r: (seq<Name>, Term))
    requires IdsBelow(body, |names|)
    ensures r.0 == names + [argName]
    ensures r.1.Lambda? && r.1.arg == |names| && IdsBelow(r.1, |r.0|)
    ensures !HasFreeVarNamed(r.1, argName)
    ensures forall n :: n != argName ==> (HasFreeVarNamed(r.1, n) <==> HasFreeVarNamed(body, n))
  {
    var names' := names + [argName];
    IdsBelowGrow(body, |names|, |names'|);
    (names', Lambda(|names|, Bind(names', body, |names|)))
  }

  /** The shared bound-variable objects of one program run. */
  class Arena {
    var names: seq<Name>

    constructor ()
      ensures names == []
    {
      names := [];
    }

    /** `FreeVariable.bind_to`: a new bound variable, in a new slot, with the free variable's name. */
    method BindTo(arg: Term) returns (v: Term)
      requires arg.FreeVariable?
      modifies this
      ensures names == old(names) + [arg.name]
      ensures v == BoundVariable(|old(names)|)
    {
      v := BoundVariable(|names|);
      names := names + [arg.name];
    }

    /** `Lambda.__init__`: bind the argument to the new lambda, then bind the body to it. */
    method NewLambda(arg: Term, body: Term) returns (t: Term)
      requires arg.FreeVariable? && IdsBelow(body, |names|)
      modifies this
      ensures (names, t) == Abstract(old(names), arg.name, body)
    {
      var v := BindTo(arg);
      IdsBelowGrow(body, |names| - 1, |names|);
      t := Lambda(v.id, Bind(names, body, v.id));
    }

    /** `BoundVariable.rename`: every occurrence shares the slot, so all of them are renamed. */
    method Rename(v: Term, to: Name)
      requires v.BoundVariable? && v.id < |names|
      modifies this
      ensures names == old(names)[v.id := to]
    {
      names := names[v.id := to];
    }

    /**
     * `Lambda.alpha_conversion`: refused, with nothing changed, when `to` is
     * free in the body; otherwise the binder's slot is renamed to `to`.
     */
    method AlphaConversion(t: Term, to: Name) returns (outcome: Outcome<AlphaConversionException>)
      requires t.Lambda? && IdsBelow(t, |names|)
      modifies this
      ensures HasFreeVarNamed(t, to) ==> names == old(names) && outcome == Fail(AlphaConversionException(to, Show(old(names), t.body)))
      ensures !HasFreeVarNamed(t, to) ==> names == old(names)[t.arg := to] && outcome == Pass
    {
      if HasFreeVarNamed(t, to) {
        return Fail(AlphaConversionException(to, Show(names, t.body)));
      }
      Rename(BoundVariable(t.arg), to);
      outcome := Pass;
    }
  }

  /** The `alpha_conversion` doctest: convert `(λx.x y)` to `z`, then try `y`. */
  method AlphaConversionDoctest() returns (before: string, after: string, refused: Outcome<AlphaConversionException>)
    ensures before == "(λx.BV(x) FV(y))"
    ensures after == "(λz.BV(z) FV(y))"
    ensures refused == Fail(AlphaConversionException("y", "BV(z) FV(y)"))
    ensures refused.error.Message() == "FV(y) present in BV(z) FV(y), cant ɑ-convert"
  {
    var arena := new Arena();
    var x := FreeVariable("x");
    var y := FreeVariable("y");
    var l1 := arena.NewLambda(x, Application(x, y));
    assert arena.names == ["x"];
    assert BindVariable(["x"], y, 0) == y;
    assert Bind(["x"], Application(x, y), 0) == Application(BoundVariable(0), y);
    assert l1 == Lambda(0, Application(BoundVariable(0), y));
    PrintsBefore();
    PrintsAfter();
    before := Show(arena.names, l1);
    var converted := arena.AlphaConversion(l1, "z");
    assert arena.names == ["z"];
    after := Show(arena.names, l1);
    assert HasFreeVarNamed(l1, "y");
    refused := arena.AlphaConversion(l1, "y");
    RefusalMessage();
  }

  /** How the doctest's lambda prints before the conversion. */
  lemma PrintsBefore()
    ensures Show(["x"], Lambda(0, Application(BoundVariable(0), FreeVariable("y")))) == "(λx.BV(x) FV(y))"
  {
    assert IdsBelow(Application(BoundVariable(0), FreeVariable("y")), 1);
    assert Show(["x"], Application(BoundVariable(0), FreeVariable("y"))) == "BV(x)" + " " + "FV(y)";
  }

  /** How the doctest's lambda and its body print after the conversion to `z`. */
  lemma PrintsAfter()
    ensures Show(["z"], Application(BoundVariable(0), FreeVariable("y"))) == "BV(z) FV(y)"
    ensures Show(["z"], Lambda(0, Application(BoundVariable(0), FreeVariable("y")))) == "(λz.BV(z) FV(y))"
  {
    assert IdsBelow(Application(BoundVariable(0), FreeVariable("y")), 1);
    assert Show(["z"], Application(BoundVariable(0), FreeVariable("y"))) == "BV(z)" + " " + "FV(y)";
  }

  /** The text the doctest shows for the refused conversion. */
  lemma RefusalMessage()
    ensures AlphaConversionException("y", "BV(z) FV(y)").Message() == "FV(y) present in BV(z) FV(y), cant ɑ-convert"
  {
    assert AlphaConversionException("y", "BV(z) FV(y)").Message()
      == "FV(" + "y" + ") present in " + "BV(z) FV(y)" + ", cant ɑ-convert";
  }

  lemma {:induction false} FirstNamedRenameOther(names: seq<Name>, env: seq<nat>, m: Name, i: nat, b: nat, to: Name)
    requires AllBelow(env, |names|) && b < |names|
    requires FirstNamed(names, env, m) == Some(i) && i != b && m != to
    ensures FirstNamed(names[b := to], env, m) == Some(i)
  {
    if names[env[0]] != m {
      FirstNamedRenameOther(names, env[1..], m, i, b, to);
    }
  }

  lemma {:induction false} FirstNamedRenameSelf(names: seq<Name>, env: seq<nat>, b: nat, to: Name)
    requires AllBelow(env, |names|) && b < |names| && b in env
    requires forall k :: 0 <= k < |env| ==> env[k] == b || names[env[k]] != to
    ensures FirstNamed(names[b := to], env, to) == Some(b)
  {
    if env[0] != b {
      FirstNamedRenameSelf(names, env[1..], b, to);
    }
  }

  /**
   * Renaming binder `b` to `to` keeps every occurrence attached to the binder
   * it resolved to, provided `to` is not free in the term (the check
   * `alpha_conversion` makes) and no other binder in scope is named `to`
   * (a check it does not make; see GuardAllowsCapture).
   */
  lemma {:induction false} RenameKeepsResolution(names: seq<Name>, t: Term, env: seq<nat>, b: nat, to: Name)
    requires IdsBelow(t, |names|) && AllBelow(env, |names|) && b < |names|
    requires Resolved(names, t, env)
    requires !HasFreeVarNamed(t, to)
    requires forall k :: 0 <= k < |env| ==> env[k] == b || names[env[k]] != to
    requires forall k :: 0 <= k < |Binders(t)| ==> Binders(t)[k] == b || names[Binders(t)[k]] != to
    ensures Resolved(names[b := to], t, env)
  {
    var names' := names[b := to];
    match t
    case FreeVariable(n) =>
    case BoundVariable(i) =>
      if i == b {
        FirstNamedRenameSelf(names, env, b, to);
      } else {
        FirstNamedRenameOther(names, env, names[i], i, b, to);
      }
    case Lambda(c, body) =>
      assert Binders(t)[0] == c;
      assert forall k :: 0 <= k < |Binders(body)| ==> Binders(body)[k] == Binders(t)[k + 1];
      RenameKeepsResolution(names, body, env + [c], b, to);
    case Application(e1, e2) =>
      assert forall k :: 0 <= k < |Binders(e1)| ==> Binders(e1)[k] == Binders(t)[k];
      assert forall k :: 0 <= k < |Binders(e2)| ==> Binders(e2)[k] == Binders(t)[k + |Binders(e1)|];
      RenameKeepsResolution(names, e1, env, b, to);
      RenameKeepsResolution(names, e2, env, b, to);
  }

  /**
   * The guard of `alpha_conversion` only looks at free variables: in
   * `fn x => fn y => y`, renaming the outer `x` to `y` is allowed, and the
   * inner occurrence then carries the name of the outer binder too, so binding
   * by name would resolve it to the outer lambda.
   */
  lemma GuardAllowsCapture()
    ensures var names := ["y", "x"];
            var t := Lambda(1, Lambda(0, BoundVariable(0)));
            && IdsBelow(t, |names|)
            && Resolved(names, t, [])
            && !HasFreeVarNamed(t, "y")
            && !Resolved(names[1 := "y"], t, [])
  {
    var names := ["y", "x"];
    assert [] + [1] == [1] && [1] + [0] == [1, 0];
    assert FirstNamed(names, [1, 0], "y") == Some(0);
    var renamed := names[1 := "y"];
    assert FirstNamed(renamed, [1, 0], "y") == Some(1);
    assert !Resolved(renamed, BoundVariable(0), [1, 0]);
    assert !Resolved(renamed, Lambda(0, BoundVariable(0)), [1]);
  }
}
