/**
 * The term model of lambdac.py: free variables, bound variables, lambdas and
 * applications, binding by name, the free-variable query and the printer.
 *
 * In the source every occurrence bound by a lambda is one shared
 * `BoundVariable` object, so renaming that object renames the binder and all
 * its occurrences at once.  Here the shared objects live in an arena: a
 * sequence `names` of binder names indexed by binder id.  A bound occurrence
 * and the lambda that owns it carry the same id, and its name is read from the
 * arena.
 */
module Terms {
  import opened Wrappers

  type Name = string

  datatype Term =
    | FreeVariable(name: Name)
    | BoundVariable(id: nat)
    | Lambda(arg: nat, body: Term)
    | Application(e1: Term, e2: Term)
  {
    predicate IsVariable() {
      FreeVariable? || BoundVariable?
    }
  }

  /** Every binder id the term mentions is allocated in an arena of `n` names. */
  predicate IdsBelow(t: Term, n: nat) {
    match t
    case FreeVariable(_) => true
    case BoundVariable(i) => i < n
    case Lambda(b, body) => b < n && IdsBelow(body, n)
    case Application(e1, e2) => IdsBelow(e1, n) && IdsBelow(e2, n)
  }

  lemma IdsBelowGrow(t: Term, n: nat, m: nat)
    requires IdsBelow(t, n) && n <= m
    ensures IdsBelow(t, m)
  {
  }

  predicate AllBelow(env: seq<nat>, n: nat) {
    forall k :: 0 <= k < |env| ==> env[k] < n
  }

  /** The current name of a variable: its own for a free one, its binder's for a bound one. */
  function NameOf(names: seq<Name>, v: Term): Name
    requires v.IsVariable() && IdsBelow(v, |names|)
  {
    if v.FreeVariable? then v.name else names[v.id]
  }

  /** The variable occurrences of a term, left to right (a reference view of the tree). */
  function Vars(t: Term): (vs: seq<Term>)
    ensures |vs| > 0
    ensures forall k :: 0 <= k < |vs| ==> vs[k].IsVariable()
  {
    match t
    case FreeVariable(_) => [t]
    case BoundVariable(_) => [t]
    case Lambda(_, body) => Vars(body)
    case Application(e1, e2) => Vars(e1) + Vars(e2)
  }

  /** The binder ids of the lambdas of a term, in preorder. */
  function Binders(t: Term): (bs: seq<nat>)
    ensures forall n: nat :: IdsBelow(t, n) ==> AllBelow(bs, n)
  {
    match t
    case FreeVariable(_) => []
    case BoundVariable(_) => []
    case Lambda(b, body) => [b] + Binders(body)
    case Application(e1, e2) => Binders(e1) + Binders(e2)
  }

  /** The tree with every variable occurrence erased: lambdas, their binders and applications only. */
  function Shape(t: Term): Term {
    match t
    case FreeVariable(_) => FreeVariable("")
    case BoundVariable(_) => FreeVariable("")
    case Lambda(b, body) => Lambda(b, Shape(body))
    case Application(e1, e2) => Application(Shape(e1), Shape(e2))
  }

  lemma {:induction false} VarsBelow(t: Term, n: nat)
    requires IdsBelow(t, n)
    ensures forall k :: 0 <= k < |Vars(t)| ==> IdsBelow(Vars(t)[k], n)
  {
    match t
    case FreeVariable(_) =>
    case BoundVariable(_) =>
    case Lambda(_, body) => VarsBelow(body, n);
    case Application(e1, e2) =>
      VarsBelow(e1, n);
      VarsBelow(e2, n);
      forall k | 0 <= k < |Vars(t)| ensures IdsBelow(Vars(t)[k], n) {
        if k >= |Vars(e1)| {
          assert Vars(t)[k] == Vars(e2)[k - |Vars(e1)|];
        }
      }
  }

  /**
   * `Variable.bind(other)` with `other` the bound variable of binder `b`: the
   * occurrence becomes `other` exactly when the names agree, whether it was
   * free or already bound; its name never changes.
   */
  function BindVariable(names: seq<Name>, v: Term, b: nat): (r: Term)
    requires v.IsVariable() && IdsBelow(v, |names|) && b < |names|
    ensures r == v || r == BoundVariable(b)
    ensures r.IsVariable() && IdsBelow(r, |names|)
    ensures NameOf(names, r) == NameOf(names, v)
    ensures r == BoundVariable(b) <==> NameOf(names, v) == names[b]
  {
    if NameOf(names, v) == names[b] then BoundVariable(b) else v
  }

  /**
   * `bind` on a whole term (`Lambda.bind` and `Application.bind` rebuild their
   * children, variables use `Variable.bind`): every variable named like binder
   * `b` becomes an occurrence of `b`.  Afterwards no free variable has that
   * name, and every other name is free exactly when it was before.
   */
  function Bind(names: seq<Name>, t: Term, b: nat): (r: Term)
    requires IdsBelow(t, |names|) && b < |names|
    ensures IdsBelow(r, |names|)
    ensures !HasFreeVarNamed(r, names[b])
    ensures forall n :: n != names[b] ==> (HasFreeVarNamed(r, n) <==> HasFreeVarNamed(t, n))
  {
    match t
    case FreeVariable(_) => BindVariable(names, t, b)
    case BoundVariable(_) => BindVariable(names, t, b)
    case Lambda(c, body) => Lambda(c, Bind(names, body, b))
    case Application(e1, e2) => Application(Bind(names, e1, b), Bind(names, e2, b))
  }

  /**
   * `has_freevar_named`: a free variable answers by its name, a bound one
   * never, a lambda by its body, an application by either side.  This is
   * exactly "a free variable of that name occurs in the term".
   */
  function HasFreeVarNamed(t: Term, n: Name): (r: bool)
    ensures r <==> FreeVariable(n) in Vars(t)
  {
    match t
    case FreeVariable(m) => m == n
    case BoundVariable(_) => false
    case Lambda(_, body) => HasFreeVarNamed(body, n)
    case Application(e1, e2) => HasFreeVarNamed(e1, n) || HasFreeVarNamed(e2, n)
  }

  /** How a single variable prints: `FV(n)` when free, `BV(n)` with its binder's current name when bound. */
  function VarText(names: seq<Name>, v: Term): string
    requires v.IsVariable() && IdsBelow(v, |names|)
  {
    (if v.FreeVariable? then "FV(" else "BV(") + NameOf(names, v) + ")"
  }

  /** Every element is a variable whose binder, if any, is allocated among `names`. */
  predicate Printable(names: seq<Name>, vs: seq<Term>) {
    forall k :: 0 <= k < |vs| ==> vs[k].IsVariable() && IdsBelow(vs[k], |names|)
  }

  /** Variables printed one after another, separated by single spaces. */
  function Joined(names: seq<Name>, vs: seq<Term>): string
    requires |vs| > 0 && Printable(names, vs)
  {
    if |vs| == 1 then VarText(names, vs[0]) else VarText(names, vs[0]) + " " + Joined(names, vs[1..])
  }

  lemma {:induction false} JoinedAppend(names: seq<Name>, a: seq<Term>, b: seq<Term>)
    requires |a| > 0 && Printable(names, a) && |b| > 0 && Printable(names, b)
    ensures Printable(names, a + b)
    ensures Joined(names, a + b) == Joined(names, a) + " " + Joined(names, b)
    decreases |a|
  {
    var ab := a + b;
    assert Printable(names, ab) by {
      forall k | 0 <= k < |ab| ensures ab[k].IsVariable() && IdsBelow(ab[k], |names|) {
        if k < |a| { assert ab[k] == a[k]; } else { assert ab[k] == b[k - |a|]; }
      }
    }
    assert ab[0] == a[0];
    if |a| > 1 {
      assert ab[1..] == a[1..] + b;
      JoinedAppend(names, a[1..], b);
      var h := VarText(names, a[0]);
      assert Joined(names, ab) == h + " " + Joined(names, a[1..] + b);
      assert Joined(names, a) == h + " " + Joined(names, a[1..]);
    } else {
      assert ab[1..] == b;
    }
  }

  /** `__repr__`: `FV(n)`, `BV(n)`, `(λn.body)` and `e1 e2`. */
  function Show(names: seq<Name>, t: Term): string
    requires IdsBelow(t, |names|)
  {
    match t
    case FreeVariable(n) => "FV(" + n + ")"
    case BoundVariable(i) => "BV(" + names[i] + ")"
    case Lambda(b, body) => "(λ" + names[b] + "." + Show(names, body) + ")"
    case Application(e1, e2) => Show(names, e1) + " " + Show(names, e2)
  }

  /**
   * Applications add no parentheses, so a term without lambdas prints as its
   * variable occurrences in order, separated by single spaces.
   */
  lemma {:induction false} ShowWithoutLambdas(names: seq<Name>, t: Term)
    requires IdsBelow(t, |names|) && Binders(t) == []
    ensures Printable(names, Vars(t))
    ensures Show(names, t) == Joined(names, Vars(t))
  {
    VarsBelow(t, |names|);
    match t
    case FreeVariable(_) =>
    case BoundVariable(_) =>
    case Application(e1, e2) =>
      ShowWithoutLambdas(names, e1);
      ShowWithoutLambdas(names, e2);
      JoinedAppend(names, Vars(e1), Vars(e2));
  }

  /** Bind replaces occurrences one by one and leaves the tree, with every lambda's own binder, alone. */
  lemma {:induction false} BindLeaves(names: seq<Name>, t: Term, b: nat)
    requires IdsBelow(t, |names|) && b < |names|
    ensures forall k :: 0 <= k < |Vars(t)| ==> IdsBelow(Vars(t)[k], |names|)
    ensures |Vars(Bind(names, t, b))| == |Vars(t)|
    ensures forall k :: 0 <= k < |Vars(t)| ==>
      Vars(Bind(names, t, b))[k] == BindVariable(names, Vars(t)[k], b)
    ensures Shape(Bind(names, t, b)) == Shape(t)
    ensures Binders(Bind(names, t, b)) == Binders(t)
  {
    VarsBelow(t, |names|);
    match t
    case FreeVariable(_) =>
    case BoundVariable(_) =>
    case Lambda(_, body) => BindLeaves(names, body, b);
    case Application(e1, e2) =>
      BindLeaves(names, e1, b);
      BindLeaves(names, e2, b);
      var r := Bind(names, t, b);
      forall k | 0 <= k < |Vars(t)|
        ensures Vars(r)[k] == BindVariable(names, Vars(t)[k], b)
      {
        if k < |Vars(e1)| {
          assert Vars(t)[k] == Vars(e1)[k];
        } else {
          assert Vars(t)[k] == Vars(e2)[k - |Vars(e1)|];
        }
      }
  }

  /**
   * Shadowing as written: `Variable.bind` compares names only, so an outer
   * lambda's `bind` takes over an occurrence an inner lambda of the same name
   * had already bound (`fn a => fn a => a`).
   */
  lemma ShadowedOccurrenceRegrabbed(names: seq<Name>, c: nat, b: nat)
    requires c < |names| && b < |names| && names[c] == names[b]
    ensures Bind(names, Lambda(c, BoundVariable(c)), b) == Lambda(c, BoundVariable(b))
  {
  }

  /** The first binder of `env`, outermost first, that carries the name `n`. */
  function FirstNamed(names: seq<Name>, env: seq<nat>, n: Name): (r: Option<nat>)
    requires AllBelow(env, |names|)
    ensures r.Some? ==> r.value in env && names[r.value] == n
    ensures r.None? <==> forall k :: 0 <= k < |env| ==> names[env[k]] != n
  {
    if env == [] then None
    else if names[env[0]] == n then Some(env[0])
    else FirstNamed(names, env[1..], n)
  }

  /**
   * Resolution as `bind` performs it, with `env` the enclosing binders from
   * the outermost in: each occurrence belongs to the OUTERMOST enclosing
   * lambda of its name, and no free variable is named like an enclosing
   * lambda.  In particular no occurrence refers to a lambda outside `env`.
   */
  predicate Resolved(names: seq<Name>, t: Term, env: seq<nat>)
    requires IdsBelow(t, |names|) && AllBelow(env, |names|)
  {
    match t
    case FreeVariable(n) => FirstNamed(names, env, n).None?
    case BoundVariable(i) => FirstNamed(names, env, names[i]) == Some(i)
    case Lambda(b, body) => Resolved(names, body, env + [b])
    case Application(e1, e2) => Resolved(names, e1, env) && Resolved(names, e2, env)
  }

  /** Binding a term under a new outermost lambda `b` keeps it resolved. */
  lemma {:induction false} BindResolvesOutermost(names: seq<Name>, t: Term, env: seq<nat>, b: nat)
    requires IdsBelow(t, |names|) && AllBelow(env, |names|) && b < |names|
    requires Resolved(names, t, env)
    ensures Resolved(names, Bind(names, t, b), [b] + env)
  {
    match t
    case FreeVariable(n) =>
      assert ([b] + env)[1..] == env;
    case BoundVariable(i) =>
      assert ([b] + env)[1..] == env;
    case Lambda(c, body) =>
      BindResolvesOutermost(names, body, env + [c], b);
      assert [b] + (env + [c]) == ([b] + env) + [c];
    case Application(e1, e2) =>
      BindResolvesOutermost(names, e1, env, b);
      BindResolvesOutermost(names, e2, env, b);
  }

  /** The arena only grows: names already allocated keep their values. */
  predicate Extends(names': seq<Name>, names: seq<Name>) {
    |names| <= |names'| && names'[..|names|] == names
  }

  lemma {:induction false} FirstNamedExtends(names: seq<Name>, names': seq<Name>, env: seq<nat>, n: Name)
    requires Extends(names', names) && AllBelow(env, |names|)
    ensures AllBelow(env, |names'|)
    ensures FirstNamed(names', env, n) == FirstNamed(names, env, n)
  {
    if env != [] {
      assert names'[env[0]] == names'[..|names|][env[0]];
      FirstNamedExtends(names, names', env[1..], n);
    }
  }

  lemma {:induction false} ResolvedExtends(names: seq<Name>, names': seq<Name>, t: Term, env: seq<nat>)
    requires Extends(names', names) && IdsBelow(t, |names|) && AllBelow(env, |names|)
    requires Resolved(names, t, env)
    ensures IdsBelow(t, |names'|) && AllBelow(env, |names'|)
    ensures Resolved(names', t, env)
  {
    IdsBelowGrow(t, |names|, |names'|);
    match t
    case FreeVariable(n) =>
      FirstNamedExtends(names, names', env, n);
    case BoundVariable(i) =>
      FirstNamedExtends(names, names', env, names[i]);
      assert names'[i] == names'[..|names|][i];
    case Lambda(c, body) =>
      ResolvedExtends(names, names', body, env + [c]);
    case Application(e1, e2) =>
      ResolvedExtends(names, names', e1, env);
      ResolvedExtends(names, names', e2, env);
  }

  /** Renaming a binder slot that the term does not mention leaves its printed form alone. */
  lemma {:induction false} ShowRenameFrame(names: seq<Name>, t: Term, b: nat, to: Name)
    requires IdsBelow(t, |names|) && b < |names|
    requires b !in Binders(t) && BoundVariable(b) !in Vars(t)
    ensures Show(names[b := to], t) == Show(names, t)
  {
    match t
    case FreeVariable(_) =>
    case BoundVariable(_) =>
    case Lambda(_, body) => ShowRenameFrame(names, body, b, to);
    case Application(e1, e2) =>
      ShowRenameFrame(names, e1, b, to);
      ShowRenameFrame(names, e2, b, to);
  }

  /** Applications print without parentheses, so both nestings of three terms print alike. */
  lemma ShowFlattensApplications(names: seq<Name>, x: Term, y: Term, z: Term)
    requires IdsBelow(x, |names|) && IdsBelow(y, |names|) && IdsBelow(z, |names|)
    ensures Show(names, Application(Application(x, y), z)) == Show(names, Application(x, Application(y, z)))
  {
  }
}
