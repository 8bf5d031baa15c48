# funcyou: lambda terms, their parser, and matrix indexers

This project models two parts of the funcyou repository and proves properties of them.

**`lambdac.py`** is an untyped lambda calculus front end. It covers:
- the term classes (`FreeVariable`, `BoundVariable`, `Lambda`, `Application`);
- binding by name when a lambda is constructed;
- the free-variable query and α-conversion;
- the textual form (`__repr__`);
- the pyparsing grammar and its parse actions.

**`funcyou/indexers.py`** gives a matrix a column view, a wrapped-diagonal view and a wrapped anti-diagonal view.

How the model is laid out:
- **Shared binders as an arena.** In the source, a lambda's bound variable is one object shared by the lambda and by every occurrence it binds. Renaming that object renames all of them at once. The model keeps these shared objects in an arena: a sequence of binder names indexed by binder id. `BoundVariable(id)` and `Lambda(arg, body)` refer to a slot of it.
- **State changes.** The class `Binding.Arena` holds the arena. Its methods are `bind_to`, `Lambda.__init__`, `rename` and `alpha_conversion`, each stated against the pure functions they update the arena by.
- **Binding by name.** `Terms.Bind` models `Variable.bind`, `Lambda.bind` and `Application.bind`. The source reassigns `body`, `e1` and `e2` in place and returns `self`; the model returns the rebuilt term. The parser never shares a compound node, so nothing else observes the in-place update.
- **Shadowing, kept as written.** Binding compares names only. In `fn a => fn a => a`, the outer lambda takes over the occurrence the inner lambda had already bound.
  - `Terms.ShadowedOccurrenceRegrabbed` and `LambdaExamples.Shadowed` state this.
  - `Terms.Resolved` states exactly what binding achieves: every occurrence refers to the outermost enclosing lambda of its name. `Grammar.ParseBindsOutermost` proves it for every parsed term.
- **The grammar.** It is a parser over characters with ordered choice and greedy repetition, as pyparsing matches it.
  - An identifier is exactly one letter, with no look-ahead. So `ab` is two identifiers and `fn` not followed by an identifier reads as the atoms `f n`.
  - Whitespace and `#` comments are skipped before every token.
  - `Grammar.Build` runs the parse actions `to_variable`, `to_application` and `to_lambda` on the syntax tree. `Grammar.Parse` requires the whole input to be one term, as `runTests` does; a parse error is `None`.
- **The indexers.** Python's `%` with a positive divisor agrees with Dafny's, so the diagonal index arithmetic is written directly. A Python `IndexError` is `None`.

## Model

| member | source | states |
|---|---|---|
| Terms.BindVariable | lambdac.py:79-88 | the result is the binder's variable exactly when the names agree, otherwise the variable itself; the name never changes |
| Terms.Bind | lambdac.py:141-150 | after binding (through `Lambda.bind` and `Application.bind`, 199-202) no free variable has the binder's name, and every other name is free exactly when it was free before |
| Terms.BindLeaves | lambdac.py:199-202 | binding replaces the variable occurrences one by one, left to right, by `Variable.bind`; the tree with its variables erased, lambdas and their binders included, is unchanged |
| Terms.ShadowedOccurrenceRegrabbed | lambdac.py:85-88 | an occurrence already bound by an inner lambda is taken over by an outer lambda of the same name |
| Terms.HasFreeVarNamed | lambdac.py:102-103 | with 125-126, 182-183 and 204-205: true exactly when a free variable of that name occurs in the term; bound occurrences never count |
| Terms.BindResolvesOutermost | lambdac.py:141-150 | binding a resolved term under a new outermost lambda keeps every occurrence attached to the outermost enclosing lambda of its name |
| Terms.ShowWithoutLambdas | lambdac.py:207-208 | `__repr__` (`Show`, with 105-106, 128-129 and 185-186): applications add no parentheses, so a term without lambdas prints as its variable occurrences in order, each as `FV(n)` or `BV(n)` with its binder's current name, separated by single spaces |
| Terms.ShowRenameFrame | lambdac.py:122-123 | renaming a binder the term does not mention leaves its printed form unchanged |
| Terms.ShowFlattensApplications | lambdac.py:207-208 | applications print without parentheses, so `(x y) z` and `x (y z)` print alike |
| Binding.Abstract | lambdac.py:137-139 | constructing a lambda allocates a new binder slot named after the argument; the argument's name is no longer free, and every other free name is kept |
| Binding.Arena.BindTo | lambdac.py:99-100 | a new bound variable in a new slot carrying the free variable's name; earlier slots are unchanged |
| Binding.Arena.NewLambda | lambdac.py:137-139 | the new arena and the lambda are those `Abstract` describes |
| Binding.Arena.Rename | lambdac.py:122-123 | exactly the variable's slot is renamed, so the binder and every occurrence sharing it change together |
| Binding.Arena.AlphaConversion | lambdac.py:176-180 | if the new name is free in the lambda, it is refused with the exception carrying the name and the printed body, and nothing changes; otherwise it passes and only the binder's slot is renamed |
| Binding.AlphaConversionDoctest | lambdac.py:156-174 | `(λx.BV(x) FV(y))` converts to `(λz.BV(z) FV(y))`, and converting it to `y` is refused with the message `FV(y) present in BV(z) FV(y), cant ɑ-convert` |
| Binding.RefusalMessage | lambdac.py:177-178 | the refusal's message is `FV(<name>) present in <printed body>, cant ɑ-convert`, shown on the doctest's refusal |
| Binding.RenameKeepsResolution | lambdac.py:176-180 | a renaming the guard accepts keeps every occurrence attached to its lambda, provided no other binder in scope already has the new name |
| Binding.GuardAllowsCapture | lambdac.py:176-180 | the guard only looks at free names: in `fn x => fn y => y` it accepts renaming `x` to `y`, after which binding by name would attach the inner occurrence to the outer lambda |
| Grammar.RestOfLine | lambdac.py:234 | the comment text stops at the first line break, or at the end of the input |
| Grammar.Skip | lambdac.py:249 | skipping ends at the end of the input or at a character that is neither whitespace nor the start of a comment |
| Grammar.SkippedTextIsBlank | lambdac.py:249 | every skipped character is whitespace or lies in a `#` comment with no line break between the `#` and it |
| Grammar.CommentIsSkipped | lambdac.py:234 | a `#` comment with its line break is skipped like whitespace |
| Grammar.LeadingBlanksIgnored | lambdac.py:228-232 | whitespace and comments before a token never change a match: identifiers, literals, atoms and terms match the same from `pos` as from the first non-blank position after it |
| Grammar.AdjacentLettersAreTwoIdentifiers | lambdac.py:228 | two adjacent letters are two identifiers, and as an application run they apply one to the other |
| Grammar.ParseTerm | lambdac.py:247 | a matched term consumes at least one character and yields a well-formed tree |
| Grammar.ParseAbst | lambdac.py:240 | a matched abstraction consumes input and yields an abstraction node |
| Grammar.ParseTerms | lambdac.py:240 | the greedy `term+` tail keeps the terms already matched and adds only well-formed trees |
| Grammar.ParseAppl | lambdac.py:244-245 | a matched application run consumes input and yields a run of atoms |
| Grammar.ParseVars | lambdac.py:244 | the greedy atom tail keeps the atoms already matched and adds only well-formed trees |
| Grammar.ParseVar | lambdac.py:242 | an atom is the identifier at that position, or, when there is none, a `(`, a term whose tree it keeps, and a closing `)`; it consumes input |
| Grammar.TermIsMaximal | lambdac.py:240-247 | a term extends as far as any term can: no further term starts where it ends |
| Grammar.AbstractionBodyIsSingle | lambdac.py:218-219 | `term+` in an abstraction always matches exactly one term, so taking the first body term drops nothing |
| Grammar.Reduce | lambdac.py:223 | the fold's occurrences are those of the accumulator followed by those of the remaining terms, in order |
| Grammar.FoldApplications | lambdac.py:221-223 | `to_application` keeps every atom's occurrences in the order of the atoms; `FoldIsLeftNested` gives its nesting |
| Grammar.FoldIsLeftNested | lambdac.py:221-223 | a run of one atom is that atom; a longer run applies the fold of all but its last atom to the last one |
| Grammar.Build | lambdac.py:218-226 | the actions only append binder slots and yield a term whose occurrences refer to allocated slots |
| Grammar.BuildBindsOutermost | lambdac.py:137-150 | every term the actions build has no dangling occurrence, and each occurrence refers to the outermost enclosing lambda of its name |
| Grammar.Parse | lambdac.py:247-251 | a successful parse extends the arena and yields a term whose occurrences refer to allocated slots |
| Grammar.ParseBindsOutermost | lambdac.py:141-150 | every parsed term is resolved: no dangling occurrence, and each occurrence refers to the outermost lambda of its name |
| LambdaExamples.Chained | lambdac.py:143-147 | `fn a => fn b => a b` parses to `Lambda(a, Lambda(b, BV(a) BV(b)))`, with the inner binder allocated first |
| LambdaExamples.ChainedShow | lambdac.py:185-186 | that term prints as `(λa.(λb.BV(a) BV(b)))` |
| LambdaExamples.Shadowed | lambdac.py:141-150 | `fn a => fn a => a` parses to a term whose only occurrence refers to the outer lambda |
| Indexers.Column | funcyou/indexers.py:15-17 | the column exists exactly when every row accepts the index; it has one entry per row, in row order, taken from the end for a negative index |
| Indexers.ColumnNegativeIndex | funcyou/indexers.py:17 | on rows of equal width, index `-k` gives the same column as `width - k` |
| Indexers.Diag | funcyou/indexers.py:32-35 | row `i` contributes its entry `(i + idx) mod len(mtx)`; the diagonal exists exactly when every row is long enough for its entry, and has `len(mtx)` entries |
| Indexers.Adiag | funcyou/indexers.py:50-53 | row `i` contributes its entry `(idx - i) mod len(mtx)`, a non-negative remainder; it exists exactly when every row is long enough, and has `len(mtx)` entries |
| Indexers.DiagonalsArePeriodic | funcyou/indexers.py:34-35 | `diag` and `adiag` give the same result for `idx` and `idx + len(mtx)` (lines 52-53 for `adiag`) |
| Indexers.EveryEntryOnOneDiagonal | funcyou/indexers.py:35 | in a square matrix, entry `(i, j)` is element `i` of diagonal `j - i` and of anti-diagonal `i + j` (line 53) |
| Indexers.Doctests | funcyou/indexers.py:7-48 | columns `0` and `-1`, diagonals `0` and `1`, and anti-diagonals `0` and `2` of the 3×3 sample are those the doctests list |

## Left out

- Substitution, β-reduction and evaluation: `lambdac.py` does not implement them. It stops at binding, α-conversion and parsing, so no evaluator is modelled.
- `Application.alpha_conversion` (lambdac.py:194-197): it calls the two-argument `alpha_conversion` on its children, and only `Application` itself has that method. `Variable` has no `alpha_conversion` and `Lambda`'s takes one argument (lambdac.py:152), so the call always fails at the first child that is not an application.
- `Term.__repr__` (lambdac.py:56-58): every concrete class overrides it.
- In-place reassignment of `Lambda.body`, `Application.e1` and `Application.e2`: modelled as returning the rebuilt term. This is observable only if a compound node were shared, and the parser never shares one.
- Python's dynamic typing: a lambda's argument is required to be a free variable, which is what the parser and the doctests pass.
- pyparsing internals: the packrat machinery, `term.validate()`, the `BNF.cache`, results names and error messages with their locations. A parse error is only `None`.
- The `__main__` block that runs `runTests` (lambdac.py:260-281) is I/O.
- The generator laziness of the indexers: a Python `IndexError` surfaces only when the generator is consumed. The model consumes it at once and returns `None`.
- Indexing the indexers with a non-integer or a slice is not modelled.
- The rest of the repository is not part of this model: `funcyou/__init__.py`, `funcyou/fy.py`, `ski.py`, `lampy.py`, `pml.py` and `pyml/`.
