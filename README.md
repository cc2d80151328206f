# Symbolic decomposition routines, modelled and verified

This project models the decomposition routines of Drake's symbolic
expression library (`common/symbolic/decompose.cc`). They turn symbolic
expressions into numeric or bilinear canonical forms.

- **Variable indexer** (`VariableIndexer`). It lists the variables of one or
  more expressions without duplicates, in order of first occurrence, and
  maps each variable id to its position in the list.
- **Linear and affine extractors with a given variable vector**
  (`LinearForms`). Row i of `M` holds the numeric coefficient of each
  variable in expression i, or 0 where the monomial is absent. The affine
  variant also puts the constant term in `v(i)`. The linear variant rejects
  a constant term.
- **Affine extractor against a variable-to-position map**
  (`AffineDecomposition`). `DecomposeAffineExpression` writes one row and
  the constant term, and counts the nonzero coefficients. The overload that
  finds the variables first runs the indexer, then fills `A` and `b` so that
  the expressions equal `A vars + b`.
- **Quadratic extractor** (`QuadraticForms`, `QuadraticEntries`). A
  polynomial of degree at most two becomes `0.5 x'Qx + b'x + c`, with `Q`
  symmetric.
- **Lumped-parameter factorizer** (`LumpedParameters`, `LumpedVisitor`,
  `LumpedBatch`). An expression becomes `W(n) alpha(theta) + w0(n)`. The
  parameters theta appear only in `alpha`. The other variables appear only
  in `W` and `w0`. The batch form merges the rows of a vector of expressions
  into one matrix `W`, keyed by the `alpha` entry.

Expressions are a datatype (`Symbolic.Expr`) with variables, real
constants, sums `c0 + sum c_i e_i`, products `c * prod base_i ^ exponent_i`,
powers, and one opaque node kind for the twenty-one non-polynomial operators.
Their meaning is `Eval` under an assignment of the variables and an
interpretation of `pow` and of the opaque operators. Every identity proved
about the factorizer holds for every such interpretation.

The coefficient extractors read an expression through its polynomial view
(`Polynomials.View`): either "not a polynomial", or the
monomial-to-coefficient map, listed in iteration order. A monomial is its
list of (variable id, power) pairs by ascending id. The value of a view is
the sum of coefficient times monomial.

Each routine follows the same pattern:

- A function recursing on prefixes defines what the routine's loop computes
  after each pass, including the first error it raises (`Results.Error`).
- A method with the source's loops over arrays or sequences is proved to
  produce exactly that.
- Lemmas say what the function means: when it fails and with which error,
  what each output entry holds, and that the output reproduces the value of
  the input at every point.

## Model

| member | source | states |
|---|---|---|
| Symbolic.GetVariables | common/symbolic/decompose.cc:192 | the variables an expression references, each once, by ascending id, as a range-for over `Variables` visits them |
| Symbolic.SortedVariables | common/symbolic/decompose.cc:218-222 | a set of variables listed by ascending id: exactly its elements, strictly increasing |
| Symbolic.TimesEval | common/symbolic/decompose.cc:464 | the expression product the factorizer builds evaluates to the product of the values |
| Symbolic.PlusEval | common/symbolic/decompose.cc:468 | the expression sum the factorizer builds evaluates to the sum of the values |
| Symbolic.TimesVars | common/symbolic/decompose.cc:505 | a product references no variable beyond those of its factors |
| Symbolic.PlusVars | common/symbolic/decompose.cc:468 | a sum references no variable beyond those of its operands |
| VariableIndexer.ExtractAndAppendVariablesFromExpression | common/symbolic/decompose.cc:186-199 | fails with SizeMismatch exactly when the map's size differs from the vector's length; otherwise the result is the loop over e's variables; when the map describes the vector, the new vector is the old one followed by e's unseen variables and the new map describes it |
| VariableIndexer.ExtractVariablesFromExpression | common/symbolic/decompose.cc:215-227 | the vector is e's variables in iteration order and the map sends each variable to its position |
| VariableIndexer.ExtractVariablesFromExpressions | common/symbolic/decompose.cc:229-245 | the vector lists the variables of all the expressions once each, in order of first occurrence, and the map describes it |
| VariableIndexer.AppendNew | common/symbolic/decompose.cc:234-241 | the inner loop over one expression's variables gives the append-if-new fold |
| VariableIndexer.AppendedNext | common/symbolic/decompose.cc:236-239 | loop-step plumbing for the loop proof: one pass appends a variable exactly when it is not yet listed |
| VariableIndexer.AppendedPrefix | common/symbolic/decompose.cc:192-198 | appending keeps the existing vector as a prefix |
| VariableIndexer.AppendedElements | common/symbolic/decompose.cc:192-198 | after appending, a variable is listed exactly when it was listed before or occurs in the expression |
| VariableIndexer.AppendedDistinct | common/symbolic/decompose.cc:193-197 | appending to a list without duplicates gives a list without duplicates |
| VariableIndexer.AppendedOrder | common/symbolic/decompose.cc:192-198 | every appended variable is new and occurs in the input, and appended variables keep the order of their first occurrence |
| VariableIndexer.AppendedConcat | common/symbolic/decompose.cc:234-241 | appending the variables of two expressions one after the other equals appending their concatenation |
| VariableIndexer.AppendedOfDistinct | common/symbolic/decompose.cc:222-225 | a list without duplicates is appended to the empty list unchanged |
| VariableIndexer.IndexedPush | common/symbolic/decompose.cc:194-196 | pushing a new variable with position `size()` keeps the map describing the vector |
| VariableIndexer.ExtendIndexed | common/symbolic/decompose.cc:192-198 | the loop lists exactly the append-if-new fold and keeps the map describing the vector |
| VariableIndexer.ExtendAllIndexed | common/symbolic/decompose.cc:234-241 | the loop over all the expressions lists the fold of their variables in order of first occurrence and keeps the map describing the vector |
| VariableIndexer.OccurrencesCover | common/symbolic/decompose.cc:234-241 | every variable of every expression is among the variables the loop visits |
| VariableIndexer.ExtendAllCovers | common/symbolic/decompose.cc:234-241 | the map built over all the expressions has a position for every variable of each of them |
| VariableIndexer.ElementsOf | common/symbolic/decompose.cc:218 | the set built from a list has exactly the list's elements |
| VariableIndexer.DistinctSize | common/symbolic/decompose.cc:219 | a list without duplicates has as many entries as its set has elements |
| VariableIndexer.IndexedSize | common/symbolic/decompose.cc:191 | a map that describes a vector has the vector's length as its size |
| VariableIndexer.ExtractionsAgree | common/symbolic/decompose.cc:215-245 | the one-expression and the many-expression extractions give the same vector on one expression |
| LinearForms.FindCoefficientMeaning | common/symbolic/decompose.cc:98-115 | an absent monomial gives 0; a present one gives its numeric coefficient, or NonConstantCoefficient when the coefficient is not a number |
| LinearForms.CoefficientsMeaning | common/symbolic/decompose.cc:150-152 | the row succeeds exactly when every variable's coefficient is numeric or absent; entry j is variable j's coefficient; the only error is NonConstantCoefficient |
| LinearForms.CoefficientsStuck | common/symbolic/decompose.cc:108-110 | once a coefficient throws, the rest of the row changes nothing |
| LinearForms.LinearRowErrors | common/symbolic/decompose.cc:126-148 | a non-polynomial gives NonPolynomial; a monomial of degree above one gives NonLinear; otherwise a constant monomial gives ConstantInLinear; the row succeeds exactly when there is no constant monomial, every degree is at most one and every variable's coefficient is numeric |
| LinearForms.LowDegreeShape | common/symbolic/decompose.cc:133-138 | in a polynomial of total degree at most one over the variables, every monomial is the constant or one of the variables |
| LinearForms.NumericRow | common/symbolic/decompose.cc:150-152 | a successful row holds the numeric coefficient of each variable, and every such coefficient is a number |
| LinearForms.LastConstant | common/symbolic/decompose.cc:182 | a final constant monomial leaves the coefficients alone and adds its coefficient to the constant and to the value |
| LinearForms.LastSingle | common/symbolic/decompose.cc:178-180 | a final monomial x_j sets entry j, which held 0, to its coefficient, and adds coefficient times x_j to the value |
| LinearForms.AffineValue | common/symbolic/decompose.cc:176-182 | a numeric polynomial of degree at most one over the variables equals its coefficient row times the point plus its constant |
| LinearForms.LinearRowValue | common/symbolic/decompose.cc:120-154 | on success the expression's value equals row i dotted with the variables' values |
| LinearForms.AffineRowValue | common/symbolic/decompose.cc:156-184 | on success the expression's value equals row i dotted with the variables' values plus v(i) |
| LinearForms.LinearRowsNext | common/symbolic/decompose.cc:126-153 | loop-step plumbing for the loop proof: one pass of the outer loop adds row i or stops with its error |
| LinearForms.LinearRowsStuck | common/symbolic/decompose.cc:126-153 | after an error the remaining rows change nothing |
| LinearForms.AffineRowsNext | common/symbolic/decompose.cc:163-183 | loop-step plumbing for the loop proof: one pass of the outer loop adds row i and v(i) or stops with its error |
| LinearForms.AffineRowsStuck | common/symbolic/decompose.cc:163-183 | after an error the remaining rows change nothing |
| LinearForms.LinearRowsMeaning | common/symbolic/decompose.cc:126-153 | all rows succeed exactly when each does, and row i is expression i's row |
| LinearForms.AffineRowsMeaning | common/symbolic/decompose.cc:163-183 | all rows succeed exactly when each does, and row i is expression i's row and constant |
| LinearForms.FillRow | common/symbolic/decompose.cc:150-152 | fills row i of M with the coefficients or reports the coefficient error; the other rows are untouched |
| LinearForms.DecomposeLinearExpressions | common/symbolic/decompose.cc:120-154 | fails exactly when some row fails, with the first row's error; on success M(i, j) is the coefficient of variable j in expression i |
| LinearForms.DecomposeAffineExpressions | common/symbolic/decompose.cc:156-184 | fails exactly when some row fails, with the first row's error; on success M(i, j) is the coefficient of variable j and v(i) the constant term of expression i |
| AffineDecomposition.RowTermsOk | common/symbolic/decompose.cc:336-358 | the row succeeds exactly when every monomial has degree at most one and every degree-one monomial's variable is in the map; the errors are NonLinear and UnknownVariable |
| AffineDecomposition.AffineExpressionOk | common/symbolic/decompose.cc:329-358 | a non-polynomial gives NonPolynomial; a polynomial succeeds exactly under the condition of RowTermsOk |
| AffineDecomposition.RowTermsStuck | common/symbolic/decompose.cc:340-343 | once the loop throws, the remaining monomials change nothing |
| AffineDecomposition.RowTermsUnwritten | common/symbolic/decompose.cc:327 | a position no monomial writes keeps the 0 of `setZero` |
| AffineDecomposition.RowTermsEntries | common/symbolic/decompose.cc:344-357 | a degree-one monomial x_v is in the map and coeffs(index[v]) is its coefficient; the constant monomial's coefficient is the constant term |
| AffineDecomposition.RowTermsNoConstant | common/symbolic/decompose.cc:328 | without a constant monomial the constant term stays 0 |
| AffineDecomposition.FreshTarget | common/symbolic/decompose.cc:344-350 | with an injective map, no earlier monomial writes the position a degree-one monomial writes |
| AffineDecomposition.FreshConstant | common/symbolic/decompose.cc:354-357 | the constant monomial occurs at most once |
| AffineDecomposition.StepSingle | common/symbolic/decompose.cc:344-353 | a degree-one monomial adds its term to the value through its coefficient, leaves the constant alone and keeps the count equal to the number of nonzero coefficients |
| AffineDecomposition.StepConstant | common/symbolic/decompose.cc:354-357 | the constant monomial adds its coefficient to the value through the constant term and leaves coefficients and count alone |
| AffineDecomposition.RowTermsValue | common/symbolic/decompose.cc:336-359 | the monomials seen so far equal coeffs times the point plus the constant term, and the count is the number of nonzero coefficients |
| AffineDecomposition.AffineExpressionValue | common/symbolic/decompose.cc:322-360 | on success the expression's value is coeffs times the point plus the constant term, and the returned count is the number of nonzero coefficients |
| AffineDecomposition.DecomposeAffineExpression | common/symbolic/decompose.cc:322-360 | succeeds exactly when the row does, with the same error; on success `coeffs` holds the row, and the method returns the constant term and the nonzero count |
| AffineDecomposition.AffineRowsMeaning | common/symbolic/decompose.cc:315-319 | all rows succeed exactly when each does, and row i is expression i's row |
| AffineDecomposition.AffineRowsStuck | common/symbolic/decompose.cc:315-319 | after an error the remaining rows change nothing |
| AffineDecomposition.SystemValue | common/symbolic/decompose.cc:303-320 | on success every expression equals row i of A times the found variables' values plus b(i) |
| AffineDecomposition.RowTermsKnown | common/symbolic/decompose.cc:336-358 | a row whose variables all have positions can fail only with NonLinear |
| AffineDecomposition.AffineRowsKnown | common/symbolic/decompose.cc:315-319 | rows whose variables all have positions fail only with NonLinear or NonPolynomial |
| AffineDecomposition.SystemKnown | common/symbolic/decompose.cc:306-319 | with the map built from the expressions' own variables, no row fails with UnknownVariable |
| AffineDecomposition.DecomposeAffineExpressions | common/symbolic/decompose.cc:303-320 | `vars` is the variables of the expressions in order of first occurrence; A has one row per expression and one column per variable; the call fails exactly when some row fails, and never with UnknownVariable when each view mentions only its expression's variables; on success A(i, j) and b(i) are expression i's coefficients and constant term |
| AffineDecomposition.FillSystem | common/symbolic/decompose.cc:315-319 | the loop over rows fails with the first row's error, and on success fills every row of A and entry of b |
| AffineDecomposition.SystemRow | common/symbolic/decompose.cc:316-318 | one pass decomposes row i into `Ai` and `b(i)` and copies it into A, leaving the other rows alone |
| AffineDecomposition.CopyRow | common/symbolic/decompose.cc:318 | `A.row(i) = Ai` sets row i and nothing else |
| QuadraticForms.AccumulateOk | common/symbolic/decompose.cc:263-288 | one monomial is accepted exactly when its degree is at most two and its variables are in the map; the errors are DegreeAboveTwo and UnknownVariable |
| QuadraticForms.QuadTermsOk | common/symbolic/decompose.cc:258-300 | the loop succeeds exactly when every monomial has degree at most two and all its variables are in the map; the errors are DegreeAboveTwo and UnknownVariable |
| QuadraticForms.QuadTermsStuck | common/symbolic/decompose.cc:263-270 | once the loop throws, the remaining monomials change nothing |
| QuadraticForms.DiagonalSymmetric | common/symbolic/decompose.cc:291 | adding to a diagonal entry keeps Q square and symmetric |
| QuadraticForms.AccumulateSymmetric | common/symbolic/decompose.cc:271-299 | every accepted monomial keeps Q square and symmetric, for any positions: a cross term is mirrored, a square term is on the diagonal |
| QuadraticForms.QuadTermsSymmetric | common/symbolic/decompose.cc:255-300 | whenever the loop succeeds Q is square and symmetric, with no condition on the polynomial or the map |
| QuadraticForms.SetForm | common/symbolic/decompose.cc:280 | writing entry (a, b) changes x'Qx by x_a times the change times x_b |
| QuadraticForms.CrossSymmetric | common/symbolic/decompose.cc:280-281 | adding to (a, b) and copying it to (b, a) keeps Q symmetric |
| QuadraticForms.CrossForm | common/symbolic/decompose.cc:280-281 | a cross term keeps Q square and symmetric and adds 2 coef x_a x_b to x'Qx |
| QuadraticForms.DiagonalForm | common/symbolic/decompose.cc:291 | adding 2 coef to (a, a) keeps Q symmetric and adds 2 coef x_a^2 to x'Qx |
| QuadraticForms.AddDot | common/symbolic/decompose.cc:294 | adding d to b(a) adds d x_a to b'x |
| QuadraticForms.CrossValue | common/symbolic/decompose.cc:272-279 | a monomial x_u x_v is worth the product of the two matching entries of x |
| QuadraticForms.SquareValue | common/symbolic/decompose.cc:286-289 | a monomial x_v^2 is worth the square of its entry of x |
| QuadraticForms.ConstantStep | common/symbolic/decompose.cc:298 | `c += coef` adds the constant monomial's term to 0.5 x'Qx + b'x + c |
| QuadraticForms.LinearStep | common/symbolic/decompose.cc:294 | `b(i) += coef` adds the linear monomial's term |
| QuadraticForms.DiagonalStep | common/symbolic/decompose.cc:289-291 | `Q(i, i) += 2 coef` keeps Q symmetric and adds the square monomial's term |
| QuadraticForms.CrossStep | common/symbolic/decompose.cc:272-281 | the cross-term update keeps Q symmetric and adds the cross monomial's term |
| QuadraticForms.HalfStep | common/symbolic/decompose.cc:280-291 | a change of 2P in x'Qx is a change of P in 0.5 x'Qx + b'x + c |
| QuadraticForms.AccumulateValue | common/symbolic/decompose.cc:271-299 | one pass keeps Q square and symmetric and adds exactly coef times the monomial's value |
| QuadraticForms.QuadStep | common/symbolic/decompose.cc:258-299 | one pass of the loop adds to 0.5 x'Qx + b'x + c what the monomial adds to the polynomial |
| QuadraticForms.QuadTermsValue | common/symbolic/decompose.cc:255-300 | invariant of the loop: Q square and symmetric, and the monomials so far equal 0.5 x'Qx + b'x + c |
| QuadraticForms.QuadraticValue | common/symbolic/decompose.cc:247-301 | on success the polynomial equals 0.5 x'Qx + b'x + c at every point, with Q square and symmetric |
| QuadraticForms.AddEntry | common/symbolic/decompose.cc:280 | `Q(a, b) += d` on the array |
| QuadraticForms.MirrorEntry | common/symbolic/decompose.cc:281 | `Q(b, a) = Q(a, b)` on the array |
| QuadraticForms.Clear | common/symbolic/decompose.cc:255-256 | `setZero` leaves the zero matrix and the zero vector |
| QuadraticForms.AccumulateInto | common/symbolic/decompose.cc:259-299 | one pass over the arrays succeeds or fails as `Accumulate` does, with its error, and leaves the state it gives |
| QuadraticForms.DecomposeQuadraticPolynomial | common/symbolic/decompose.cc:247-301 | fails exactly when the loop does, with the same error; on success Q, b and c are what the loop gives |
| QuadraticEntries.IncreaseAt | common/symbolic/decompose.cc:280 | `Q(a, b) += d` changes entry (a, b) only |
| QuadraticEntries.MirrorAt | common/symbolic/decompose.cc:281 | `Q(b, a) = Q(a, b)` changes entry (b, a) only |
| QuadraticEntries.AccumulateSquare | common/symbolic/decompose.cc:271-299 | one pass keeps Q square |
| QuadraticEntries.AccumulateOther | common/symbolic/decompose.cc:271-299 | one pass changes no entry of Q or b that its monomial does not write |
| QuadraticEntries.AccumulateConstant | common/symbolic/decompose.cc:296-298 | c grows by coef exactly for the constant monomial |
| QuadraticEntries.AccumulateWrites | common/symbolic/decompose.cc:272-298 | entries holding 0 receive the monomial's coefficient: coef at (i_u, i_v) and (i_v, i_u), 2 coef at (i_v, i_v), coef in b(i_v) or c |
| QuadraticEntries.Powers | common/symbolic/decompose.cc:276-287 | a monomial of degree at most two is the constant, x_v, x_v^2, or x_u x_v with u < v |
| QuadraticEntries.DistinctWrites | common/symbolic/decompose.cc:271-295 | two different monomials never write the same entry of Q or b |
| QuadraticEntries.QuadTermsSquare | common/symbolic/decompose.cc:252-255 | Q stays square |
| QuadraticEntries.QuadTermsUnwritten | common/symbolic/decompose.cc:255 | an entry of Q no monomial writes keeps the 0 of `setZero` |
| QuadraticEntries.QuadTermsUnwrittenLinear | common/symbolic/decompose.cc:256 | an entry of b no monomial writes keeps its 0 |
| QuadraticEntries.QuadTermsNoConstant | common/symbolic/decompose.cc:257 | without a constant monomial c stays 0 |
| QuadraticEntries.UnsetQ | common/symbolic/decompose.cc:272-291 | before a cross or square monomial's pass, its entry of Q holds 0 |
| QuadraticEntries.UnsetB | common/symbolic/decompose.cc:292-294 | before a linear monomial's pass, its entry of b holds 0 |
| QuadraticEntries.UnsetBefore | common/symbolic/decompose.cc:258-299 | before each monomial's pass, every entry it writes holds 0 |
| QuadraticEntries.EntriesFresh | common/symbolic/decompose.cc:272-298 | right after its pass, a monomial's coefficient is where it writes |
| QuadraticEntries.EntriesKept | common/symbolic/decompose.cc:258-300 | later passes keep an earlier monomial's coefficient |
| QuadraticEntries.QuadTermsEntries | common/symbolic/decompose.cc:258-300 | at the end, a cross term x_u x_v sets Q(i_u, i_v) = Q(i_v, i_u) to its coefficient, a square x_v^2 sets Q(i_v, i_v) to twice it, a linear x_v sets b(i_v), and the constant sets c |
| LumpedParameters.VisitVariable | common/symbolic/decompose.cc:429-441 | a parameter gives one pair and a non-parameter none; the result is separated |
| LumpedParameters.VisitConstant | common/symbolic/decompose.cc:443-446 | a constant gives no pair and itself as w0 |
| LumpedParameters.VisitPow | common/symbolic/decompose.cc:537-562 | succeeds exactly when all or none of the power's variables are parameters; a mixed power with a constant exponent gives UnimplementedFactorablePower, one with another exponent UnfactorableMixedTerm |
| LumpedParameters.VisitNonPolynomialTerm | common/symbolic/decompose.cc:564-579 | succeeds exactly when all or none of the node's variables are parameters; otherwise UnfactorableMixedTerm |
| LumpedParameters.EmplaceAllNext | common/symbolic/decompose.cc:466-469 | loop-step plumbing for the loop proof: the inner loop's pass j emplaces key j |
| LumpedParameters.EmplaceTermKeys | common/symbolic/decompose.cc:467-468 | emplacing adds the key when it is new and keeps the keys without duplicates |
| LumpedParameters.EmplaceAllKeys | common/symbolic/decompose.cc:466-469 | the keys after the inner loop are the old ones and c_i w_i, without duplicates |
| LumpedParameters.AddTermKeys | common/symbolic/decompose.cc:463-469 | one summand adds its scaled keys, without duplicates |
| LumpedParameters.AdditionPrefixDistinct | common/symbolic/decompose.cc:453 | the map `w_map` has no duplicate key |
| LumpedParameters.EmplaceTermCoefficient | common/symbolic/decompose.cc:467-468 | `w_map.emplace(key, 0)` then `+= a` adds a to the alpha of key, starting from 0 for a new key, and changes the alpha of no other key |
| LumpedParameters.EmplaceAllCoefficient | common/symbolic/decompose.cc:466-469 | after the inner loop, the alpha of every key is its old alpha plus, in order, alpha_i[j] for every j whose scaled entry c_i w_i[j] is that key |
| LumpedParameters.AdditionPrefixCoefficient | common/symbolic/decompose.cc:453-469 | `w_map` starts empty, and summand i adds to the alpha of each key the alphas of its own pairs whose scaled W entry is that key: matching terms are merged by summing their alphas |
| LumpedParameters.SimpleMultiplicationLength | common/symbolic/decompose.cc:494-498 | the product has len(w_a) len(w_b) pairs, plus len(w_b) when w0_a is nonzero, plus len(w_a) when w0_b is nonzero, and w0 = w0_a w0_b |
| LumpedParameters.SimpleMultiplicationCrossTerm | common/symbolic/decompose.cc:499-502 | pair i len(w_b) + j is (w_a[i] w_b[j], alpha_a[i] alpha_b[j]) |
| LumpedParameters.SimpleMultiplicationLeftBlock | common/symbolic/decompose.cc:503-507 | the block after the cross terms is (w0_a w_b[j], alpha_b[j]) |
| LumpedParameters.SimpleMultiplicationRightBlock | common/symbolic/decompose.cc:508-511 | the last len(w_a) pairs are (w0_b w_a[i], alpha_a[i]) |
| LumpedParameters.VisitOfAddition | common/symbolic/decompose.cc:448-479 | loop-step plumbing for the loop proof: visiting a sum is the loop over its summands |
| LumpedParameters.VisitOfMultiplication | common/symbolic/decompose.cc:516-535 | loop-step plumbing for the loop proof: visiting a product is the loop over its factors |
| LumpedParameters.AdditionPrefixNext | common/symbolic/decompose.cc:459-470 | loop-step plumbing for the loop proof: one summand's pass stops with its error or adds its factorization |
| LumpedParameters.MultiplicationPrefixNext | common/symbolic/decompose.cc:522-532 | loop-step plumbing for the loop proof: one factor's pass stops with its error or multiplies by its factorization |
| LumpedParameters.AdditionPrefixStuck | common/symbolic/decompose.cc:463 | after a summand throws the rest changes nothing |
| LumpedParameters.MultiplicationPrefixStuck | common/symbolic/decompose.cc:526-529 | after a factor throws the rest changes nothing |
| LumpedParameters.EmplaceAllSeparated | common/symbolic/decompose.cc:466-469 | merging parameter-free keys and parameter-only alphas keeps the partition |
| LumpedParameters.AddTermSeparated | common/symbolic/decompose.cc:463-469 | adding a separated summand keeps the partition |
| LumpedParameters.SimpleMultiplicationSeparated | common/symbolic/decompose.cc:482-514 | the product of separated factorizations is separated |
| LumpedParameters.VisitSeparated | common/symbolic/decompose.cc:424-427 | every successful visit is separated: W and w0 free of parameters, alpha parameters only |
| LumpedParameters.AdditionPrefixSeparated | common/symbolic/decompose.cc:448-479 | the loop over summands stays separated |
| LumpedParameters.VisitFactorSeparated | common/symbolic/decompose.cc:526-529 | each factor's visit is separated |
| LumpedParameters.MultiplicationPrefixSeparated | common/symbolic/decompose.cc:516-535 | the loop over factors stays separated |
| LumpedParameters.LumpedValue | common/symbolic/decompose.cc:433-435 | ([1], [e], 0) is worth e |
| LumpedParameters.FreeValue | common/symbolic/decompose.cc:437-439 | ([], [], e) is worth e |
| LumpedParameters.TermPlus | common/symbolic/decompose.cc:468 | `it->second += alpha_i[j]` adds its term to the pair's product |
| LumpedParameters.EmplaceTermValue | common/symbolic/decompose.cc:467-468 | emplacing a pair adds its product to W alpha |
| LumpedParameters.EmplaceAllValue | common/symbolic/decompose.cc:466-469 | the inner loop adds the summand's W alpha to the merged one |
| LumpedParameters.AddTermValue | common/symbolic/decompose.cc:455-469 | adding summand c_i e_i adds c_i times its value |
| LumpedParameters.AddTermEval | common/symbolic/decompose.cc:455-469 | adding summand c_i e_i adds c_i times its value at every point |
| LumpedParameters.BlockValue | common/symbolic/decompose.cc:503-511 | a block scaled by a nonzero w0 is worth w0 times the other factor's W alpha, and an omitted block is worth zero |
| LumpedParameters.SimpleMultiplicationDot | common/symbolic/decompose.cc:499-511 | the product's W alpha is the cross block plus both scaled blocks |
| LumpedParameters.SimpleMultiplicationValue | common/symbolic/decompose.cc:492-493 | the product's value is the product of the two values |
| LumpedParameters.VisitPowValue | common/symbolic/decompose.cc:541-545 | a successful power visit is worth the power |
| LumpedParameters.VisitNonPolynomialTermValue | common/symbolic/decompose.cc:568-572 | a successful opaque-node visit is worth the node |
| LumpedParameters.AdditionPrefixValue | common/symbolic/decompose.cc:455-456 | after n summands the factorization is worth c0 plus the first n terms |
| LumpedParameters.VisitFactorValue | common/symbolic/decompose.cc:526-529 | a factor's visit is worth base^exponent, either through the base's visit or through VisitPow |
| LumpedParameters.MultiplicationPrefixValue | common/symbolic/decompose.cc:518-534 | after n factors the factorization is worth c times the first n factors |
| LumpedParameters.VisitValue | common/symbolic/decompose.cc:424-427 | every successful visit is worth the visited expression at every point |
| LumpedParameters.VisitFactors | common/symbolic/decompose.cc:417-421 | a successful factorization is separated and equals W alpha + w0 for every assignment and interpretation |
| LumpedVisitor.Visit | common/symbolic/decompose.cc:424-427 | the dispatch gives exactly the factorization and the error that `LumpedParameters.Visit` defines |
| LumpedVisitor.VisitAddition | common/symbolic/decompose.cc:448-479 | the loop over summands gives exactly the factorization or error that `LumpedParameters.Visit` defines |
| LumpedVisitor.Merge | common/symbolic/decompose.cc:466-469 | the inner loop emplaces every scaled key with its alpha |
| LumpedVisitor.VisitMultiplication | common/symbolic/decompose.cc:516-535 | the loop over factors gives exactly the factorization or error that `LumpedParameters.Visit` defines |
| LumpedBatch.EmplaceColumnShaped | common/symbolic/decompose.cc:692-694 | every column has one entry per row |
| LumpedBatch.EmplaceRowShaped | common/symbolic/decompose.cc:691-695 | the inner loop keeps every column one entry per row |
| LumpedBatch.BatchShaped | common/symbolic/decompose.cc:686-697 | W has one column per alpha entry and one entry per row of f |
| LumpedBatch.EmplaceColumnKeys | common/symbolic/decompose.cc:692 | emplacing adds alpha[j] when it is new, without duplicates |
| LumpedBatch.EmplaceRowKeys | common/symbolic/decompose.cc:691-695 | the keys after a row are the old ones and the row's alpha, without duplicates |
| LumpedBatch.BatchKeys | common/symbolic/decompose.cc:684 | `alpha_map` has no duplicate key and holds exactly the alphas of the rows so far |
| LumpedBatch.EmplaceColumnSeparated | common/symbolic/decompose.cc:692-694 | a column stays parameter-free and a key parameter-only |
| LumpedBatch.EmplaceRowSeparated | common/symbolic/decompose.cc:691-695 | a row keeps W parameter-free and alpha parameter-only |
| LumpedBatch.AddRowSeparated | common/symbolic/decompose.cc:688-695 | adding a separated row keeps W, alpha and w0 separated |
| LumpedBatch.BatchSeparated | common/symbolic/decompose.cc:687-696 | W and w0 are parameter-free and alpha parameter-only |
| LumpedBatch.EmplaceColumnSame | common/symbolic/decompose.cc:694 | `(it->second)[i] += w[j]` adds w[j] alpha[j] to row i's product |
| LumpedBatch.EmplaceColumnOther | common/symbolic/decompose.cc:692-694 | other rows keep their entries, and a new column holds 0 |
| LumpedBatch.EmplaceRowSame | common/symbolic/decompose.cc:691-695 | row i's product gains the row's whole W alpha |
| LumpedBatch.EmplaceRowOther | common/symbolic/decompose.cc:691-695 | other rows keep their entries, and new columns hold 0 |
| LumpedBatch.EmplaceRowKeep | common/symbolic/decompose.cc:691-695 | other rows keep their product |
| LumpedBatch.EmplaceRowPrefix | common/symbolic/decompose.cc:692 | existing keys keep their positions |
| LumpedBatch.BatchZero | common/symbolic/decompose.cc:692 | rows not yet visited hold 0 in every column |
| LumpedBatch.BatchRowLast | common/symbolic/decompose.cc:688-695 | the row just merged reproduces f[i] |
| LumpedBatch.AddRowSame | common/symbolic/decompose.cc:688-695 | storing a factorization in a row that holds 0 makes that row's W alpha the factorization's |
| LumpedBatch.BatchRow | common/symbolic/decompose.cc:687-696 | every merged row keeps reproducing its f[k] as later rows are merged |
| LumpedBatch.EmplaceColumnEntry | common/symbolic/decompose.cc:692-694 | `(it->second)[i] += w[j]` adds w[j] to entry i of the column of alpha[j], from 0 for a new key, and leaves every other entry |
| LumpedBatch.EmplaceRowEntry | common/symbolic/decompose.cc:691-695 | after row i's inner loop, entry i under each key is its old entry plus, in order, every w[j] whose alpha[j] is that key; the other rows keep their entries |
| LumpedBatch.AddRowEntry | common/symbolic/decompose.cc:688-695 | storing a row that held 0 puts under each key the sum of the row's W entries whose alpha is that key, and leaves the other rows |
| LumpedBatch.BatchZeroEntry | common/symbolic/decompose.cc:692 | rows not yet visited hold 0 under every key |
| LumpedBatch.BatchEntry | common/symbolic/decompose.cc:687-696 | entry k under each key is the sum of the W entries of f[k]'s own factorization whose alpha is that key |
| LumpedBatch.BatchResidual | common/symbolic/decompose.cc:690 | w0[k] is the w0 of f[k]'s own factorization |
| LumpedBatch.BatchPrefixLast | common/symbolic/decompose.cc:687-696 | loop-step plumbing for the loop proof: a built table is the one before it with row n - 1 stored |
| LumpedBatch.DecompositionEntries | common/symbolic/decompose.cc:687-702 | every row decomposes; W(k, j) is the sum, from 0, of the W entries of f[k]'s own factorization whose alpha equals alpha[j]; w0(k) is that factorization's w0 |
| LumpedBatch.BatchPrefixNext | common/symbolic/decompose.cc:687-696 | loop-step plumbing for the loop proof: one pass stops with the row's error or merges the row |
| LumpedBatch.BatchPrefixStuck | common/symbolic/decompose.cc:688-689 | after a row throws the rest changes nothing |
| LumpedBatch.DecompositionCorrect | common/symbolic/decompose.cc:676-705 | W has one column per alpha entry and one entry per row of f; alpha has no duplicate; W and w0 are parameter-free and alpha parameter-only; row k of W times alpha plus w0(k) equals f(k) for every assignment and interpretation |
| LumpedBatch.MergeRow | common/symbolic/decompose.cc:691-695 | the inner loop over a row's pairs emplaces each |
| LumpedBatch.DecomposeLumpedParameters | common/symbolic/decompose.cc:676-705 | the loops give exactly `Decomposition`: the merged W, alpha and w0, or the first row's error |
| Factorizations.DotAppend | common/symbolic/decompose.cc:494-511 | W alpha over a concatenation is the sum of the parts |
| Factorizations.DotUpdate | common/symbolic/decompose.cc:468 | replacing one pair changes W alpha by the change of its product |
| Factorizations.CrossLength | common/symbolic/decompose.cc:494 | the outer product of two lists has len(a) len(b) entries |
| Factorizations.CrossAt | common/symbolic/decompose.cc:500-501 | entry i len(b) + j of the outer product is a[i] b[j] |
| Factorizations.DotCross | common/symbolic/decompose.cc:499-502 | the cross block's W alpha is the product of the two W alphas |
| Factorizations.DotScaled | common/symbolic/decompose.cc:505 | scaling every W entry by x scales W alpha by x |
| Factorizations.CrossFree | common/symbolic/decompose.cc:500 | the outer product of parameter-free lists is parameter-free |
| Factorizations.CrossParams | common/symbolic/decompose.cc:501 | the outer product of parameter-only lists is parameter-only |
| Factorizations.IndexOf | common/symbolic/decompose.cc:467 | the position of a key, or -1 exactly when it is absent |
| Polynomials.LookupAt | common/symbolic/decompose.cc:100 | `map.find` finds a listed monomial with its coefficient |
| Polynomials.LookupAbsent | common/symbolic/decompose.cc:100 | `map.find` does not find an unlisted monomial |
| Polynomials.LookupFound | common/symbolic/decompose.cc:100 | what `map.find` finds is listed |
| Polynomials.TotalDegreeBound | common/symbolic/decompose.cc:133 | the total degree is at most d exactly when every monomial's degree is |
| Polynomials.DegreeZero | common/symbolic/decompose.cc:354-356 | a degree-zero monomial is the constant monomial |
| Polynomials.DegreeOne | common/symbolic/decompose.cc:346-347 | a degree-one monomial is a single variable to the first power |
| Polynomials.DegreeTwo | common/symbolic/decompose.cc:271-287 | a degree-two monomial is a square or a product of two distinct variables |
| Vectors.DotUpdate | common/symbolic/decompose.cc:350 | replacing entry a changes the dot product by the change of its term |
| Vectors.FormUpdate | common/symbolic/decompose.cc:280-281 | replacing row a changes x'Qx by x_a times the change of that row's dot product |
| Vectors.NonzerosUpdate | common/symbolic/decompose.cc:350-353 | writing c over a 0 adds one nonzero exactly when c is nonzero |
| Vectors.NonzerosOfZeros | common/symbolic/decompose.cc:327 | the zero vector has no nonzero entry |
| Vectors.FormOfZeros | common/symbolic/decompose.cc:255 | the zero matrix gives x'Qx = 0 |
| Vectors.DotOfZeros | common/symbolic/decompose.cc:313 | a zero vector dots to 0 |

## Left out

- `DecomposeL2NormExpression` (lines 362-407) is not part of this model. It needs a positive-semidefinite square root, a linear solve and floating-point tolerances, which are outside this integer-and-real model.
- `IsAffine` (lines 23-83) is not part of this model. It only asks the expression library whether each entry is a polynomial of degree at most one, and it computes no decomposition.
- The acrobot example file is not part of this model. It is a caller, not a decomposition routine.
- Building the polynomial view is not modelled. `is_polynomial` and the `Polynomial` constructor belong to the expression library, so the view is an input. The free-variable `DecomposeAffineExpressions` takes the views beside the expressions. That its `UnknownVariable` error cannot happen is proved under `AffineDecomposition.ViewsOf`, which states that each view mentions only its own expression's variables, as the library's polynomial construction guarantees.
- `Expression::Expand` (line 420) is not modelled. The factorizer is applied to the expression as given, which stands for an already-expanded expression.
- Simplification by the expression library is not modelled in full. `operator*` and `operator+` become `Symbolic.Times` and `Symbolic.Plus`, which fold only 0, 1 and constants. Printing and `pow` simplification are out.
- Iteration order of `std::map<Expression, …>` and `std::unordered_map` is not modelled. Keys are kept in insertion order. Only which keys exist, the pairing of W with alpha, and the values are proved, not the order of the output.
- Doubles are modelled as mathematical reals. Rounding is not modelled.
- Exceptions, `DRAKE_THROW_UNLESS` and error message text are not modelled as such: each error kind is a `Results.Error` value. The single "non-linear" message of lines 134-147 for degree and constant-term errors is split into NonLinear and ConstantInLinear.
- LinearForms.LinearRowErrors checks only whether a constant monomial is present, following line 140. It does not check whether the constant is nonzero, since the library's maps hold no zero coefficients.
- Partial writes to the output arrays before an exception are not stated. Methods leave them unspecified on the error path.
- `DRAKE_DEMAND` and `DRAKE_ASSERT` checks become preconditions:
  - array shapes (lines 125, 161-162, 252-254, 326);
  - numeric coefficients (lines 259, 338);
  - nonzero coefficients (line 260);
  - the power shapes (lines 276, 279, 287, 347). These are implied by `Polynomials.WellFormed`, which the quadratic method requires.
- AffineDecomposition.DecomposeAffineExpression requires that map positions be below the row length (`Bounded`). Eigen does not check this in a release build.
- QuadraticForms.DecomposeQuadraticPolynomial likewise requires positions below the row length (`Bounded`).
- The `VectorX<Variable>` overload of `ExtractAndAppendVariablesFromExpression` (lines 201-213) is not modelled separately. It behaves like the `std::vector` overload (lines 186-199), except that its size check aborts instead of throwing. Both are `VariableIndexer.ExtractAndAppendVariablesFromExpression`, with the error `SizeMismatch`.
- W is not kept as a row-major matrix. `LumpedBatch` holds W by columns: entry (i, j) is `cols[j][i]`, as `alpha_map` holds it before line 702. `w0` is appended row by row instead of being pre-sized.
