# A verified model of parts of the DMD front end and of the PGF font decoder

This project models, in Dafny, the parts of the repository that carry the most arithmetic, the most
state and the subtlest ordering, and proves what they are for. They are several pieces of the D compiler's
front end and one decoder. Each file is one module.

* `Words`, `SignExtended`, `IntRanges`, `RangeRules`, `BitTightness`, `ValueRange`, `Tightness`, `Narrowing`:
  value-range propagation.
  The ranges are computed by `getIntRange` with 65-bit saturating numbers; the constant folder is the concrete semantics.
  The range of an expression is proved to hold every value that folding can give,
  for all expressions that a stated guard admits; ranges of casts, sums, differences, quotients and unary operators are
  proved to be the least such, those of remainders and bitwise operators where the operands allow it,
  and narrowing conversions to lose nothing.
* `StructFill`: zero filling of the holes of a struct literal, and the memory a literal leaves behind.
* `Temporaries`: lowering of expressions with temporaries; every temporary is destroyed once, in reverse order,
  whichever operands are evaluated. What a variable or a call's result holds may change with every event, and it is
  proved exactly when the value of an expression survives the destructors that are put behind it.
* `CastChain`: the table of casts between basic types; the rewriting ends and gives what the cast means for integers
  and, without rounding, for floating, imaginary and complex numbers.
* `EhGuards`, `EhTable`: the exception table; guards of temporaries by matching marks, and offsets of catch
  records that are computed before these are laid out.
* `Ddoc`: repair of parentheses in documentation text, escaping, and newlines.
* `BitReader`, `Glyph`: a cursor over bits, the header of a glyph and its run-length coded pixels.
* `ArrayOp`: functions for array operations, cached under names that spell expressions in RPN, and the library's
  functions with such names.
* `Interfaces`: slots for the interfaces of a class, and the lookup of an interface's offset.
* `ConstSeq`: equality, indexing, slicing and concatenation of constant strings and array literals.
* `SymbolTree`, `Access`: members by index, qualified names, and protection over lines of inheritance.

Code that the source runs as loops over mutable state is written as methods, proved against functions or
predicates; code that is expressions and recursion is written as functions. Words of 64 bits are naturals
below 2^64 and wrap-around is written out.

Where the code and its documentation disagree, the model follows the code. Some of what it does is not what it is
meant to do; lemmas give concrete inputs:

* Ranges saturate at 65 bits, so a sum, product or left shift of 64-bit values can escape its range
  (`Narrowing.SaturatedSumLosesValues`, `Narrowing.SaturatedProductLosesValues`, `Narrowing.SaturatedShiftLosesValues`);
  for sums `Narrowing.SumSafeIsExact` and for left shifts `Tightness.ShlSafeIsExact` give the exact condition. A cast to
  `bool` is computed as a cast to a byte (`Narrowing.CastToBoolLosesValues`), and
  `RangeRules.CastSafeIsExact` says exactly when the range of a cast is right.
* The bound of a right shift may be a 64-bit word shifted by 64, which C++ leaves undefined. What that gives is a parameter
  of the model; `Narrowing.UndefinedShiftLosesValues` has an input that fails where the machine leaves the word alone.
  `Narrowing.RightShiftSafeIsExact` says exactly when the range is right on every machine, and
  `Narrowing.DefinedExactly` exactly when it is the same on every machine.
* The value of a scope may be read after its temporaries have been destroyed, since only trees with side effects are
  kept in a temporary (dev/dmd2/src/dmd/e2ir.c:5168-5181, dev/dmd2/src/dmd/backend/el.c:566).
  `Temporaries.DestroyedIsRead` is such an expression; `Temporaries.SurvivesAlways` gives the exact condition for one scope,
  and `Temporaries.GuardedIsFaithful` a guard on whole expressions.
* The name of an array operation does not say what types its scalar operands have. Operands of an arithmetic expression
  of scalars are passed one by one, and the floating types are not converted to one another, so `x + y` has one name for a
  real and an imaginary number and for an imaginary and a real one; the function made for the first is called for the second
  (`ArrayOp.NamesForgetTypes`). For complex elements that swaps the parts of the sum (`ArrayOp.ComplexSumIsSwapped`); for
  imaginary elements the product of the two is right all the same (`ArrayOp.ImaginaryProductIsRight`).
  `ArrayOp.ServesExactly` and `ArrayOp.AmbiguousExactly` say exactly when operand types are lost.
* The names of the library's functions end in the letter of the element type, and those that end in `r` are written for
  `real` (dev/dmd2/src/druntime/src/rt/arrayreal.d:47). The letter of `real` is `e`, and `r` is that of `cdouble`
  (dev/dmd2/src/dmd/mtype.c:219-226), so these are called for arrays of `cdouble`. `ArrayOp.LibraryServes` says that the
  library does the assignments that its names spell if and only if the elements are not `cdouble`.
* The upper bound of `|` is taken for ranges that begin at 0, but not for others: the range of `2 | 2` holds 3
  (`Tightness.OrOfTwosIsTooWide`); `BitTightness.OrIsTightExactly` gives the exact condition for blocks of numbers.
* Two lines of the table of casts use types that do not fit: `ireal` to `ifloat` converts with the operation for an
  `ifloat`, and the complex number made from a `double` is in a node of type `cfloat`
  (dev/dmd2/src/dmd/e2ir.c:4192-4197, 4284-4286). `CastChain.LinesLink` says that no others do, and
  `CastChain.AllLinkExactly` which casts they affect.
* A null array that is to be an element of another null array is lost by folding (`ConstSeq.NullElementIsLost`). `Cat` alone
  would also cut off integers that are wider than the units of a string (`ConstSeq.CatStringArray`), but semantic
  analysis does not let such operands reach it.

## Model

| member | source | states |
|---|---|---|
| Words.GetMask | dev/dmd2/src/dmd/cast.c:2013-2023 | the six shift-and-or steps give the mask of a word |
| Words.MaskIsLeast | dev/dmd2/src/dmd/cast.c:2013-2023 | the mask is all ones, at least the word, and the least such number |
| Words.IntervalAgrees | dev/dmd2/src/dmd/cast.c:2137-2138 | all words of an interval agree with its ends outside the mask of their difference |
| Words.OrUpperBound | dev/dmd2/src/dmd/cast.c:2163 | x or y is at most A or B or the mask of A and B, for x up to A and y up to B |
| SignExtended.Neg | dev/dmd2/src/dmd/intrange.c:59-65 | the exact negative, clamped to 65 bits |
| SignExtended.Plus | dev/dmd2/src/dmd/intrange.c:67-77 | the exact sum, clamped to 65 bits |
| SignExtended.Minus | dev/dmd2/src/dmd/intrange.c:79-86 | the exact difference, clamped; the double negation of the minimum is harmless |
| SignExtended.Times | dev/dmd2/src/dmd/intrange.c:88-121 | the exact product, clamped, although it is computed on words with an overflow test |
| SignExtended.Over | dev/dmd2/src/dmd/intrange.c:123-166 | the quotient truncated towards zero, clamped, for every divisor but zero, the minimum included |
| SignExtended.PowerQuotient | dev/dmd2/src/dmd/intrange.c:144-161 | the six tests with masks find 2^64 divided by a power of two |
| SignExtended.Divide | dev/dmd2/src/dmd/intrange.c:123-166 | the operator with its special cases and that search computes the clamped quotient |
| SignExtended.Inc | dev/dmd2/src/dmd/intrange.c:191-201 | one more, clamped |
| SignExtended.ShiftLeft | dev/dmd2/src/dmd/intrange.c:203-231 | the number times a power of two, or the extreme of its sign when that needs more than 64 digits |
| SignExtended.Log2 | dev/dmd2/src/dmd/intrange.c:216-223 | the unrolled search finds the place of the highest digit of every nonzero word |
| SignExtended.LeftShift | dev/dmd2/src/dmd/intrange.c:203-231 | comparing the amount with the place of the highest digit decides saturation |
| SignExtended.ShiftRight | dev/dmd2/src/dmd/intrange.c:233-246 | the quotient by a power of two, rounded down, for negative numbers and the minimum too; where a word is shifted by 64 the result is what the machine gives |
| IntRanges.IntRange.ContainsZero | dev/dmd2/src/dmd/intrange.c:301-305 | the test on signs decides whether zero lies in the range |
| IntRanges.IntRange.AbsNeg | dev/dmd2/src/dmd/intrange.c:410-422 | the bounds of the negated absolute values of a range |
| IntRanges.FromNumbers4 | dev/dmd2/src/dmd/intrange.c:285-294 | the least range that holds four numbers |
| IntRanges.CastUnsignedWords | dev/dmd2/src/dmd/intrange.c:307-330 | comparing chunks of words decides whether the whole range wraps alike; else the result is the full range |
| IntRanges.CastSignedWords | dev/dmd2/src/dmd/intrange.c:332-372 | the same with chunks moved by half, their signs counted, and sign extension by xor and subtraction |
| RangeRules.CastKeeps | dev/dmd2/src/dmd/intrange.c:307-397 | a value of a range, wrapped to a type, lies in the range that was cast to that type |
| RangeRules.CastFits | dev/dmd2/src/dmd/intrange.c:254-276 | a range that was cast lies within the range of the type |
| RangeRules.CastSafeIsExact | dev/dmd2/src/dmd/intrange.c:374-397 | a cast keeps every wrapped value if and only if it is not to bool with a wrong bound, and not to dchar beyond the last character |
| RangeRules.ProductCorners | dev/dmd2/src/dmd/cast.c:2072-2085 | the product of two numbers lies between products of bounds |
| RangeRules.QuotientCorners | dev/dmd2/src/dmd/cast.c:2053-2070 | the truncated quotient lies between quotients of bounds, when the divisors have one sign |
| RangeRules.RemainderBounds | dev/dmd2/src/dmd/cast.c:2087-2128 | the remainder has the sign of the dividend and is smaller than the divisor and not larger than the dividend |
| RangeRules.BitwiseBounds | dev/dmd2/src/dmd/cast.c:2134-2184 | for words of one sign each, and, or and xor lie within the computed bounds |
| RangeRules.UnsignedBitwise | dev/dmd2/src/dmd/cast.c:2134-2184 | the three functions compute the bounds of the quadrant |
| RangeRules.SplitBySign | dev/dmd2/src/dmd/intrange.c:441-458 | the parts of a range that are negative and not negative |
| RangeRules.UnionOrAssign | dev/dmd2/src/dmd/intrange.c:430-438 | the union with what was there, or the range itself |
| RangeRules.BitwiseGetIntRange | dev/dmd2/src/dmd/cast.c:2186-2261 | the four-way split joins the quadrants that exist, and the assertion that there is one never fails |
| ValueRange.FoldIsExact | dev/dmd2/src/dmd/constfold.c:454-672 | what the folder computes on words is the exact result of the operator, wrapped to the type |
| ValueRange.BinSound | dev/dmd2/src/dmd/cast.c:2039-2303 | for every operator and machine, operands in their ranges give a folded value in the range of the node, under a guard that is exact for all operators but the product |
| ValueRange.RangeIsSound | dev/dmd2/src/dmd/cast.c:2024-2319 | for every machine, every expression that passes the guard and every value of its leaves, folding gives a value in the range |
| Tightness.CastIsTight | dev/dmd2/src/dmd/intrange.c:307-397 | both bounds of a range that was cast are wrapped values of the range, also where the result is the full range of the type |
| Tightness.BoundsAreTaken | dev/dmd2/src/dmd/cast.c:2039-2292 | unless they saturate, both bounds of a sum, difference, product or shift are exact results for operands in their ranges |
| Tightness.SumsAreTight | dev/dmd2/src/dmd/cast.c:2039-2044 | both bounds of the range of a sum, cast included, are values that folding gives |
| Tightness.DifferencesAreTight | dev/dmd2/src/dmd/cast.c:2046-2051 | the same for every difference |
| Tightness.QuotientsAreTight | dev/dmd2/src/dmd/cast.c:2053-2070 | both bounds of the range of a quotient, cast included, are quotients of bounds, unless the least number may be divided by -1 |
| Tightness.RemainderRange | dev/dmd2/src/dmd/cast.c:2087-2128 | the range of a remainder, cast included, is that of the dividend extended to 0, cut off at one less than the largest absolute divisor |
| Tightness.RemaindersAreTaken | dev/dmd2/src/dmd/cast.c:2087-2128 | a bound that is in the range of the dividend is the remainder of itself by some divisor |
| Tightness.UnaryIsTight | dev/dmd2/src/dmd/cast.c:2308-2319 | both bounds of the range of `-` and `~`, cast included, are values that folding gives |
| Tightness.PointsGivePoint | dev/dmd2/src/dmd/cast.c:2039-2303 | operands of one value each give a range of one value, the folded one, unless the operator is a remainder, something saturates, or the operands of an or lack digits below their highest common one |
| Tightness.OrOfTwosIsTooWide | dev/dmd2/src/dmd/cast.c:2155-2173 | the range of 2 or-ed with 2 goes up to 3 |
| BitTightness.OrUpperIsTaken | dev/dmd2/src/dmd/cast.c:2163 | the upper bound of an or is that of A and some number up to B |
| BitTightness.LowWords | dev/dmd2/src/dmd/cast.c:2134-2184 | for all ranges, words that agree with the operands in the digits that do not vary have a result that is not above the lower bound |
| BitTightness.HighWords | dev/dmd2/src/dmd/cast.c:2134-2184 | the same for the upper bound of and and xor |
| BitTightness.OperandsLimit | dev/dmd2/src/dmd/cast.c:2147-2152 | an and is never bounded above its operands, and an or never below |
| BitTightness.BitsAreTight | dev/dmd2/src/dmd/cast.c:2186-2261 | for ranges whose parts of one sign are all numbers with given upper digits, such as single numbers and types, both bounds are results of operands, for an or the upper one when the ends fit |
| BitTightness.OrIsTightExactly | dev/dmd2/src/dmd/cast.c:2155-2173 | for such ranges of one sign, the upper bound of an or is a result if and only if the upper ends together have all digits below their highest common one |
| BitTightness.FromZeroIsTight | dev/dmd2/src/dmd/cast.c:2134-2173 | for ranges that begin at 0, both bounds of and and or are results of operands |
| Tightness.ShlHoldsExactly | dev/dmd2/src/dmd/cast.c:2263-2275 | for one amount n, a range holds all wrapped results of a left shift if and only if it holds 2^n times both ends of the operand range cast to n digits less |
| Tightness.ShlSafeIsExact | dev/dmd2/src/dmd/cast.c:2263-2275 | the range of a left shift is right for all operands if and only if it holds these two numbers for each of at most 64 amounts |
| Narrowing.ModGetIntRange | dev/dmd2/src/dmd/cast.c:2087-2132 | the assignments to the bounds give the bounds of the dividend, extended to 0 and cut off at one less than the largest absolute divisor; the range of the type when the divisor can only be 0 |
| Narrowing.GetIntRange | dev/dmd2/src/dmd/cast.c:2024-2319 | the recursion, with the casts on words, holds for every expression that passes the guard all values that folding gives |
| Narrowing.BinGetIntRange | dev/dmd2/src/dmd/cast.c:2039-2303 | a binary node, with its array of four corners, the search for the quotient, shift amounts replaced and operands cast to unsigned, holds what folding gives for operands in their ranges |
| Narrowing.CastRange | dev/dmd2/src/dmd/intrange.c:374-397 | the choice among the casts on words computes the cast of a range |
| Narrowing.DivGetIntRange | dev/dmd2/src/dmd/cast.c:2053-2070 | four quotients in an array, sorted and cast; the whole type when the divisor may be zero |
| Narrowing.ShlGetIntRange | dev/dmd2/src/dmd/cast.c:2263-2275 | amounts replaced when they may be negative, then shifts by the amount that the sign of each bound asks for |
| Narrowing.UshrGetIntRange | dev/dmd2/src/dmd/cast.c:2291-2302 | the operand cast to unsigned on words, then shifted |
| Narrowing.TameIsSafe | dev/dmd2/src/dmd/cast.c:2039-2303 | expressions that multiply and shift left at most 32-bit operands, do not add ulongs, shift no bound right by 64 and do not cast to bool or dchar pass the guard |
| Narrowing.SumSafeIsExact | dev/dmd2/src/dmd/cast.c:2039-2044 | the range of a sum is right for all operands if and only if it is not of ulongs, or the upper bounds do not overflow, or both lower bounds are 0 |
| Narrowing.NegativeAmounts | dev/dmd2/src/dmd/cast.c:2281-2286 | when the amount may be negative, a bound is shifted by 64 unless the operand may be negative and may not be |
| Narrowing.DefinedExactly | dev/dmd2/src/dmd/cast.c:2277-2302 | the range of a right shift is the same on every machine if and only if no bound is shifted by 64 |
| Narrowing.RightShiftSafeIsExact | dev/dmd2/src/dmd/cast.c:2277-2302 | it holds all results and its ends are in order, on every machine, if and only if no bound is shifted by 64, or there are no results, or there is a single one at the edge of its chunk |
| Narrowing.OneResultIsNotEnough | dev/dmd2/src/dmd/cast.c:2277-2289 | a single result elsewhere is not enough: the range of [8, 9] shifted right by [5, 64] is [8, 0] where the machine leaves the word alone |
| Narrowing.NarrowingKeepsValue | dev/dmd2/src/dmd/cast.c:161-170 | when narrowing is accepted, every value is read back from its low digits, with the signedness whose range held the source |
| Narrowing.NarrowsExactly | dev/dmd2/src/dmd/cast.c:161-170 | it is accepted if and only if the low digits give back every value of the range, read without sign or read with sign |
| Narrowing.SaturatedSumLosesValues | dev/dmd2/src/dmd/intrange.c:67-77 | a sum of ulongs whose value lies outside its range |
| Narrowing.SaturatedShiftLosesValues | dev/dmd2/src/dmd/intrange.c:203-231 | a shift of a long whose value lies outside its range |
| Narrowing.SaturatedProductLosesValues | dev/dmd2/src/dmd/intrange.c:88-121 | a product of ulongs whose value lies outside its range |
| Narrowing.UndefinedShiftLosesValues | dev/dmd2/src/dmd/intrange.c:233-246 | 8 shifted right by any int, which is 4 for 1 but has the range of 8 where the machine leaves the word alone |
| Narrowing.CastToBoolLosesValues | dev/dmd2/src/dmd/intrange.c:387-397 | a cast of 2 to bool, which is 1, gets the range of 0 |
| StructFill.FillHole | dev/dmd2/src/dmd/e2ir.c:4914-4956 | it ends; it stores zeros only, covers the hole, ends at or behind it and never stores beyond the limit |
| StructFill.RunZeros | dev/dmd2/src/dmd/e2ir.c:4914-4956 | running zero stores clears what they cover and leaves the other bytes alone |
| StructFill.FillHoles | dev/dmd2/src/dmd/e2ir.c:4969-4988 | for fields in any order, overlapping or not, the fills cover every byte outside the fields |
| StructFill.RunFields | dev/dmd2/src/dmd/e2ir.c:4990-5083 | after the field stores, the bytes of a field hold its value unless a later field has them; all others are as before |
| StructFill.LowerLiteral | dev/dmd2/src/dmd/e2ir.c:4969-5083 | the stores of a literal, whatever the memory was, leave the memory that the literal means |
| StructFill.LiteralRuns | dev/dmd2/src/dmd/e2ir.c:4969-5083 | fills that spill into fields are overwritten: holes end as zero and fields with their values |
| Temporaries.IRState.AppendDtors | dev/dmd2/src/dmd/e2ir.c:5120-5186 | the loop combines the destructors of the variables in reverse order, clears their entries, and puts them behind the value of the tree |
| Temporaries.IRState.ToElem | dev/dmd2/src/dmd/e2ir.c:3243-3373 | the tree of an expression, and the variables that it adds to the list |
| Temporaries.IRState.ToElemDtor | dev/dmd2/src/dmd/e2ir.c:695-705 | the tree with the destructors of what it added |
| Temporaries.DtorsUnwind | dev/dmd2/src/dmd/e2ir.c:5131-5145 | the destructors are those of exactly the live variables, the last one first |
| Temporaries.AfterValueRuns | dev/dmd2/src/dmd/e2ir.c:5147-5184 | destructors put behind a value run after everything else in the tree, once |
| Temporaries.SurvivesExactly | dev/dmd2/src/dmd/e2ir.c:5155-5184 | for one outcome, the value with destructors is that without if and only if what is evaluated last is a constant, or is kept, or is read again unchanged |
| Temporaries.SurvivesAlways | dev/dmd2/src/dmd/e2ir.c:5155-5184 | for all outcomes that leave some places alone, it is so if and only if what is evaluated last is a constant, or is kept by value, or reads, or points to, only those places |
| Temporaries.StraightIsSteady | dev/dmd2/src/dmd/e2ir.c:5155-5184 | for a tree that ends without effects and branches: if and only if it mentions only variables that the destructors leave alone |
| Temporaries.LeafIsSteady | dev/dmd2/src/dmd/e2ir.c:5155-5184 | for an expression without operands: a constant, a scalar with an effect, or a place that the destructors leave alone |
| Temporaries.DestroyedIsRead | dev/dmd2/src/dmd/e2ir.c:5176-5182 | a scope that gives the value of its own temporary reads it after it has been destroyed |
| Temporaries.LowerLeaves | dev/dmd2/src/dmd/e2ir.c:3243-3373 | for every outcome, evaluating a tree leaves constructed just the variables that are pending |
| Temporaries.LowerIsFaithful | dev/dmd2/src/dmd/e2ir.c:3243-3373 | a tree has the value and events of its expression, where temporaries are destroyed at the ends of scopes, when the values of the scopes within survive |
| Temporaries.ScopeIsFaithful | dev/dmd2/src/dmd/e2ir.c:695-705 | a scope then has the events of the source, and its value if and only if that survives |
| Temporaries.GuardedIsFaithful | dev/dmd2/src/dmd/e2ir.c:695-705 | an expression whose scopes, where they destroy something, are void or end in a constant, a scalar with an effect, or a read of safe variables only, has the events and the value of the source, for every outcome in which destruction leaves those variables alone |
| Temporaries.TemporariesBalance | dev/dmd2/src/dmd/e2ir.c:695-705 | whatever values there are and however events change them, each constructed temporary is destroyed once, in LIFO order, and nothing else is |
| CastChain.AgainComesNearer | dev/dmd2/src/dmd/e2ir.c:3938-4376 | each step that goes round again comes nearer to the target, for every pair of types |
| CastChain.StepKeepsValue | dev/dmd2/src/dmd/e2ir.c:3938-4151 | the conversion of one step keeps the value modulo the width of the target |
| CastChain.StepKeepsNumber | dev/dmd2/src/dmd/e2ir.c:3938-4376 | every line of the table, for every value that the cast is defined for, does what the cast means or leaves a cast that means the same |
| CastChain.LinesLink | dev/dmd2/src/dmd/e2ir.c:3938-4376 | the operation of a line takes the type it is used for and gives the one that the table goes on with, if and only if the line is not ireal to ifloat or double to complex |
| CastChain.AllLinkExactly | dev/dmd2/src/dmd/e2ir.c:3938-4376 | all operations of a cast fit together if and only if it is not from ireal or creal to ifloat and not from an integer or double to complex |
| CastChain.LowerCast | dev/dmd2/src/dmd/e2ir.c:3929-4397 | the loop ends, and the chain of conversions, or zero, is what the cast means for every value: the parts that the target has, the integer part that the target holds, or between integers the value modulo 2^width |
| EhGuards.FindEnd | dev/dmd2/src/dmd/eh.c:245-285 | the scan with its counter finds the matching mark, the offset there and the handler behind the first jump after it |
| EhGuards.MatchIsUnique | dev/dmd2/src/dmd/eh.c:245-285 | a mark has one matching mark |
| EhGuards.EnclosingIsUnique | dev/dmd2/src/dmd/eh.c:287 | an instruction has one innermost enclosing pair |
| EhGuards.LastOpenEncloses | dev/dmd2/src/dmd/eh.c:294-310 | the last open temporary is the innermost pair around an instruction |
| EhGuards.Push | dev/dmd2/src/dmd/eh.c:294-302 | the value goes on top, into a larger copy when the stack is full; what was there stays |
| EhGuards.TopIsParent | dev/dmd2/src/dmd/eh.c:287 | the top of the stack is the index of the innermost enclosing pair, or of the block |
| EhGuards.TemporaryGuards | dev/dmd2/src/dmd/eh.c:224-314 | for every block with well-nested marks, one guard for each temporary, in order, over exactly the code up to its matching mark, with its parent and handler |
| EhGuards.GuardsNest | dev/dmd2/src/dmd/eh.c:220-314 | ranges of guards of a block are nested or disjoint, and a child lies within its parent and comes after it |
| EhGuards.ParentsPrecede | dev/dmd2/src/dmd/eh.c:287 | the parent's index is smaller than the guard's own |
| EhTable.FieldsFillRecord | dev/dmd2/src/dmd/eh.c:87-108 | the fields written for a header, guard or catch record have together the size that the layout counts with |
| EhTable.HeaderReads | dev/dmd2/src/druntime/src/rt/deh2.d:50-57 | the fields of the header are where the runtime's `DHandlerTable` has them |
| EhTable.GuardReads | dev/dmd2/src/druntime/src/rt/deh2.d:38-46 | the fields of a guard are where the runtime's `DHandlerInfo` has them |
| EhTable.CatchReads | dev/dmd2/src/druntime/src/rt/deh2.d:59-71 | the count and the fields of every catch are where the runtime's `DCatchInfo` has them |
| EhTable.CountGuards | dev/dmd2/src/dmd/eh.c:128-144 | the first pass counts the guards of try blocks, gaps included, and as many marks of destruction as there are temporaries |
| EhTable.FindTryEnd | dev/dmd2/src/dmd/eh.c:174-184 | the offset of the first later block with the same enclosing try |
| EhTable.TryGuards | dev/dmd2/src/dmd/eh.c:151-214 | the guard of every try block at its scope index, the unused indices empty, and the offset where its catch record will be |
| EhTable.AllTemporaryGuards | dev/dmd2/src/dmd/eh.c:220-314 | the guards of all blocks, one block after the other, numbered on |
| EhTable.EmitCatches | dev/dmd2/src/dmd/eh.c:316-341 | the catch records of the blocks that have catches, in order |
| EhTable.AllCatchesFound | dev/dmd2/src/dmd/eh.c:151 | every stored catch offset is the number of bytes before that block's catch record |
| EhTable.FillInTable | dev/dmd2/src/dmd/eh.c:110-341 | the whole table: as many guards as the header says, each where its index says, and every catch offset right |
| Ddoc.PairsByDepth | dev/dmd2/src/dmd/doc.c:401-406 | two parentheses with balanced text between them are two places with the same depth around |
| Ddoc.StrayClose | dev/dmd2/src/dmd/doc.c:419-434 | a `)` has no partner just when the counter of open parentheses is zero |
| Ddoc.StrayOpen | dev/dmd2/src/dmd/doc.c:447-469 | a `(` has no partner just when the counter from the right is zero |
| Ddoc.PassesRepair | dev/dmd2/src/dmd/doc.c:407-472 | the two passes together replace exactly the parentheses without partner |
| Ddoc.OutBuffer.EscapeStrayParenthesis | dev/dmd2/src/dmd/doc.c:407-472 | the buffer ends as the untouched prefix and the repaired text, the second pass being skipped only when it has nothing to do |
| Ddoc.OutBuffer.ReplaceStrayCloses | dev/dmd2/src/dmd/doc.c:407-443 | the first loop with its skips over inserted macros does the first pass |
| Ddoc.OutBuffer.ReplaceStrayOpens | dev/dmd2/src/dmd/doc.c:445-471 | the loop from the end does the second pass |
| Ddoc.RepairBalances | dev/dmd2/src/dmd/doc.c:401-406 | repaired text is balanced, text changes just when it is not balanced, and repair is idempotent |
| Ddoc.RepairKeepsText | dev/dmd2/src/dmd/doc.c:401-406 | expanding the macros of repaired text gives what expanding them in the original gives |
| Ddoc.OutBuffer.EscapeDdocString | dev/dmd2/src/dmd/doc.c:373-399 | every dollar and parenthesis behind the start is replaced by its macro |
| Ddoc.EscapeKeepsText | dev/dmd2/src/dmd/doc.c:366-372 | expanding escaped text gives back the original, for every text |
| Ddoc.EscapeBalances | dev/dmd2/src/dmd/doc.c:366-372 | escaped text is balanced, for every text |
| Ddoc.CleanUp | dev/dmd2/src/dmd/doc.c:298-327 | the loop drops escapes and writes one CR-LF for every kind of newline |
| Ddoc.LinesAreClean | dev/dmd2/src/dmd/doc.c:298-327 | CR and LF come in pairs only, and no escape is left but one at the very end |
| Ddoc.CleanIsFixed | dev/dmd2/src/dmd/doc.c:298-327 | text is left alone if and only if it is clean |
| Ddoc.CleanUpKeepsLines | dev/dmd2/src/dmd/doc.c:298-327 | the pass is idempotent and keeps the lines of the text |
| BitReader.ReadsIsUnique | tools/ttf2pgf/ttf2pgf/BitReader.cs:46-69 | the bits at a place determine the number that is read |
| BitReader.AppendCut | tools/ttf2pgf/ttf2pgf/BitReader.cs:56 | shifting, masking and or-ing in a piece of a byte appends its bits |
| BitReader.Reader.CollectBits | tools/ttf2pgf/ttf2pgf/BitReader.cs:46-69 | the loop gathers the bits over byte boundaries |
| BitReader.Reader.ReadBits | tools/ttf2pgf/ttf2pgf/BitReader.cs:46-69 | the number has exactly the bits from the position on, the cursor stays within a byte, and reading fails just when the data run out |
| BitReader.Reader.SkipBits | tools/ttf2pgf/ttf2pgf/BitReader.cs:71-75 | the position grows by the count, but the bit offset is not carried |
| BitReader.Reader.BitsLeft | tools/ttf2pgf/ttf2pgf/BitReader.cs:38-44 | the number of bits behind the position |
| BitReader.ReadBitsAt | tools/ttf2pgf/ttf2pgf/BitReader.cs:88-93 | the number at any bit offset |
| BitReader.FixedBitReader | tools/ttf2pgf/ttf2pgf/BitReader.cs:95-107 | as many entries as there is room for, each the number at its place |
| Glyph.PixelsAligned | tools/ttf2pgf/ttf2pgf/PGF.cs:268-292 | the pixels begin on a byte for all flags, glyph and shadow |
| Glyph.ReadCharPart | tools/ttf2pgf/ttf2pgf/PGF.cs:281-290 | the cursor comes back to a byte boundary although skipping does not carry |
| Glyph.ReadHeader | tools/ttf2pgf/ttf2pgf/PGF.cs:259-292 | the fields at their places, the cursor at the pixels, or failure because the header is cut off |
| Glyph.CellsAreOrdered | tools/ttf2pgf/ttf2pgf/PGF.cs:325-336 | numbering the cells by rows or by columns is a bijection |
| Glyph.DrawCode | tools/ttf2pgf/ttf2pgf/PGF.cs:304-339 | one code draws the run or the values that it stands for, cut off at the last pixel |
| Glyph.DecodesEncoded | tools/ttf2pgf/ttf2pgf/PGF.cs:294-321 | runs of 1 to 8 equal pixels and blocks of 1 to 8 values, encoded one after the other, are decoded to their pixels, also when the last is cut off and whatever follows |
| Glyph.OrderOfPixel | tools/ttf2pgf/ttf2pgf/PGF.cs:325-336 | the pixel of a column and row is numbered from left to right and down, or from top to bottom and across |
| Glyph.ReadPixels | tools/ttf2pgf/ttf2pgf/PGF.cs:294-339 | the loop ends; it succeeds just when the codes expand to enough pixels, and draws their expansion |
| Glyph.PictureIsTransposed | tools/ttf2pgf/ttf2pgf/PGF.cs:325-336 | every cell is written and holds the pixel that is its own in the order of rows or columns |
| Glyph.ShadeIsByte | tools/ttf2pgf/ttf2pgf/PGF.cs:336 | the value in both halves of a byte |
| Glyph.Read | tools/ttf2pgf/ttf2pgf/PGF.cs:257-356 | header and picture of a glyph or its shadow, from the bits of the file; failure just when the data hold no such glyph |
| Glyph.GetGlyphId | tools/ttf2pgf/ttf2pgf/PGF.cs:423-430 | -1 outside the range of the font, else the number at the character's place read as a signed one, which is negative only for entries of 32 bits |
| Glyph.LookupsAgree | tools/ttf2pgf/ttf2pgf/PGF.cs:489-495 | reading the whole map and looking up one character give the same glyph |
| ArrayOp.SpellingIsUnique | dev/dmd2/src/dmd/arrayop.c:386-471 | a spelling can be taken apart into words in one way only |
| ArrayOp.ParseWords | dev/dmd2/src/dmd/arrayop.c:409-471 | reading the words with a stack gives the shape of the expression |
| ArrayOp.NamesDetermineShapes | dev/dmd2/src/dmd/arrayop.c:110-130 | expressions with the same name have the same shape and element type |
| ArrayOp.NamesForgetTypes | dev/dmd2/src/dmd/arrayop.c:110-134 | for every floating element type two well-typed expressions with one name whose operands have different base types |
| ArrayOp.NamesDetermineTypes | dev/dmd2/src/dmd/arrayop.c:37-134 | for every other element type, well-typed expressions with one name have operands of the same base types |
| ArrayOp.AmbiguousExactly | dev/dmd2/src/dmd/arrayop.c:110-134 | so names are ambiguous about base types if and only if the elements are floating numbers |
| ArrayOp.ParamNamesDiffer | dev/dmd2/src/dmd/arrayop.c:478-509 | parameters with different numbers have different names, and none is the loop index |
| ArrayOp.BuildArrayIdent | dev/dmd2/src/dmd/arrayop.c:386-471 | the name is appended and the operands are put in front, in the order in which they are met |
| ArrayOp.BuildArrayLoop | dev/dmd2/src/dmd/arrayop.c:478-589 | the body, and the parameters in the same order as the arguments |
| ArrayOp.ParamsAt | dev/dmd2/src/dmd/arrayop.c:478-589 | parameter k has name and type of the operand that is k-th from the end |
| ArrayOp.FindParam | dev/dmd2/src/dmd/arrayop.c:478-509 | a name in the body finds the parameter of its own operand |
| ArrayOp.FitsExactly | dev/dmd2/src/dmd/arrayop.c:478-589 | the parameters made for one expression fit the arguments of another if and only if the operands of both have the same types |
| ArrayOp.DestinationFirst | dev/dmd2/src/dmd/arrayop.c:511-541 | the destination, cast or not, is the first argument and the first parameter, and that is writable |
| ArrayOp.BodyEvaluates | dev/dmd2/src/dmd/arrayop.c:478-589 | the body made from one expression, called with the operands of another of that shape and with their types, evaluates to the other |
| ArrayOp.CallRuns | dev/dmd2/src/dmd/arrayop.c:132-134 | the function made from one assignment runs every assignment of the same name and operand types |
| ArrayOp.ServesExactly | dev/dmd2/src/dmd/arrayop.c:132-134 | a function found by its name does an assignment, for every length, memory, arithmetic and reading of an operand as another type, if and only if the operand types are those that it was made from |
| ArrayOp.ComplexSumIsSwapped | dev/dmd2/src/dmd/arrayop.c:132-134 | with complex arithmetic, a function made for a real and an imaginary operand and called with an imaginary and a real one swaps the parts of their sum |
| ArrayOp.ImaginaryProductIsRight | dev/dmd2/src/dmd/arrayop.c:132-134 | and gives the right product |
| ArrayOp.TableSpells | dev/dmd2/src/dmd/arrayop.c:140-301 | the names of the library, letter by letter, are the spelling of the operation and operands of their functions |
| ArrayOp.LibraryNames | dev/dmd2/src/dmd/arrayop.c:140-301 | so each name is the one that is built for the assignment that its function does |
| ArrayOp.LibraryServes | dev/dmd2/src/dmd/arrayop.c:132-317 | a function of the library, called with the arguments of an assignment of its name, does it for every length, memory and arithmetic if and only if the elements are not cdouble |
| ArrayOp.Compiler.ArrayOp | dev/dmd2/src/dmd/arrayop.c:89-378 | a call of a library function does the assignment if and only if the elements are not cdouble; a call with a function from the cache or a new one if and only if the parameters fit, which they do when it is new or the elements are not floating numbers |
| Interfaces.ClassLayout.CopyBaseInterfaces | dev/dmd2/src/dmd/class.c:1532-1555 | the bases of a node are copied, all the way down, and every new head of a chain is listed once |
| Interfaces.ClassLayout.InterfaceSemantic | dev/dmd2/src/dmd/class.c:1008-1030 | the tree is a copy of the declarations, and the list has exactly the heads of its leftmost chains |
| Interfaces.NextInChain | dev/dmd2/src/dmd/class.c:730-735 | following leftmost bases visits every node of a chain |
| Interfaces.ClassLayout.PlaceChain | dev/dmd2/src/dmd/class.c:725-735 | exactly the nodes of one chain get its slot; that its head has none before, which the source asserts, is required and always met |
| Interfaces.ClassLayout.AllocateSlots | dev/dmd2/src/dmd/class.c:720-741 | every node gets the slot of its chain; slots are aligned, disjoint, behind the fields and as close as alignment allows, and the list still has exactly the heads |
| Interfaces.ChainsShareSlots | dev/dmd2/src/dmd/class.c:720-741 | two nodes have the same offset if and only if they are on the same chain |
| Interfaces.ClassLayout.LayOut | dev/dmd2/src/dmd/class.c:720-1030 | the whole layout: nodes have the same offset if and only if they are on one chain, slots do not overlap, an interface is found exactly when it occurs, and its offset is definite exactly when the first node of it is on a chain that begins with an interface of the class |
| Interfaces.IsBaseOf | dev/dmd2/src/dmd/class.c:1369-1394 | it finds an interface just when it occurs below; the offset is that of the first node of it in search order if that is on the chain of the start, and only then |
| Interfaces.ClassIsBaseOf | dev/dmd2/src/dmd/class.c:1332-1367 | for a class, the offset is the slot of the first node in search order if that is on a chain that begins with an interface of the class, and only then |
| Interfaces.LineIsBaseOf | dev/dmd2/src/dmd/class.c:1332-1367 | with the base classes: found if and only if some class of the line has the interface, and the first one that has it decides in this way |
| Interfaces.FirstIsUnique | dev/dmd2/src/dmd/class.c:1332-1394 | there is one first node of an interface, so these offsets are determined |
| ConstSeq.UnitsAreInjective | dev/dmd2/src/dmd/constfold.c:724-728 | strings of one width are equal just when their bytes are |
| ConstSeq.Equal | dev/dmd2/src/dmd/constfold.c:676-867 | an answer tells whether two constants stand for the same, possibly nested, value, and constants of one type always get one |
| ConstSeq.EqualArrays | dev/dmd2/src/dmd/constfold.c:730-755 | the same for two array literals, element by element |
| ConstSeq.EqualStringArray | dev/dmd2/src/dmd/constfold.c:756-786 | the same for a string and an array literal |
| ConstSeq.ArrayLength | dev/dmd2/src/dmd/constfold.c:1225-1250 | the number of elements, and no answer for null |
| ConstSeq.LowBytesAt | dev/dmd2/src/dmd/constfold.c:1560 | byte k of a unit counts 256 to the power of k |
| ConstSeq.Index | dev/dmd2/src/dmd/constfold.c:1254-1325 | the element at an index, of the element type, just when there is one |
| ConstSeq.Slice | dev/dmd2/src/dmd/constfold.c:1330-1388 | the elements between two indices, just when these are in order and in bounds |
| ConstSeq.SliceUnits | dev/dmd2/src/dmd/constfold.c:1345-1362 | the bytes that are copied are those of the units |
| ConstSeq.Join | dev/dmd2/src/dmd/constfold.c:1455-1485 | a buffer that is filled piece by piece holds the concatenation |
| ConstSeq.ElementBytes | dev/dmd2/src/dmd/constfold.c:1496-1502 | the loop writes the low bytes of every element, or gives up at one that is no integer |
| ConstSeq.Cat | dev/dmd2/src/dmd/constfold.c:1392-1703 | the constant that is chosen; for a string and a number or character of any width, its elements are those of the string followed or preceded by the number, or followed by its encoding, if and only if these fit the units; the same for a null |
| ConstSeq.CatDenotes | dev/dmd2/src/dmd/constfold.c:1392-1703 | for operands that match, it is the concatenation of what they contribute if and only if they are not a null and a null element |
| ConstSeq.NullElementIsLost | dev/dmd2/src/dmd/constfold.c:1447-1454 | a null array appended as an element to a null array: the result has no element |
| ConstSeq.CatAnswers | dev/dmd2/src/dmd/constfold.c:1392-1703 | operands that match are not folded if and only if they are an array and a null that it is to be an element of |
| ConstSeq.CatStringArray | dev/dmd2/src/dmd/constfold.c:1514-1542 | a string and an array of any integers: the concatenation if and only if the integers fit the units |
| ConstSeq.CatArrayString | dev/dmd2/src/dmd/constfold.c:1486-1513 | the same the other way round |
| ConstSeq.SlicesOfCat | dev/dmd2/src/dmd/constfold.c:1330-1703 | slicing a concatenation gives the parts back |
| SymbolTree.Dim | dev/dmd2/src/dmd/dsymbol.c:970-988 | the number of symbols with groups opened |
| SymbolTree.GetNth | dev/dmd2/src/dmd/dsymbol.c:1000-1024 | the symbol at an index of the opened list, or else the counter advanced by its length; the index that is passed on is never negative |
| SymbolTree.ToPrettyChars | dev/dmd2/src/dmd/dsymbol.c:157-196 | the buffer is filled from its end, exactly, with the path from the outermost parent to the symbol |
| Access.LineGives | dev/dmd2/src/dmd/access.c:84-110 | a line of inheritance gives the least protection on it, but nothing if a base behind the first gives private access or none |
| Access.PrivateStays | dev/dmd2/src/dmd/access.c:93-95 | a private member that is not static is reached in its own class only |
| Access.GetAccess | dev/dmd2/src/dmd/access.c:65-120 | the loosest access along any line of inheritance, one line that gives it, and none to what is private elsewhere |

## Left out

- ValueRange.RangeIsSound: the guard `Safe` is exact, node by node, for casts, sums, and left and right shifts; for products it asks that no corner saturates or that the range is that of the type, which is sufficient only. Which saturated product ranges are right depends on the least and the greatest of x * y modulo 2^64 over a rectangle, for which no test is known here short of trying the operands.
- Narrowing.NarrowingKeepsValue: the operand fallback of `XorExp::implicitConvTo` (dev/dmd2/src/dmd/cast.c:713-726) and conversions that earlier branches accept are not modelled.
- ValueRange.FoldIsExact: folding of floating, imaginary and complex values is not modelled, and the quotient of the least long by -1, which C++ leaves undefined, gives no value.
- SignExtended.ShiftRight: when an undefined shift puts the ends of a range out of order within one chunk of its type, `ValueRange.ShrRange` takes them in order; the source then has a range that holds nothing, and the guard excludes that where the shift has results.
- SignExtended.Over: `operator%` is not used by the ranges and left out.
- StructFill.LowerLiteral: the offset parameter of literals, which is always 0, and the hidden context pointer of nested structs are not modelled; callers keep fields within the struct.
- Temporaries.TemporariesBalance: operands are evaluated from left to right; exceptions while temporaries live, static and manifest declarations are not modelled.
- CastChain.StepKeepsNumber: the precision of floating numbers is not modelled, and neither are numbers whose integer part the target cannot hold; a target of `bool` is a comparison before the table, and that zero replaces the operand with its side effects is not modelled.
- EhTable.FillInTable: the layout for Windows, where handlers are addresses in a different record, and the marking of instructions for `CFG2seh` are not modelled; offsets are relative to the start of the function.
- EhGuards.FindEnd: that a jump and one more instruction follow every destruction is required, as the source follows the links without a test.
- Ddoc.OutBuffer.EscapeStrayParenthesis: warnings are not modelled, and the buffer's memory is a value that grows as needed.
- BitReader.Reader.ReadBits: counts over 32, for which the shifts of a 32-bit number wrap, are excluded, as is a cursor that skipping has moved past its byte; `Glyph.ReadHeader` never has one.
- BitReader.FixedBitReader: with a width of 0 the source never ends, so a width above 0 is required.
- Glyph.ReadHeader: `Left` and `Top` are the seven bits as stored, because `ReadBitsSigned` tests a bit that is not there; the lookup of the glyph's character is not modelled.
- ArrayOp.Compiler.ArrayOp: types are base types, so a parameter of an enum type and an operand of its base type are not told apart; array casts are left out of name and body alike, as in the source, and only the one around a destination is let through by typing; array assignments within an operand have become calls before; assignments to scalars and arithmetic with pointers within an operand are not modelled; functions of the library are taken to do on every element what their comments say, those of integers in the arithmetic of each type of their width, and their variants for vector instructions and their assertions that arrays do not overlap are not modelled, and the binary search in the sorted table is taken to find what is there; powers are operands like any other expression.
- Interfaces.ClassIsBaseOf: virtual tables, COM and C++ interfaces are not modelled.
- Interfaces.AlignMember: alignments are taken to be powers of two, for which the masking in the source is rounding.
- ConstSeq.Cat: struct literals, associative arrays and the cast of the result to another type are not modelled; the encoding of a character for a string of another width is a parameter; a missing list of elements is an empty one.
- Access.GetAccess: an undefined protection, for which the source asserts, does not occur.
- File, console and stream code, semantic passes, the back end and everything that only passes data on are left out.
