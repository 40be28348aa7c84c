# Verified model of the Viskores kernel

A Dafny model of the exact-arithmetic and concurrent algorithms in the header-only
kernel of Viskores, with proofs of what they promise. `dafny verify dfyconfig.toml`
checks the whole project.

**Linear algebra** (`viskores/Matrix.h`, `NewtonsMethod.h`, `Transform3D.h`).
Components are exact reals, the size is any, and epsilon is any positive constant.
`LUP.dfy` gives the in-place Crout factorization as functions on values; one invariant
says which matrix the half-finished array stands for. From it follow PA = LU, the
inversion parity, the determinant (`LUPFactor.dfy`), unique solutions (`LUPSolve.dfy`),
which matrices the pivot test accepts (`PivotThreshold.dfy`), the two-sided inverse
(`LUPInverse.dfy`) and Newton's method (`NewtonsMethod.dfy`).
`MatrixMethods.dfy` holds the routines as they run, loops updating one array, each proved
to compute its specification. The determinant they are compared with is defined in
`Determinants.dfy` by expansion along the first column, with the laws that characterise it.

**Atomics** (`viskores/Atomic.h`, `benchmarking/BenchmarkAtomicArray.cxx`). Threads are
small machines over shared cells, and a schedule says who steps next, so each lemma about
all schedules is about all interleavings. A first read may return anything, since it is
not atomic. Steps are sequentially consistent. Addition is any function of two values.
The state carries a record of the run (the order of successes, attempts, what was seen)
that no step looks at.

**Smaller cores.** `FloatDistance.dfy` works on bit patterns of both widths; values are
integers in units of the smallest subnormal, following section 3.4 of IEEE 754-2019.
`GramSchmidt.dfy`, `Orientation.dfy` and `BoxFunction.dfy` use exact reals with an exact (reciprocal) square
root given as a function. `TypeLists.dfy`, `VecFlat.dfy`, `Bounds.dfy` and
`PlaneFunctions.dfy` relate fast or unrolled forms to plain ones.

Where code and documentation differ, the model follows the code:

- `MatrixDeterminant` returns zero when the factorization is invalid and calls that case
  singular, and the factorization is documented to exist for every regular matrix. The pivot
  test is a threshold, so a regular matrix can be rejected (`SmallRegularRejected`).
  `PivotThreshold.AcceptedIff` says exactly which are accepted, and `MatrixDeterminant`'s
  contract exactly when its result is right.
- `Orthonormalize` means to zero the outputs it does not fill, but writes one of them only,
  so its result need not be the number of outputs nonzero to within the tolerance (`OutputLeftOver`,
  `ResultCountsLongIff`).
- `Orthonormalize` promises a first output parallel to the first input. That can fail when the
  first input is within the tolerance (`FirstOutputAstray`); `FirstOutputParallelIff` says
  exactly when.
- Frustum and MultiPlane promise the value zero on the surface. A plane with a zero normal
  makes it zero elsewhere (`ZeroNormalPlane`); `SurfaceIsZeroIff` says exactly when it holds.
- The `Valid` field of Newton's result is documented as true after a singularity. It is false
  then, and `ConvergedMeans` has it true on convergence.
- `Box::Value` promises zero on the surface. That holds of every surface point exactly when
  no dimension of the box is flat (`SurfaceIsZeroIffSolid`).

## Model

| member | source | states |
|---|---|---|
| `LUP.PivotRow` | viskores/Matrix.h:265-275 | the pivot is the first row, from the corner down, whose entry in the corner's column is largest in magnitude |
| `LUP.SwapRepresents` | viskores/Matrix.h:283-297 | exchanging two whole rows, finished entries of L included, with the permutation keeps every entry of A0 represented by the finished part of L and U plus the unfinished block |
| `LUP.EliminateRepresents` | viskores/Matrix.h:308-332 | scaling the pivot row and updating the rest finishes one more column of L and row of U and represents the same matrix |
| `LUP.IterateRepresents` | viskores/Matrix.h:366-392 | after k valid iterations the single matrix represents A0 through its permutation, and the first k pivots are at least the threshold in magnitude |
| `LUP.StoppedAt` | viskores/Matrix.h:379-391 | an invalid iteration ends the loop: later iterations change nothing |
| `LUPFactor.FactorIsLUP` | viskores/Matrix.h:335-392 | a valid factorization has a bijective permutation, pivots of magnitude at least epsilon, and PA = LU with L and U read from the one matrix |
| `LUPFactor.FactorEntries` | viskores/Matrix.h:343-352 | entry (permutation[i], j) of A0 is the sum of L(i,m) U(m,j) over m up to the smaller of i and j |
| `LUPFactor.ParityOfInversions` | viskores/Matrix.h:353-359 | after any number of iterations, valid or not, the permutation is a bijection and the tracked parity is +1 or -1 as its inversions are even or odd |
| `Permutations.SwapFlipsParity` | viskores/Matrix.h:354-358 | exchanging any two positions of a sequence of distinct numbers changes the number of inversions by an odd amount |
| `LUPFactor.EliminatedBlock` | viskores/Matrix.h:308-332 | one elimination step factors the pivot out of the determinant of the unfinished block |
| `LUPFactor.IterateKeepsRemaining` | viskores/Matrix.h:366-392 | parity times the pivots so far times the determinant of the unfinished block is the determinant of A0 after every valid iteration |
| `LUPFactor.DeterminantFromFactor` | viskores/Matrix.h:514-523 | a valid factorization's parity times the product of L's diagonal is the determinant of A0, for every size |
| `LUPFactor.ValidIsNonsingular` | viskores/Matrix.h:361-363 | a matrix of determinant zero is never reported valid |
| `Determinants.DetRowLinear` | viskores/Matrix.h:495-498 | the reference determinant, by expansion along the first column, is linear in each row |
| `Determinants.DetSwap` | viskores/Matrix.h:514-517 | exchanging two rows negates the reference determinant |
| `Determinants.DeterminantIdentity` | viskores/Matrix.h:214-222 | the reference determinant of the identity is one |
| `Determinants.DirectFormulas` | viskores/Matrix.h:528-545 | the formulas written out for sizes one, two and three are the reference determinant |
| `LUPSolve.ForwardSolves` | viskores/Matrix.h:410-427 | forward substitution gives the one y whose first k components satisfy the first k equations of Ly = Pb |
| `LUPSolve.BackwardSolves` | viskores/Matrix.h:430-440 | back substitution gives the one x whose last components satisfy the last equations of Ux = y |
| `LUPSolve.SolutionIffSolves` | viskores/Matrix.h:404-443 | with a valid factorization Ax = b holds of the computed x and of no other vector |
| `LUPSolve.SolveResultMeans` | viskores/Matrix.h:399-443 | on any matrix the solve returns the one solution of LUx = Pb, or NaN in every component when L has a zero on its diagonal |
| `LUPInverse.InverseRight` | viskores/Matrix.h:480-492 | A times the computed inverse is the identity |
| `LUPInverse.InverseLeft` | viskores/Matrix.h:480-492 | the computed inverse times A is the identity |
| `LUPInverse.MatVecInjective` | viskores/Matrix.h:447-448 | a matrix reported valid sends distinct vectors to distinct vectors |
| `Matrices.MatVecAssoc` | viskores/Matrix.h:153-192 | multiplying by a product is multiplying by its factors in turn |
| `Singularity.DeterminantZeroIffSingular` | viskores/Matrix.h:507-508 | the reference determinant is zero exactly when some nonzero vector is sent to zero |
| `Singularity.ValidIsRegular` | viskores/Matrix.h:361-363 | a singular matrix is never reported valid |
| `Singularity.SmallRegularRejected` | viskores/Matrix.h:277-281 | a regular matrix that is rejected, for every size: half epsilon on the diagonal |
| `PivotThreshold.ThresholdFreeIffRegular` | viskores/Matrix.h:338-341 | with no threshold partial pivoting factors exactly the regular matrices, as documented |
| `PivotThreshold.FailureMeansSingular` | viskores/Matrix.h:361-363 | with no threshold a failed iteration means determinant zero |
| `PivotThreshold.AcceptedIff` | viskores/Matrix.h:277-281 | a matrix is accepted exactly when it is regular and every pivot found without a threshold is at least epsilon; the factorization is then the threshold-free one |
| `MatrixMethods.MatrixLUPFactorFindPivot` | viskores/Matrix.h:258-298 | the in-place pivot search and exchange leave the state the specification gives, parity and validity included |
| `MatrixMethods.MatrixLUPFactorFindUpperTriangleElements` | viskores/Matrix.h:302-333 | the three loops turn the matrix into the eliminated one, or leave it alone when the diagonal entry is zero |
| `MatrixMethods.MatrixLUPFactor` | viskores/Matrix.h:366-392 | matrix, permutation, parity and validity end as the function of the original matrix about which the lemmas speak |
| `MatrixMethods.SolveLower` | viskores/Matrix.h:410-427 | the first loop gives exact components up to the first zero on the diagonal and NaN from there on |
| `MatrixMethods.SolveUpper` | viskores/Matrix.h:429-440 | the second loop gives the back substitution, or all NaN when the last component of y is NaN |
| `MatrixMethods.MatrixLUPSolve` | viskores/Matrix.h:399-443 | the result is the solution of LUx = Pb when no diagonal entry is zero, and NaN in every component otherwise |
| `MatrixMethods.SolveLinearSystem` | viskores/Matrix.h:447-464 | when valid, the result solves Ax = b exactly, nothing else does, and A is not singular |
| `MatrixMethods.MatrixInverse` | viskores/Matrix.h:466-493 | when valid, the result is the two-sided inverse; otherwise each column is the solve's answer for a unit vector |
| `MatrixMethods.MatrixDeterminant` | viskores/Matrix.h:495-545 | the result is the determinant exactly when the size is at most three, A is singular, or every threshold-free pivot reaches epsilon; otherwise it is zero |
| `MatrixMethods.GeneralDeterminant` | viskores/Matrix.h:498-524 | for any size the template returns the determinant when valid and zero when not |
| `MatrixMethods.MatrixMultiply` | viskores/Matrix.h:153-177 | the triple loop computes the matrix product |
| `NewtonsMethod.Newton` | viskores/NewtonsMethod.h:65-112 | the loop returns the state the recursive specification of at most maxIterations steps gives, a non-positive count giving no step |
| `NewtonsMethod.AffineStep` | viskores/NewtonsMethod.h:91-101 | for an affine function one step from any point reaches the desired output exactly |
| `NewtonsMethod.AffineStays` | viskores/NewtonsMethod.h:80-107 | from a point with the desired output every further step is zero, and the first one converges if the difference is positive |
| `NewtonsMethod.AffineExact` | viskores/NewtonsMethod.h:65-112 | for an affine function whose Jacobian factors as valid the result is valid and has the desired output, and with two iterations and a positive difference it is converged |
| `NewtonsMethod.ConvergedMeans` | viskores/NewtonsMethod.h:94-111 | for any function, converged implies valid and that the last step was an exact Newton step each of whose components lies between minus the difference and the difference |
| `NewtonsMethod.UnconvergedMeans` | viskores/NewtonsMethod.h:103-107 | valid without convergence, after at least one iteration, implies that some component of the last exact step moved at least the difference |
| `NewtonsMethod.RunIsPath` | viskores/NewtonsMethod.h:79-111 | the run is a path of exact Newton steps, only the last of which can be small; it ends at a small step, at a Jacobian that does not factor, or with the iterations, and the flags say which |
| `Transform3D.TransformComposes` | viskores/Transform3D.h:21-40 | transforming by an affine matrix and then by any matrix is transforming by their product |
| `Transform3D.InverseUndoes` | viskores/Transform3D.h:21-40 | the computed inverse of an affine matrix undoes its transform, in both orders |
| `Transform3D.InverseIsAffine` | viskores/Transform3D.h:26-30 | the computed inverse of an affine matrix is affine |
| `Transform3D.VectorIsDifference` | viskores/Transform3D.h:64-77 | vectors transform as differences of transformed points, so they are not translated |
| `Transform3D.PerspectiveComposes` | viskores/Transform3D.h:42-62 | perspective transforms compose as their matrices multiply, infinite results included, exactly when the first result is finite or the product's is not |
| `Transform3D.TranslateAdds` | viskores/Transform3D.h:119-132 | the translation matrix adds its vector |
| `Transform3D.ScaleMultiplies` | viskores/Transform3D.h:79-95 | the scale matrix multiplies by its factors |
| `Rotation.ColumnsOrthonormal` | viskores/Transform3D.h:156-178 | the columns of the rotation matrix are orthonormal |
| `Rotation.RotateKeepsLength` | viskores/Transform3D.h:139-178 | rotating a point about a unit axis keeps its distance from the origin |
| `Rotation.RotateFixesAxis` | viskores/Transform3D.h:156-178 | points on the axis are not moved |
| `Rotation.RotateIsRodrigues` | viskores/Transform3D.h:156-178 | the matrix applied to p is c p + s (a x p) + (1 - c)(a . p) a |
| `Rotation.RotateTurnsRightHanded` | viskores/Transform3D.h:134-137 | a point orthogonal to the axis turns by the angle in the right-hand sense: p . q = c times its squared length, p x q = s times its squared length times the axis |
| `Rotation.RotateAboutThirdAxis` | viskores/Transform3D.h:134-137 | about the third axis the first unit vector goes to (c, s, 0), counterclockwise |
| `AtomicInvariant.RunInvariant` | viskores/Atomic.h:687-730 | in every interleaving, and whatever the plain first reads return, memory is the fold of the successes, each result is the value just before its own step, and each failed attempt is paid for by a success seen since |
| `AtomicRuns.Linearizable` | viskores/Atomic.h:832-844 | memory and results are those of the finished calls made one at a time in the order their exchanges succeeded, for any addition function |
| `AtomicRuns.RealTimeOrder` | viskores/Atomic.h:841-843 | a call that returned before another was invoked comes before it in that order |
| `AtomicRuns.AttemptBound` | viskores/Atomic.h:694-704 | N calls make at most N(N+1)/2 attempts in any run, and one more for each stale first read |
| `AtomicRuns.AttemptsAreExchanges` | viskores/Atomic.h:694-704 | the attempts counted for a call are the exchanges its thread made in the run |
| `AtomicRuns.LiveRunsEnd` | viskores/Atomic.h:687-730 | no schedule that steps only unfinished calls is longer than N(N+2), and two more for each stale first read |
| `AtomicRuns.ExactReadBounds` | viskores/Atomic.h:687-730 | with exact first reads the k-th call to succeed, counting from zero, failed at most k times, with the attempt and length bounds exact |
| `AtomicVariants.RunSimulates` | viskores/Atomic.h:230-265 | every run of the form that compares assumed with old is matched, state for state, by a run of the form that branches on the success flag |
| `AtomicVariants.LoopLinearizable` | viskores/Atomic.h:596-629 | that form is linearizable too, in the order of the matching run |
| `AtomicVariants.LoopRealTimeOrder` | viskores/Atomic.h:596-629 | and that same order agrees with real time |
| `AtomicVariants.LoopAttemptBound` | viskores/Atomic.h:603-610 | N calls make at most N(N+1)/2 exchanges in any run of that form, and one more for each stale first read |
| `AtomicVariants.LoopLiveRunsEnd` | viskores/Atomic.h:603-610 | no schedule of its unfinished calls is longer than N + 3N(N+1)/2, and three more for each stale first read |
| `AtomicWorkers.CellsDuringRun` | benchmarking/BenchmarkAtomicArray.cxx:272-280 | at any point of any run a cell holds, modulo the word size, its first value plus i + in of exactly the finished workers mapped to it |
| `AtomicWorkers.WorkersConserve` | benchmarking/BenchmarkAtomicArray.cxx:267-281 | when all have finished each cell holds its first value plus the sum of i + in over exactly the workers mapped to it, modulo the word size |
| `WorkerIndices.SeqIndexMeans` | benchmarking/BenchmarkAtomicArray.cxx:275-276 | the sequential workers take the cells in turn and start over |
| `WorkerIndices.TransposedMeans` | benchmarking/BenchmarkAtomicArray.cxx:391-392 | before its reduction the strided map sends column r of row q to column q of row r, so that neighbours land a stride apart |
| `WorkerIndices.StrideIndexMeans` | benchmarking/BenchmarkAtomicArray.cxx:391-393 | after it the index names a cell and is congruent to the one before |
| `WorkerIndices.TransposedTwice` | benchmarking/BenchmarkAtomicArray.cxx:391-392 | before its reduction the strided map is its own inverse below stride squared |
| `AtomicWorkers.StrideHitsOnce` | benchmarking/BenchmarkAtomicArray.cxx:376-398 | on a square array as many strided workers as cells each change a cell of their own, that of the transposed number |
| `FloatDistance.UnitsOfMonotone` | viskores/Math.h:2702-2704 | a larger encoded magnitude is a larger value, across subnormals and exponent boundaries |
| `FloatDistance.DistanceIsOrdinal` | viskores/Math.h:2754-2791 | for finite arguments the distance is the difference of signed magnitudes; the sum of two distances does not wrap and never reaches the marker value |
| `FloatDistance.FiniteIffField` | viskores/Math.h:2756 | a pattern is finite exactly when its exponent bits are not all ones |
| `FloatDistance.UnitsOfFields` | viskores/Math.h:2702-2704 | a pattern's value read from its sign, exponent and fraction bits |
| `FloatDistance.UnitsOfStep` | viskores/Math.h:2702-2704 | neighbouring values are one unit apart below the second exponent, and the spacing doubles with every exponent |
| `FloatDistance.SentinelIffNonFinite` | viskores/Math.h:2751-2761 | the largest 64-bit value is returned exactly when the exponent bits of an argument are all ones |
| `FloatDistance.SentinelOfFormats` | viskores/Math.h:2751-2829 | the same in numbers for both widths |
| `FloatDistance.SomeDistances` | viskores/testing/UnitTestMath.cxx:638-641 | from one to two there are as many patterns as fractions, and from the lowest to the largest the number the tests expect |
| `FloatDistance.DistanceCountsRepresentables` | viskores/Math.h:2751-2829 | for finite x <= y the distance is the number of representable values above x and at most y, the two zeros counting as one |
| `FloatDistance.DistanceIsMetric` | viskores/Math.h:2751-2829 | symmetric, zero exactly on equal values, triangle inequality, and additive along the line |
| `GramSchmidt.Orthonormalize` | viskores/VectorAnalysis.h:261-289 | the loops leave the normalized kept vectors first, zero in the next output, and the outputs after that unwritten |
| `GramSchmidt.SubtractProjections` | viskores/VectorAnalysis.h:270-274 | the inner loop leaves the input less its projections onto the kept vectors |
| `GramSchmidt.ZeroRest` | viskores/VectorAnalysis.h:284-287 | the last loop writes one output only |
| `GramSchmidt.KeptOrthogonal` | viskores/VectorAnalysis.h:268-283 | the kept vectors are pairwise orthogonal |
| `GramSchmidt.OutputsOrthonormal` | viskores/VectorAnalysis.h:249-250 | the outputs the result counts have length one and are pairwise orthogonal |
| `GramSchmidt.OutputsFaceInputs` | viskores/VectorAnalysis.h:249-250 | each of them lies in the span of the inputs up to the one it was kept for, and has a positive product with it |
| `GramSchmidt.KeptInSpan` | viskores/VectorAnalysis.h:268-283 | each kept vector lies in the span of the inputs read so far |
| `GramSchmidt.InputsApproximated` | viskores/VectorAnalysis.h:275-283 | each input is a combination of the kept vectors up to a remainder no longer than the tolerance |
| `GramSchmidt.KeptFacesInput` | viskores/VectorAnalysis.h:249-250 | a kept vector points to the same side as its input: their product is positive |
| `Orientation.KeptKeepsDeterminant` | viskores/VectorAnalysis.h:268-283 | while no input is dropped, the kept vectors followed by the inputs to come have the determinant of the inputs |
| `Orientation.OutputsKeepHandedness` | viskores/VectorAnalysis.h:249-250 | when no input is dropped, the determinant of the outputs has the sign of that of the inputs: the handedness the documentation promises |
| `GramSchmidt.FirstKept` | viskores/VectorAnalysis.h:268-283 | the first vector kept is the first input longer than the tolerance |
| `GramSchmidt.FirstOutputParallelIff` | viskores/VectorAnalysis.h:248 | the first output is parallel to the first input exactly when no input is longer than the tolerance or the first that is happens to be parallel to it |
| `GramSchmidt.FirstOutputAstray` | viskores/VectorAnalysis.h:248 | two orthogonal inputs, the first of them short, for which that promise fails |
| `GramSchmidt.ResultCountsLongIff` | viskores/VectorAnalysis.h:256-257 | for a tolerance below one the result is the number of outputs nonzero to within it exactly when no output past the zeroed one was longer than it before the call; a larger tolerance counts no output of the call |
| `GramSchmidt.OutputLeftOver` | viskores/VectorAnalysis.h:284-287 | three zero inputs and a third output that keeps its old contents |
| `BoxFunction.Value` | viskores/ImplicitFunction.h:211-277 | the loop over dimensions computes the specification's value |
| `BoxFunction.OutsideIsDistance` | viskores/ImplicitFunction.h:204-210 | outside, the value is positive and its square is the least squared distance to a point of the box, which is attained |
| `BoxFunction.InsideIsBallRadius` | viskores/ImplicitFunction.h:204-210 | in a box with no flat dimension, minus the value at a point of the box is the radius of the largest ball about it inside the box |
| `BoxFunction.ZeroOnSurface` | viskores/ImplicitFunction.h:209-210 | in such a box the value is zero exactly on the faces |
| `BoxFunction.FlatBox` | viskores/ImplicitFunction.h:221-261 | in a box with flat dimensions the value on the box is zero only on the faces of the others, and minus infinity when all are flat |
| `BoxFunction.FlatBoxValue` | viskores/ImplicitFunction.h:221-261 | on a box with some dimension not flat the value is minus the least distance to a face of those dimensions |
| `BoxFunction.FlatSquare` | viskores/ImplicitFunction.h:254-261 | a flat square has value minus one in its middle |
| `BoxFunction.SurfaceIsZeroIffSolid` | viskores/ImplicitFunction.h:209-210 | every surface point has value zero exactly when no dimension of the box is flat |
| `PlaneFunctions.PlaneValueMeans` | viskores/ImplicitFunction.h:597 | a plane's value is Dot(p, n) - Dot(o, n): zero at its origin o, and at most zero exactly in its half-space |
| `PlaneFunctions.Value` | viskores/ImplicitFunction.h:821-833 | the loop returns the largest of Dot(p, n) - Dot(o, n) over the planes, and minus infinity exactly for no planes |
| `PlaneFunctions.Gradient` | viskores/ImplicitFunction.h:842-859 | the loop returns the normal of the first plane whose value is largest |
| `PlaneFunctions.Peak` | viskores/ImplicitFunction.h:849-857 | some plane has the largest value and those before it smaller ones |
| `PlaneFunctions.GradientIsSubgradient` | viskores/ImplicitFunction.h:603-626 | the gradient at p is a subgradient for all p and q: Value(q) >= Value(p) + Gradient(p).(q - p) |
| `PlaneFunctions.ValueIsConvex` | viskores/ImplicitFunction.h:590-601 | the value on a segment is at most the weighted mean of its values at the ends |
| `PlaneFunctions.ZeroIffOnSurface` | viskores/ImplicitFunction.h:583-589 | when no normal is zero the value is zero exactly on the surface of the intersection of the half-spaces |
| `PlaneFunctions.SurfaceIsZeroIff` | viskores/ImplicitFunction.h:583-589 | that holds at every point exactly when no normal is zero or the intersection has no interior |
| `PlaneFunctions.ZeroNormalPlane` | viskores/ImplicitFunction.h:590-601 | one plane with a zero normal: the value is zero everywhere and no point is on a surface |
| `TypeLists.FindFirstFinds` | viskores/List.h:354-536 | the search that skips eight, skips four and then checks one at a time finds what a linear search finds |
| `TypeLists.ListIndexOfMeans` | viskores/List.h:540-577 | the index is that of the first occurrence, and -1 exactly when there is none |
| `TypeLists.ListAppendIsConcat` | viskores/List.h:142-272 | appending eight lists at a time is concatenation |
| `TypeLists.ListFillIsRepeat` | viskores/List.h:285-302 | halving fills with exactly N copies |
| `TypeLists.ListReduceIsFold` | viskores/List.h:779-819 | reducing eight at a time is the left fold |
| `TypeLists.ListRemoveIfIsFilter` | viskores/List.h:667-672 | removal keeps the other types in order |
| `TypeLists.ListIntersectMeans` | viskores/List.h:696-706 | the intersection is the second list without the types absent from the first |
| `TypeLists.ListCrossMeans` | viskores/List.h:755-765 | pair (i, j) of the cross product stands at index i times the second size plus j |
| `VecFlat.CopyVecNestedToFlat` | viskores/VecFlat.h:93-136 | the copy writes the components in depth-first order, each of the slots from the offset on exactly once, and no others |
| `VecFlat.CopyVecFlatToNested` | viskores/VecFlat.h:141-204 | the copy builds the nested vector of those slots |
| `VecFlat.FlattenNest` | viskores/VecFlat.h:141-204 | nesting and then flattening gives the flat vector back |
| `VecFlat.NestFlatten` | viskores/VecFlat.h:93-136 | flattening and then nesting gives the nested vector back |
| `VecFlat.FlattenAt` | viskores/VecFlat.h:63-88 | slot k is the component found by division and remainder at each level |
| `VecFlat.FlattenAtPath` | viskores/VecFlat.h:93-136 | the component an index path leads to stands in the slot counted in row-major order |
| `Bounds.LowerBound` | viskores/LowerBound.h:31-47 | on a partitioned range it finds the partition point, with at most one comparison per binary digit of the length on any range |
| `Bounds.UpperBound` | viskores/UpperBound.h:31-47 | the same for the other partition |
| `Bounds.DigitsIsLogarithm` | viskores/LowerBound.h:33-46 | the number of binary digits is the rounded-down logarithm plus one |
| `Bounds.SortedIsPartitioned` | viskores/LowerBound.h:24-30 | a range sorted by a strict weak order is partitioned for both searches |
| `Bounds.BoundsBracket` | viskores/UpperBound.h:24-30 | the two results bracket exactly the elements equivalent to the value, and inserting it at either keeps the order |

## Left out

- Floating-point rounding, fused operations and overflow: the matrix, vector and implicit-function code is over exact reals. Only FloatDistance is about bits.
- NewtonsMethod.Newton: the functors return reals, so a NaN from the evaluator is not modelled; a NaN from the solve is.
- Transform3D.PerspectiveComposes: infinities and NaN are one value, and a transform of that value is that value.
- Rotation.RotateKeepsLength: sine, cosine and the normalised axis are inputs, of which only sin^2 + cos^2 = 1 and unit length are used; degrees are not modelled.
- GramSchmidt.Orthonormalize: the reciprocal square root is a parameter, exact where a lemma needs it.
- BoxFunction.Value: the square root is a parameter, exact where a lemma needs it, and negative infinity is a separate value. The box gradient is not modelled.
- PlaneFunctions.Gradient: a set of no planes is excluded; there the source reads a plane that does not exist.
- Bounds.LowerBound: the hand-written loop, used on CUDA and HIP; elsewhere the source calls the standard library.
- AtomicInvariant.RunInvariant: memory orders and fences, stores mixed with additions, and the compiler's own fetch-and-op primitives.
- AtomicWorkers.WorkersConserve: the workers AddSeqWorker and AddStrideWorker, which call the integer fetch-add primitive, and the non-atomic baseline workers.
- TypeLists.ListIndexOfMeans: the universal list, the limit of 512 types, ListAt, ListTransform and the older compiler's removal.
- VecFlat.CopyVecNestedToFlat: the overload for a vector of base components is the general one at depth one.
- Matrix and vector accessors, transpose, identity filling, the vector forms of MatrixMultiply, and component-wise operators.
- QuadraticRoots, the bit-counting loops and the transcendental wrappers of Math.h.
- Ranges, bounds, pairs, hashes, bit sets, cell shapes, geometry, rendering, file input and output, and the Python bindings.
