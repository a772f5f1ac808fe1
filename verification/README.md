# Proofs about the tensor engine and its tools

A Dafny model of the C++ tensor expression engine mshadow, of two parts of the lint script `cpplint.py`, and of four
parts of the bundled Google Test. `dafny verify dfyconfig.toml` checks it all.

**The tensor engine.** An expression tree is compiled to a plan, checked for shape, and run by loops over strided,
padded memory. `Expressions.dfy` has the tree, its shape check, and what the plan of a tree computes at a cell;
an operator that is not elementwise is described by the list of source cells its plan reads, in loop order.
`Patches`, `PoolGeometry`, `Windows` and `Layout` say which cells those are, `Shapes` ties cells to multi-indices and
addresses, and `Plans` has the evaluation loops themselves. On top of that stand the theorems: reads stay in bounds
(`Soundness`), in-place assignment is safe (`Assignment`), what it stores at each multi-index, and that any
subexpression may be computed into a temporary first (`ExpressionLaws`), what the operators over image planes are worth
at each position (`PlaneValues`), the operator pairs are adjoint (`Adjoints`, `Reduce`), the rearrangements undo each
other (`RoundTrips`), matrix products through column-major BLAS are row-major products
(`Dot`), and containers, the allocator and the binary format keep their promises (`TensorContainer`, `TensorHeap`,
`TensorIO`).

**The lint script.** `Brackets` has the forward and backward bracket matchers with their stacks, `BracketWords` the
balanced words they decide, `BracketLines` the line-by-line search, `AngleBrackets` what angle brackets do to
it. `NestingStates` has the nesting stack with its checkpoints at `#if` and `#else`, `BraceRules` what its line rules
compute, `LineForms` and `ClassHeads` which text its regular expressions take for what.

**Google Test.** `Regex` has the simple regular expressions: their grammar, language, validator and backtracking
matcher. `TestFilter` and `TestSelection` have the filters and shards that select tests, `TestRegistration` the vector
of test cases, `Shuffle`, `FisherYates` and `TestRounds` the order of a round, `TestOrder` the test program that does all this.
`Utf8` has the wide string encoder, `Cdata` the CDATA printer; each with a reader written from the standard.

## Where the code does not meet the obvious claim

- The outer product with the overwriting saver calls `ger`, which adds: `Dot.OuterKeepsPromiseIff` proves exactly when
  the result is still right, `Dot.OuterAccumulates` has an input for which it is not.
- `ShapeCheck` marks a scalar by width 0, so an empty tensor passes for one: `Limits.ZeroWidthAccepted` is the
  counterexample, `Limits.RearrangingSafeIff` the exact condition for trees of elementwise maps, reshape, swapaxis and
  mirror. For other operators the condition is sufficient only: `Limits.EmptyCropReadsInBounds` is a crop of width 0,
  which carries the mark and reads nothing outside.
- A crop with an explicit start is not checked for start + size: `Limits.CropSafeIff`, with the input
  `Limits.CropReadsOutside`.
- The forward bracket search means to skip the `>` at the end of an operator function's name, as the backward search
  does, but looks one character too far back: `AngleBrackets.OperatorGreaterIgnoredIff` proves when it does skip it,
  `AngleBrackets.OperatorGreaterCloses` has a list that it closes there.
- A full match of a regex that ends in `\$` is only a match of a head: `Regex.FullMatchIsWholeIff`.
- The UTF-8 encoder's comment promises a note for values above 10FFFF; the code writes up to 21 bits in four bytes:
  `Utf8.RoundTripIff`.
- The read-only `GetTestCase` accessor uses the position where it should use the shuffled index:
  `TestOrder.AccessorsAgreeIff`, with the input `TestOrder.AccessorsDisagree`.
- Registering a death test case while test cases are shuffled may put it after others:
  `TestRegistration.RegisterDeathKeepsOrderIff`, with the input `TestRegistration.RegisterDeathLosesOrder`.

## Model

| member | source | states |
|---|---|---|
| Soundness.ReadsInBounds | include/mshadow/tensor_expr_engine-inl.hpp:152-256 | an expression accepted by TypeCheck and ShapeCheck, its unchecked obligations met, reads every tensor inside its storage and divides by nothing zero, at every cell of its shape, through any nesting of operators |
| Soundness.OpReads | include/mshadow/tensor_expr_ext.h:38-327 | every operator whose constructor accepts its source reads only cells of the source |
| Soundness.ScalarOperand | include/mshadow/tensor_expr_engine-inl.hpp:219-256 | the scalar mark is carried by scalar trees only, which read no tensor |
| Soundness.EvalDependsOnReads | include/mshadow/tensor_expr_engine-inl.hpp:42-110 | two memories that agree on the cells a plan reads give it the same value |
| Expressions.OperandsAgreeIff | include/mshadow/tensor_expr_engine-inl.hpp:214-256 | an elementwise expression is accepted exactly when its operands are and those without the scalar mark agree in shape, which is then its shape; it carries the mark exactly when all of them do |
| Plans.EvalPlan | include/mshadow/tensor_expr_engine-inl.hpp:42-142 | the plan, run on memory, reads inside it and returns the value of the expression |
| Plans.EvalGather | include/mshadow/tensor_expr_ext.h:648-912 | the plans that read one source cell return the value at the cell the index map says, or 0 |
| Plans.EvalPack | include/mshadow/tensor_expr_ext.h:679-697 | the packing loops sum the matrix over exactly the listed cells |
| Plans.EvalPool | include/mshadow/tensor_expr_ext.h:793-810 | the pooling loops fold the source over the window's cells |
| Plans.EvalUnPool | include/mshadow/tensor_expr_ext.h:824-843 | the unpooling loops sum partial gradients over the covering windows |
| Plans.EvalChannelPool | include/mshadow/tensor_expr_ext.h:922-936 | the channel pooling loop folds the source over the neighbouring channels |
| Windows.CoverExact | include/mshadow/tensor_expr_ext.h:686-689 | the loop bounds enumerate exactly the windows that contain a position |
| Windows.WindowInside | include/mshadow/tensor_expr_ext.h:645-646 | every counted window lies inside the image |
| Patches.UnpackReads | include/mshadow/tensor_expr_ext.h:648-663 | unpacking copies each window offset from the pixel it lies on, and in range never zero-fills |
| Patches.PackVisits | include/mshadow/tensor_expr_ext.h:679-697 | packing visits a window for a pixel exactly when the window covers it, at the right matrix cell |
| Patches.UnpackPackDual | include/mshadow/tensor_expr_ext.h:639-701 | unpacking reads pixel v for matrix cell u exactly when packing reads u for v, once |
| Adjoints.UnpackPackAdjoint | include/mshadow/tensor_expr_ext.h:639-701 | the sum of unpack(img) times mat is the sum of img times pack(mat), for any shape, batch, patch and stride |
| PoolGeometry.PoolUnpoolDual | include/mshadow/tensor_expr_ext.h:787-848 | a pixel is pooled into a cell exactly when the gradient loops visit that cell for the pixel, clipped windows included |
| Adjoints.PoolUnpoolAdjoint | include/mshadow/tensor_expr_ext.h:786-848 | sum unpooling is the adjoint of sum pooling |
| Adjoints.MaxUnpoolTotal | include/mshadow/tensor_expr_ext.h:818-848 | the total of max unpooling is the sum over windows of gradient times number of maximisers |
| Adjoints.MaximiserExists | include/mshadow/tensor_base.h:258-274 | every nonempty window of pooled data has a maximiser |
| PoolGeometry.ChannelSelfDual | include/mshadow/tensor_expr_ext.h:922-936 | being pooled together across channels is symmetric |
| Adjoints.ChannelPoolSelfAdjoint | include/mshadow/tensor_expr_ext.h:915-940 | sum pooling across channels is its own adjoint |
| Layout.SwapSwapsCoordinates | include/mshadow/tensor_expr_ext.h:735-783 | both swapaxis plans read the element with coordinates a1 and a2 exchanged, in any dimension |
| RoundTrips.SwapAxisMeans | include/mshadow/tensor_expr_ext.h:735-783 | the value of swapaxis at a multi-index is the source's at the swapped one |
| RoundTrips.SwapAxisTwice | include/mshadow/tensor_expr_ext.h:127-138 | swapping two axes twice is the identity on every element |
| Layout.ReshapeKeepsOrder | include/mshadow/tensor_expr_ext.h:705-732 | a reshape of equal size keeps the flattened order and stays in range |
| RoundTrips.ReshapeOfReshape | include/mshadow/tensor_expr_ext.h:102-115 | reshaping twice is reshaping to the second shape, and is accepted if the two are |
| RoundTrips.ReshapeChainIsLast | include/mshadow/tensor_expr_ext.h:102-115 | reshaping through any number of shapes is reshaping to the last one, element by element, and is accepted if the chain is |
| RoundTrips.ReshapeThereAndBack | include/mshadow/tensor_expr_ext.h:102-115 | reshaping to any equal-size shape and back is the identity |
| Layout.CropOfPad | include/mshadow/tensor_expr_ext.h:852-898 | the centred crop of a padded plane reads every source cell in place |
| RoundTrips.CropOfPadIsSource | include/mshadow/tensor_expr_ext.h:234-291 | cropping the centre of pad(src, p) to src's size is accepted and is src |
| PlaneValues.PadMeans | include/mshadow/tensor_expr_ext.h:862-872 | the value of pad(src, p) at (y, x) of a plane is src's at (y - p, x - p) where that lies in the plane, and 0 otherwise |
| PlaneValues.PadCropAdjoint | include/mshadow/tensor_expr_ext.h:852-898 | the sum of pad(src, p) times g is the sum of src times the centred crop of g, for every p, source, number of planes and g of the padded shape |
| PlaneValues.CropMeans | include/mshadow/tensor_expr_ext.h:888-895 | the value of a crop at (y, x) is src's from the given or the centring start on |
| PlaneValues.CropAcceptedIff | include/mshadow/tensor_expr_ext.h:270-288 | a crop is accepted exactly when it is no larger than its source; where it starts is not checked |
| PlaneValues.MirrorMeans | include/mshadow/tensor_expr_ext.h:901-912 | mirror reads every row backwards |
| PlaneValues.PoolMeans | include/mshadow/tensor_expr_ext.h:793-810 | the value of a pooling at (y, x) folds the window of its own plane that starts at (y, x) times the stride, clipped at the border |
| PlaneValues.WholeWindows | include/mshadow/tensor_expr_ext.h:176-184 | with the default output shape there is a position exactly where a whole window fits |
| PlaneValues.GivenWindows | include/mshadow/tensor_expr_ext.h:187-197 | a given output shape is height, then width |
| Shapes.SubscriptIsFlat | include/mshadow/tensor.h:229-243 | subscripting from the highest dimension down reaches the row-major cell of the flattened view, for any dimension |
| Shapes.SubscriptInjective | include/mshadow/tensor.h:229-243 | distinct multi-indices have distinct addresses when the stride is at least the width |
| Shapes.Shape.ProdShape | include/mshadow/tensor.h:104-111 | the loop multiplies dimensions dimstart to dimend |
| Shapes.Shape.Size | include/mshadow/tensor.h:82-89 | the number of elements |
| Shapes.Shape.MSize | include/mshadow/tensor.h:91-98 | the number of elements with padding |
| Shapes.Shape.FlatTo2D | include/mshadow/tensor.h:68-80 | the loop's shape has the width, the rows and the stride of the flattened view |
| Assignment.MapPlan | include/mshadow/tensor_cpu-inl.hpp:51-60 | with sources disjoint from dst or, elementwise, the identical view, every element becomes saver(old element, value on the old memory), and no padding or other cell changes |
| Assignment.MapExp | include/mshadow/tensor_cpu-inl.hpp:86-97 | assignment runs exactly on what the checks accept, and then stores that; else memory is unchanged |
| Assignment.AcceptedReads | include/mshadow/tensor_cpu-inl.hpp:86-97 | what assignment accepts is read in bounds at every cell of dst |
| Assignment.InPlaceReads | include/mshadow/tensor_cpu-inl.hpp:51-60 | evaluation at a cell does not see what the loops have already overwritten |
| ExpressionLaws.ScalarMeans | include/mshadow/tensor_expr_engine-inl.hpp:66-75 | after dst = v every element of dst, found by subscripting, holds saver(its old value, v) |
| ExpressionLaws.UnaryMeans | include/mshadow/tensor_expr_engine-inl.hpp:90-96 | after dst = f(a) the element at each multi-index holds saver(its old value, f of a's old element there) |
| ExpressionLaws.BinaryMeans | include/mshadow/tensor_expr_engine-inl.hpp:77-84 | after dst = f(a, b) it holds saver(its old value, f of the old elements of a and b there, in that order) |
| ExpressionLaws.AssignScalar | include/mshadow/tensor_expr.h:119-122 | the same on memory, before and after; padding and all else stay |
| ExpressionLaws.AssignUnary | include/mshadow/tensor_cpu-inl.hpp:86-97 | on memory, in place or not and whatever the strides: it is done exactly when the shapes agree, and then every multi-index of dst holds saver(old, f(old a)), all else unchanged |
| ExpressionLaws.AssignBinary | include/mshadow/tensor_cpu-inl.hpp:86-97 | the same for two operands |
| ExpressionLaws.UnarySubstitution | include/mshadow/tensor_expr_engine-inl.hpp:90-99 | for any expression e: assigning f(e) leaves what assigning e to a disjoint temporary and then f of it leaves, outside the temporary, and the two steps are accepted |
| ExpressionLaws.BinarySubstitution | include/mshadow/tensor_expr_engine-inl.hpp:77-88 | for any expressions: assigning f(e1, e2) leaves what assigning e1 and e2 to disjoint temporaries and then f of those leaves, outside the temporaries, and the three steps are accepted |
| ExpressionLaws.OperatorSubstitution | include/mshadow/tensor_expr_engine-inl.hpp:112-142 | for any tensor operator and source: assigning op(e) leaves what assigning e to a temporary of its shape and then op of it leaves |
| Limits.RearrangingSafeIff | include/mshadow/tensor_expr_engine-inl.hpp:219-256 | an accepted expression of elementwise maps, reshape, swapaxis and mirror reads in bounds exactly when no tensor in it carries the scalar mark |
| Limits.EmptyCropReadsInBounds | include/mshadow/tensor_expr_ext.h:263-291 | the equivalence ends at crop: a crop to width 0 carries the mark and reads in bounds |
| Limits.ZeroWidthAccepted | include/mshadow/tensor_expr_engine-inl.hpp:251-252 | an empty tensor assigned to a nonempty one is accepted and read out of bounds |
| Limits.CropSafeIff | include/mshadow/tensor_expr_ext.h:281-290 | a crop with an explicit start reads inside its source exactly when start plus size fits |
| Limits.CropReadsOutside | include/mshadow/tensor_expr_ext.h:281-290 | a crop of a 4 x 4 plane to 2 x 2 from row 3 on is accepted and reads outside |
| Dot.Gemm | include/mshadow/tensor_expr_engine-inl.hpp:276-283 | the reference GEMM: column-major C becomes alpha op(A) op(B) + beta C, and nothing else changes |
| Dot.Gemv | include/mshadow/tensor_expr_engine-inl.hpp:284-291 | the reference GEMV, the same for a vector |
| Dot.Ger | include/mshadow/tensor_expr_engine-inl.hpp:292-297 | the reference GER adds an outer product to A |
| Dot.GemmIsDot | include/mshadow/tensor_expr_engine-inl.hpp:346-355 | the swapped-operand column-major value is the saver applied to the row-major product |
| Dot.GemvIsDot | include/mshadow/tensor_expr_engine-inl.hpp:363-368 | the same for a row vector times a matrix |
| Dot.AlphaBeta | include/mshadow/tensor_base.h:170-207 | alpha and beta make BLAS's update the saver's |
| Dot.DotGemm | include/mshadow/tensor_expr_engine-inl.hpp:338-357 | for all four transpose combinations, any strides and the three savers, dst becomes saver(dst, scale op(lhs) op(rhs)), padding untouched, exactly when the shapes fit |
| Dot.DotGemv | include/mshadow/tensor_expr_engine-inl.hpp:358-370 | the same for a vector times a matrix, transposed or not |
| Dot.DotGer | include/mshadow/tensor_expr_engine-inl.hpp:371-383 | what the outer product stores: the overwriting saver accumulates |
| Dot.OuterKeepsPromiseIff | include/mshadow/tensor_expr_engine-inl.hpp:371-383 | the outer product stores what the saver promises exactly when the saver is not the overwriting one or the old element is zero |
| Dot.OuterAccumulates | include/mshadow/tensor_expr_engine-inl.hpp:371-383 | assigning the outer product 1 to an element that held 5 stores 6 |
| Reduce.BroadcastIndexIsCoordinate | include/mshadow/tensor_expr_ext.h:609-635 | a broadcast reads the element at the cell's coordinate in the kept dimension |
| Reduce.ReduceVisitsOnce | include/mshadow/tensor_cpu-inl.hpp:132-144 | a reduction visits every cell with the kept coordinate exactly once, and no other |
| Reduce.BroadcastReduceAdjoint | include/mshadow/tensor_expr_ext.h:591-635 | summing over all dimensions but k is the adjoint of broadcasting along k |
| Reduce.MapReduceKeepLowest | include/mshadow/tensor_cpu-inl.hpp:99-116 | the loops store the scaled fold of each column and nothing else; they run exactly when the sizes agree and there is a row |
| Reduce.MapReduceKeepHighDim | include/mshadow/tensor_cpu-inl.hpp:118-145 | the loops store the scaled fold of all cells with the kept coordinate and nothing else |
| Reduce.ReductionsSum | include/mshadow/tensor_base.h:245-256 | with the sum reducer both forms are the sum |
| Reduce.ReductionsMax | include/mshadow/tensor_base.h:258-274 | with the maximum reducer both forms are the greatest element |
| Reducers.FoldIsMax | include/mshadow/tensor_base.h:258-274 | folding with the maximum reducer gives the least upper bound of start value and data |
| Reducers.FoldNested | include/mshadow/tensor_cpu-inl.hpp:133-142 | folding a partial fold that already holds the start value into the accumulator folds its data |
| TensorHeap.Heap.AlignedMallocPitch | include/mshadow/tensor_sse-inl.hpp:26-39 | the pitch is the requested bytes rounded up to 16, and pitch times lines are live |
| TensorHeap.Heap.AlignedFree | include/mshadow/tensor_sse-inl.hpp:44-50 | a live block is freed once: what is live is what was allocated and not freed |
| TensorHeap.Heap.AllocSpace | include/mshadow/tensor_cpu-inl.hpp:14-25 | the block holds rows of the returned stride, which is at least the width |
| TensorContainer.Container.Resize | include/mshadow/tensor_container.h:62-74 | the view has the new shape and fits; nothing is allocated or freed when rows and columns both fit the capacity |
| TensorContainer.Container.AllocByShape | include/mshadow/tensor_container.h:135-148 | the old block is freed, a new one owned, and the view fits it |
| TensorContainer.Container.FreeSpace | include/mshadow/tensor_container.h:129-134 | the owned block, if any, is freed and the container owns none |
| TensorContainer.Container.SetPad | include/mshadow/tensor_container.h:85-87 | only the padding flag changes |
| TensorContainer.Container.LoadBinary | include/mshadow/tensor_container.h:103-109 | the container then holds the tensor read from the stream, and the temporary is freed |
| TensorContainer.Container.OfShape | include/mshadow/tensor_container.h:39-43 | a container of a shape owns a block its view fits in |
| TensorContainer.Container.Destroy | include/mshadow/tensor_container.h:55-57 | destruction frees the owned block |
| TensorContainer.Copy | include/mshadow/tensor_cpu-inl.hpp:41-49 | copying row by row makes the contents equal whatever the strides |
| TensorContainer.ElementsApart | include/mshadow/tensor_container.h:128-148 | in a view that fits, in-range indices have addresses in the block, and different ones differ |
| TensorContainer.ResizeBeside | include/mshadow/tensor_container.h:62-74 | resizing one container leaves a container of another block as it was |
| TensorHeap.FreedSince | include/mshadow/tensor_container.h:128-148 | when as much is live as before, the blocks allocated since, and no others, were freed since |
| TensorContainer.Lifetime | include/mshadow/tensor_container.h:27-109 | construction, any sequence of Resize, set_pad and LoadBinary, and destruction: before and after each operation the view fits in live storage the container owns, each operation does to shape, padding and live blocks what it should, and in the end the blocks allocated, and no others, have been freed, each once |
| TensorIO.SaveLoadRoundTrip | include/mshadow/tensor_io.h:91-123 | loading what was saved gives the same tensor and leaves exactly the bytes that followed |
| TensorIO.StreamRoundTrip | include/mshadow/tensor_io.h:91-123 | any number of tensors written to one stream, empty ones included, read back in order |
| TensorIO.SaveBinary | include/mshadow/tensor_io.h:91-98 | the bytes appended depend on the contents only, not on the stride |
| TensorIO.LoadBinary | include/mshadow/tensor_io.h:109-123 | the memory then holds the contents read, or the load fails where a read does |
| Regex.ParseOfText | include/gtest/gtest-all.cc:8468-8518 | every regex of the grammar parses to itself |
| Regex.TextOfParse | include/gtest/gtest-all.cc:8468-8518 | a parsed regex prints back to its text, and its items are well formed |
| Regex.ValidateRegex | include/gtest/gtest-all.cc:8468-8518 | the validator accepts exactly the regexes of the grammar |
| Regex.AtomMatchesItsChars | include/gtest/gtest-all.cc:8433-8457 | the dot denotes every character but newline and any other plain character itself; \d, \w, \s the ten digits, the letters, digits and underscore, the six white space characters, \D, \W, \S their complements; \f, \n, \r, \t, \v one character each; escaped punctuation itself; nothing else |
| Regex.ValidEscapeIff | include/gtest/gtest-all.cc:8427-8429 | the supported escapes are punctuation, by ASCII ranges, and the eleven letters |
| Regex.MatchRegexAtHead | include/gtest/gtest-all.cc:8557-8585 | the backtracking matcher terminates and holds exactly when some head of the string is in the language, all of it if the regex ends in $ |
| Regex.MatchRepetitionAndRegexAtHead | include/gtest/gtest-all.cc:8528-8552 | it holds exactly when some number of repetitions leaves a string whose head the rest matches |
| Regex.MatchRegexAnywhere | include/gtest/gtest-all.cc:8594-8607 | it holds exactly when some substring is in the language, respecting both anchors |
| Regex.RE.constructor | include/gtest/gtest-all.cc:8627-8658 | the pattern is valid exactly when it parses, and the full pattern has a ^ in front and a $ behind |
| Regex.RE.PartialMatch | include/gtest/gtest-all.cc:8622-8624 | a valid regex matches exactly when a substring is in its language |
| Regex.RE.FullMatch | include/gtest/gtest-all.cc:8616-8618 | a valid regex matches exactly when the whole string is in its language, or a head of it when it ends in an escaped dollar |
| Regex.FullTextParses | include/gtest/gtest-all.cc:8638-8657 | the text with the added anchors parses to the regex with the added anchors |
| Regex.FullMatchIsWholeIff | include/gtest/gtest-all.cc:8654-8655 | full match decides the language for every string exactly when the regex does not end in an escaped dollar |
| Regex.EscapedDollarMatchesMore | include/gtest/gtest-all.cc:8654-8655 | as a full match, `\$` accepts `$a` |
| Brackets.FindEndOfExpressionInLine | tool/cpplint.py:1385-1460 | the scan of one line returns the position, the failure or the stack that its step rule gives, angle brackets and operators included |
| Brackets.FindStartOfExpressionInLine | tool/cpplint.py:1507-1581 | the same for the backward scan |
| Brackets.CloseExpression | tool/cpplint.py:1463-1504 | the search over lines with a carried stack returns the place its rule gives |
| Brackets.ReverseCloseExpression | tool/cpplint.py:1584-1619 | the same backward |
| BracketWords.RunIsBracketWord | tool/cpplint.py:1398-1460 | scanning from an opening bracket closes just past e characters exactly when they are one balanced bracketed word |
| BracketWords.BackwardIsRun | tool/cpplint.py:1523-1581 | the backward scan is the forward scan of the mirrored text |
| BracketWords.ForwardIsWord | tool/cpplint.py:1385-1460 | the forward scan from p ends just past q exactly when the text between is one bracketed word |
| BracketWords.BackwardIsWord | tool/cpplint.py:1507-1581 | the backward scan from q ends at p exactly then too |
| BracketLines.CloseIsOneScan | tool/cpplint.py:1490-1504 | the line-by-line search agrees with one scan of the joined text |
| BracketLines.ReverseCloseIsOneScan | tool/cpplint.py:1605-1619 | the same backward |
| BracketLines.CloseIsBracketWord | tool/cpplint.py:1463-1504 | the search over lines ends just past a place exactly when the text up to it is one bracketed word |
| BracketLines.ReverseCloseIsBracketWord | tool/cpplint.py:1584-1619 | the same for the backward search |
| BracketLines.CloseAndReverseAreInverse | tool/cpplint.py:1463-1619 | forward and backward search are inverses of each other |
| AngleBrackets.CloseIsRoundWord | tool/cpplint.py:1463-1504 | on any lines: from ( [ or { the search ends just past a place exactly when the text up to it, angle brackets taken for spaces, is one bracketed word, whatever shifts, arrows and operators there are |
| AngleBrackets.ReverseCloseIsRoundWord | tool/cpplint.py:1584-1619 | the same for the backward search from ) ] or } |
| AngleBrackets.SearchesAreInverse | tool/cpplint.py:1463-1619 | on any lines the two searches undo each other between such brackets |
| AngleBrackets.TemplateCloses | tool/cpplint.py:1398-1581 | over balanced text, template lists included and free of shifts, arrows and operator names, the forward scan goes from its first bracket to its last and the backward scan back |
| AngleBrackets.TemplateListFound | tool/cpplint.py:1463-1619 | both searches find the other end of a template list, except that forward a list that begins with = is taken for a comparison |
| AngleBrackets.ArrowsAndShifts | tool/cpplint.py:1402-1550 | arrows and shifts leave the stack alone in both directions |
| AngleBrackets.EndsInOperatorIff | tool/cpplint.py:1411-1413 | the name of an operator function is the word operator, not inside another word, and white space |
| AngleBrackets.OperatorLessIgnored | tool/cpplint.py:1411-1413 | a < behind such a name is skipped |
| AngleBrackets.OperatorGreaterIgnoredIff | tool/cpplint.py:1434-1447 | a > behind such a name is skipped by the forward scan exactly when white space stands before it, and by the backward scan always |
| AngleBrackets.OperatorGreaterCloses | tool/cpplint.py:1440-1445 | in `<operator>()>` the forward scan closes the list at the name |
| NestingStates.NestingState.UpdatePreprocessor | tool/cpplint.py:2322-2376 | the effect of a directive on stack and checkpoints |
| NestingStates.NestingState.CountParentheses | tool/cpplint.py:2403-2424 | parentheses and inline assembly of the innermost block |
| NestingStates.NestingState.ConsumeNamespaces | tool/cpplint.py:2426-2444 | the namespaces declared in front are pushed, the rest of the line remains |
| NestingStates.NestingState.ConsumeBraces | tool/cpplint.py:2504-2541 | braces, semicolons and closing parentheses act on the stack in order |
| BraceRules.BalancedLeavesStack | tool/cpplint.py:2504-2541 | text with balanced braces leaves a stack whose innermost block is open as it was |
| BraceRules.BodyClosesBlock | tool/cpplint.py:2504-2541 | a class or namespace head is taken off when its balanced body closes, and a declaration at its semicolon |
| BraceRules.ParenthesesAddUp | tool/cpplint.py:2403-2410 | over any number of lines the count of the innermost block grows by the net of their parentheses, and no other block changes |
| BraceRules.AsmUntilClosed | tool/cpplint.py:2411-2424 | a block of inline assembly lasts until its parentheses are closed, and ends on the line that closes them |
| BraceRules.NamespacesInOrder | tool/cpplint.py:2426-2444 | any number of namespace heads at the front of a line are pushed in order, and exactly the rest of the line remains |
| NestingStates.NestingState.Update | tool/cpplint.py:2379-2541 | one line: the directive first, then the line rules |
| NestingStates.UpdateAll | tool/cpplint.py:2379-2541 | every line of a file in turn is a run of the step function |
| NestingStates.ElseBranchesLeaveNoTrace | tool/cpplint.py:2322-2376 | for any lines, nested or stray directives included: the stack outside every #else is what the line rules alone make of the lines outside every #else and #elif branch |
| NestingStates.StackOfWholeFile | tool/cpplint.py:2332-2338 | once every conditional is closed, the whole state is that of a run without the #else branches and without checkpoints |
| NestingStates.EveryBranchStartsAtIf | tool/cpplint.py:2347-2358 | each branch starts from the stack before its #if, whatever the branch before it did |
| NestingStates.EnclosedKeepsCheckpoints | tool/cpplint.py:2343-2376 | lines that close the conditionals they open leave all earlier checkpoints as they were |
| LineForms.DirectivesAre | tool/cpplint.py:2343-2364 | a line opens a conditional exactly when it is white space, #, white space, one of if, ifdef, ifndef, and then the end or no word character; the same for else and elif, and for endif |
| LineForms.ElseBranchesVanish | tool/cpplint.py:2343-2376 | from any state, a whole conditional ends in the state that it ends in with its #else and #elif branches left out, the lines told by their text alone |
| LineForms.BareColonIff | tool/cpplint.py:2091-2094 | a class is taken for derived exactly when the line has a colon with no colon beside it |
| LineForms.AccessLabelIs | tool/cpplint.py:2483-2490 | the access of a line is the word of the last access label on it |
| LineForms.OpensAsmIff | tool/cpplint.py:480-483 | a line opens inline assembly exactly when it is of that form |
| LineForms.OpensExternCIff | tool/cpplint.py:2517-2518 | a brace opens an extern block exactly behind extern and a quoted text |
| ClassHeads.ClassHeadIff | tool/cpplint.py:2450-2454 | a class head is found at the front of a text exactly when a perhaps templated class or struct with decorations and a name stands there; what is found is one, and its name is not cut short |
| TestFilter.PatternMatchesIsLanguage | include/gtest/gtest-all.cc:1924-1939 | the recursive wildcard matcher decides the language of the pattern |
| TestFilter.MatchesFilter | include/gtest/gtest-all.cc:1941-1960 | a name matches a filter exactly when one of its colon-separated patterns does |
| TestFilter.DeathFilterMeans | include/gtest/gtest-all.cc:1639-1642 | death test cases are exactly the names that end in DeathTest or contain DeathTest/ |
| TestSelection.FilterMatchesTest | include/gtest/gtest-all.cc:1964-1990 | a test is selected by the filter flag exactly when its full name is in the part before the first dash, everything if that is empty, and not in the part behind it |
| TestSelection.DisableFilterMeans | include/gtest/gtest-all.cc:1637 | disabled are exactly the names that begin with DISABLED_ or contain /DISABLED_ |
| TestSelection.MarkTests | include/gtest/gtest-all.cc:5956-5987 | a test is marked exactly when it can run and its number, the count of tests before it that can, is on the shard |
| TestSelection.OneShardEach | include/gtest/gtest-all.cc:5928-5930 | every test that can run is on exactly one of the shards |
| TestSelection.ShareIs | include/gtest/gtest-all.cc:5928-5930 | the shards get equal shares of the tests, up to one |
| TestSelection.MarkedShare | include/gtest/gtest-all.cc:5949-5989 | as many tests are marked as the shard has numbers among those that can run |
| TestRegistration.CaseNamesAre | include/gtest/gtest-all.cc:5657-5690 | the registered test cases are those of the registrations |
| TestRegistration.Registered | include/gtest/gtest-all.cc:5676-5688 | inserting a new test case behind the death tests or at the end keeps the vector at the registered names, death tests first, each kind in order of registration |
| Shuffle.Random.Generate | include/gtest/gtest-all.cc:1775-1789 | the next number of the generator, below the range |
| Shuffle.ShuffleRange | include/gtest/gtest-all.cc:711-729 | the in-place loop computes the shuffle of the range from the generator's state |
| Shuffle.ShuffledRearranges | include/gtest/gtest-all.cc:711-729 | a shuffle rearranges its range and touches nothing else |
| FisherYates.ShuffleIsDraw | include/gtest/gtest-all.cc:711-729 | the shuffled range is the draw without replacement that the generator's numbers, each modulo what is left, select, filled in from the last place down |
| FisherYates.LastIsFirstNumber | include/gtest/gtest-all.cc:722-728 | the last place of the range holds the element that was at begin + (first number modulo the width) |
| FisherYates.DrawnAt | include/gtest/gtest-all.cc:722-728 | counted from the last, place k holds the element that selection k points at among those left then |
| FisherYates.EachRearrangementOnce | include/gtest/gtest-all.cc:711-729 | every rearrangement of distinct elements is drawn by exactly one sequence of selections with the k-th below its width |
| FisherYates.ShufflesOfThree | include/gtest/gtest-all.cc:1775-1789 | three elements in order come out as 2, 1, 0 for seed 1 and as 0, 2, 1 for seed 3 |
| FisherYates.NextStateInjective | include/gtest/gtest-all.cc:1775-1789 | the generator never merges two states |
| TestOrder.TestCase.AddTestInfo | include/gtest/gtest-all.cc:3907-3910 | a new test is listed and indexed last, and the indices stay a permutation |
| TestOrder.TestCase.Run | include/gtest/gtest-all.cc:3913-3930 | runs each test that should run once, and no other, in the order of the indices |
| TestOrder.TestCase.FilterTests | include/gtest/gtest-all.cc:5951-5987 | the tests are marked as the selection says, the test case is to run exactly when one of them is, and both counters go on |
| TestOrder.TestCase.ShuffleTests | include/gtest/gtest-all.cc:3947-3949 | the indices stay a permutation, shuffled from the generator's state |
| TestOrder.TestCase.UnshuffleTests | include/gtest/gtest-all.cc:3952-3956 | the indices are in order again |
| TestOrder.UnitTestImpl.GetTestCase | include/gtest/gtest-all.cc:5657-5690 | an old name finds its test case; a new one is inserted after the death tests or appended, so that the vector is the registered names, death tests first, each group in order of registration |
| TestOrder.UnitTestImpl.AddTestInfo | include/gtest/gtest-all.cc:1055-1075 | after every registration the test cases and their tests are those of all registrations so far, in order |
| TestOrder.UnitTestImpl.FilterTests | include/gtest/gtest-all.cc:5939-5990 | the tests of all test cases are marked as the selection says, nothing else changes, and the number of marked tests comes back |
| TestOrder.UnitTestImpl.ShuffleTests | include/gtest/gtest-all.cc:6085-6097 | death tests and others are shuffled among themselves, and then the tests inside each test case, all determined by the generator's state |
| TestOrder.UnitTestImpl.UnshuffleTests | include/gtest/gtest-all.cc:6100-6107 | all indices are in order again |
| TestRounds.ShuffledCasesPartition | include/gtest/gtest-all.cc:6086-6091 | the indices stay a permutation with the death tests in front |
| TestOrder.UnitTestImpl.RunAllTests | include/gtest/gtest-all.cc:5739-5832 | in every one of any number of rounds each test case has one turn, in which each of its selected tests and no other runs once, death tests first, in an order of test cases and tests that the round's own seed determines; then registration order is back |
| TestOrder.RunTestProgram | include/gtest/gtest-all.cc:5657-5832 | from any list of registrations to rounds: the test cases are those registered, death tests first, with their tests in order; every round runs the selected tests once each |
| TestRounds.EveryTestRunsOnce | include/gtest/gtest-all.cc:5797-5800 | in a round every test case has exactly one turn, and in it each test that should run runs exactly once |
| TestOrder.AccessorsAgreeIff | include/gtest/gtest-all.cc:987-998 | the read-only and the mutable accessor give the same order exactly while nothing is shuffled |
| TestOrder.AccessorsDisagree | include/gtest/gtest-all.cc:987-998 | with two test cases in the order b, a, one accessor gives a first and the other b |
| TestRegistration.RegisterDeathKeepsOrderIff | include/gtest/gtest-all.cc:5676-5688 | in a shuffled state with death tests first, registering a death test case leaves the running order with death tests first exactly when the index behind them is its own, or there is none |
| TestRegistration.RegisterDeathLosesOrder | include/gtest/gtest-all.cc:5676-5688 | with A and B in the order B, A, the death test case XDeathTest comes second |
| TestRounds.GetRandomSeedFromFlag | include/gtest/gtest-all.cc:536-547 | the seed is in 1 to 99999 |
| TestRounds.FlagIsSeed | include/gtest/gtest-all.cc:536-547 | a flag in the range is the seed, any other is counted on from there |
| TestRounds.SeedAfterIs | include/gtest/gtest-all.cc:550-561 | the seed of every round, counted round the range of seeds |
| TestRounds.SeedsDiffer | include/gtest/gtest-all.cc:550-561 | two rounds have the same seed exactly when their distance is a multiple of the range |
| Utf8.CodePointToUtf8 | include/gtest/gtest-all.cc:2920-2946 | the bytes of one value, in 1 to 4 bytes, or the note for a value of more than 21 bits |
| Utf8.HexReadsBack | include/gtest/gtest-all.cc:2920-2923 | the digits in the note are those of the value, without zeros in front |
| Utf8.SurrogatePairIff | include/gtest/gtest-all.cc:2955-2969 | two 16-bit units are a pair exactly when the first is in D800 to DBFF and the second in DC00 to DFFF, and which code point they stand for |
| Utf8.WideStringToUtf8 | include/gtest/gtest-all.cc:2984-3005 | the loop encodes the code points of the units up to NUL or the limit, surrogate pairs combined for two-byte characters |
| Utf8.DecodeEncodeAll | include/gtest/gtest-all.cc:2920-2946 | the decoder of RFC 3629, section 3, reads back what every value shows as, code points or not |
| Utf8.RoundTripIff | include/gtest/gtest-all.cc:2894-2946 | values come back as themselves exactly when each is a nonzero code point of at most 21 bits |
| Utf8.EncodeDecoded | include/gtest/gtest-all.cc:2884-2891 | every byte string the decoder accepts is the encoding of what it reads |
| Utf8.Utf16CodePoints | include/gtest/gtest-all.cc:2955-2969 | the code points of UTF-16 text, section 2.1 of RFC 2781, are the text |
| Utf8.UnitsAre | include/gtest/gtest-all.cc:2984-2993 | what is processed is the longest head of the string that has no NUL and is within the limit |
| Utf8.UnitsAreTextIff | include/gtest/gtest-all.cc:2984-2993 | text without NUL is all that is processed of a string it begins exactly when it ends there: at the limit, at NUL or at the end |
| Utf8.WideRoundTrip | include/gtest/gtest-all.cc:2984-3005 | text in four-byte or two-byte wide characters comes back whole, whatever follows it behind a NUL or past the limit |
| Cdata.OutputXmlCDataSection | include/gtest/gtest-all.cc:4730-4747 | the segment loop terminates and prints each segment in a section of its own |
| Cdata.ReadBody | include/gtest/gtest-all.cc:4734-4746 | from inside the section, what is printed reads as the data |
| Cdata.PrintedReadsBack | include/gtest/gtest-all.cc:4730-4747 | reading the output by sections 2.4 and 2.7 of XML 1.0 gives every string back, overlapping runs of ] before > included |

## Left out

- Index width: `index_t` is an unbounded natural number here; the 32-bit wrap-around of sizes and addresses is not modelled.
- Rounding: `real_t` is an exact real; the initial value of the maximum reducer is a parameter that bounds the data from below.
- Dot.Gemm, Dot.Gemv and Dot.Ger: the Level 2 and Level 3 BLAS meaning taken as the reference; the BLAS library itself is not modelled. They ask, as BLAS does, for leading dimensions of at least 1 and at least the stored column.
- The SSE plans, the GPU code, `Softmax` and the transcendental operators.
- Soundness.ReadsInBounds: asks for what the code never checks: nonzero strides where it divides by them, nonzero widths, a crop start that fits; `Limits` says what happens without the last two.
- Assertions that fail end the program there; here they make a method return false or an expression be rejected.
- The sizes a default-constructed container leaves unset are arbitrary parameters, as is the width of its capacity.
- The copy of a `TensorContainer` that C++ generates, which would share the block, is not modelled.
- `memalign` of 0 bytes is taken to give a block like any other.
- Reshaping a scalar expression, which the templates do not instantiate, is rejected.
- The convenience forms `repmat`, `sum_rows` and `mirror` beyond its index map.
- Brackets: lines are strings of single characters; the searches for the word operator and for `>=` are modelled, the comment and string stripping before them is not.
- BracketLines.CloseIsBracketWord: for lines without angle brackets; `AngleBrackets.CloseIsRoundWord` has it for all lines.
- AngleBrackets.TemplateCloses: one direction, since an angle bracket without a partner is taken for an operator and the text is then no template list.
- NestingStates: whether a class head stands in a template argument list, which the script decides by looking at later lines, is an input of a line; blocks are values, because the script copies stacks deeply wherever two would share a block; `previous_stack_top`, line numbers and the reports are not modelled.
- Regex: a string is a sequence of characters without NUL, shorter than the largest `size_t`; the messages of the validator are not modelled.
- TestOrder: environments, listeners, results and time; a negative repeat count, which never stops, is not modelled; a test only reports that it ran; the shard is a parameter, not read from the environment.
- TestSelection: a test is a value with a name and a mark, in a list that the test case reassigns.
- Utf8: the bit operations are written as division and remainder by powers of two.
- Cdata: the characters XML forbids altogether, which the caller removes, are ordinary characters here.
- gtest's death-test processes, paths, environment and coloured output; `api/`, `web/`, `msg.h` and `socket.h`; the rest of the lint script's style checks.
