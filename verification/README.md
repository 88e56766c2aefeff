# A model of the optimizer and of parts of elaboration

This project models, in Dafny, three parts of the Verilog compiler and proves what each of
them is for. Check it with `dafny verify dfyconfig.toml`.

**Constant propagation.** `Netlist.dfy` gives netlists a meaning: devices whose pins meet in
nexuses, and a settled state in which every nexus carries what its drivers resolve to, for every
behaviour of the variable drivers (ports, processes, gates). Two netlists are equivalent if each
settled state of one is matched by a settled state of the other under the same behaviour with
the same value at every observable nexus: one with a signal named in the source or read by an
expression, or with a port of a root module. `Rewrites.dfy`, `Folding.dfy`, `PartMerge.dfy` and
`Dangling.dfy` prove the rewrites equivalent, `Acyclic.dfy` says what that means for netlists
without loops, `LinkConst.dfy` defines when a nexus is constant, `Drivers.dfy` says what a driver
must be able to do for it not to be, `PulledPorts.dfy`, `Switches.dfy` and `Outdated.dfy` find the netlists in which the optimizer is wrong or misses
something, `Design.dfy` holds the netlist as
the optimizer does, with link lists and the cached guess of every nexus, and answers the queries,
and `Cprop.dfy` is the pass.

**Expression widths.** `Widths.dfy` is the width test as a function of the tree and the mode, and
`WidthTest.dfy` the same as methods of a tree of nodes that overwrite what they recorded.
`ContextSizes.dfy` says what the test finds in terms of the operands that share a context,
`WrapArithmetic.dfy` is arithmetic on low bits, and `Evaluation.dfy` and `LeastWidths.dfy` say what
the widths are good for and which are the least that do. `Shifts.dfy` is the elaboration of shifts.

**Selects, l-values and scopes.** `Selects.dfy` (select l-values), `Parameters.dfy` (selects of
parameters), `Strings.dfy` (constants as strings), `ConcatLval.dfy` (concatenations as
l-values, procedural and continuous), `LvalFlow.dfy` (which way their part selects lead),
`Enumeration.dfy`, `ScopeTree.dfy` (the bound on recursive instantiation) and `Async.dfy` (which
processes are combinational).

`FourState.dfy`, `Numbers.dfy`, `Powers.dfy` and `Wrappers.dfy` hold what the others share.

## What the model assumes

- Substitutions are not circular: they read nexuses of a lower rank (`LinkConst.Ranked`). All pins
  on a nexus have the widths their devices' constructors give them (`Netlists.NodeOk`).
- Drivers are of equal strength, between supplies (stronger) and the pulls of tri0 and tri1
  (weaker); there are no delays.
- Preservation of meaning is stated for netlists in which no input of a concatenation, select of a
  multiplexer or input of a part select reads a bit whose only driver, directly or through
  substitutions, is an input or inout port of the root module that is declared tri0 or tri1
  (`LinkConst.PortsApart`). That it is needed is shown in the next section. Such ports may be
  present, driven and used in every other way.
- Where the dangling-constant pass meets a bidirectional switch, the nexus is observable
  (`Dangling.Shielded`): a nexus that only the compiler named never has both a switch and a device
  with a constant output. In the source, switches are made for `tran` gates and inout ports
  (elaborate.cc:525-590, elaborate.cc:1138, elaborate.cc:1924, elab_net.cc:112-135,
  elab_net.cc:829-844), whose terminals are names, selects and concatenations of names; numbers are
  refused there (PExpr.cc:67-73), and no other construct was found that would put a constant on a
  local net of a switch. The pass does not check it, and `Switches.DeletionExactly` says what
  depends on it.
- The order in which a scan visits devices is arbitrary. Devices added during a scan are visited
  in the next one.

## Where the code does not do what one would expect

Each is proved from a concrete input, and the exact or a sufficient condition is proved beside it.

- `PulledPorts.PulledPortIsNotConstant`: an input port of a root module declared tri0 is counted as
  the constant 0, since the scan stops at the pull and does not look at the port. In netlists
  without loops, a nexus found constant has its driven vector in all settled states exactly if no
  bit of it has only such a port for a driver, directly or through substitutions
  (`PulledPorts.ConstantExactly`).
- `PulledPorts.FoldLosesPort`, `PulledPorts.BypassLosesPort`: so a named wire that is assigned a
  concatenation of such a port becomes a constant 0, and a multiplexer with such a port for its
  select always passes the same input. Where the concatenation alone drives a nexus that can be
  seen, folding it is right exactly if none of its inputs is read from such a port
  (`PulledPorts.FoldExactly`); likewise for a multiplexer of different constants and its select
  (`PulledPorts.BypassExactly`).
- `Outdated.SubstitutionOutdatesGuess`: a nexus found variable because a substitution reads a
  concatenation is still taken for variable after that concatenation has been folded, so that what
  has become constant is not folded. In netlists without substitutions the rewriting ends with
  nothing left to fold, bypass or merge (`Cprop.Rewrite`).
- `Evaluation.MinimumIsPrunedWrongly`, `Evaluation.MagnitudeIsPrunedWrongly`: min, max and abs do
  not disable width pruning, although they depend on the higher bits: `min(a + 1, b)` assigned to
  one bit is evaluated on two bits, where a + 1 wraps around, and `abs(a + 2)` assigned to three bits
  on four, where 9 is negative. Pruning is right wherever it changes no choice between operands,
  or between an operand and its negation (`Evaluation.PruningKeepsContext`), as when the operands of
  the choices fit the pruned width (`Evaluation.ChoicesKept`); for an outermost choice it is right
  exactly then, or if both alternatives have the same low bits (`Evaluation.ChoicePrunedExactly`,
  `Evaluation.MagnitudePrunedExactly`).
- `Widths.ReductionDoublesTests`: a node under a reduction or in a shift can be tested more than
  twice. It is tested two to the power n times, where n counts the stretches between self-determined
  operands on the way to it that retest (`Widths.VisitsExactly`).
- `LeastWidths.WideNumberIsNarrowed`: where the count of a left shift is not constant, the lossless
  width is limited to that of an integer even if the left operand is wider: a 40-bit number without a
  length shifted by a net gets 32 bits. A left shift is narrower than its left operand exactly
  then (`LeastWidths.NarrowedExactly`), and its width holds all the counts assumed possible
  exactly if the left operand has no length and the limit does not apply, or the only count is 0
  (`LeastWidths.LeftShiftExactly`).
- The comment in PExpr.h says that an unsized literal makes the mode LOSSLESS unless widths follow
  the standard strictly; the code does so only for literals at least as wide as an integer and
  otherwise sets UNSIZED. The model follows the code.
- `Enumeration.OneSignedBitWraps`: in a signed enumeration of one bit, 0 is followed by -1 with no
  overflow error; in all others an inferred value is its predecessor plus one.
- `Selects.VectorLaw`: `x[b-:w]` with w > 1 on a range of one bit places the bits as if the range
  ascended, while everything else takes it to descend. `Selects.LawfulIffMisses` is the exact
  condition for any number of dimensions.
- `Selects.PartSpillsIntoNextSlice`: a part select of the innermost packed dimension that leaves its
  slice writes the neighbouring slice; bits are dropped only outside the whole vector.
- `Selects.NetAssign.ElaborateSlices`: a part select of an outer packed dimension fails an internal
  assertion if one of its ends is not declared, and is accepted with its ends reversed, while a
  reversed part select of the innermost dimension is an error. The outer indices before it are not
  checked (`Selects.SlicesLaw`).
- `Parameters.StringsArePadded`: a part select beyond the top of a string parameter gives zeros, and
  one of whole bytes gives zeros below it too, while a bit select gives x there and the warnings say
  that x is put in (elab_expr.cc:4560-4584). A part select of a string is the concatenation of its
  bits exactly if it stays within these bounds (`Parameters.StringsConcatenateIff`).
- `ConcatLval.SumIsSkipped`: an expression that cannot be assigned, such as the sum in
  `{a, b + c} = x`, is reported but not counted as an error when it stands in a procedural
  concatenation, and the assignment is compiled as if it were not there. No error is counted although
  something is at fault exactly if such operands are the only fault (`ConcatLval.UncountedExactly`).
- `ConcatLval.RepeatIsDropped`: a gate whose output is `{2{a}}` or an expression of another kind is
  dropped without an error being counted (elab_net.cc:51-55, PExpr.cc:59-65, elaborate.cc:734-742);
  inside a concatenation both are counted (`ConcatLval.LnetUncountedExactly`).
- `Async.EmptyItemHidesGuard`: a case item without a statement is skipped together with its guard
  when inputs are collected, so a process that does not sense the guard is taken to be
  asynchronous. Apart from the body's own outputs, such guards are all that can be read and not
  sensed (`Async.SensesReadsExactly`). `Async.EarlyReadIsNotSensed`: likewise for a variable that is
  read before the body assigns it.

## Model

| member | source | states |
|---|---|---|
| Designs.Design.DriversConstant | link_const.cc:30-135 | True only for nexuses that nothing variable drives; known guesses stay right; while no guess is outdated the answer is exact (VariableDrivers.ConstantUnlessUnsteady says when it is false), and a second query changes nothing |
| Designs.Design.ScanLinks | link_const.cc:38-121 | The loop counts exactly the constant drivers, or has met a variable one, looking through substitutions |
| Designs.Design.DrivenValue | link_const.cc:137-205 | Bit 0 of the driven vector, or z when a substitution drives the nexus; a second driver is never met |
| Designs.Design.DrivenVectorOf | link_const.cc:208-267 | Exactly the vector that the one constant driver, through chains of substitutions, puts on the nexus; its assertions on a second driver never fail |
| Designs.Design.VectorWidth | net_link.cc:460-471 | The width found on the first signal is the nexus width |
| Designs.Design.constructor | netlist.h:430 | A netlist as elaboration leaves it, with no guess cached |
| Designs.Design.AddNode | net_link.cc:60-73 | Connecting a device, of whatever kind, keeps the link lists exact and forgets the guess of every nexus it may drive |
| Designs.Design.DeleteNode | net_link.cc:386-428 | Deleting a device, or a signal that is not the last one on its nexus, unlinks all its pins and forgets the guesses of the nexuses it may have driven |
| Designs.Design.MakeConstZ | netmisc.cc:797-809 | A new nexus with a local wire and a constant z |
| Designs.AnsweredSound | link_const.cc:32-35 | Every interleaving of queries leaves only right guesses |
| Designs.AnsweredExact | link_const.cc:32-35 | With no outdated guess, a query decides constancy exactly and leaves no outdated guess |
| Designs.RewrittenSound | link_const.cc:32-36 | Guesses stay right across rewrites that keep the drivers of constant nexuses |
| Designs.RewrittenCurrent | link_const.cc:32-36 | Without substitutions, guesses that are kept stay what a scan would find, wherever the drivers are kept |
| Outdated.SubstitutionOutdatesGuess | link_const.cc:32-72 | With a substitution, a fold leaves a nexus taken for variable that has become constant, and the concatenation of it unfolded |
| LinkConst.ConstantSound | link_const.cc:208-267 | In every settled state a constant nexus carries its driven vector if no bit has only a pulled port of the root module for a driver |
| VariableDrivers.VariableExactly | link_const.cc:38-110 | A pin counts as variable if and only if it is that of a switch, or some behaviour of the variable drivers and some inputs make its device put a value other than z there that is not fixed: by a constant, a substitution or a pull |
| VariableDrivers.ConstantUnlessUnsteady | link_const.cc:30-135 | A nexus is constant unless it has a switch, a driver that may vary or two fixed drivers, directly or at an operand of a substitution, and only then |
| LinkConst.ConstantBit | link_const.cc:208-267 | Likewise for each bit by itself |
| LinkConst.ConstantFrame | link_const.cc:30-135 | A nexus stays constant when only drivers of nexuses that are not constant change |
| LinkConst.DrivenVectorFrame | link_const.cc:208-267 | It then keeps its driven vector |
| PulledPorts.ConstantExactly | link_const.cc:30-135 | Without loops, a nexus found constant is so, with its driven vector, if and only if no bit has only a pulled port of the root module for a driver |
| PulledPorts.PulledPortIsNotConstant | link_const.cc:86-103 | A tri0 input of a root module is judged constant 0 and yet can be 1 |
| PulledPorts.FoldExactly | cprop.cc:81-123 | Without loops, where the concatenation alone drives an observable nexus, folding it preserves observable values if and only if none of its inputs is read from a pulled port |
| PulledPorts.FoldLosesPort | cprop.cc:81-123 | A named wire that folding makes constant although a port drives it |
| PulledPorts.BypassExactly | cprop.cc:151-194 | Likewise for a multiplexer of different constants and its select |
| PulledPorts.BypassLosesPort | cprop.cc:151-194 | A named wire that the buffer makes constant although a port selects its value |
| Netlists.EquivalentTransitive | cprop.cc:429-447 | Preserving observable values composes over any sequence of rewrites |
| Rewrites.ReplaceSettled | cprop.cc:106-122 | Replacing devices by one that drives the same values keeps exactly the settled states |
| Rewrites.FloatingEquivalent | netmisc.cc:797-809 | Adding a floating nexus preserves observable values |
| Folding.FoldConcatEquivalent | cprop.cc:81-123 | Replacing a concatenation of constants, none read from a pulled port, by the constant preserves observable values |
| Folding.BypassMuxEquivalent | cprop.cc:151-194 | Replacing a multiplexer with a defined constant select, not read from a pulled port, by a buffer preserves observable values |
| PartMerge.AdjacentImpliesDisjoint | cprop.cc:253-268 | For parts in order, no overlap of neighbours implies no overlap at all |
| PartMerge.TailBoundsAll | cprop.cc:270-281 | The test of the last part bounds all of them |
| PartMerge.LayoutCount | cprop.cc:283-296 | The number of inputs does not depend on which nexuses fill the gaps |
| PartMerge.LayoutCovers | cprop.cc:304-322 | The connected inputs cover the target bit by bit, parts with their sources and gaps with floating nexuses |
| PartMerge.MergeEquivalent | cprop.cc:298-327 | One concatenation in place of the part selects preserves observable values |
| Cprop.ChecksDecide | cprop.cc:253-281 | The sorted checks pass exactly if all parts are disjoint and inside the target |
| Cprop.MergeableExactly | cprop.cc:253-281 | Parts are disjoint and inside the target if and only if no bit is in two of them and none beyond the target |
| Cprop.CpropFunctor.LpmConcat | cprop.cc:81-123 | Folds exactly the result described and nothing else, counts it, and with no outdated guess misses no foldable concatenation |
| Cprop.CpropFunctor.DrivenInputs | cprop.cc:81-104 | Whether all inputs are constant, and then the concatenation of their driven vectors |
| Cprop.CpropFunctor.FillIn | cprop.cc:88-104 | The loop over the inputs, with its running offset, decides that and fills the result in |
| Cprop.CpropFunctor.LpmMux | cprop.cc:151-194 | Replaces only a two-way multiplexer whose select has a defined constant value, by a buffer from the selected input |
| Cprop.CpropFunctor.SelectOf | cprop.cc:151-172 | The select value found is the settled one even though substitutions are not looked through |
| Cprop.CpropFunctor.LpmPartSelect | cprop.cc:212-330 | Merges exactly if nothing but at least two disjoint part selects inside the target drives it |
| Cprop.CpropFunctor.FindParts | cprop.cc:221-281 | Collects, sorts and checks: two or more parts are returned exactly if they can be merged |
| Cprop.CpropFunctor.CollectParts | cprop.cc:221-243 | Lists every part select on the nexus once, unless another output is there |
| Cprop.CpropFunctor.SortByBase | cprop.cc:253-254 | A permutation in order of the base |
| Cprop.CpropFunctor.CheckParts | cprop.cc:256-281 | Decides the neighbour and tail checks |
| Cprop.CpropFunctor.CountParts | cprop.cc:283-296 | The counted number of inputs equals the number connected |
| Cprop.CpropFunctor.ConnectParts | cprop.cc:304-322 | Connects exactly the laid out inputs, with a new floating nexus for every gap |
| Cprop.CpropFunctor.MergeThem | cprop.cc:298-329 | The parts on the target give way to one concatenation |
| Cprop.CpropDcFunctor.LpmConst | cprop.cc:349-426 | Deletes exactly the constants that are all z or whose nexus no pin takes input from and no seen signal is on |
| Cprop.Scan | cprop.cc:436 | A scan preserves observable values and uses up a candidate for every counted rewrite; if it counts none, nothing is left to merge, and with current guesses nothing to fold or bypass either |
| Cprop.Rewrite | cprop.cc:433-441 | The loop ends, preserves observable values, and leaves no part selects that could be merged; without substitutions, and starting with no wrong guess, it leaves nothing to fold or bypass either |
| Cprop.CpropPass | cprop.cc:429-447 | The whole pass makes at most as many rewrites as there were candidates and leaves no dangling constant; it preserves observable values if no constant is on an unobservable nexus with a switch and nothing it rewrites reads a pulled port |
| Dangling.DropZEquivalent | cprop.cc:351-366 | Deleting an all-z constant preserves observable values |
| Dangling.DropUnreadEquivalent | cprop.cc:377-425 | Deleting a constant that nothing reads preserves observable values |
| Dangling.NoReasonExactly | cprop.cc:388-420 | The scans keep a constant only if its nexus is observable, is read by a device other than a bidirectional switch, or enables a switch |
| Dangling.DropEquivalent | cprop.cc:349-426 | So does whatever the pass deletes, if no device with a constant output is on an unobservable nexus with a switch |
| Switches.SwitchNeedsConstant | cprop.cc:377-381 | Where a switch leads from the constant's nexus to an observable one without a supply, deleting the constant changes what is seen |
| Switches.DeletionExactly | cprop.cc:349-426 | So if all its switches lead out in that way, the deletion preserves observable values if and only if there are none |
| Switches.SwitchLosesConstant | cprop.cc:377-381 | A netlist in which the pass deletes such a constant |
| Acyclic.AtMostOneState | cprop.cc:429-447 | A netlist without loops, switches that ignore what they read not counted, settles in at most one way for given variable drivers |
| Acyclic.AtLeastOneState | cprop.cc:429-447 | And in at least one |
| Acyclic.EquivalentShowsTheSame | cprop.cc:429-447 | So an equivalent netlist shows the same observable values |
| WidthTest.PExpr.TestWidth | PExpr.h:125-126 | Returns the width and mode of the functional test, every node tested holds the outcome of its last test, and the counts of tests of all nodes grow as described |
| WidthTest.TestedIsVisited | elab_expr.cc:264-283 | What one test of a tree adds to the count of tests of each node is the number of its visits |
| WidthTest.TestsGrow | elab_expr.cc:264-283 | So it adds two to the power of the number of stretches on the way that retest |
| WidthTest.PExpr.TestNumber | elab_expr.cc:5929-5959 | What a number records and the mode it leaves |
| WidthTest.PExpr.TestUnary | elab_expr.cc:6263-6299 | The same for a unary operation; reductions test their operand on its own |
| WidthTest.PExpr.TestOperands | elab_expr.cc:263-283 | Two operands in one context, the first tested again when the second one makes the mode lossless |
| WidthTest.PExpr.TestBinary | elab_expr.cc:259-346 | The outcome of the test of a binary operation |
| WidthTest.PExpr.TestShift | elab_expr.cc:735-890 | The outcome of the test of a shift or power, signed if and only if the left operand is, with the width that LeastWidths.LeftShiftExactly, RightShiftExactly and PowerExactly give |
| WidthTest.PExpr.TestTernary | elab_expr.cc:6042-6100 | The outcome of the test of a conditional, which has the sign, width and mode that ContextSizes.SignExactly, PlainExactly and UpsizedExactly give |
| WidthTest.PExpr.FixWidth | elab_expr.cc:147-155 | The calculated width is returned, the recorded one raised in UPSIZE mode |
| Widths.ModeNeverFalls | elab_expr.cc:264-346 | With strict widths off, a test never lowers the mode |
| Widths.EndsLossless | elab_expr.cc:264-283 | A test that ends lossless gives the same outcome when it starts in the mode it ended in |
| Widths.RetestIsStable | elab_expr.cc:264-283 | Testing again from the final mode gives the same width, minimum width, sign and mode |
| Widths.NoStaleOperand | elab_expr.cc:264-283 | After one retest no operand holds a width of an earlier mode |
| Widths.VisitsExactly | elab_expr.cc:264-283 | A node is tested once, and twice as often for every stretch of the path that retests |
| Widths.TestedAtMostTwice | elab_expr.cc:264-283 | It is tested at most twice if and only if at most one stretch retests, as on any path of context-determined operands |
| Widths.VisitsBound | elab_expr.cc:264-283 | At most two times two to the number of self-determined operands on the path |
| Widths.ReductionDoublesTests | elab_expr.cc:6263-6287 | A node tested four times |
| ContextSizes.SignExactly | elab_expr.cc:6080-6084 | In every mode an expression is signed if and only if all its context-determined operands are: both branches of a conditional, the left operand of a shift, no reduction |
| ContextSizes.PlainExactly | elab_expr.cc:259-346 | From a mode below EXPAND, if no number without a length is too big for an integer, the width is the largest among those operands, a number without a length counting as an integer, and the mode stays what it was if and only if all have lengths |
| ContextSizes.BigMakesLossless | elab_expr.cc:5929-5959 | A number too big for an integer, not under a shift, makes the whole context lossless |
| ContextSizes.SteadyExactly | elab_expr.cc:285-342 | In lossless modes an expression without sums, differences, products and shifts has the largest own width of its operands |
| ContextSizes.MinWidthExactly | elab_expr.cc:285-342 | In every mode the minimum width of an expression that can be pruned is the largest own width of its context-determined operands |
| ContextSizes.UpsizedExactly | elab_expr.cc:6086-6091 | A lossless test ends in UPSIZE if and only if operands of different signs meet, or a right shift has a signed left operand |
| LeastWidths.BinaryLeast | elab_expr.cc:297-342 | In expanding modes the width of a sum, difference, product or bitwise operation is the least that holds all results of signed operands of the widths found |
| LeastWidths.UnsignedHeld | elab_expr.cc:297-342 | It also holds all sums and products of unsigned operands |
| LeastWidths.AssumedExactly | elab_expr.cc:774-819 | The count assumed is the largest that the right operand can have, clipped to the width limit |
| LeastWidths.LeftShiftExactly | elab_expr.cc:826-868 | The width of a left shift holds all counts assumed possible if and only if the left operand has no length and the limit for unknown counts does not apply, or the only count is 0; it is never larger than needed |
| LeastWidths.LeftShiftIsExact | elab_expr.cc:826-868 | Then wrap-around evaluation of the shift at that width or a larger one equals unbounded evaluation |
| LeastWidths.NarrowedExactly | elab_expr.cc:862-868 | A left shift is narrower than its left operand if and only if an unknown count is limited and the operand is wider than an integer |
| LeastWidths.WideNumberIsNarrowed | elab_expr.cc:862-868 | A 40-bit number shifted by a net gets 32 bits |
| LeastWidths.RightShiftExactly | elab_expr.cc:831-840 | The width of a right shift is the least that holds all its values |
| LeastWidths.PowerExactly | elab_expr.cc:842-851 | Where the limit does not apply, the width of a power holds all exponents assumed possible, except for an unsigned operand with the exponent 0 alone |
| Evaluation.EvalIsLow | PExpr.h:79-84 | For local operators, wrap-around evaluation gives the low bits of the unbounded result |
| Evaluation.FittingEvalIsLow | PExpr.h:79-84 | So it does with min, max and abs wherever their unbounded operands fit the width |
| Evaluation.MinWidthSpotsNonLocal | elab_expr.cc:297-342 | The minimum width is UINT_MAX exactly for trees with an operator that is not local, min, max and abs not counted |
| Evaluation.PruneKeepsLowBits | PExpr.h:79-84 | Evaluating at any width from the minimum width on agrees with any wider evaluation on its bits |
| Evaluation.SameChoicesSameBits | elab_expr.cc:482-486 | Two widths at which every min, max and abs makes the same choice agree on all the bits they share |
| Evaluation.PruningKeepsContext | netmisc.cc:846-896 | A pruned right hand side assigns the same bits as an unpruned one if pruning changes no choice of a min, max or abs |
| Evaluation.ChoicesKept | netmisc.cc:846-896 | It changes none if there is none, or if their unbounded operands fit both widths |
| Evaluation.ChoicePrunedExactly | netmisc.cc:846-896 | For an outermost min or max it assigns the same bits if and only if it makes the same choice or both operands have those bits in common |
| Evaluation.MagnitudePrunedExactly | netmisc.cc:846-896 | For an outermost abs it assigns the same bits if and only if the operand is negated at both widths or at neither, or it and its negation have those bits in common |
| Evaluation.DivisionIsNotLocal | elab_expr.cc:320-323 | Division depends on the higher bits |
| Evaluation.MinimumIsPrunedWrongly | netmisc.cc:846-896 | `min(a + 1, b)`, assigned to one bit, is pruned from 32 bits to two and yields 0 instead of 1 |
| Evaluation.MagnitudeIsPrunedWrongly | elab_expr.cc:6294-6299 | `abs(a + 2)`, assigned to three bits, is pruned from 32 bits to four and yields 7 instead of 1 |
| Evaluation.ExactFits | PExpr.h:97-105 | From EXPAND on, the unbounded value of every signed tree fits the width found |
| Evaluation.LosslessWidthIsExact | PExpr.h:97-119 | Wrap-around evaluation at that width or a larger one equals unbounded evaluation |
| Evaluation.NegationIsExactIff | elab_expr.cc:6294-6299 | Negation keeps the width of its operand and is exact except for the least number of that width |
| Evaluation.MagnitudeIsExactIff | elab_expr.cc:6294-6299 | So does abs |
| Shifts.SpecialCasesAreShifts | elab_expr.cc:969-1080 | Every special case of shift elaboration equals the general four-state shift, for all values of the operands |
| Shifts.LeftIsMultiplication | elab_expr.cc:1069-1074 | The general left shift multiplies by a power of two, modulo the width (section 5.1.12 of IEEE 1364-2005) |
| Shifts.RightIsDivision | elab_expr.cc:1069-1074 | The general right shift, signed or not, divides by a power of two rounding down |
| Shifts.ZeroByUndefinedIsX | elab_expr.cc:974-988 | The rule for a constant zero is not applied to a four-state count, where it would be wrong |
| Selects.SbToIdx | netlist.cc:820-856 | The loop from the innermost dimension outwards computes the canonical address |
| Selects.AddressInRange | netlist.cc:820-856 | Declared indices have addresses inside the vector |
| Selects.AddressInjective | netlist.cc:820-856 | Different declared indices have different addresses |
| Selects.IndicesAt | netlist.cc:820-856 | Every address belongs to declared indices |
| Selects.NetAssign.ElaboratePart | elab_lval.cc:804-906 | The part covers the selected bits from the address of the least significant one on; a reversed select is an error |
| Selects.NetAssign.ElaborateIndexed | elab_lval.cc:936-958 | The same for an indexed select with a constant base |
| Selects.PlacedExactly | elab_lval.cc:938-958 | The address given to bit 0 is that of its declared index, save for a downward select on a range of one bit |
| Selects.WriteThenReadBit | elab_lval.cc:872-903 | Writing through a select and reading a declared bit gives the bit written or the old one; bits outside are dropped |
| Selects.LawfulIffContained | elab_lval.cc:872-903 | For a select so placed this holds for all values exactly if no selected bit spills into another slice |
| Selects.LawfulIffMisses | elab_lval.cc:936-958 | For the others it holds exactly if they are empty, or assign no bit of the vector and select none |
| Selects.VectorLaw | elab_lval.cc:936-958 | For a vector of one dimension it holds exactly except for a wide downward select that reaches a range of one bit |
| Selects.PartSpillsIntoNextSlice | elab_lval.cc:868-903 | A part select that writes into the next slice |
| Selects.PrefixToSlice | nettypes.cc:99-155 | The loops compute the first address and the width of a slice, and fail exactly if the last index is outside |
| Selects.NetAssign.ElaborateSlices | elab_lval.cc:850-892 | A part select of an outer dimension covers all slices between its ends, in either order; the assertions hold exactly if both ends are declared |
| Selects.SliceExactly | nettypes.cc:99-155 | The addresses of a slice are those of the bits with its outer indices |
| Selects.SelectedExactly | elab_lval.cc:850-892 | The addresses covered are those of the selected bits, row by row |
| Selects.SlicesLaw | elab_lval.cc:850-892 | Writing and reading back holds for all values exactly if the outer indices are declared or lead outside the vector |
| Parameters.PartSelectBits | elab_expr.cc:4376-4394 | Fetches the bits, x outside a sized value, the extension beyond an unsized one and nulls beyond a string; whole bytes of a string come back as a string |
| Parameters.ElaboratePart | elab_expr.cc:4499-4592 | An error exactly against the range, and otherwise the bits at the addresses of the declared indices |
| Parameters.ElaborateUp | elab_expr.cc:4625-4696 | The same for an upward indexed select |
| Parameters.ElaborateDown | elab_expr.cc:4709-4781 | The same for a downward indexed select |
| Parameters.NumbersConcatenate | elab_expr.cc:4436-4461 | A select of a number is the concatenation of its single bit selects |
| Parameters.StringsConcatenateIff | elab_expr.cc:4376-4400 | A select of a string is so if and only if it ends within the string and, as whole bytes, begins within it |
| Parameters.StringsArePadded | elab_expr.cc:4386-4387 | A part select that gives zeros where the bit selects give x |
| Parameters.SpellingsAgree | elab_expr.cc:4499-4781 | The three spellings of one range of declared indices give identical bits, in either direction |
| Parameters.BeyondTheTop | elab_expr.cc:4376-4394 | What a select gives beyond the top of the value |
| Parameters.ExtensionKeepsInteger | elab_expr.cc:4471-4473 | Reading a number from its lowest bit on with more bits than it has keeps its integer, signed or not |
| Strings.AsString | verinum.cc:522-552 | The loop spells the bytes, most significant first, with octal escapes |
| Strings.ProcessQuotes | verinum.cc:63-111 | The loop reads the characters of a text with escapes, and fails its assertion exactly at a lone backslash at the end |
| Strings.FromString | verinum.cc:115-150 | The loop makes eight bits of every character |
| Strings.SpellingReadsBack | verinum.cc:522-552 | Whatever is printable, a spelling reads back as the bytes |
| Strings.WrittenReadsBack | verinum.cc:63-111 | Any text whose characters are spelled plainly, as newline or tab, quoted or with one to three octal digits reads back as the characters meant |
| Strings.StringRoundTrip | verinum.cc:115-150 | And the bytes give the vector again, with all bits but ones cleared |
| ConcatLval.LvalElaborator.ElaborateLval | elab_lval.cc:96-148 | The chain lists exactly the usable leaves from least to most significant, unsigned under a concatenation; a missing, real or repeated operand and every counted failure is counted, and nothing else |
| ConcatLval.LvalElaborator.Prepend | elab_lval.cc:110-145 | One operand's chain goes in front; one that is missing or real is skipped and counted, one that gives nothing is skipped |
| ConcatLval.LvalElaborator.Append | elab_lval.cc:138-144 | Walking to the end of the new chain and linking the old one behind it joins the two |
| ConcatLval.UncountedExactly | elab_lval.cc:77-81 | Something is at fault and no error is counted if and only if operands fail without one and nothing else is at fault |
| ConcatLval.UncountedIsPruned | elab_lval.cc:119-125 | Such an l-value assigns as if those operands had not been written |
| ConcatLval.SumIsSkipped | elab_lval.cc:77-81 | `{a, b + c}` counts no error and gives a the low bits |
| ConcatLval.ChainGivesShares | netlist.h:2803-2810 | The chain of an error-free l-value gives every leaf the bits the standard gives it |
| ConcatLval.SharesTile | elab_net.cc:142-155 | The shares tile the value with no gap and no overlap |
| ConcatLval.WriteThenRead | elab_lval.cc:108-147 | Assigning to a concatenation of leaves that do not overlap and reading it back gives the value |
| ConcatLval.LnetElaborator.ElaborateLnet | elab_net.cc:42-156 | The net of an error-free l-value passes to every leaf exactly its share, through any nesting and with no more part selects than that takes, all of them switches or none; one-way, they drive every leaf and every new signal but the net once and nothing else; there is a net exactly then, and the errors counted are stated |
| LvalFlow.LnetDelivers | elab_net.cc:112-151 | Each bit of that net leads through the part selects, in their direction, to the bit of the leaf whose share it is in, and through switches back as well |
| LvalFlow.SingleDrivers | elab_net.cc:138-151 | In one direction no part select drives the net, every leaf has as many drivers as it is listed, and no bit has two unless leaves overlap |
| LvalFlow.PlacesAreShares | elab_net.cc:138-151 | The places in that statement are those of the standard's shares |
| ConcatLval.LnetElaborator.ElaborateOperands | elab_net.cc:57-95 | The width counted up is that of the concatenation |
| ConcatLval.LnetUncountedExactly | elab_net.cc:51-95 | No error is counted if and only if there is a net, or the whole l-value is a repeated concatenation or of a kind that counts none |
| ConcatLval.RepeatIsDropped | elab_net.cc:51-55 | `{2{a}}` as a net counts no error |
| ConcatLval.LnetElaborator.ConnectParts | elab_net.cc:118-155 | The width counted down puts every part above all later ones and ends at 0 |
| Enumeration.EnumElaborator.Elaborate | elab_scope.cc:170-353 | No error is reported exactly if the enumeration is legal, and then every name has its value |
| Enumeration.EnumElaborator.TakeValue | elab_scope.cc:208-307 | Reports an error exactly for a constant that is not accepted, and otherwise fits it to the width |
| Enumeration.EnumElaborator.UpperBitsMatch | elab_scope.cc:253-288 | The loop over the trimmed bits decides whether they carry no information |
| Enumeration.EnumElaborator.TakeEntry | elab_scope.cc:195-323 | Explicit and inferred values, and the errors for undefined and overflowed ones |
| Enumeration.EnumElaborator.Declare | elab_scope.cc:325-343 | An error exactly for a name or a value that is already there |
| Enumeration.EnumElaborator.FindValue | netenum.cc:125-139 | Finds a name with the value if there is one |
| Enumeration.EnumElaborator.InsertName | netenum.cc:73-89 | Inserts a name unless it is there |
| Enumeration.EnumElaborator.Advance | elab_scope.cc:345-350 | The next inferred value and whether it would overflow |
| Enumeration.LegalIsDistinct | elab_scope.cc:325-333 | Two names of a legal enumeration stand for different integers |
| Enumeration.LegalCountsUp | elab_scope.cc:309-350 | The first inferred value is 0, every other one its predecessor plus one except after 0 in one signed bit |
| Enumeration.LegalKeepsIntegers | elab_scope.cc:233-302 | Padding or trimming an explicit constant keeps its integer, which is in range |
| Enumeration.SameLengthKeepsBits | elab_scope.cc:304-307 | A constant of the enumeration's width keeps its bits |
| Enumeration.PaddingBits | verinum.cc:614-643 | Bit by bit what a narrow constant is padded with, x and z included |
| Enumeration.TrimmedExtendsBack | elab_scope.cc:253-288 | Bits are trimmed exactly if extending the rest, by its top bit or for an unsigned enumeration by zeros, gives the constant again |
| Enumeration.AcceptedIffInRange | elab_scope.cc:233-302 | A constant of another width is accepted exactly if its integer is in the range of the enumeration |
| Enumeration.SameLengthAccepted | elab_scope.cc:233-302 | One of the same width is rejected exactly if it has no length, the enumeration is unsigned and its integer is not in range |
| Enumeration.TrimmingIsExact | elab_scope.cc:251-302 | The same for trimming, with the integer kept |
| Enumeration.NextValue | elab_scope.cc:345-350 | The step to the next value adds one to the integer unless it is the maximum, or 0 in one signed bit |
| Enumeration.HasNextExactly | elab_scope.cc:345-350 | A value can be followed by an inferred one if and only if the next integer is in range, or the enumeration has one signed bit |
| Enumeration.OneSignedBitWraps | elab_scope.cc:174-190 | A legal enumeration whose second value is -1 |
| ScopeTree.Design.Instantiate | elab_scope.cc:1305-1383 | An instance is made if and only if its path then keeps the bounds: at most limit + 1 instances of a module, kept apart by generate blocks |
| ScopeTree.NestsExactly | elab_scope.cc:1317-1359 | On a path that keeps the bounds, the check refuses a module if and only if instantiating it would break them |
| ScopeTree.Design.CheckRecursion | elab_scope.cc:1317-1359 | The walk over the parents decides that |
| ScopeTree.Design.PathsAreBounded | elab_scope.cc:1317-1359 | In every tree that elaboration builds, a path has at most limit + 1 instances of a module, kept apart by generate blocks, and a number of instances bounded by the number of modules |
| ScopeTree.ModulesBounded | elab_scope.cc:1333-1349 | Bounding each module bounds the path |
| Async.IsAsynchronous | async.cc:46-78 | True if and only if all events are level sensitive and every input is sensed (the inputs are those of Async.InputsExactly) |
| Async.NexAsync | net_event.cc:215-237 | The nexuses an event senses, or none if it is triggered or has an edge |
| Async.LevelSensitiveExactly | net_event.cc:215-237 | An event is level sensitive if and only if its probes report every change and nothing else triggers it |
| Async.NexusSet.Add | net_link.cc:579-599 | Adds an element unless it is there |
| Async.NexusSet.ContainsSet | net_link.cc:668-685 | Containment bit range by bit range |
| Async.ContainsExactly | net_link.cc:640-685 | One element contains another if and only if it has all its bits |
| Async.InputsExactly | net_nex_input.cc:324-452 | A nexus is an input if and only if some read of it is neither inside a block that assigns it nor in the guard of a case item without a statement |
| Async.OutputsExactly | net_nex_output.cc:56-140 | The outputs are what is assigned anywhere in the statement |
| Async.ReadsExactly | net_nex_input.cc:324-452 | The reads are what is mentioned anywhere on a right hand side, as a condition or as a guard |
| Async.HiddenExactly | net_nex_input.cc:413-417 | The hidden guards are the reads in guards of case items without a statement |
| Async.InputsCoverReads | net_nex_input.cc:363-452 | The inputs miss only what the statement assigns and the guards of empty case items, and add nothing |
| Async.SensesReadsExactly | net_nex_input.cc:413-417 | A process classified asynchronous senses all it reads if and only if it senses those guards |
| Async.ExecDepends | async.cc:35-45 | Execution from states that agree on the inputs assigns the same values to the same nexuses |
| Async.AsynchronousSettles | async.cc:35-78 | In every run of such a process that senses what it reads, events occurring when a probe reports a change, once the body has been executed and no event is pending, executing it again changes nothing |
| Async.EmptyItemHidesGuard | net_nex_input.cc:413-417 | An empty case item makes that fail |
| Async.EarlyReadIsNotSensed | net_nex_input.cc:375-403 | A variable read before it is assigned makes that fail |

## Left out

- Flip-flops (cprop.cc:125-140): their removal is not counted and leaves a nexus undriven where a register that is never loaded would read x.
- Comparisons and the other devices the functor ignores (cprop.cc:55-79, cprop.cc:142-149): nothing is done to them; they are gates with variable outputs.
- Drive strengths other than supply, driver and pull, and delays: not part of this model.
- The scanner in functor.cc: a scan visits the devices present at its start in any order; names and attributes of devices are not modelled.
- Transparent concatenations: they are recognised and left alone, as in the code; what they drive for z inputs is modelled as for ordinary ones.
- Multiplexers with an undefined select: modelled bit by bit with equal inputs passing, since the rule of the simulator is not part of this model; no rewrite touches them.
- Cprop.CpropPass: preservation is stated under the two conditions given above, because of the inputs shown by Switches.SwitchLosesConstant, PulledPorts.FoldLosesPort and PulledPorts.BypassLosesPort.
- Switches.DeletionExactly: the converse is for switches that lead to an observable nexus in one step; longer chains of switches are not modelled.
- Cprop.CpropFunctor.LpmMux: that no multiplexer is missed is stated when nothing wrong is cached about the select, because an earlier query may have cached z for a select that a substitution drives.
- Cprop.Rewrite: that nothing is left to fold or bypass is stated for netlists without substitutions, because of Outdated.SubstitutionOutdatesGuess; with them the condition is sufficient only, since not every outdated guess hides a rewrite.
- PulledPorts.BypassExactly: exact for different constants; for other data the two inputs may happen to agree.
- Acyclic.AtLeastOneState: existence and uniqueness of settled states are stated for netlists without loops; equivalence itself is stated for all.
- Evaluation.PruneKeepsLowBits: not stated for min, max and abs, for which it is false (see Evaluation.ChoicesKept), nor for x and z operands.
- Evaluation.ChoicePrunedExactly: exact for an outermost min or max, as Evaluation.MagnitudePrunedExactly for an outermost abs; below other operators a changed choice may cancel out, and the condition is sufficient.
- Evaluation.LosslessWidthIsExact: stated for signed operands and the operators + - * & | ^ ~ ?:, since unary minus, abs, division and mixed signs can lose a value; left shifts are in LeastWidths.LeftShiftIsExact.
- Widths.RetestIsStable: stated with strict widths off; with strict widths an unsized literal always sets the mode UNSIZED.
- ContextSizes.PlainExactly: a number too big for an integer under a shift, which is tested by itself, is excluded; then the left operand alone is lossless.
- LeastWidths.PowerExactly: numbers to a known exponent, which get the length of the result, and unknown exponents limited to the width of an integer are excluded.
- Real, string and class-valued expressions, increments and decrements, function calls, identifiers with selects, concatenations and casts in the width test: leaves and operators over vectors only.
- The constant right operand of a power or shift, and the length of a constant power, are given to the width test rather than evaluated.
- Shifts: the width is at most the largest unsigned long; the two-state type of the count is given.
- Selects.NetAssign.ElaboratePart: does not model unresolved wires or bases that are not constant; selects with fewer indices than packed dimensions are in Selects.NetAssign.ElaborateSlices.
- Selects of nets as r-values beyond a constant bit select, and bit select l-values: not modelled.
- ConcatLval.LnetElaborator.ElaborateLnet: the merging of the part selects of one signal into a concatenation right after they are made (elab_net.cc:854) is not modelled.
- ConcatLval.LvalElaborator.ElaborateLval: leaves are slices of signals; array words, class properties and compressed assignments are not modelled.
- Enumeration: string constants, literals whose expression is not evaluated, and ranges written in ascending order (netenum.cc:81 asserts against them) are not modelled.
- ScopeTree: instance arrays make several scopes with one check, parameters and defparams are not modelled.
- Async.AsynchronousSettles: bodies are blocking assignments of whole signals, blocks, conditionals and case statements; it requires that outputs are read only after they are assigned on every path (through a case statement, in all items and with a default), that all other reads are sensed, and that no other process writes the outputs. Sufficiency of these conditions is proved, and that each is needed by an input; an exact condition would depend on the functions that the expressions compute.
- An always process that is a bare assignment with no event control (async.cc:26-29) is classified asynchronous too and is not modelled, since it never waits.
