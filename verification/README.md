# mininasm in Dafny

mininasm is a multi-pass assembler for the 8086 that fits into tiny memory. To
do so it replaces recursion and copying by iterative algorithms: a red-black
tree with an explicit path, Morris traversals that turn the tree into a cyclic
graph, an expression evaluator with its own stack, pointers squeezed into a few
bits, a line buffer that is cleaned up in place. This project states for each
of them the simple thing it is meant to do, models the algorithm as the code
has it, and proves that it does that for all inputs.

Run `dafny verify dfyconfig.toml` in this directory with Dafny 4.11.

| files | subject |
|---|---|
| Common, Names, Words | bytes, strcmp order, 32-bit wrap-around values |
| LabelTree, LabelShape, LabelIndex | the label index: left-leaning red-black insertion with a path array |
| MorrisWalk, LabelPasses | lookups during Morris traversals, the sorted listing, the reset of macros |
| PackedPointers | the DOS label: two far pointers and two flags in 5 bytes, and the allocator |
| Grammar, MatchExpression | the recursive 7-level grammar and the evaluator without recursion |
| Operators, Syntax | what the operators mean, and expressions as trees that are printed and read back |
| LongArithmetic, ValueDivision | 32-bit division and multiplication on 16-bit registers, signed division |
| JumpCode, Passes, PassLoop, Assembler | jump encoding, label passes, the pass loop of main |
| SettledTable, WholeRuns | when a pass changes nothing, and how whole runs end, without the loop |
| EffectiveAddress, LowOptPasses | ModR/M byte and displacement against Table 2-1 of the Intel manual; -O0 and -O1 |
| WideLog, IncludeStack | the chunked log of wide instructions, the byte stack of source files |
| LineText, LineScan, LineReader | the streaming line reader, and where %INCLUDE makes it resume |
| ArgvParser | the argv tokenizer that overwrites its own input |
| TailMerge | tail merging of strings in the link script |

Code that works step by step is a method, on a class where the source has
variables that outlive a call; its contract ties it to a function on values, and
the properties are proved about that function. Main results are
`LabelIndex.Index.Define`, `MorrisWalk.FindCat`, `LabelPasses.ResetMacros`,
`PackedPointers.NothingLost`, `MatchExpression.Evaluator.MatchExpression`,
`Syntax.ExprExactly`, `PassLoop.SuccessIsAssembled`, `PassLoop.OutcomesEnd`,
`WholeRuns.RunExactly`, `SettledTable.SpotlessExactly`, `LowOptPasses.SamePlaces`,
`EffectiveAddress.DecodesToSum`, `LongArithmetic.U4D`, `LineReader.ReadAll`,
`WideLog.InOrder`, `IncludeStack.Stack.Pop`, `ArgvParser.Parse` and
`TailMerge.DroppedExactly`.

Where the source and its own comments disagree, the code is followed. The
comment at mininasm.c:3848-3868 counts zero deltas and every swing not smaller
than the maximum so far; the code never resets delta_acc, so it counts every
change of direction instead. `PassLoop.AsDocumented` says exactly when the two
numbers agree, `PassLoop.CommentExample` shows that they do not on the comment's
own example (where 61 should read 51, and the last value 100). The padded variant of
assembly_pop at mininasm.c:2817-2819 is right if and only if the file name is not
empty, `IncludeStack.AlignedScan`. An empty one does not get there: only records
whose file was opened are popped, do_assembly returning at mininasm.c:3048-3051
otherwise, and no file with an empty name can be opened. The file position that
mininasm.c:3576 saves before an included file is one too small while the newline
that mininasm.c:3091 adds at the end of the file is still in the buffer, so that
the lines after the %INCLUDE are counted one too high; `LineReader.ReadingOn`
says exactly when.

Configuration-dependent parts follow the defaults: 32-bit values, shifts to the
right without sign, a balanced tree, an evaluator stack of 100 entries, and
unaligned access to the include stack.

## Model

| member | source | states |
|---|---|---|
| `Names.CompareAntisymmetric` | mininasm.c:908-909 | strcmp, which orders the label index, changes sign when its arguments change places |
| `Names.LessTransitive` | mininasm.c:908-909 | the strcmp order of names is transitive |
| `Names.LessTotal` | mininasm.c:908-909 | of two names one is smaller or they are equal, and never both |
| `Names.LessExactly` | mininasm.c:908-909 | the smaller name ends first, or has the smaller character where the two first differ |
| `Names.CompareCat` | mininasm.c:1009-1014 | comparing prefix and name in place gives the sign of strcmp on the concatenation that is never built |
| `LabelTree.InsertBelowKeepsBalance` | mininasm.c:913-954 | below the root, an insertion with its fix-ups keeps equal black heights and the height itself; only a red root may be left with a red left child |
| `LabelTree.InsertKeepsRedBlack` | mininasm.c:891-957 | one insertion keeps: black root, no red right child, no red node with a red left child, equal black height on all paths |
| `LabelTree.InsertBelowInOrder` | mininasm.c:908-954 | rotations and recolouring do not touch the name order: the in-order sequence is the old one with the new label inserted |
| `LabelTree.InsertInOrder` | mininasm.c:891-957 | inserting an absent name leaves a tree that is sorted by strcmp and holds exactly the old labels and the new one |
| `LabelTree.SortedIsDistinct` | mininasm.c:870-872 | no label occurs twice in a tree whose names strictly increase |
| `LabelTree.SizeFromBlackHeight` | mininasm.c:900-904 | a tree of black height h has at least 2^h - 1 labels |
| `LabelTree.BlackHeightBelow` | mininasm.c:775-777 | with at most 2^k - 2 labels the black height is below k |
| `LabelShape.StepDown` | mininasm.c:908-911 | one step of the descent keeps red levels from outnumbering black ones, and inserting lower down and fixing up on the way back is the same insertion |
| `LabelShape.NothingToFixAbove` | mininasm.c:928-930 | once a replaced subtree has the colour of the one it replaces, the fix-ups on all levels above change nothing |
| `LabelShape.EarlyExit` | mininasm.c:949-951 | a black child ends the fix-up: leaving early gives the tree that going up to the root would give |
| `LabelIndex.Index.constructor` | mininasm.c:692 | the index starts empty and valid |
| `LabelIndex.Index.Descend` | mininasm.c:904-912 | the descent finds the missing child where the name belongs, records the way in path, and stays below 2 * RB_LOG2_MAX_NODES entries, the slot for the new node included |
| `LabelIndex.Index.FixUpLeft` | mininasm.c:915-930 | the statements for a red left child turn the pointers and colours into the fixed-up tree, by one rotation or none |
| `LabelIndex.Index.FixUpRight` | mininasm.c:931-952 | the statements for a red right child turn the pointers and colours into the fixed-up tree, by a colour flip or a rotation |
| `LabelIndex.Index.RepairAt` | mininasm.c:913-953 | one round of the upward loop either re-establishes its invariant one level higher or has, by leaving early, completed the insertion |
| `LabelIndex.Index.Repair` | mininasm.c:913-957 | the upward loop over path ends with the pointers holding the recursive insertion, whether it reaches the root or leaves early |
| `LabelIndex.Index.RootTurnsBlack` | mininasm.c:955-956 | the last statement blackens the root and nothing else |
| `LabelIndex.Index.Link` | mininasm.c:890-958 | inserting a filled-in label keeps the index valid; its tree is the recursive insertion into the old tree |
| `LabelIndex.Index.Define` | mininasm.c:874-983 | define_label with an absent name and at most 2^K - 2 labels: the index stays a sorted red-black tree, in name order it is the old sequence with the new label inserted, and of the old labels only links and colours may change |
| `MorrisWalk.LookupExact` | mininasm.c:1022-1043 | binary search in a sorted tree finds the one label with the name, or none if there is none |
| `MorrisWalk.FindCat` | mininasm.c:1022-1043 | find_cat_label terminates and answers as on the plain tree for any set of threads to in-order successors, thanks to the milestone test |
| `MorrisWalk.FindPre` | mininasm.c:1075 | the inner loop of the traversal ends at the in-order predecessor, stopping at a thread back to the current node |
| `MorrisWalk.Step` | mininasm.c:1073-1081 | one round of the outer loop either adds a thread and goes left, or removes that thread and reaches the visit with the left subtree restored |
| `MorrisWalk.Leave` | mininasm.c:1100 | going right after a visit, by a real pointer or by a thread, keeps the invariant with one more label visited |
| `MorrisWalk.VisitingIsThreaded` | mininasm.c:2843-2869 | at every visit the cyclic graph is the plain tree plus threads to successors, so lookups are answered correctly |
| `LabelPasses.VisitsAreLeft` | mininasm.c:1073-1101 | the label at a visit is the next one in name order and has not been visited before |
| `LabelPasses.PrintSorted` | mininasm.c:1065-1103 | the listing has exactly the labels that are no macros, each once, in increasing name order, and every pointer is restored |
| `LabelPasses.OrdinaryFirst` | mininasm.c:1054-1060 | a label sorts before the macro name made of it, because of the prefix character |
| `LabelPasses.SmallerIsVisited` | mininasm.c:2843-2869 | a label has been visited exactly if its name is smaller than that of the one being visited |
| `LabelPasses.ResetLabel` | mininasm.c:2852-2866 | the work at one label, lookups on the threaded tree included, changes the deletion flags of that label and of the value label of a macro, as described for it alone |
| `LabelPasses.OneMoreVisit` | mininasm.c:2852-2866 | visits in name order add up to a description that does not mention an order |
| `LabelPasses.ResetMacros` | mininasm.c:2832-2870 | afterwards each deletion flag is what the order-independent description says (in the special pass ordinary labels are deleted except the values of command-line macros), and the tree is as before |
| `PackedPointers.Unpacked` | mininasm.c:669-671 | the byte LLLDRRRE gives back both offsets without their lowest bits, and both flags |
| `PackedPointers.Replaced` | mininasm.c:795-821 | masking in one part of that byte leaves the three others as they were |
| `PackedPointers.FirstByteNotNul` | mininasm.c:662-667 | Lemma 1 of the comment: the first byte of a label is never NUL |
| `PackedPointers.ChildPlace` | mininasm.c:674-684 | children are in conventional memory with 4-bit offsets, and the byte before one at an odd address is NUL |
| `PackedPointers.NothingLost` | mininasm.c:674-684 | the dropped offset bit is found again by looking at memory, for every stored pointer to a label; null stays null |
| `PackedPointers.LabelsKept` | mininasm.c:810-821 | a write to one label leaves what is stored in all the others alone |
| `PackedPointers.Heap.constructor` | mininasm.c:410-418 | the arena starts empty at a paragraph boundary |
| `PackedPointers.Heap.Malloc` | mininasm.c:426-448 | the 16-bit instructions return the next free address exactly if the block fits below the end of the heap, else NULL with nothing changed |
| `PackedPointers.Heap.NewLabel` | mininasm.c:874-888 | a new label has no children, is black and not deleted, and lies apart from all blocks; nothing else changes |
| `PackedPointers.Heap.NewWideBlock` | mininasm.c:1751-1763 | a block of the wide log ends in a NUL of its own, which keeps the pointers to a label behind it readable |
| `PackedPointers.Heap.StoreInWideBlock` | mininasm.c:1765 | whatever is written into a wide block, no label changes |
| `PackedPointers.Heap.IsLeftNull` | mininasm.c:792 | tells whether the stored left pointer is null |
| `PackedPointers.Heap.IsRightNull` | mininasm.c:793 | tells whether the stored right pointer is null |
| `PackedPointers.Heap.GetLeft` | mininasm.c:800-804 | returns the left pointer that was stored last (any null for null) |
| `PackedPointers.Heap.GetRight` | mininasm.c:805-809 | returns the right pointer that was stored last (any null for null) |
| `PackedPointers.Heap.SetLeft` | mininasm.c:810-813 | changes the left pointer of one label and nothing else: not its other pointer, flags, value, name, nor any other label |
| `PackedPointers.Heap.SetRight` | mininasm.c:814-817 | changes the right pointer of one label and nothing else |
| `PackedPointers.Heap.IsRed` | mininasm.c:818 | returns the red bit that was stored last |
| `PackedPointers.Heap.SetRed` | mininasm.c:819-821 | changes the red bit of one label and nothing else |
| `PackedPointers.Heap.IsDeleted` | mininasm.c:794 | returns the deleted bit that was stored last |
| `PackedPointers.Heap.SetDeleted` | mininasm.c:795-796 | changes the deleted bit of one label and nothing else |
| `Operators.ApplyComputes` | mininasm.c:1493-1634 | the operator found in a tier obeys its law: sum, difference and product in 32 bits, unsigned and signed quotient and remainder, doubling, quotient by a power of two, bits; a divisor of 0 counts as 1 and a shift above 31 as none |
| `Operators.ComputesUnique` | mininasm.c:1493-1634 | each law determines its result |
| `Operators.ComplaintExactly` | mininasm.c:1517-1566 | what is reported about an operator: in late passes division by zero and shifts above 31, and nothing else |
| `Syntax.OperatorLaw` | mininasm.c:1491-1634 | one operator between two literals evaluates to what its law determines, with its message |
| `Syntax.ReadExpr` | mininasm.c:1291-1640 | a tree printed with parentheses where they are needed is read back to its value, with has_undefined and the number of messages, if no operator that binds as tightly follows |
| `Syntax.ExprExactly` | mininasm.c:1291-1640 | an expression is accepted if and only if such a tree is printed there and no operator follows, and then the outcome is that of the tree |
| `Syntax.PrintedIsRead` | mininasm.c:1291-1640 | any tree, printed with the fewest parentheses, is read back to its end and to its value |
| `Syntax.FewestGroups` | mininasm.c:1491-1634 | no tree with the same operators and operands that can be read back has fewer parentheses |
| `Syntax.OperandExactly` | mininasm.c:1275-1640 | a whole operand is free of complaints if and only if it is a printed tree that the stack can hold, with no undefined label and no message |
| `Syntax.OperandOfTree` | mininasm.c:1275-1640 | a printed tree has the value of the tree, or 0 if a label in it is undefined |
| `MatchExpression.ExprIsDown` | mininasm.c:1491-1636 | an expression of a level is a unary expression followed by the operator loops of all tiers down to it |
| `Grammar.ExprWithin` | mininasm.c:1321 | no expression takes more frames than it has tokens |
| `Grammar.FlatIsShallow` | mininasm.c:1317-1321 | without parentheses seven frames are enough for an expression of any length |
| `MatchExpression.OpenParens` | mininasm.c:1328-1331 | a run of n open parentheses evaluates as one frame with counter -n |
| `MatchExpression.OpenParensDepth` | mininasm.c:1328-1331 | and takes one frame besides those of what is inside and behind |
| `MatchExpression.FoldOne` | mininasm.c:1335-1341 | one more unary operator can be folded into a sign and a delta |
| `MatchExpression.ResumeOfError` | mininasm.c:1303-1308 | an error in the innermost part is the outcome of the whole expression |
| `MatchExpression.Evaluator.Push` | mininasm.c:1317-1324 | pushing a frame keeps the stack on its way to the wanted outcome; if that fills the stack, the expression is one that needs all of its slots, and there is a message |
| `MatchExpression.Evaluator.MatchUnary` | mininasm.c:1332-1348 | a chain of unary operators becomes one frame without changing the outcome or the frames still needed |
| `MatchExpression.Evaluator.MatchParens` | mininasm.c:1328-1331 | a run of at most 127 open parentheses becomes one frame without changing the outcome or the frames still needed |
| `MatchExpression.Evaluator.PopParen` | mininasm.c:1301-1316 | a closing parenthesis counts the frame of open ones down, and a missing one is an error with a message |
| `MatchExpression.Evaluator.Pop` | mininasm.c:1296-1318 | resuming at the saved case and level keeps the outcome |
| `MatchExpression.Evaluator.AfterValue` | mininasm.c:1491-1638 | the operator loops take the operators of the tiers the level allows, tightest first, and stop before +register and -register |
| `MatchExpression.Evaluator.Match` | mininasm.c:1325-1489 | the start of an operand: literals, $ and $$, labels (undefined ones are noted, with a message in late passes), or no match |
| `MatchExpression.Evaluator.MatchExpression` | mininasm.c:1275-1640 | value, stop position, has_undefined, messages and failure are those of the recursive 7-level grammar; it gives up as too deep if and only if the nesting of the expression, computed on the grammar, takes 100 frames at once; the stack is never overrun, and it terminates |
| `ValueDivision.SignedDivIsTruncated` | mininasm.c:1249-1257 | value_div and value_mod compute division rounded towards zero and its remainder for all operands with a nonzero divisor, wrapped to 32 bits |
| `LongArithmetic.QuotientUnique` | minnnasm.nasm:12846-12847 | a = q * b + r with 0 <= r < b determines q and r |
| `LongArithmetic.At10` | minnnasm.nasm:12898-12900 | at .10 the carry becomes the next quotient bit |
| `LongArithmetic.At11` | minnnasm.nasm:12901-12906 | at .11 the divisor is halved, its lost top bit coming back from the carry, and subtracted; the borrow decides where to go on |
| `LongArithmetic.At12` | minnnasm.nasm:12907-12915 | at .12 a dividend below zero is made up for by adding the halved divisor instead of restoring it |
| `LongArithmetic.At13` | minnnasm.nasm:12916-12917 | a dividend that is below zero at the end gets the divisor added back |
| `LongArithmetic.SubtractLoop` | minnnasm.nasm:12898-12917 | the non-restoring loop ends with quotient and remainder |
| `LongArithmetic.DoubleLoop` | minnnasm.nasm:12884-12897 | the shift loop establishes the invariant of the subtraction loop, with and without overflow of the shifted divisor |
| `LongArithmetic.TwoDigits` | minnnasm.nasm:12856-12866 | two div instructions, high digit first, divide by a 16-bit divisor |
| `LongArithmetic.U4D` | minnnasm.nasm:12851-12924 | for all 32-bit a and b != 0 the registers end with q and r such that a = q * b + r and r < b |
| `LongArithmetic.TruncDivRoundsToZero` | minnnasm.nasm:12642-12643 | what rounding towards zero means: a = q * b + r with r smaller than b and never of the other sign than a |
| `LongArithmetic.I4D` | minnnasm.nasm:12647-12680 | for all 32-bit operands with a nonzero divisor: the quotient rounded towards zero and its remainder, wrapped to 32 bits |
| `LongArithmetic.U4M` | minnnasm.nasm:12686-12701 | the low 32 bits of the product of all 32-bit operands |
| `JumpCode.NearLands` | mininasm.c:2433-2441 | a 16-bit displacement leads to its target modulo 2^16 from any distance |
| `JumpCode.ShortLands` | mininasm.c:2423-2432 | an 8-bit displacement that passes the range check leads to its target |
| `JumpCode.InvertedFormRuns` | mininasm.c:2394-2401 | the 5-byte form goes to the target if the condition holds, else to the next instruction |
| `JumpCode.RangeChecks` | mininasm.c:2425-2436 | the checks on unsigned sums are the signed ranges -128..127 and -65536..65535 |
| `JumpCode.JumpIsShortest` | mininasm.c:2165-2169 | a jump without qualifier takes 2 bytes whenever any 2-byte jump would do, unless only by going around the end of the segment |
| `JumpCode.EncodeDoes` | mininasm.c:2423-2441 | every encoding of a defined operand, unless reported or noted as out of range, decodes at its own address to its target: short, near, call, loop and inverted condition |
| `JumpCode.LengthIsRight` | mininasm.c:2165-2176 | the length of every encoding in every pass, by the signed distance of its target |
| `JumpCode.OpcodeIsRight` | mininasm.c:2389-2401 | the first byte is the opcode of the form that was chosen, with the condition negated in the 5-byte form; data bytes are the low ones of the value |
| `JumpCode.ErrorExactly` | mininasm.c:2433-2441 | an instruction is reported if and only if its operand is, or it is a conditional jump that is to be near, or in late passes a near jump whose distance from its end is outside -65536..65535 |
| `JumpCode.TooFarExactly` | mininasm.c:2423-2432 | a short jump is noted as out of range if and only if this is a late pass, there is no other form, and the distance is outside -128..127 |
| `JumpCode.ReportedExactly` | mininasm.c:2423-2441 | a complete operand is encoded without a report or note if and only if its target is in range of some form |
| `Passes.LateOperands` | mininasm.c:1478-1481 | in a late pass an operand without a message has no undefined label |
| `Passes.LineStep` | mininasm.c:3509-3552 | a line of a late pass that moves no label and fails nowhere emits code that agrees with the label table, each repetition at its own address |
| `Passes.PaddingAligns` | mininasm.c:3518-3520 | the padding of ALIGN is shorter than the operand and brings the address to a multiple of it |
| `Passes.AlignsUnique` | mininasm.c:3518-3520 | there is only one such padding |
| `Passes.AlignedAddress` | mininasm.c:3510-3531 | after an ALIGN line without a report, in any pass, the address is a multiple of the operand, unless it reaches 2^32 |
| `Passes.StableTable` | mininasm.c:2735-2750 | if a late pass ends without a changed label, the table was the same before each of its lines |
| `Passes.CleanPassAgrees` | mininasm.c:2735-2750 | if an error-free late pass ends with have_labels_changed == 0, every label read in it, before or after its definition, had its final value: the output agrees line by line with the final table |
| `Passes.LineLabels` | mininasm.c:2718-2751 | only label and EQU lines touch the table, only at their own name, and add names in early passes only |
| `Passes.FirstPassDefines` | mininasm.c:2725-2734 | pass 0 without an error leaves exactly the labels of the program in the table |
| `SettledTable.LineSize` | mininasm.c:3509-3552 | any line adds its length, which the table and its address determine, in early and late passes, reported or not |
| `SettledTable.LineExactly` | mininasm.c:2725-2750 | what any line does to the label table, have_labels_changed, the note of short jumps out of range and the errors, by the table and its address alone |
| `SettledTable.LineSettled` | mininasm.c:2735-2750 | a line of a late pass changes, reports and notes nothing if and only if the table settles it |
| `SettledTable.SpotlessExactly` | mininasm.c:3835-3843 | the converse as well: a late pass changes no label, reports nothing and has no short jump out of range if and only if its table is a fixed point, where every label has the address that the lengths of the lines before it give and every jump is in range |
| `SettledTable.EarlyLine` | mininasm.c:2725-2734 | in an early pass without an error every name is new and gets the address or value of its line |
| `SettledTable.FirstPassPlaces` | mininasm.c:2725-2734 | pass 0 leaves each label at the address its line had in it |
| `PassLoop.SuccessWasClean` | mininasm.c:3840-3843 | success means that the last pass changed no label and had no short jump out of range |
| `PassLoop.LabelsStay` | mininasm.c:3814-3911 | from pass to pass the table keeps exactly the labels of the program |
| `PassLoop.SuccessIsAssembled` | mininasm.c:3779-3916 | whole runs: success after any number of passes implies that the last output is the program assembled against the final table, with no rel8 out of range, although earlier passes let such jumps through |
| `WholeRuns.RunExactly` | mininasm.c:3779-3916 | whole runs, exactly: main goes on after a pass if and only if it had no error, was not spotless and there were fewer than seven disturbances so far; it succeeds, with the table and output of that pass, if and only if the first pass that did not go on was spotless, and fails otherwise; short jumps out of range end nothing before they are reported |
| `WholeRuns.MovedGoesOn` | mininasm.c:3844-3887 | a pass without errors that moved a label is followed by another up to the seventh disturbance, whatever is out of range |
| `WholeRuns.SucceedsAtFixedPoint` | mininasm.c:3835-3911 | a run succeeds with the first pass that starts from a fixed point |
| `WholeRuns.PlainBounded` | mininasm.c:3814-3911 | the sizes of programs without TIMES and ALIGN are always bounded as this needs |
| `PassLoop.CountDeltaStep` | mininasm.c:3869-3886 | each pass uses up a violation or room in the current direction, by the invariant delta_acc >= delta_acc_max; every change of direction is a violation |
| `PassLoop.OutcomesEnd` | mininasm.c:3814-3911 | the loop ends for every sequence of pass outcomes (size, labels changed, short jump out of range, errors), whatever the passes assemble, if the sizes stay below a bound for which sums do not wrap |
| `PassLoop.NextStep` | mininasm.c:3814-3911 | a round of the loop that goes on decreases the lexicographic measure |
| `PassLoop.PassesEnd` | mininasm.c:3814-3911 | the same for the outcomes of the passes over a program |
| `PassLoop.PlainProgramsEnd` | mininasm.c:3814-3911 | a program without TIMES and ALIGN needs at most 40 passes for each of its lines, and 8 more, with no assumption on sizes, for up to 2^28 / 5 lines |
| `PassLoop.CountsDisturbances` | mininasm.c:3869-3886 | the counter counts every zero delta and every change of direction, for all sequences of deltas |
| `PassLoop.AsDocumented` | mininasm.c:3848-3868 | the counter of the code equals the count its comment defines (zero deltas, and of the merged swings the first and each one not smaller than the maximum so far) if and only if all deltas are zero or the number of swings smaller than one before them is 0 when the first nonzero delta is a decrease, and 1 when it is an increase |
| `PassLoop.CommentExample` | mininasm.c:3852-3864 | for the deltas of the comment, 100 -20 -31 50 0 10 0 -100, its definition gives 4 and the code counts 5 |
| `PassLoop.FirstSwing` | mininasm.c:3862-3864 | for the single delta 100 the definition gives 1 and the code counts none |
| `Assembler.Assembler.constructor` | mininasm.c:3782-3784 | the assembler starts in pass 0 with no labels and no output |
| `Assembler.Assembler.CreateLabel` | mininasm.c:2718-2751 | create_label on the variables is the table update on values |
| `Assembler.Assembler.EmitBytes` | mininasm.c:1968-1977 | bytes are counted in every pass and written in late ones |
| `Assembler.Assembler.MatchOperand` | mininasm.c:2110-2169 | the operand that the passes are specified with is what the evaluator with its stack computes, an overflow of the stack included |
| `Assembler.Assembler.ProcessInstruction` | mininasm.c:2423-2441 | an instruction is encoded for the current address; a short jump out of range sets bit 0 of jump_range_bits and is an error only if bit 1 is set |
| `Assembler.Assembler.ProcessLine` | mininasm.c:3509-3552 | label, EQU, TIMES, ALIGN and instruction lines do what the specification of a line says |
| `Assembler.Assembler.DoAssembly` | mininasm.c:3031-3037 | one pass over the program from the reset address |
| `Assembler.Assembler.CountViolation` | mininasm.c:3869-3886 | the statements of the heuristic are the specified step |
| `Assembler.Assembler.NextPass` | mininasm.c:3814-3911 | one round of the loop of main is one step of the state machine |
| `Assembler.Assembler.AssembleProgram` | mininasm.c:3779-3916 | the passes of main terminate; success means that output and label table agree, and, with the sizes of all passes bounded, is reported if and only if the run as described without the loop succeeds |
| `EffectiveAddress.TableIsRight` | mininasm.c:1822-1841 | the table refuses exactly the register that makes the terms illegal, and else leads to the state that stands for all registers so far |
| `EffectiveAddress.MatchAddressing` | mininasm.c:1847-1916 | terms in any order and number are accepted exactly if their registers are legal, and the match depends on their registers and the sum of their displacements only |
| `EffectiveAddress.StateSums` | mininasm.c:1822-1833 | the registers of legal terms add up to the base registers that Table 2-1 gives for their state |
| `EffectiveAddress.ShortOffset` | mininasm.c:1904-1914 | an offset that passes the check for 8 bits is its sign-extended low byte modulo 2^16 |
| `EffectiveAddress.ChosenDecodes` | mininasm.c:1891-1916 | for no, 8-bit, 16-bit and absolute displacement the decoder finds base registers plus offset and takes exactly the bytes that belong to it |
| `EffectiveAddress.DecodesToSum` | mininasm.c:1847-1916 | every accepted operand without undefined labels decodes, under any register field and register contents, to the sum of its terms modulo 2^16 |
| `EffectiveAddress.NothingShorter` | mininasm.c:1904-1914 | unless the instruction is on record as wide, whatever else decodes to the same address through the same registers takes at least as many bytes, at all optimization levels |
| `EffectiveAddress.WidthInPass0` | mininasm.c:1896-1904 | at -O0 and -O1 pass 0 asks for an instruction to be recorded if and only if its operand has registers and an undefined label; otherwise the width is that of -O9 |
| `EffectiveAddress.SameSize` | mininasm.c:1896-1914 | at -O0 and -O1 an operand takes as many bytes in a later pass as in pass 0, if just the instructions recorded there are wide |
| `WideLog.FirstQuery` | mininasm.c:1780-1813 | one query in order: the outcome is membership, or bad order exactly if it has passed over a recorded position |
| `WideLog.InOrder` | mininasm.c:1769-1814 | nondecreasing queries are answered by membership and never meet the bad order branch if and only if they leave out no recorded position on their way |
| `WideLog.EveryPositionAsked` | mininasm.c:1769-1814 | queries that include every recorded position are all answered by membership |
| `LowOptPasses.AnswerIsRight` | mininasm.c:1773-1814 | the cursor answers for each instruction just what pass 0 has recorded |
| `LowOptPasses.SamePlaces` | mininasm.c:1896-1914 | at -O0 and -O1 every instruction with an operand in brackets is at the same place in pass 0 and in a later pass, and the log meets no bad order |
| `WideLog.Log.constructor` | mininasm.c:1726-1732 | the log starts empty |
| `WideLog.Log.NewBlock` | mininasm.c:1751-1760 | a full or missing last block gets a successor, and no recorded position changes |
| `WideLog.Log.Add` | mininasm.c:1738-1767 | recording appends to the log, also across a full block |
| `WideLog.Log.Rewind` | mininasm.c:3793 | a pass starts reading at the beginning |
| `WideLog.Log.IsWide` | mininasm.c:1773-1814 | the cursor over the linked blocks is the cursor over the sequence, at exactly full blocks too |
| `IncludeStack.ScanFindsTop` | mininasm.c:2805-2824 | scanning backwards for NULs finds the zero field of the topmost record for all NUL-free names, the empty one included |
| `IncludeStack.AlignedScan` | mininasm.c:2815-2819 | where records are padded to an alignment the scan is right if and only if the name is not empty |
| `IncludeStack.NamesDownIsReversed` | mininasm.c:3616 | files are gone back to in reverse order |
| `IncludeStack.Stack.constructor` | mininasm.c:3036 | the stack starts empty |
| `IncludeStack.Stack.Push` | mininasm.c:2782-2803 | a record is pushed exactly if it fits into 512 bytes; otherwise nothing changes |
| `IncludeStack.Stack.SaveHeader` | mininasm.c:3576-3586 | saving the position in the topmost record changes nothing else |
| `IncludeStack.Stack.Pop` | mininasm.c:2805-2824 | pops the topmost record and returns the address of the one below, or NULL at the bottom |
| `IncludeStack.Stack.FileName` | mininasm.c:3048 | the name read at that address is the name that was pushed |
| `IncludeStack.Stack.Unwind` | mininasm.c:3616 | repeated pops give all names below in reverse order |
| `LineText.ParseIsTidyLines` | mininasm.c:3065-3150 | reading a file byte by byte with a state for quotes, comments and blanks gives the lines that splitting, cutting, squeezing and trimming give |
| `LineText.SameBlanks` | mininasm.c:3126-3134 | a run of blanks outside quotes may be rewritten as any other |
| `LineText.BlankedComment` | mininasm.c:3109-3111 | a comment up to its newline may be overwritten by spaces |
| `LineText.CutComment` | mininasm.c:3112-3117 | a comment that does not end yet may be cut down to its semicolon |
| `LineText.BlankBeforeComment` | mininasm.c:3113 | and the blank before that semicolon may go as well |
| `LineText.TidyTrimmed` | mininasm.c:3143 | removing trailing spaces first makes no difference to a cleaned-up line |
| `LineText.SpacedIsTidy` | mininasm.c:3095-3139 | a line that has single spaces only outside quotes, no comment and no space at its end is tidy as it stands, whatever is in its quotes |
| `LineText.TidyWithoutComment` | mininasm.c:3108-3124 | a comment does not show |
| `LineScan.ScanQuote` | mininasm.c:3097-3107 | quoted text is left alone up to the closing quote, the end of the line or the end of the buffer; a NUL is reported only if there is one between quotes, and otherwise no byte changes |
| `LineScan.TrimBlanks` | mininasm.c:3113 | only blanks of the same line in front of the comment are dropped |
| `LineScan.ScanComment` | mininasm.c:3108-3124 | a comment is blanked in place, or reduced to a final semicolon if it reaches the end of the buffer |
| `LineScan.ScanBlanks` | mininasm.c:3126-3134 | a run of blanks becomes spaces, or a single one at the end of the buffer |
| `LineScan.Scan` | mininasm.c:3095-3139 | a scan leaves whole lines without comments and with no blank but space outside quotes, then a partial line, and all of it stands for the same text as before; a quoted NUL is reported if and only if there was one |
| `LineReader.Reader.constructor` | mininasm.c:3063-3064 | the buffer starts empty at the start of the file |
| `LineReader.Reader.Read` | mininasm.c:3084 | read() returns some of the bytes that are left, none only at the end of the file |
| `LineReader.Reader.Fill` | mininasm.c:3079-3094 | reads until the buffer is full or the file ends, and adds a newline in the latter case |
| `LineReader.Reader.MoveToFront` | mininasm.c:3072-3078 | moving the partial line to the front of the buffer changes no text |
| `LineReader.Reader.TakeLine` | mininasm.c:3141-3150 | the line up to the newline, without trailing spaces, is delivered exactly if it has fewer than 256 bytes; the rest still stands for the rest of the text |
| `LineReader.LinesAreShort` | mininasm.c:3071-3078 | if all lines of a file are shorter than 256 bytes, every 256 bytes in a row have a newline, which is what reading on keeps |
| `LineReader.Reader.CleanUp` | mininasm.c:3095-3139 | rescanning the partial line together with what was read keeps the correspondence |
| `LineReader.Reader.ReadMore` | mininasm.c:3071-3139 | reading goes on until there is something new, or finds the end of the file with all lines delivered; never a line too long if buffer and file have short lines only; a quoted NUL is reported if and only if one has been read |
| `LineReader.LinesBefore` | mininasm.c:3115 | the lines delivered so far are those of the file before the position that corresponds to the next line in the buffer |
| `LineReader.Reader.NextLine` | mininasm.c:3065-3150 | the next line of the file, or the end, or the error, which short lines never lead to; a NUL is reported only if the file has one between quotes, and always if the end is reached; terminates for all ways of splitting; and says exactly where in the file %INCLUDE would make reading resume |
| `LineReader.ReadingOn` | mininasm.c:3576 | reading on from the position saved for %INCLUDE gives exactly the lines that are left, except that an empty line comes first if and only if the newline added at the end of the file is still in the buffer, as it is in every file shorter than the buffer |
| `LineReader.EmptyLineComesFirst` | mininasm.c:3576 | a reader of the file x, y delivers x and then is at position 1, from where an empty line comes first |
| `LineReader.EmptyIsEmpty` | mininasm.c:3143-3144 | a line on which nothing is left is delivered as an empty line |
| `LineReader.ReadAll` | mininasm.c:3065-3150 | for every way in which read() splits a newline-terminated file: the lines delivered are clean, shorter than 256 bytes, and equal the lines of the file up to the length of blank runs outside quotes, with at most one empty line more; if every line of the file is shorter than 256 bytes, the end is reached; a line that has 256 bytes even when tidied up is an error; and a NUL is reported if and only if there is one between quotes |
| `ArgvParser.ArgHasNoNul` | mininasm_swatw32.c:430-456 | no NUL gets into an argument |
| `ArgvParser.Escape` | mininasm_swatw32.c:434-449 | a run of backslashes: 2n or 2n + 1 before a quotation mark, literal elsewhere |
| `ArgvParser.ParseArg` | mininasm_swatw32.c:420-456 | the two-pointer loop writes the argument of the pure tokenizer and never overwrites an unread character |
| `ArgvParser.Parse` | mininasm_swatw32.c:410-460 | the buffer ends up holding all arguments of the original text with a NUL each and argv points to them, or there are 512 or more and the program exits |
| `ArgvParser.ArgvStrings` | mininasm_swatw32.c:410-460 | each string of argv, read up to its NUL, is the argument of the pure tokenizer |
| `ArgvParser.EscapedIsRead` | mininasm_swatw32.c:434-451 | what is escaped by the backslash rule is read back, from any position |
| `ArgvParser.RoundTrip` | mininasm_swatw32.c:410-460 | for any list of arguments, the command line that quotes them is taken apart into them |
| `ArgvParser.WordsAreRead` | mininasm_swatw32.c:418-451 | text without quotation marks is split at spaces and tabs, with backslashes as they are |
| `TailMerge.TokensDiffer` | compile_nwatli3.pl:96-98 | reversed source text is a prefix code for bytes |
| `TailMerge.PrefixOfKeyIsSuffix` | compile_nwatli3.pl:96-111 | the prefix test on reversed source text is the tail relation on the strings |
| `TailMerge.Between` | compile_nwatli3.pl:104-112 | whatever is sorted between a key and a longer one with that prefix has the prefix, too |
| `TailMerge.SortedOrderIsRight` | compile_nwatli3.pl:104 | the sort by key and index gives a sorted permutation |
| `TailMerge.DroppedExactly` | compile_nwatli3.pl:105-112 | looking at neighbours drops a string if and only if it is a proper tail of another string or equal to a later one |
| `TailMerge.NothingLeftToMerge` | compile_nwatli3.pl:105-112 | no retained string is a tail of another retained string |
| `TailMerge.EmittedIsFound` | compile_nwatli3.pl:135-137 | a retained string is in the data at its offset, with its NUL |
| `TailMerge.TailIsFound` | compile_nwatli3.pl:143-146 | a tail of a string is found at the difference of their sizes |
| `TailMerge.LinkNeighbours` | compile_nwatli3.pl:105-112 | the first loop links exactly the dropped strings, each to a longer string or a duplicate |
| `TailMerge.FollowLinks` | compile_nwatli3.pl:129-130 | following links ends at a retained string that has the first one as a tail |
| `TailMerge.PlaceEmitted` | compile_nwatli3.pl:116-141 | the second loop gives sizes, offsets of retained strings, and links that lead to retained strings at once |
| `TailMerge.Merge` | compile_nwatli3.pl:92-149 | every original string with its NUL is found at its computed offset in the concatenation of the retained strings |

## Left out

- Whole-program: file, console and system calls, start-up code, listing text, message texts and command-line options are not modelled; read() is an oracle that returns chunks.
- Source text to tokens: literals arrive as values and operands as token sequences in Grammar, so base prefixes, character constants and `bad label` checks are not modelled; local labels arrive with their full names.
- tinasm.c: its 16-bit evaluator, its Morris loop on a plain search tree and its include stack repeat what is modelled for mininasm.c.
- The unbalanced variant of the label index, and the variants of the packed label without balancing, are not modelled.
- LabelIndex.Index.Define: does not model running out of memory; PackedPointers.Heap.NewLabel does.
- LabelIndex and PackedPointers are separate models: the index uses label records with one field for each pointer and flag, the heap shows that the packed form behaves like such records.
- LabelPasses.PrintSorted: returns the listed labels, not the text that is printed for them.
- MatchExpression.Evaluator.MatchExpression: is_start_used and is_address_used are not modelled; of the messages of an expression that is too deep it says only that there is one.
- Passes: a straight-line program of labels, EQU, jumps, calls, one-operand data, TIMES and ALIGN without a fill instruction, above -O1; macros, conditionals, ORG, sections, INCBIN and the special pass 1 are not modelled, and no label shares its name with a macro.
- Passes: errors are a flag and not a count, and messages that a failed pattern repeats are not told apart.
- Passes.LineStep: TIMES evaluates its operand once for all repetitions, since labels do not change between them and `$` is the start of the line.
- JumpCode: jumps, calls and loops of the instruction table only; far jumps and jumps through registers or memory are not modelled.
- PassLoop.OutcomesEnd: needs a bound on the sizes of the passes below 2^28, since without one the 32-bit sums could wrap; `PassLoop.PlainWithin` gives one for programs without TIMES and ALIGN.
- WholeRuns.RunExactly: needs the same bound for the passes that take place; `WholeRuns.PlainBounded` gives one.
- LowOptPasses.SamePlaces: assumes that an operand without undefined labels in pass 0 has the same offset later; an instruction is looked up once, not once per pattern that is tried, and those that record the width of an immediate are not modelled.
- PassLoop.AsDocumented: is about the counter itself; that main stops at 7 is in `PassLoop.Round`.
- EffectiveAddress: operands in brackets only; segment prefixes and register operands are not modelled.
- WideLog: pointers into blocks are a block and an index; positions are given, not computed from addresses.
- IncludeStack: fields of 4 bytes each as on DOS; opening and seeking the files is not modelled, and of the padded layout only the backward scan is.
- LineReader: files without a newline at the end, read errors and the line counter itself are not modelled; characters above 127 are never blank.
- LineReader.ReadAll: whether a line is reported that has 256 bytes or more as it stands, and fewer when tidied up, depends on how read() splits the file, and is left open; after a quoted NUL, it does not say which lines are delivered.
- ArgvParser: the command line arrives as a buffer; GetCommandLine and ExitProcess are not modelled.
- TailMerge: starts from the list of NUL-terminated strings; splitting and joining of `db` lines before, and printing and labels after, are not modelled.
