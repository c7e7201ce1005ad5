# Verified models of libsagui's algorithms

libsagui wraps an HTTP server, but several files under `src/` are algorithms of their own. This project models them in
Dafny and proves what they are for.

- **Expression compiler and evaluator** (`src/expr.h`; `Expr*.dfy`). A scanner driven by a flag automaton feeds a
  parser over three stacks (operators, operands, call frames) that also expands macros. `ExprCompiler` is that code
  with its loops and its stacks; it is proved to compute the functions of `ExprMachine`. `ExprGrammar` defines the
  language independently: a tree is `Proper` when every operator may stand next to its immediate operands, and the
  grammar is unambiguous. The parser reads an empty group `()` wherever an operand may stand, so the trees have it
  too, and `ExprEffect` says what reading any tree does to the operand stack. For every text the outcome follows from
  its tokens: accepted exactly when they are a sentence that is read without an error, with what reading it leaves;
  undefined exactly when some comma ends an argument while no operand is pending; rejected otherwise. On plain trees,
  those without empty groups, the effect is the elaboration, so there the compiler answers as a precedence grammar
  should; `ExprLimits` has the exact condition for that. `ExprLevels` writes the levels of the operators out, says what
  they make of any two operators in a text, and proves the grammar to be the usual one with a nonterminal a level;
  `ExprNumbers`, `ExprMacros` and `ExprErrors` do the same for number tokens, for macros and for error codes.
  `ExprBlanks` says when white space and comments change nothing. Printing with the fewest parentheses is inverted by compiling, and no text without macros and empty groups
  that has tokens, but fewer, compiles to the same tree. `ExprEval` adds the evaluator: when the order in which C evaluates
  operands cannot matter, and what a macro call means. `ExprHeap` has the two linked structures: the list of variables,
  and the deep copy of a tree.
- **Hash table** (`src/uthash.h`; `HashLinks`, `UtHash`, `MergeSort`, `HashSort`, `Bits`). Elements are linked at once
  into a bucket chain and into a list in order of addition. The class invariant says that both structures are well
  linked and hold the same elements, each chain exactly those its bucket selects. Addition, doubling, roll-back,
  deletion, replacement, lookup and the in-place merge sort keep it. A failed addition leaves every field and every
  link of every element as it was.
- **String map** (`src/sg_strmap.c`; `StrMapSpec`, `StrMap`) over the hash table, and what any history of commands
  leaves in it.
- **Substring search** (`src/utstring.h`; `Kmp`), in both directions, with the strong failure table and a bound on the
  comparisons.
- **Streaming compression** (`src/sg_extra.c`, `src/sg_httpres.c`; `ZStream`, `ZCompress`, `GzStream`, `ZReader`). The compressor
  is a parameter; how its output is cut into buffers is what is verified. Whatever buffer sizes the caller chooses and
  however short the reads are, the returned bytes are the gzip member of sections 2.3 and 2.3.1 of RFC 1952, or the
  zlib stream, of the input, once and to the end; with a size limit, of as much of the input as the limit lets through.
- **Entry-point index** (`src/sg_entrypoints.c`, `src/sg_utils.c`; `EntrypointSpec`, `Entrypoints`), a sorted array
  that refines a map, and what any history of commands leaves in it.
- **Isolated requests** (`src/sg_httpreq.c`, `src/utlist.h`; `Isolation`, `UtList`), the protocol between isolating
  calls and worker threads as interleaved steps, and the singly linked list it uses.

What the environment decides is a parameter: the arithmetic of the evaluator (`Algebra`, `Arith`), the order in which
operands are evaluated (`Order`, or any choice at all in `Yields`), the hash function, the success of each allocation
(`mallocOk`, `allocOk`, `alloc`), the length of each read (`ReadPlan`), whether a user's read callback goes by the
offset it is given (`byOffset`), the compressor (`Codec`), and the schedule of threads (`seq<Action>`).

Findings, proved in the members they name:

- Empty groups. `expr_create2` accepts `()`, which compiles to zero (`ExprLimits.EmptyGroupCompiles`). In `f((),1)` the
  comma finds no operand, and the source reads before the start of its operand stack (`CommaPopsNothing`). In
  `2*f(1+())` the `+` takes the `2` from outside the call, and the result is `(2+1)*f()` (`OperandsMove`). When each of
  these happens is decided by the tokens: `ExprTheorems.CompileExact`, `ExprLimits.ExactIff`.
- A single white-space character directly after a unary operator ends the compilation without an error code of its
  own; two are skipped (`ExprBlanks.OneBlankAborts`, `TwoBlanksAreSkipped`). With blanks between the tokens a text is
  read as its tokens exactly when no such single blank occurs (`LexBlanks`); with newlines and comments, exactly when
  every gap is `Silent` and no comment is glued to a word (`LexGaps`).
- The error code `EXPR_ERR_BAD_CALL` is never given: the scanner's flags already refuse every parenthesis that the
  parser would refuse with it (`ExprErrors.NoBadCall`).
- `sg_strmap_set` returns success although nothing is stored when the pair was allocated but the table lacks memory:
  for itself, when the map is empty or holds only the pair that is replaced, or to double the buckets
  (`StrMap.Map.Set`, whose `stored` is exact; `FirstPairLost`, `OnlyPairLost`). The replaced pair is gone all the same.
- When the array cannot grow, `sg__entrypoints_add` frees the whole index (`Entrypoints.Index.Add`, `GrowthFrees`): over
  a history of commands, exactly when that happens at an addition of a key that is not there (`EntrypointSpec.GoneIff`).
- A request that was marked as isolated may never get its callback: it runs, once, if and only if its thread could be
  created and has taken a step (`Isolation.CallbackIff`, over all schedules from there on, which `ReachesMarked` shows
  to be reached). When `pthread_create` fails, the request stays marked and every later attempt is refused
  (`FailureAbandons`, `NeverAfterFailure`).
- With a size limit, the stream callbacks may go on reading after the end of the compressed data: the finishing flush
  did not fit the caller's buffer, so the phase it noted is overwritten when the block has been returned. If the next
  read gives a piece that is within the limit, the response ends in an error although all compressed data was sent,
  for gzip without its trailer; at the end of the input, or beyond the limit again, it ends well. The condition is
  `ReadsOn` (`GzStream.Holder.Read`, `ZReader.Holder.Read`), and it is reached (`ReadingOn` in both modules).

## Model

| member | source | states |
|---|---|---|
| ExprOps.LookupSpelling | src/expr.h:225-270 | the operator table is inverted by the stack spellings, although `-`, `!` and `^` occur twice in it |
| ExprOps.BinaryLookupIsSpelling | src/expr.h:225-270 | a spelling found as a binary operator is that operator's own spelling, of one or two characters |
| ExprOps.ReducesThrough | src/expr.h:159-217 | reduction passes through a chain of operators none of which reduced the next, `**` against `*` included |
| ExprOps.ReducesBelow | src/expr.h:159-217 | an operator that an incoming one reduces may sit wherever that one may |
| ExprLevels.TwoOperators | src/expr.h:159-217 | `x p y q z`, for any two binary operators: groups to the left exactly if `p` is on an earlier level (`**` `*` `/` `%`, then `+` `-`, `<<` `>>`, the comparisons, `&`, bitwise or, `^`, `&&`, logical or, `=`, `,`) or on the same and `q` is not `**`, `=` or `,`; rejected exactly if an assignment is left without a variable |
| ExprLevels.SignsBindTightest | src/expr.h:159-217 | every unary operator takes its operand before any binary operator does, on either side of it |
| ExprLevels.LayeredIs | src/expr.h:159-217 | the precedence grammar is the layered grammar with one nonterminal a level, `**`, `=` and `,` grouping to the right, an argument having no comma and a signed operand no binary operator |
| ExprLevels.CompileLayered | src/expr.h:667-994 | the text of every sentence of the layered grammar compiles to the expression of its tree, or is rejected if it has none |
| ExprLevels.AcceptedIsLayered | src/expr.h:667-994 | every accepted text that has tokens and no empty group is a sentence of it, with that expression |
| ExprLexer.NextToken | src/expr.h:493-574 | a token that is not an error takes between 1 and all of the remaining characters; empty input gives 0 |
| ExprLexer.LongestOp | src/expr.h:556-572 | in operator position the token is the longest prefix that is an operator of the table |
| ExprLexer.ReadToken | src/expr.h:493-574 | the scanning loops compute exactly the specified token and flags |
| ExprLexer.ReadOperator | src/expr.h:556-572 | the greedy scan with one character of look-ahead finds the longest operator |
| ExprLexer.ScanIsModed | src/expr.h:493-574 | every delivered token is a lexeme the flags allowed, and the new flags depend on that token only |
| ExprLexer.LexIsModed | src/expr.h:693-734 | every token stream read is a path of the flag automaton |
| ExprLexer.LexRender | src/expr.h:493-574 | every stream the automaton accepts is read back from its text printed without blanks |
| ExprBlanks.LexGap | src/expr.h:498-515 | a silent gap is skipped; any other ends the scan or puts in a comma that is not in the text |
| ExprBlanks.LexGaps | src/expr.h:493-734 | with any white space and comments between the tokens a text is read as its tokens exactly when every gap is silent |
| ExprBlanks.LexBlanks | src/expr.h:511-726 | with blanks only: exactly when no single blank stands after a unary operator |
| ExprBlanks.OneBlankAborts | src/expr.h:709-726 | `- 1` is rejected behind the blank, with the error code the compiler starts from |
| ExprBlanks.TwoBlanksAreSkipped | src/expr.h:511-515 | `-` and `1` with two blanks between are read as the two tokens |
| ExprBlanks.NewlineIsComma | src/expr.h:500-515 | a newline between two operands is read as a comma |
| ExprBlanks.SkippedAtEnd | src/expr.h:496-515 | a newline or a comment behind the last operand is not |
| ExprMachine.RunIsFeed | src/expr.h:692-932 | scanning and parsing in turns is parsing the scanned stream; an accepted text is consumed to its end |
| ExprMachine.LastOfName | src/expr.h:829-837 | the body found is that of the last macro of the name, by indices, and none is found exactly if there is no such macro |
| ExprMacros.SecondBodyCounts | src/expr.h:806-870 | `$(m,b),$(m,d),m(a)`, for any name and operands: two zeros, then `a` assigned to `$1`, then `d` |
| ExprNumbers.NumberIs | src/expr.h:272-297 | for any number type: the digits shifted in from the left, and a fraction of n digits scaled by a tenth exactly n times |
| ExprNumbers.DecimalValue | src/expr.h:272-297 | over the real numbers a token is worth its whole part and its fraction by the positional system |
| ExprNumbers.TwoPoints | src/expr.h:277-290 | a token with a second point is no number |
| ExprNumbers.ParamNumeral | src/expr.h:846-849 | the name of a parameter is `$` and its position as a decimal numeral without leading zeros |
| ExprErrors.BadStart | src/expr.h:540-553 | code -3 for a text that starts by closing a parenthesis, -4 for one that starts with another character that starts no operand |
| ExprErrors.BadAfterNumber | src/expr.h:518-571 | behind a number: -2 for a word, -3 for an opening parenthesis, -5 for a character of no operator, -1 for a number after a blank |
| ExprErrors.UnknownFunction | src/expr.h:750-757 | -6 for a call of a name that is no function and no macro, whatever follows |
| ExprErrors.Unbalanced | src/expr.h:784-943 | -8 for a parenthesis that is never closed, and for one that was never opened |
| ExprErrors.BadDefinition | src/expr.h:809-819 | -9 for a macro definition without arguments, -10 for one whose first argument is a number |
| ExprErrors.BadNumber | src/expr.h:925-929 | -11 for digits with a second point |
| ExprErrors.BadAssignment | src/expr.h:944-947 | -12 for an assignment to a number |
| ExprErrors.NoBadCall | src/expr.h:766-783 | no text is rejected with -7: the scanner refuses every parenthesis that the parser would |
| ExprErrors.NameCompiles | src/expr.h:335-356 | a word alone is a variable, which is put in front of the variables unless it is among them |
| ExprErrors.CharacterClasses | src/expr.h:219-223 | which characters make words and numbers, one by one: brackets, braces, backslash and tilde are letters too |
| ExprCompiler.LastMacro | src/expr.h:829-837 | of several macros of one name the last one recorded counts, by indices |
| ExprCompiler.Expand | src/expr.h:843-869 | the two loops that write through a moving pointer build the comma chain of assignments and body items |
| ExprCompiler.ReadNumber | src/expr.h:272-297 | the two loops compute the value of the digits, scaled by the fraction, or no number |
| ExprCompiler.Compiler.DeclareVar | src/expr.h:335-356 | a name is found or added at the head; names stay unique |
| ExprCompiler.Compiler.BindTop | src/expr.h:580-615 | pops the operands of an operator and pushes the node, or fails and says so |
| ExprCompiler.Compiler.ResolveWord | src/expr.h:737-764 | a pending word becomes a call or a variable as the next token decides |
| ExprCompiler.Compiler.MakeCall | src/expr.h:806-881 | macro definition, macro call and function call leave the specified node, variables and macros |
| ExprCompiler.Compiler.UnwindAll | src/expr.h:785-792 | the loop reduces down to the bracket of the open call or group |
| ExprCompiler.Compiler.CloseParen | src/expr.h:784-884 | a closing parenthesis ends a group or a call on all three stacks |
| ExprCompiler.Compiler.PushOperator | src/expr.h:888-920 | the endless loop reduces exactly the operators the precedence test asks for, and a comma ends an argument |
| ExprCompiler.Compiler.HandleToken | src/expr.h:735-931 | one turn of the parser is one step of the machine |
| ExprCompiler.Compiler.DrainAll | src/expr.h:934-948 | the final loop binds what is left or reports the error the source reports |
| ExprCompiler.NextScanned | src/expr.h:693-734 | the head of the main loop classifies the next token |
| ExprCompiler.Create | src/expr.h:667-994 | the whole compiler computes the outcome the theorems below are about |
| ExprGrammar.AbsComplete | src/expr.h:692-948 | reading the tokens of a proper tree by precedence alone rebuilds that tree, empty groups included |
| ExprGrammar.DriveStack | src/expr.h:692-932 | reading what open groups, open calls and pending operators stand for rebuilds them |
| ExprGrammar.Unambiguous | src/expr.h:159-217 | a token sequence is the sentence of at most one proper tree |
| ExprGrammar.AbsStepKeeps | src/expr.h:692-932 | every step keeps the grammar conditions and adds exactly the token read |
| ExprEffect.PlainEffect | src/expr.h:580-957 | reading a tree without empty groups adds exactly its elaboration to the operands, or is an error |
| ExprEffect.HeightCounts | src/expr.h:580-920 | the shape of a tree decides how many operands there are after it |
| ExprRefine.BindIsCombine | src/expr.h:580-615 | binding an operator on the operand stack is combining two subtrees of the grammar |
| ExprRefine.OperatorRefines | src/expr.h:888-920 | the operator loop on the stacks is reduction on trees |
| ExprRefine.UnwindRefines | src/expr.h:785-792 | the closing loop on the stacks is reduction on trees, down to the right bracket |
| ExprRefine.CloseStep | src/expr.h:784-884 | closing a parenthesis succeeds on the stacks exactly when it does on trees, with the same result, and never leaves defined behaviour |
| ExprRefine.StepRefines | src/expr.h:735-931 | every token takes the three stacks from one denotation to the next or fails like it; only a comma without an operand is undefined |
| ExprRefine.FinishRefines | src/expr.h:934-957 | what remains at the end of the input is what reading one tree leaves, or an error |
| ExprRefine.MachineSound | src/expr.h:692-957 | what is accepted is a sentence with the operands that reading it leaves; what is undefined has a comma that finds no operand |
| ExprRefine.MachineComplete | src/expr.h:692-957 | the tokens of every proper tree end as its effect says: accepted with its operands, rejected, or undefined |
| ExprRefine.MachinePops | src/expr.h:897-901 | whenever a comma ends an argument with no operand pending, the undefined step is reached |
| ExprTheorems.SentenceModes | src/expr.h:469-574 | the flag automaton admits every sentence of the grammar |
| ExprTheorems.CompileExact | src/expr.h:667-994 | for every text: accepted exactly if its tokens are a sentence read without an error, with that result and `near` its length (1 if empty); undefined exactly if a comma finds no operand |
| ExprTheorems.GivesOne | src/expr.h:667-994 | a token stream gives one result at most |
| ExprTheorems.CompileSentence | src/expr.h:667-994 | the text of any proper tree, empty groups included, compiles as the effect of the tree says |
| ExprLimits.SentenceHasNone | src/expr.h:766-883 | no plain sentence contains an empty group |
| ExprLimits.EmptyGroupShows | src/expr.h:766-883 | an empty group of a tree shows in the tokens wherever the tree stands, so a stream without one has plain trees only |
| ExprLimits.ExactIff | src/expr.h:667-994 | the compiler answers as the precedence grammar says if and only if the text has no empty group, or neither pops a missing operand nor is read as a sentence |
| ExprLimits.OneOperandRemains | src/expr.h:934-957 | without empty groups exactly one operand remains at the end of an accepted text |
| ExprLimits.EmptyGroupCompiles | src/expr.h:784-884 | `()` compiles to zero and is no sentence of the precedence grammar |
| ExprLimits.CommaPopsNothing | src/expr.h:895-901 | `f((),1)` with a known `f` reaches the undefined pop |
| ExprLimits.OperandsMove | src/expr.h:580-920 | `2*f(1+())` compiles to `(2+1)*f()` |
| ExprTheorems.CompileText | src/expr.h:667-994 | the text of any plain proper tree, macros included, compiles to its elaboration or is rejected if it has none |
| ExprTheorems.YieldOf | src/expr.h:678-948 | read in order, the compiled tree gives the operands and operators of the text, each once and in place |
| ExprPrint.AcceptedYield | src/expr.h:678-957 | the same for every accepted text without macros and empty groups: nothing dropped, duplicated or reordered |
| ExprPrint.RoundTrip | src/expr.h:667-994 | compiling the print with only the necessary parentheses rebuilds exactly the expression |
| ExprPrint.PrintInjective | src/expr.h:667-994 | different expressions have different prints |
| ExprPrint.PrintIsShortest | src/expr.h:667-994 | among the texts without macros and without empty groups that compile to the expression, exactly those without tokens have fewer tokens than the print |
| ExprPrint.EmptyTextIsShorter | src/expr.h:689-705 | the empty text compiles to zero, whose print has one token |
| ExprPrint.EmptyGroupIsShorter | src/expr.h:667-994 | the condition on empty groups is needed: `a*f(b-c-())` is two tokens shorter than the print of what it compiles to |
| ExprEval.WritesOnly | src/expr.h:448-453 | evaluation of a call-free expression changes no variable it does not assign |
| ExprEval.AndMeaning | src/expr.h:428-436 | `&&` is true exactly if both operands are; the second is evaluated only if the first is true |
| ExprEval.OrMeaning | src/expr.h:437-447 | logical or is true exactly if an operand is, a NaN on the left not counting; the second is evaluated only if the first is not |
| ExprEval.DependsOnTouched | src/expr.h:368-467 | value and effect of a call-free expression depend only on the variables it mentions |
| ExprEval.Commute | src/expr.h:377-427 | two independent operands give the same values and the same store in either order |
| ExprEval.OrderIndependent | src/expr.h:368-467 | in a race-free tree no order chosen node by node changes value or store |
| ExprEval.EvalYields | src/expr.h:368-467 | whatever an order gives is a possible evaluation |
| ExprEval.YieldsOne | src/expr.h:368-467 | in a race-free tree there is one possible evaluation, even when every single evaluation of an operator chooses anew |
| ExprEval.RaceMatters | src/expr.h:389-391 | without that condition it does: `(x = c) + x` |
| ExprEval.MacroMeaning | src/expr.h:838-870 | the built tree evaluates and assigns the arguments from left to right, then the body items, and returns the last |
| ExprEval.MacroIsSimultaneous | src/expr.h:838-870 | when no argument touches an earlier parameter, a macro call binds all parameters at once |
| ExprEval.ParamInjective | src/expr.h:847-848 | different parameter positions have different names |
| ExprEval.ParamHolds | src/expr.h:846-857 | after binding, every parameter holds its own argument |
| ExprEval.Evaluator.Run | src/expr.h:368-467 | the recursive evaluator returns the value and leaves the store of the semantics |
| ExprHeap.VarList.Lookup | src/expr.h:325-356 | the list keeps distinct names; a new variable goes in front and holds zero; old nodes stay |
| ExprHeap.Copy | src/expr.h:640-663 | the copy has the same value and shares no node with anything that existed before |
| ExprHeap.CopyBody | src/expr.h:860-869 | the copies of a macro body root the same expressions and share no node with the body or with one another |
| ExprHeap.DenotedBack | src/expr.h:617-638 | a well-shaped node tree is the tree of the expression it stands for |
| ExprHeap.RepresentedBack | src/expr.h:617-638 | an expression is what its tree stands for |
| Kmp.BuildTable | src/utstring.h:171-207 | the table is the strong failure function of the needle, built in linear time |
| Kmp.BuildTableR | src/utstring.h:211-247 | the right-to-left table mirrors the left-to-right table of the reversed needle |
| Kmp.Find | src/utstring.h:251-280 | the leftmost occurrence, or -1 exactly when there is none, with at most two comparisons per character |
| Kmp.FindR | src/utstring.h:284-314 | the rightmost occurrence, or -1 exactly when there is none, with the same bound |
| Kmp.StringFind | src/utstring.h:318-360 | the leftmost occurrence at or after `start`, or after the length plus `start` if that is negative; with -1 the last character and nothing else; comparisons linear in haystack and needle, table included |
| Kmp.StringFindR | src/utstring.h:364-402 | the rightmost occurrence that ends at `start` or before, or at the length plus `start` if that is negative, the terminator counting as a character; with 0 the first character and nothing else |
| Kmp.FromEitherEnd | src/utstring.h:329-336 | a start of -k finds the same as the length less k |
| Kmp.FromEitherEndR | src/utstring.h:375-382 | so does the search from right to left |
| Kmp.TerminatorApart | src/utstring.h:364-402 | that is an occurrence in the string when the start is inside it or the needle does not hold the terminator |
| Bits.MaskIsMod | src/uthash.h:433-436 | masking with a power of two less one is the remainder |
| Bits.ShiftMaskIsCeil | src/uthash.h:818-835 | shift plus masked carry is the quotient rounded up |
| Bits.CeilIs | src/uthash.h:818-830 | rounded up is the least number of buckets-full that holds the items |
| UtHash.PushFront | src/uthash.h:770-779 | an element becomes the head of a chain, both link directions kept |
| UtHash.MoveOne | src/uthash.h:857-870 | one item moves to the front of its new bucket; the count of items beyond the ideal stays exact, and so does how far each threshold is raised: 0 up to the ideal, 1 at one more, the count less one if the ideal is 1, else the count divided by the ideal and rounded up |
| UtHash.MultIs | src/uthash.h:859-865 | that closed form of the raising, for every count and every ideal of at least one |
| UtHash.MoveAll | src/uthash.h:853-873 | all items are moved, each to the bucket its hash value selects, whatever the chains looked like |
| UtHash.MovedPartition | src/uthash.h:853-873 | the new chains hold exactly the old items, each in the bucket that selects it |
| UtHash.CountsSum | src/uthash.h:519-566 | bucket counts sum to the number of items, and the chains hold the items of the list |
| UtHash.Table.AppendList | src/uthash.h:281-287 | an element goes to the end of the application order; the buckets are not disturbed |
| UtHash.Table.AddToTable | src/uthash.h:316-322 | the element is counted and heads its chain; the list is not disturbed |
| UtHash.Table.Double | src/uthash.h:842-877 | doubling keeps all items, the power of two, the rounded-up ideal length and the exact excess; every bucket has the threshold of that closed form, and is next crowded at 10 items up to the ideal, 20 at one more, and so on |
| UtHash.Table.Expand | src/uthash.h:836-886 | a failed doubling changes nothing; two ineffective doublings inhibit further ones; a successful one leaves those thresholds |
| UtHash.Table.MakeTable | src/uthash.h:215-234 | the first element makes a table of 32 empty buckets, doubling not inhibited |
| UtHash.Table.RollBack | src/uthash.h:323-326 | undoing an addition restores counts, chains, list and tail |
| UtHash.Table.PutInTable | src/uthash.h:316-331 | crowding doubles the buckets, and otherwise one bucket has one more; if the doubling fails the element is out of bucket and list again |
| UtHash.Table.Add | src/uthash.h:399-418 | added at the end unless memory is needed and missing, the sizes, counts and thresholds being then those of a new table, of a doubled one, or as before but for one bucket; otherwise every field and every link is as before |
| UtHash.Table.AddEleven | src/uthash.h:776-865 | eleven elements of one hash value: the tenth doubles the buckets to 64 and raises the threshold of its own to 100, and the eleventh is added without memory |
| UtHash.Table.LinksDetermined | src/uthash.h:519-566 | all four links of every element follow from the two orders |
| UtHash.Table.Delete | src/uthash.h:453-480 | removes that element from list and chain and no other; the table goes with the last one |
| UtHash.Table.Replace | src/uthash.h:257-265 | the element of that key goes, the new one comes last exactly if memory is had or not needed after the deletion |
| UtHash.Table.Find | src/uthash.h:156-166 | an element of the key exactly when the table has one; the first in its chain |
| UtHash.Table.Sort | src/uthash.h:893-975 | the list becomes the merge-sorted list; buckets and chain links are untouched, so every lookup is unchanged |
| MergeSort.SortSpec | src/uthash.h:893-975 | a permutation for any comparison; sorted and stable for a total preorder |
| MergeSort.MergeIsStable | src/uthash.h:919-948 | merging sorted runs keeps tied elements in order, the first run first |
| MergeSort.PassDoublesRuns | src/uthash.h:907-962 | one pass turns sorted runs of `k` into sorted runs of `2k` |
| HashSort.SkipRun | src/uthash.h:909-918 | the second run starts `k` elements on, or where the list ends |
| HashSort.MergeRuns | src/uthash.h:919-960 | the relinking loop appends the merge of the two runs to the output list, both link directions kept |
| HashSort.PassOver | src/uthash.h:903-965 | one pass over the links is one pass on the sequence; at most one merge exactly when the list was at most two runs long |
| HashSort.SortList | src/uthash.h:897-975 | the whole in-place sort terminates and leaves a well-linked list with the right head and tail |
| StrMapSpec.SameKey | src/sg_utils.c:150-156 | two names share a key exactly when they agree up to the case of ASCII letters; lowering is idempotent |
| StrMapSpec.LowerIs | src/sg_utils.c:150-156 | a lowered name holds no upper-case letter and differs from the name at those letters only, by 32 |
| StrMapSpec.MapSemantics | src/sg_strmap.c:89-187 | over any history: lookups give the most recent value, the count is that of live keys, iteration follows the last set |
| StrMapSpec.SortKeepsLookups | src/sg_strmap.c:158-165 | sorting by any comparison changes no lookup and no count |
| StrMap.ToAsciiLower | src/sg_utils.c:150-156 | lowers a terminated string in place and touches nothing from the terminator on |
| StrMap.Map.Set | src/sg_strmap.c:89-99 | a pair of that key goes and the new one is last, stored exactly if the table had or did not need memory; success is reported either way; distinct keys stay distinct |
| StrMap.Map.LoneKeyNeedsMemory | src/sg_strmap.c:89-99 | memory is needed when the map is empty or holds only the pair to be replaced |
| StrMap.FirstPairLost | src/sg_strmap.c:89-99 | the first pair of a map is lost without memory for the table, and success is reported |
| StrMap.OnlyPairLost | src/sg_strmap.c:89-99 | replacing the only pair loses both values in the same way |
| StrMap.Map.Add | src/sg_strmap.c:78-87 | the pair is added at the end whatever is there, exactly if the table had or did not need memory; keys stay distinct exactly when the key is new or nothing was stored |
| StrMap.Map.FindPair | src/sg_strmap.c:101-117 | a pair of the lowered name, or not found exactly when there is none |
| StrMap.Map.Get | src/sg_strmap.c:119-124 | a value stored under any spelling of the name, absent exactly when there is none; with distinct keys the one value |
| StrMap.Map.Rm | src/sg_strmap.c:126-144 | removes one pair of that key and no other, and reports when there was none |
| StrMap.Map.Sort | src/sg_strmap.c:158-165 | the pairs are merge-sorted and, with distinct keys, every lookup is as before |
| StrMap.Map.Count | src/sg_strmap.c:167-169 | the number of pairs |
| StrMap.Map.Cleanup | src/sg_strmap.c:178-187 | the map is empty and every pair was freed once, in order, although each deletion frees the node the loop stands on |
| StrMap.CarryOut | src/sg_strmap.c:89-187 | one command does to the map what it does to the list of pairs |
| StrMapSpec.OneChoice | src/sg_strmap.c:101-144 | with distinct keys there is one pair a lookup can give or a removal can take |
| StrMap.Replay | src/sg_strmap.c:89-187 | any history carried out on the table leaves what the specification of histories says |
| ZStream.ZDeflate | src/sg_extra.c:105-130 | the chunk loop collects all output of one call, once, whatever its length, and ends |
| ZStream.FeedIsWhole | src/sg_extra.c:105-130 | feeding in pieces is feeding the whole, for a compressor that does not see the seams |
| ZStream.CrcConcat | src/sg_httpres.c:230-230 | the checksum continues across pieces |
| ZStream.FedEnd | src/sg_httpres.c:216-221 | asking for the end a second time gives nothing more |
| ZStream.KeeperIsLawful | src/sg_extra.c:105-130 | there is a compressor that meets the laws asked for, refuses empty calls and input after the end, and does not fail before it |
| ZCompress.DeflateInto | src/sg_extra.c:89-99 | one call takes the input, writes what there is room for behind what is there, and says whether it is done |
| ZCompress.OneSlice | src/sg_extra.c:94-98 | every further slice keeps the account of input and output, the end included |
| ZCompress.ZCompress | src/sg_extra.c:70-103 | success leaves the compressed form of the whole input; want of room is reported only when it leaves no byte to spare |
| ZCompress.KeeperCloses | src/sg_extra.c:94-98 | the law about input and end together can be met too |
| GzStream.TrailerIs | src/sg_httpres.c:201-212 | the eight bytes are checksum and size modulo 2^32, least significant byte first |
| GzStream.MemberIs | src/sg_httpres.c:184-212 | 1f 8b, method 8, no flags, four zero bytes of time, no extra flags, system 3, the data from byte 10 on, then checksum and size |
| GzStream.Holder.TakeInput | src/sg_httpres.c:216-233 | position, checksum and pieces agree with the bytes read, or the end or the limit is noted |
| GzStream.Holder.Compress | src/sg_httpres.c:234-237 | output follows what was given before; after the end a piece is refused and the end gives nothing more |
| GzStream.Holder.Deliver | src/sg_httpres.c:234-243 | output that fits is returned and freed; more is kept for later calls |
| GzStream.Holder.Drain | src/sg_httpres.c:244-261 | the kept block is returned from front to back and freed once, with its last byte |
| GzStream.Holder.Read | src/sg_httpres.c:177-262 | every call keeps the invariant on what has been returned, ends exactly in the last phase, makes progress, and fails for no other reason than a failure around it or reading on after the end |
| GzStream.Holder.ReadsOnPastLimit | src/sg_httpres.c:216-233 | reading on takes a limit and a file beyond it |
| GzStream.ReadingOn | src/sg_httpres.c:216-257 | it is reached without any failure, and the trailer is never sent |
| GzStream.Serve | src/sg_httpres.c:177-262 | for all buffer sizes that leave room for header and trailer, all short reads and any limit the run ends, and the bytes returned are, byte by byte, a member of section 2.3 of RFC 1952 around the compressed data of the file, or of its part within the limit |
| ZReader.Holder.TakeInput | src/sg_httpres.c:118-135 | the callback is asked for the first byte not yet supplied; its end or the limit is noted |
| ZReader.Holder.Drain | src/sg_httpres.c:146-163 | the kept block is returned from front to back and freed once, even after the end |
| ZReader.Holder.Read | src/sg_httpres.c:110-164 | every call keeps the invariant on what has been returned, makes progress unless its piece is empty, and fails for no other reason than a failure around it, an empty piece that the compressor refuses, or reading on after the end |
| ZReader.Holder.ReadsOnPastLimit | src/sg_httpres.c:118-135 | reading on takes a limit and data beyond it |
| ZReader.ReadingOn | src/sg_httpres.c:118-163 | it is reached without any failure, whether the user's callback goes by the offset or by its own position |
| ZReader.Serve | src/sg_httpres.c:110-164 | for all buffer sizes, all pieces and any limit the run ends, and the bytes returned are the compressed data, or that of the part within the limit |
| EntrypointSpec.ExtractSpec | src/sg_utils.c:336-359 | the entry point is a slash and the longest slash-free segment after the leading slashes |
| EntrypointSpec.ExtractIdempotent | src/sg_utils.c:336-359 | an entry point is its own entry point, a slash followed by a slash-free segment |
| EntrypointSpec.LessTrans | src/sg_entrypoint.c:37-40 | the order of names is transitive |
| EntrypointSpec.CmpEqual | src/sg_entrypoint.c:37-40 | names compare equal exactly when they are equal |
| EntrypointSpec.LessIs | src/sg_entrypoint.c:37-40 | a name is less exactly if at the first difference it has ended or has the smaller character |
| EntrypointSpec.OrderedIs | src/sg_entrypoints.c:50-51 | in a sorted array no name comes before one that stands in front of it |
| EntrypointSpec.SortedBySorts | src/sg_entrypoints.c:48-51 | what stands in for qsort orders the entries and loses none |
| EntrypointSpec.MapOfInserted | src/sg_entrypoints.c:47-52 | sorting a new entry in is adding it to the map |
| EntrypointSpec.MapOfRemoved | src/sg_entrypoints.c:58-70 | closing the gap is removing that key from the map |
| Entrypoints.ExtractEntrypoint | src/sg_utils.c:336-359 | the scanning loops and the bounded print compute the entry point |
| Entrypoints.BSearch | src/sg_entrypoints.c:74-85 | binary search finds a name exactly when it is in the sorted array |
| Entrypoints.QSort | src/sg_entrypoints.c:50-51 | the in-place sort computes the insertion of the entries one by one, loses none, and leaves no name before one that stands in front of it in dictionary order |
| Entrypoints.Index.Find | src/sg_entrypoints.c:148-160 | found exactly when the entry point of the path is in the map, with its data |
| Entrypoints.Index.Add | src/sg_entrypoints.c:34-109 | refused exactly when the key is there; otherwise the map gains it and the array is the old one with the entry behind the names before its own and in front of the others, in dictionary order; or the index is freed exactly when the array cannot grow |
| Entrypoints.Index.Rm | src/sg_entrypoints.c:55-122 | removes that key and no other, and reports when there was none |
| Entrypoints.Index.Clear | src/sg_entrypoints.c:137-146 | the map is empty |
| EntrypointSpec.OwnerIs | src/sg_entrypoints.c:34-146 | the entry of a key comes from the first addition after the last command that erased the key |
| EntrypointSpec.HistorySemantics | src/sg_entrypoints.c:34-160 | over any history: a key is there exactly when it was added and not erased since, with the data of the first such addition |
| EntrypointSpec.GoneIff | src/sg_entrypoints.c:34-53 | the index is gone exactly when the array could not grow at an addition of a key that was not there |
| Entrypoints.CarryOut | src/sg_entrypoints.c:96-146 | one command does to the index what it does to the map, and reports what it should |
| Entrypoints.Replay | src/sg_entrypoints.c:34-160 | any history of commands, with any outcomes of the allocations, leaves and reports what the specification of histories says |
| Entrypoints.GrowthFrees | src/sg_entrypoints.c:41-45 | an index with an entry is freed with it when the next one finds no room |
| Entrypoints.SmallerFirst | src/sg_entrypoints.c:34-53 | whichever is added first, the entry of `/a` stands before that of `/b` |
| Isolation.StepKeeps | src/sg_httpreq.c:208-239 | every step of every call and worker keeps the protocol invariant |
| Isolation.AlwaysInv | src/sg_httpreq.c:38-47 | so it holds after every schedule |
| Isolation.ListWhenFree | src/sg_httpreq.c:38-47 | whenever the lock is free the list is exactly the records whose worker has not deleted its own, in order of isolation |
| Isolation.AtMostOnce | src/sg_httpreq.c:38-47 | no callback, resumption, unlinking or freeing happens twice, and no request gets a second record |
| Isolation.Completion | src/sg_httpreq.c:38-47 | a worker is done exactly when its record is freed and everything else has happened once |
| Isolation.OrderOfEffects | src/sg_httpreq.c:38-239 | in every interleaving: suspended before listed before marked; callback, unlinking, unlocking, resumption, release in the worker; unlinking, release, resumption on the way down |
| Isolation.NotFreedUnderCreator | src/sg_httpreq.c:228-237 | while the creating call holds the lock its record is neither unlinked nor freed by the worker |
| Isolation.NoUseAfterFree | src/utlist.h:343-404 | no step touches a freed record, the list walks included, and a deletion finds its record in the list |
| Isolation.NoDeadlock | src/sg_httpreq.c:208-239 | the holder of the lock can go on, and when there is none everyone can |
| Isolation.NeverAfterFailure | src/sg_httpreq.c:228-235 | after a failed thread creation the callback never runs and the request stays marked |
| Isolation.FailureAbandons | src/sg_httpreq.c:228-238 | every failed thread creation leads there under any schedule in which its call goes on, and the call gives the lock back |
| Isolation.CallbackIff | src/sg_httpreq.c:38-238 | after the attempt to create the thread, under every schedule, the callback has run once if and only if the thread was created and has taken a step |
| Isolation.ReachesMarked | src/sg_httpreq.c:208-228 | every request of a fresh server gets to that attempt by one call and five steps |
| Isolation.LeavesWith | src/sg_httpreq.c:214-239 | each error a call leaves with, and exactly when: already isolated, no memory while it is not, creation succeeded, everything taken back |
| Isolation.SecondIsolation | src/sg_httpreq.c:214-217 | once a request is isolated, every call on it without a record leaves as already isolated, under every schedule |
| Isolation.ProtocolIsSafe | src/sg_httpreq.c:38-47 | over all schedules from a fresh server: the list with the lock free, everything at most once, one record a request, completion, no use after free, none freed under its creator, no deadlock |
| UtList.Append | src/utlist.h:343-354 | the walk to the end hangs the record behind the last |
| UtList.Delete | src/utlist.h:390-404 | unlinks that record and no other, at the head or inside |
| UtList.IdsRemoved | src/utlist.h:390-404 | on the links this is the removal the protocol model uses |

## Left out

- Floating point: numbers are a parameter type with the operations the evaluator and the number parser use, so NaN appears only as the tests the code makes; `pow`, `fmod` and `to_int` are inside `Algebra.binary`.
- Allocation failures inside the expression compiler and the search functions; `expr_destroy`, `expr_destroy_args`, cleanup callbacks and `vec_expand`.
- ExprTheorems.CompileExact: says whether a text is rejected, not with which error code or position; `ExprMachine` has both as the source has them, and `ExprErrors` says them for one family of texts a code.
- ExprPrint.PrintIsShortest: asks for a text without empty groups, without which it is false (`ExprPrint.EmptyGroupIsShorter`), and without macro definitions.
- Fixed integer widths: counts, offsets and hash values are natural numbers, so the wrap-around of 32-bit counters and of the run length in the sort is not modelled; the gzip trailer is reduced modulo 2^32 as in the source.
- The hash functions themselves, the Bloom filter, `HASH_SELECT`, `HASH_ADD_INORDER` and the iteration macros other than the one `sg_strmap_cleanup` uses.
- ExprHeap.Copy: the vectors of arguments are sequences, so their growth by doubling is not modelled.
- UtHash.Table.Sort: the comparison is a function of two elements that reads nothing else; a callback with side effects is not modelled. `LL_SORT2` and `DL_SORT2` in `src/utlist.h` run the same loops on other list shapes and are not repeated.
- StrMap.Map.Set: the allocations of the table count as one that succeeds or fails. The strings of a pair are values, so only the nodes are counted as freed.
- StrMap.Map.Rm: which of several pairs of one key goes, or is found or replaced, depends on the buckets and is left open; only `sg_strmap_add` makes such pairs.
- Kmp.StringFind: asks that a negative start does not reach before the string when the needle is short enough to be looked for there, since the source would then read outside its buffer. The failure of the table's allocation is not modelled.
- Kmp.StringFindR: asks that the start is not behind the terminator when the needle is short enough to be looked for, for the same reason.
- zlib: `deflate` is a function from state, input and flush to a new state and output, taken whole at the first call; a stream that takes its input in parts is seen only through its total output. `deflateInit2` and `deflateEnd` are left out. Whether an empty call without flush fails, as zlib's does with `Z_BUF_ERROR`, is a matter of the compressor in a given state (`Refuses`).
- GzStream.Holder.Read: asks for ten bytes of room on the call that writes the header and for eight on the one that writes the trailer, as the source writes them without a look at the size.
- ZReader.Serve: asks for a compressor that refuses empty calls, or for a source that gives no empty piece, since otherwise a source that returns no bytes for ever makes no progress.
- ZReader.Holder.Read: the user's callback may be asked again after it has ended, namely when the finishing flush did not fit, and must then end again.
- `sg__httpres_zfree_cb` and `sg__httpres_gzfree_cb`, which do not free an output block that is still being returned when the connection is dropped.
- Entrypoints.Index.Rm: the source closes the gap with `memcpy`, whose regions overlap, which C leaves undefined, exactly when at least two entries follow the removed one; the model moves the entries. The shrinking reallocation always succeeds; a failing one would lose the list in the source.
- `qsort` is an insertion sort and `bsearch` the usual halving loop; the names' byte order is the order of characters.
- Isolation.ProtocolIsSafe: the teardown in `sg_httpsrv_free`, failures of the mutex itself, and what the callback does to the request are not modelled; each statement of the two functions is one atomic step, and record addresses are never reused.
- Null arguments and the `EINVAL` branches everywhere; sockets, files, server options, authentication, uploads, routes, cookies and the rest of the library.
