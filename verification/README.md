# Verified models of the API Management emulator's hardest logic

This project models, in Dafny, the parts of the emulator whose correctness is hardest to see by
reading one function at a time, and proves what they are for. `dafny verify dfyconfig.toml` checks
all of it.

Loops and objects of the original are methods with loops and classes with fields. Each is proved to
compute a function of its inputs (or of the old state), and the theorems are about those functions.
The functions look at suffixes of the input, so that positions stay out of the statements; the
methods keep the original's indices. Errors are `Result` and `Option` values.

**Policy expressions** (`internal/expression/lex.go`)
- `GoStrings` has the parts of Go's string library that everything else uses: runes, trimming, case, order, numbers.
- `Lexer` says what the tokenizer and the bracket matcher compute; `Scanner` has the loops and the cursor.
- `Matching` proves that the matcher and the interpolation splitter, which call each other, answer alike on every longer source and need nothing after the place they find.
- `Wrapping` proves the central theorem: stripping `@( )` or `@{ }` by looking at bytes is exact for the tokens of what was wrapped. It holds if and only if the brackets among those tokens balance and the text does not end inside a line comment; each way to fail has its own error. Conversely, what `Lex` accepts as wrapped is exactly such text.
- `Coverage` proves that tokens and trivia make up the whole source; `TokenPrinting` and `Interpolation` are the round trips, up to `Lex` on a text without a wrapper, and `TokenRefusals` says what is refused and with which error.

**Collection queries** (`internal/arm/collection.go`)
- `Filter` has the grammar and the three-valued meaning of `$filter`; `FilterParser` is the lexer loop and the recursive-descent parser with its cursor, its contract switch and the closures it builds.
- `FilterGrammar` is the grammar as a relation between tokens and filters, with redundant parentheses and keywords in any case, and proves that the parser reads exactly its spellings; `FilterText` proves the same of texts, under any contract: what is accepted, as which filter, and that printing is inverted, with `FilterPrinting`.
- `FilterContracts` proves what a contract guarantees; `FilterMeaning` says what a whole filter means as a statement of plain logic, without the code, `FilterWords` what each word of it says, from tokens to outcome, and `FilterOrder` that the order of an object's members does not matter.
- `Paging` proves that following next links partitions the result, and which queries are refused.

**Conditional writes** (`internal/arm/conditional.go`, `internal/arm/handler.go`)
- `Conditional` proves tag parsing, tag comparison and the decision against sections 8.8.3, 13.1.1, 13.1.2 and 13.2.2 of RFC 9110.
- `MutationLock` is a transition system over any number of requests, with lost updates, double creation and writes by refused requests excluded in every interleaving, and every request served.

**Documents, backends and links** (`internal/arm/handler.go`, `internal/arm/backends.go`, `internal/arm/links.go`)
- `Documents` compares `mergeObject` with MergePatch of section 2 of RFC 7396 and gives the exact condition under which they agree, and what the merge leaves at every path.
- `Backends` says exactly which requests, and which runs, keep the typed fields and the stored document of a backend in agreement; `Decoding` is what Go's JSON decoder makes of a body, and `Sorting` the order of its keys.
- `Links` and `LinkCollections` name associations and say which candidate each target gets and exactly which runs keep those names apart; `LinkClashes` has the runs that do not.

**Smaller machines**
- `Clock` (`internal/clock/clock.go`), `FormatStrings` (`internal/expression/statics.go`), `Sections` (`scripts/derive_policy_sections.py`).

## Where the code does less than it seems to promise

Each of these is proved with its exact condition, and with an input at which it happens.

- `mergeObject` stores a patch object that lands on a missing or non-object member as it is, nulls included. So `Documents.MergeAtPath` states. It differs from RFC 7396, and is not idempotent, exactly when such an object holds a null (`Documents.MergeIsMergePatch`, `Documents.MergeTwice`; `Documents.UncleanPatchFails`).
- An accepted PUT or PATCH of a backend sets the document apart from the typed fields exactly when its `properties` is no object (for a PATCH), one of the five fields is neither a string nor null, or Go's decoder, which matches keys in any case, reads something else than the document has under the exact key (`Backends.PutAgreesExactly`, `Backends.PatchAgreesExactly`, on every row `Backends.PatchIsSafeExactly`, over runs `Backends.RunsAgree`; `Backends.NullPropertiesSetApart`, `Backends.NumberSetsApart`, `Backends.RespelledKeySetsApart`, `Backends.RespelledPutIsApart`).
- A link PUT gives two rows one stored name exactly when its target is associated under another spelling, which `SetLinkName` renames too, or another target has chosen the name, which happens when a target's candidates are exhausted (`LinkCollections.PutKeepsNamesApart`, and `LinkCollections.RunKeepsNamesApart` over runs; `LinkClashes.RespelledApiClashes`, `LinkClashes.ApisLetNamesClash`).
- A next link past 2147483647 is refused by the server that issued it; a walk meets one exactly when its last page starts there (`Paging.WalkPartitions`; `Paging.NextLinkIsRefused`).
- A source that ends inside a `//` comment cannot be wrapped, although it tokenizes (`Wrapping.WrappingIsExact`; `Wrapping.LineCommentCannotBeWrapped`).
- Conditions are looked at for GET, HEAD, PUT, PATCH and DELETE only, so a POST whose condition fails is carried out, where section 13.2.2 of RFC 9110 would have it refused. And they are looked at where section 13.2.1 has them ignored, since without them the request would get neither a 2xx nor a 412: a GET or PATCH with `If-Match` of a missing resource gets a 412 for its 404. (A GET whose probe broke is answered with that, as section 13.2.1 asks.) `Conditional.DecideFollowsSections` has the exact condition against both sections, `Conditional.DecideFollowsPrecedence` against section 13.2.2 alone; `Conditional.PostIsNotChecked`, `Conditional.MissingIsPreconditionFailed`, `Conditional.MissingPatchIsPreconditionFailed` and `Conditional.BrokenProbeIsAnswered` are the inputs.
- A list of entity tags is misread exactly when one of them contains a comma (`Conditional.HeaderRoundTrip`).

## Model

| member | source | states |
|---|---|---|
| GoStrings.RuneIsExact | internal/expression/lex.go:266-290 | decoding a rune gives what the bytes in front encode by sections 3 and 4 of RFC 3629, or else the replacement character for one byte |
| GoStrings.TrimOfSpaced | internal/expression/lex.go:104-104 | trimming takes the white space from both ends of a text and nothing else |
| GoStrings.SplitIsExact | internal/arm/conditional.go:116-116 | splitting gives the one list of separator-free parts that make up the text |
| GoStrings.IntegerIsExact | internal/arm/collection.go:415-415 | an integer is read if and only if the text spells it: an optional sign, then digits alone |
| GoStrings.FoldIsByLetter | internal/arm/collection.go:911-918 | two texts are the same in any case if and only if they are so letter by letter |
| Wrapping.WrappingIsExact | internal/expression/lex.go:103-133 | for every text that tokenizes, lexing it wrapped gives exactly its tokens and form if and only if its bracket tokens balance and it does not end inside a line comment; a bracket closed early is exactly the trailing-text error, and anything else the unclosed-wrapper error |
| Wrapping.LexAcceptsExactly | internal/expression/lex.go:103-133 | of all texts, `Lex` answers with the form of a wrapper exactly for those that, trimmed, are that wrapper around text whose bracket tokens balance and which does not end inside a line comment; its tokens are those of that text |
| Wrapping.UnwrappingIsExact | internal/expression/lex.go:103-133 | the same of a source that starts with the wrapper's opening, naming the byte that closes it |
| Wrapping.LineCommentCannotBeWrapped | internal/expression/lex.go:217-240 | `//` tokenizes, and `@(//)` is refused as unclosed |
| Wrapping.CloserMatchesTokens | internal/expression/lex.go:135-190 | the byte-level matcher, from any depth, stops at the token that closes the wrapper, else at the appended closer unless a comment swallows it, else nowhere |
| Wrapping.TokenStep | internal/expression/lex.go:288-435 | each token is a whole number of the matcher's steps and changes its depth as the token's kind says |
| Wrapping.TriviaStep | internal/expression/lex.go:266-286 | the matcher steps over the spaces and comments before a token, and fails exactly when they end in an open line comment |
| Wrapping.BodyEndsWhereTailEnds | internal/expression/lex.go:503-544 | whenever the tokenizer reads a string, plain or verbatim, the matcher skips exactly the same bytes |
| Wrapping.TokenCloserIsFirstZero | internal/expression/lex.go:135-190 | some token closes the wrapper exactly when some prefix closes as many brackets more than it opens |
| Matching.MatcherIsStable | internal/expression/lex.go:135-190 | a closer is found at a place in a prefix if and only if it is found there in every longer source |
| Matching.SplitterIsStable | internal/expression/lex.go:564-619 | the parts and the closing quote of an interpolated string are found in a prefix if and only if they are found in every longer source |
| Lexer.Closer | internal/expression/lex.go:135-190 | on success the index lies inside the source and holds the closer; the mutual recursion with the splitter terminates |
| Lexer.Split | internal/expression/lex.go:564-619 | on success the index lies inside the source and holds the closing quote |
| Coverage.TokensCoverSource | internal/expression/lex.go:247-435 | on success lexemes are the slices at their offsets, offsets strictly increase, gaps are white space and comments (and the `@` of a verbatim string), and the single end token stands at the end |
| Coverage.TriviaLengthIsRun | internal/expression/lex.go:266-286 | what is skipped is a run of white-space runes, line comments up to their line feed and block comments up to their first closer |
| Coverage.RunIsSkipped | internal/expression/lex.go:266-286 | and conversely a text that is such a run is skipped whole |
| Coverage.LexCoversBareText | internal/expression/lex.go:103-133 | what `Lex` answers for a text without a wrapper covers all of it but the white space around it, in the same sense |
| TokenPrinting.ScanOfPrint | internal/expression/lex.go:247-264 | tokenizing any printed list of operators, brackets, keywords, names, integers, decimals, strings in all three styles and interpolated strings, with any spaces and comments around them that keep neighbours from fusing, gives their kinds, lexemes, values and offsets |
| TokenPrinting.LexOfPrint | internal/expression/lex.go:103-133 | any such printed list with any white space around it, unless it starts with an `@`, is lexed as exactly those tokens, with no wrapper |
| TokenPrinting.LexForms | internal/expression/lex.go:103-133 | a text whose first byte, white space aside, is an `@` that opens neither wrapper is refused, and what is accepted has the form it opens with |
| TokenPrinting.SpacesKeepApart | internal/expression/lex.go:247-264 | one space around each of any printed tokens is enough for that |
| TokenPrinting.SymbolOf | internal/expression/lex.go:288-435 | each printed token is read back whatever follows it, unless that can be taken for more of it |
| TokenPrinting.GapIsSkipped | internal/expression/lex.go:266-286 | spaces and comments that do not end inside a line comment are skipped whole before any token |
| TokenPrinting.WordOf | internal/expression/lex.go:437-459 | an identifier is read to its last whole rune, over any table of letters and digits |
| TokenPrinting.BodyOfEscaped | internal/expression/lex.go:503-544 | a string's body decodes to the value it was escaped from, in all three styles |
| TokenPrinting.IntegerOf | internal/expression/lex.go:461-501 | a printed integer up to the largest 64-bit one is read back with its value |
| TokenPrinting.NumberOf | internal/expression/lex.go:461-501 | digits with a fraction, a signed exponent under either mark, or both are read whole, as a floating-point literal |
| TokenPrinting.UnicodeEscapeOf | internal/expression/lex.go:632-657 | a `\u` escape stands for the character whose four hexadecimal digits it gives, in either case, the highest first |
| TokenPrinting.EscapeIsRead | internal/expression/lex.go:632-646 | each one-character escape stands for the byte the table of escapes names |
| TokenPrinting.MarkOf | internal/expression/lex.go:288-435 | each operator, bracket and keyword is read as its own kind, the longest match first |
| TokenPrinting.EncodedRuneDecodes | internal/expression/lex.go:632-657 | the text of a `\u` escape is the UTF-8 form of the character it names; a surrogate half becomes U+FFFD |
| TokenRefusals.RefusedBehind | internal/expression/lex.go:247-264 | what is refused as a token is refused behind any printed tokens, with the same error |
| TokenRefusals.UnexpectedExactly | internal/expression/lex.go:288-435 | a character is unexpected if and only if it starts no operator, string, number or name: a lone `&` or `|`, an `@` or `$` before no quote, and so on |
| TokenRefusals.IntegerFits | internal/expression/lex.go:478-501 | digits are an integer literal if and only if their value fits in 64 bits, and else the number error |
| TokenRefusals.ExponentNeedsDigits | internal/expression/lex.go:478-490 | a number whose exponent mark no digit follows is refused |
| TokenRefusals.UnclosedIsRefused | internal/expression/lex.go:503-544 | a string that is never closed, and one in the two plain styles that a line end cuts off, is refused, whatever its value so far |
| TokenRefusals.BadEscapeIsRefused | internal/expression/lex.go:632-657 | a backslash before a character outside the table of escapes is refused, whatever stands before it |
| TokenRefusals.BadUnicodeEscapeIsRefused | internal/expression/lex.go:632-657 | so is a `\u` without four hexadecimal digits |
| TokenRefusals.UnclosedInterpolationIsRefused | internal/expression/lex.go:564-630 | an interpolated string that is never closed, or that a line end cuts off, is refused behind any printed parts |
| TokenRefusals.LoneBraceIsRefused | internal/expression/lex.go:564-630 | so is one with a closing brace that closes no hole, and one with a hole that is never closed |
| TokenRefusals.OpenCommentIsRefused | internal/expression/lex.go:266-286 | a block comment that is never closed is refused |
| Interpolation.SplitOfPrint | internal/expression/lex.go:564-619 | splitting any printed parts and a closing quote gives the parts with neighbouring literals joined, and the index of that quote, whatever follows |
| Interpolation.HoleTextIsExact | internal/expression/lex.go:564-619 | a hole survives printing and splitting if and only if it does not start with a brace and its closing brace is the one after it |
| Interpolation.BalancedCodeIsHoleText | internal/expression/lex.go:564-619 | code whose brace tokens balance and that ends in no line comment can stand in a hole |
| Interpolation.TokenOfPrint | internal/expression/lex.go:621-630 | a printed interpolated string is read as one token that is exactly its text |
| Scanner.SkipString | internal/expression/lex.go:192-215 | the loop ends after the closing quote of the string at `start`, or reports it unterminated |
| Scanner.SkipComment | internal/expression/lex.go:217-240 | the loop ends before the line feed or after the first comment closer, and nowhere for a lone slash |
| Scanner.MatchingCloser | internal/expression/lex.go:135-190 | the loop over positions, depth and nested strings finds the closer that the suffix function names |
| Scanner.SkipOne | internal/expression/lex.go:144-184 | the switch's cases for strings, verbatim strings, comments and interpolated strings skip exactly one of them |
| Scanner.SplitInterpolation | internal/expression/lex.go:564-619 | the loop with its builders gives the parts and the quote that the suffix function names |
| Scanner.StepOne | internal/expression/lex.go:574-616 | one case of the splitter's switch reads one hole or one piece of literal text |
| Scanner.SkipTrivia | internal/expression/lex.go:266-286 | the loop skips all spaces and comments |
| Scanner.ScanBody | internal/expression/lex.go:503-544 | the string loop decodes the body and ends after the closing quote |
| Scanner.StringStepOne | internal/expression/lex.go:512-541 | one round of the string loop adds the text its bytes stand for |
| Scanner.Cursor.constructor | internal/expression/lex.go:242-248 | a scanner starts at the beginning of its source |
| Scanner.Cursor.SkipSpaceAndComments | internal/expression/lex.go:266-286 | the cursor moves past all spaces and comments, or the error is that of an open comment |
| Scanner.Cursor.ScanIdent | internal/expression/lex.go:437-459 | the cursor moves past the identifier and the token carries its offset and keyword kind |
| Scanner.Cursor.ScanMantissa | internal/expression/lex.go:461-477 | the cursor moves past digits and fraction |
| Scanner.Cursor.ScanNumber | internal/expression/lex.go:461-501 | the token and the cursor are those of the number at the cursor, with the exponent and overflow errors |
| Scanner.Cursor.ScanString | internal/expression/lex.go:503-544 | the token, its lexeme and the cursor are those of the string at the cursor |
| Scanner.Cursor.ScanInterpolated | internal/expression/lex.go:621-630 | the token spans from the dollar to the closing quote |
| Scanner.Cursor.Next | internal/expression/lex.go:288-435 | the switch reads the token at the cursor and moves just past it |
| Scanner.ScanAll | internal/expression/lex.go:247-264 | repeating skip and next gives all tokens and the end token |
| Scanner.LexExpression | internal/expression/lex.go:103-133 | the wrapper is stripped and the inside tokenized, with every error of the original |
| FilterText.AcceptedExactly | internal/arm/collection.go:517-534 | a text that is not blank is accepted as a filter if and only if all its tokens, up to the end, spell that filter, with redundant parentheses and keywords in any case, and the contract admits it |
| FilterText.LexedIsRendered | internal/arm/collection.go:569-629 | every text that tokenizes is some spelling of its tokens: white space between them, and where words would fuse at least some of it |
| FilterText.BlankIsNoFilter | internal/arm/collection.go:517-520 | a blank text is no filter, and only such a one |
| FilterGrammar.SpellingIsRead | internal/arm/collection.go:640-837 | tokens that spell a filter in the grammar, before anything that cannot go on, are parsed as it if the contract admits it, and refused if not |
| FilterGrammar.ReadIsSpelling | internal/arm/collection.go:640-837 | conversely, whatever the parser accepts, it takes from the front, and what it took spells that filter |
| FilterText.FilterRoundTrip | internal/arm/collection.go:517-534 | any filter, spelled with any white space, is read back as itself if the contract admits it and refused if not |
| FilterText.LexOfRender | internal/arm/collection.go:569-629 | lexing inverts spelling, doubled quotes included, whatever white space separates the tokens |
| FilterPrinting.ParseOrOfPrint | internal/arm/collection.go:640-725 | parsing inverts printing: `and` binds tighter than `or`, both associate to the left, parentheses and calls nest, and the contract decides |
| FilterPrinting.PrintSpells | internal/arm/collection.go:640-837 | the printed tokens of any printable filter spell it in the grammar |
| Filter.LexFilter | internal/arm/collection.go:569-629 | on success there is exactly one end token, and it is the last |
| Filter.ParseOr | internal/arm/collection.go:640-658 | on success at least one token is consumed, and what is left is left over from the tokens and still ends in the one end token |
| Filter.LeftOverIsSlice | internal/arm/collection.go:631-634 | what a parse leaves, which every grammar function promises, is a suffix of its tokens |
| FilterParser.Lex | internal/arm/collection.go:569-629 | the index loop gives the tokens, or the unterminated-string error |
| FilterParser.ReadQuoted | internal/arm/collection.go:593-612 | the quoted-string loop undoubles quotes and ends after the closing one |
| FilterParser.Parser.constructor | internal/arm/collection.go:561-567 | the cursor starts at the first token |
| FilterParser.Parser.Advance | internal/arm/collection.go:631-634 | the cursor moves by one and never past the end token |
| FilterParser.Parser.ParseOr | internal/arm/collection.go:640-658 | the closure computes the three-valued meaning of the parsed filter, the cursor stands after it, and the contract is as before on every exit |
| FilterParser.Parser.ParseAnd | internal/arm/collection.go:660-678 | the same, for conjunctions: the right side runs only when the left holds |
| FilterParser.Parser.ParsePrimary | internal/arm/collection.go:680-697 | the same, for parentheses, calls and comparisons |
| FilterParser.Parser.ParseComparison | internal/arm/collection.go:698-725 | the same, for comparisons, with their errors in the original's order |
| FilterParser.Parser.ParseFunction | internal/arm/collection.go:727-742 | the same, for whatever is called |
| FilterParser.Parser.ParseCall | internal/arm/collection.go:735-785 | the same, for the four string functions |
| FilterParser.Parser.ParseVariable | internal/arm/collection.go:787-797 | the lambda's variable and colon, or the error for the missing one |
| FilterParser.Parser.ParseUncontracted | internal/arm/collection.go:798-801 | the body is parsed with no contract in force, and the contract is restored whatever became of it |
| FilterParser.Parser.CloseLambda | internal/arm/collection.go:802-811 | the closing parenthesis, then the contract's say on the lambda |
| FilterParser.Parser.ParseCollectionLambda | internal/arm/collection.go:787-837 | the closure computes the lambda's meaning and the contract is as found on every exit, failures included |
| FilterParser.Parser.ParseOperand | internal/arm/collection.go:839-864 | the operand of the current token, which is consumed exactly on success |
| FilterParser.ParseFilter | internal/arm/collection.go:517-534 | a blank filter accepts everything; otherwise the closure computes the meaning of the one filter the whole text is |
| FilterParser.JudgeIsQuantify | internal/arm/collection.go:813-836 | the loop over the tags computes the quantifier |
| FilterContracts.AcceptedIsAdmitted | internal/arm/collection.go:894-909 | every filter accepted under a contract uses, outside lambdas, listed fields with allowed operators or functions against a literal; its names and literals can be spelled |
| FilterContracts.AcceptedRoundTrip | internal/arm/collection.go:517-534 | every accepted filter, printed with any white space, is accepted under the same contract and read as itself, as long as no keyword is a number |
| FilterContracts.LexedIsKnown | internal/arm/collection.go:569-629 | every token the lexer makes, but for the end token, can be spelled |
| FilterContracts.AcceptedReadsListedFields | internal/arm/collection.go:894-909 | a filter accepted under a contract has the same outcome on any two resources that agree on the listed fields |
| FilterMeaning.QuantifyMeans | internal/arm/collection.go:813-836 | `any` and `all` are decided by the first item that is no plain miss or no plain match, a failing item included |
| FilterMeaning.ComparisonsMean | internal/arm/collection.go:920-974 | strings compare in dictionary order, numbers in theirs, booleans and null by equality alone, and every other pair is an error |
| FilterMeaning.CompareIsDictionaryOrder | internal/arm/collection.go:938-938 | the string comparison is the order by first differing byte, or length |
| FilterMeaning.CallsMean | internal/arm/collection.go:760-784 | the four string functions hold exactly when one string is a prefix, suffix or part of the other, and are errors on anything else |
| FilterMeaning.LookupFindsFirst | internal/arm/collection.go:911-918 | a lookup finds the first member whose name matches in any case, and none only if there is none |
| FilterMeaning.LookupIgnoresOrder | internal/arm/collection.go:911-918 | every order of an object's members finds the same value if and only if no two members of that name, in different case, have different values |
| FilterOrder.MeaningIgnoresOrder | internal/arm/collection.go:866-974 | a filter has one outcome over all orders of members, at every depth, of a resource in which no two members of an object go by one name |
| FilterOrder.LookupAlike | internal/arm/collection.go:911-918 | so does a lookup, up to the order inside what it finds |
| FilterMeaning.PlainFieldValue | internal/arm/collection.go:870-892 | a field is a member of the resource, or else one of its properties, which the former hides |
| FilterMeaning.PathFieldValue | internal/arm/collection.go:870-892 | a longer path goes exactly one member deeper, and only into objects |
| FilterMeaning.MeaningIsStatement | internal/arm/collection.go:640-974 | every filter, on every resource, fails where its evaluation, from left to right and as far as it is needed, meets a comparison or call that cannot be made; and everywhere else it holds exactly when it is true in plain logic, connectives and quantifiers over tags included |
| FilterMeaning.EqualsLiteral | internal/arm/collection.go:839-864 | `eq` with a literal of any kind holds exactly of the resources whose field has that very value |
| FilterMeaning.VariableIsItem | internal/arm/collection.go:823-824 | inside a lambda its variable names the item, in any case, and another name nothing |
| FilterWords.OperatorsMean | internal/arm/collection.go:698-725 | from tokens to outcome: `field word number` holds just when the numbers stand in the relation the word names, in any case |
| FilterWords.LiteralsMean | internal/arm/collection.go:839-864 | so `field eq literal`, of a text, a number, `true`, `false` or `null`, just when the field has that value |
| FilterWords.FunctionsMean | internal/arm/collection.go:735-785 | so each of the four functions, by its name in any case, of two strings given as literals or fields |
| FilterWords.OrAndMeans | internal/arm/collection.go:640-697 | `and` binds tighter than `or` to the left of it, each with its short cut |
| FilterWords.AndOrMeans | internal/arm/collection.go:640-697 | and than `or` to the right of it |
| FilterWords.GroupMeans | internal/arm/collection.go:640-697 | unless parentheses group the `or` |
| FilterWords.QuantifiersMean | internal/arm/collection.go:787-837 | `tags/any` of an equality holds when some tag is that text, `tags/all` when every tag is |
| Paging.Select | internal/arm/collection.go:64-79 | the loop keeps exactly the matching values in order, and refuses the request if and only if some value is no object or fails |
| Paging.KeptCounts | internal/arm/collection.go:64-79 | a value is kept as often as it occurs if the filter holds of it, and else not at all |
| Paging.KeptOfBoth | internal/arm/collection.go:64-79 | what is kept of two stretches is what is kept of each, in their order |
| Paging.QueryIsRefused | internal/arm/collection.go:101-138 | a query is refused for its `$skip` if and only if that is given other than once as a number from 0 to 2147483647, and for its `$top` if and only if not, and that is given other than once as one from 1 |
| Paging.OptionIsRead | internal/arm/collection.go:407-420 | an option reads as a number if and only if it is given once, in digits behind an optional sign, and in range |
| Paging.RefusedQueries | internal/arm/collection.go:407-420 | so a repeated `$skip` is refused, and a `$top` of zero |
| Paging.NextLinkKeepsOptions | internal/arm/collection.go:125-137 | a next link changes `$skip` alone |
| Paging.WritePage | internal/arm/collection.go:101-138 | the clamping arithmetic gives the page, the count of the whole and a next link exactly when something is left |
| Paging.WalkPartitions | internal/arm/collection.go:101-138 | following the next links gives the items from `$skip` on, each once and in order, on full pages but for the last, with the same count; it breaks off if and only if the last page starts beyond 2147483647, and that page starts a whole number of pages after the first |
| Paging.NextLinkIsRefused | internal/arm/collection.go:132-137 | two items from the last `$skip` a query can ask for, the next link of a page of one is refused |
| Paging.LastStartStep | internal/arm/collection.go:112-119 | the start of the last page in closed form is where stepping by whole pages ends |
| Paging.WalkWithoutTop | internal/arm/collection.go:101-138 | without `$top` there is one page with everything from `$skip` on |
| Paging.PageCountStep | internal/arm/collection.go:112-119 | the number of pages is the quotient rounded up, and one when nothing remains |
| Conditional.ValidEntityTag | internal/arm/conditional.go:127-138 | a text is accepted if and only if it is an entity tag of section 8.8.3 of RFC 9110 |
| Conditional.ReadEntityTags | internal/arm/conditional.go:110-125 | the loops read all pieces of all header values, or refuse the header if one is no tag and no star |
| Conditional.HeaderRoundTrip | internal/arm/conditional.go:110-125 | a list of valid tags in one header value is read back as itself if and only if none of them contains a comma |
| Conditional.HeaderSays | internal/arm/conditional.go:110-125 | a header is absent if it has no value, unreadable if and only if some value is no comma-separated list of stars and tags, and else lists exactly the tags its values do |
| Conditional.TagIsQuoted | internal/arm/conditional.go:127-138 | an entity tag is a quoted run of its characters behind an optional weakness mark |
| Conditional.DecideReadsHeaders | internal/arm/conditional.go:9-67 | a request is refused for a bad header if and only if some header value is no list of tags, for a missing one if and only if none is bad and a required `If-Match` is not sent; what is left is carried out if it sends no condition, a GET or HEAD that sends one never, and anything else is never answered from the probe |
| Conditional.StrongTagMatch | internal/arm/conditional.go:140-150 | the loop answers the `If-Match` condition of section 13.1.1 |
| Conditional.WeakTagMatch | internal/arm/conditional.go:152-162 | the loop answers the opposite of the `If-None-Match` condition of section 13.1.2 |
| Conditional.ComparisonExamples | internal/arm/conditional.go:140-162 | strong and weak comparison on the table of section 8.8.3.2 |
| Conditional.Handle | internal/arm/conditional.go:9-67 | the verdict is the code's decision on the two headers and the probe, error paths included |
| Conditional.DecideFollowsPrecedence | internal/arm/conditional.go:24-66 | with readable headers and none missing, the verdict is the outcome section 13.2.2 prescribes if and only if a GET or HEAD found the resource, found it missing or has no `If-Match`; or the request is a PUT, PATCH or DELETE; or, for other methods, no condition fails |
| Conditional.DecideFollowsSections | internal/arm/conditional.go:24-66 | against sections 13.2.1 and 13.2.2 together, given the status the request would get without conditions: the verdict is the outcome they prescribe if and only if a GET or HEAD has no `If-Match` or its probe answered neither 404 nor 412; or the request is an OPTIONS; or it is a PUT, PATCH or DELETE whose conditions count or do not fail; or a POST whose conditions do not count or do not fail |
| Conditional.PostIsNotChecked | internal/arm/conditional.go:47-66 | a POST whose `If-Match` fails is carried out |
| Conditional.BrokenProbeIsAnswered | internal/arm/conditional.go:25-46 | a GET whose probe answered 500 is answered with that although its `If-Match` fails, as section 13.2.1 asks |
| Conditional.MissingIsPreconditionFailed | internal/arm/conditional.go:29-32 | a GET with `If-Match` of a missing resource gets a 412, where section 13.2.1 has the 404 stand |
| Conditional.MissingPatchIsPreconditionFailed | internal/arm/conditional.go:47-60 | so does a PATCH that without it would get a 404 |
| MutationLock.NextKeeps | internal/arm/handler.go:103-110 | every step of every request keeps the lock, what the holder saw, and the history of commits |
| MutationLock.RunKeeps | internal/arm/handler.go:103-110 | so does every interleaving of any number of requests |
| MutationLock.NoLostUpdate | internal/arm/handler.go:103-110 | a committed write that asked for versions replaced one of those it listed, and no version is superseded twice |
| MutationLock.OneWriterPerVersion | internal/arm/handler.go:103-110 | of the writes to one resource that insist on the same version, at most one changes it |
| MutationLock.CreateOnce | internal/arm/handler.go:103-110 | while nothing is removed, at most one `PUT If-None-Match: *` creates a resource, and it did not exist before |
| MutationLock.RefusedNeverWrites | internal/arm/handler.go:103-110 | in every interleaving, whoever wrote sent readable conditions, and an `If-Match` where one is required |
| MutationLock.PassingIsServed | internal/arm/handler.go:103-110 | wherever the lock is free, a waiting write that passes its decision can store whatever its handler makes of the store, under fresh tags, and gives the lock back |
| MutationLock.RefusedIsAnswered | internal/arm/handler.go:103-110 | and one that does not pass is answered, changes nothing and gives the lock back |
| MutationLock.EveryRequestIsServed | internal/arm/handler.go:103-110 | no run takes more than five steps a request, and one that can go no further has answered every request and left the lock free |
| MutationLock.NoDeadlock | internal/arm/handler.go:103-110 | as long as some request is not answered, some step is possible |
| Documents.MergeObject | internal/arm/handler.go:415-429 | whatever order the keys are visited in, at every level, the merged object is the same |
| Documents.MemberOfMerge | internal/arm/handler.go:415-429 | a member the patch lacks is kept, one it nulls is gone, two objects are merged, and anything else is stored exactly as the patch has it |
| Documents.MergeAtPath | internal/arm/handler.go:415-429 | what the merged document holds at any path: follow both documents as long as they hold objects, and the patch decides there; a patch value that meets no object is found below as it is, nulls included |
| Documents.MergeIsMergePatch | internal/arm/handler.go:415-429 | the merge equals MergePatch of section 2 of RFC 7396 if and only if every patch object that lands on a missing or non-object member has no nulls at any object depth |
| Documents.MergeTwice | internal/arm/handler.go:415-429 | merging twice is merging once if and only if the same condition holds |
| Documents.MergeOntoItself | internal/arm/handler.go:415-429 | an object merged onto itself is unchanged if and only if it has no nulls |
| Documents.UncleanPatchFails | internal/arm/handler.go:415-429 | a smallest patch for which both fail |
| Backends.Backend.constructor | internal/arm/backends.go:44-44 | a backend starts as the given row |
| Backends.Backend.ApplyPayload | internal/arm/backends.go:141-157 | each field the body has is taken over, the others stay |
| Backends.Backend.ClearNulls | internal/arm/backends.go:159-176 | each field the patch nulls is emptied, the others stay |
| Backends.Backend.Replace | internal/arm/backends.go:97-106 | a PUT makes the row of its body alone |
| Backends.Backend.Patch | internal/arm/backends.go:97-106 | a PATCH merges into the stored document, or the wire form where there is none, and updates the fields |
| Backends.Resource.Serve | internal/arm/backends.go:77-136 | what is stored after a PUT, PATCH or DELETE, refused ones included |
| Decoding.ReadOnlyKey | internal/arm/handler.go:406-413 | where one key alone goes by a name, in whichever case it is spelled, the decoder reads that member |
| Decoding.LastSpellingDecides | internal/arm/handler.go:406-413 | where several keys go by a name, the last of them in byte order decides what the decoder reads |
| Decoding.LastGroupDecides | internal/arm/handler.go:406-413 | so with the group the name stands in: its last spelling that has the name decides |
| Sorting.SortedKeys | internal/arm/handler.go:410-410 | the keys of a map, each once, in ascending order of bytes |
| Backends.PutAgreesExactly | internal/arm/backends.go:97-116 | a PUT leaves fields and document in agreement if and only if, for each of the five keys, what the document has is a string, a null or nothing, and what the decoder read, matching keys in any case, comes to the same |
| Backends.PatchAgreesExactly | internal/arm/backends.go:97-116 | an accepted PATCH keeps the agreement if and only if its `properties` is absent or an object and, for each key, the same holds given what the row has |
| Backends.PatchIsSafeExactly | internal/arm/backends.go:97-116 | a patch keeps the agreement on every row that takes it if and only if it leaves none a url, or its `properties` is absent or an object, with strings and nulls for the five keys, and the decoder reads just those |
| Backends.NullPropertiesSetApart | internal/arm/backends.go:97-116 | `properties: null` is accepted on every accepted row, and sets the document apart from the fields |
| Backends.NumberSetsApart | internal/arm/backends.go:97-116 | so is a number as the title, which empties the typed field |
| Backends.RespelledKeySetsApart | internal/arm/backends.go:97-116 | so is `TITLE`, which the typed field takes and the document's `title` does not |
| Backends.RespelledPutIsApart | internal/arm/backends.go:97-116 | a PUT with its url under `URL` is accepted, and its document has no `url` |
| Backends.RunsAgree | internal/arm/backends.go:77-136 | over every run from an accepted row, fields and document agree throughout if and only if they do at first and every accepted PUT and PATCH meets its condition |
| Backends.PlainRunsAgree | internal/arm/backends.go:77-136 | so over every run of requests whose keys are spelled exactly and whose five fields are strings or nulls |
| Backends.PatchMergesWireForm | internal/arm/backends.go:178-189 | a PATCH acts on the wire form of a field as the merge does, a removed field reading as empty, if and only if it meets the condition for that field |
| Backends.RunStoresNothingReserved | internal/arm/backends.go:77-136 | over every run, the stored document never holds `id`, `name`, `type` or `etag` |
| Backends.PutStoresDocument | internal/arm/backends.go:97-116 | an accepted PUT stores every other member of its body as it is |
| Backends.PatchStoresDocument | internal/arm/backends.go:97-116 | an accepted PATCH keeps every other member it does not name, removes those it nulls and stores the rest |
| Backends.PlainPutIsStored | internal/arm/backends.go:97-116 | a PUT with exact keys is stored if and only if it has a valid url and one of the two protocols, and each field holds what it says |
| Backends.PlainPatchIsStored | internal/arm/backends.go:97-116 | so is a PATCH that leaves such a url and protocol; the fields it does not name stay |
| Backends.DeletedStaysAway | internal/arm/backends.go:77-136 | after a DELETE nothing is there, and no run without a PUT brings it back |
| Backends.WireShows | internal/arm/backends.go:178-189 | the wire form has the id, the name, the type and the typed fields, and otherwise the document |
| Links.GrowName | internal/arm/links.go:218-225 | the growth loop ends with the first free candidate, or the last one |
| Links.CandidatesGrow | internal/arm/links.go:218-224 | candidates get strictly longer |
| Links.Collect | internal/arm/links.go:206-216 | the first loop keeps chosen names and finds the targets without one |
| Links.NameRest | internal/arm/links.go:217-227 | the second loop names each remaining target in order |
| Links.EffectiveLinkNames | internal/arm/links.go:205-228 | the two loops compute the names that the theorems are about |
| Links.EffectiveNamesAll | internal/arm/links.go:205-228 | every target is named, chosen names are kept, and the rest come from the target's own chain |
| Links.EffectiveIgnoresOrder | internal/arm/links.go:205-228 | the names depend only on the set of targets and the chosen names |
| Links.EffectiveTakesFirst | internal/arm/links.go:205-228 | an unnamed target goes by its first candidate that no chosen name and no target before it has in any case; by one that is held only if it has no longer one |
| Links.LoneSegmentIsKept | internal/arm/links.go:205-228 | so a target whose last segment nobody else goes by is named by that segment |
| Links.ChainOfPath | internal/arm/links.go:218-224 | the candidates of an id in closed form: its last segment, and then each with the next ancestor two segments up before it |
| Links.SegmentsIgnoreSlashes | internal/arm/links.go:219-219 | slashes around an id do not count |
| Links.EffectiveIsUnambiguous | internal/arm/links.go:205-228 | names are distinct ignoring case if and only if the chosen ones are and no unnamed target has its whole chain of candidates taken by those named before it |
| LinkCollections.Collection.FindOwner | internal/arm/links.go:171-178 | the lookup finds a target with the name in any case, and none only if there is none |
| LinkCollections.Collection.PutLink | internal/arm/links.go:114-169 | what a PUT does to the rows; each status with when it is given and what it leaves unchanged |
| LinkCollections.Collection.DeleteLink | internal/arm/links.go:94-108 | a DELETE detaches an owner of the name, and is not found if and only if there is none |
| LinkCollections.PutKeepsNamesApart | internal/store/store.go:3690-3702 | a PUT on a collection whose stored names are distinct keeps them so if and only if its target is associated under the one spelling it uses and no other target has chosen the name |
| LinkCollections.OtherStepsKeepNamesApart | internal/arm/links.go:94-108 | DELETE and the older attach and detach keep them apart |
| LinkCollections.RunKeepsNamesApart | internal/arm/links.go:114-178 | a run keeps stored names distinct if and only if they were so at the start and every PUT that takes effect meets that condition |
| LinkCollections.NamesStayApart | internal/arm/links.go:114-178 | so over every run without exhausted or respelled targets, stored names stay distinct and a name has at most one owner |
| LinkCollections.PutIsReadBack | internal/arm/links.go:114-169 | after an accepted PUT the target answers to the name |
| LinkCollections.PutIsLocal | internal/store/store.go:3690-3702 | a PUT adds its target unless it is there, names every spelling of it, and renames nothing else |
| LinkCollections.DetachIsLocal | internal/arm/links.go:94-108 | removing a target removes every spelling of it and nothing else |
| LinkClashes.ExhaustionLetsNamesClash | internal/arm/links.go:114-228 | around any target, links to as many others as it has candidates exhaust it, and then a PUT of the name it goes by, on itself, gives two rows the same stored name: from an empty collection, each request accepted, none respelling a target |
| LinkClashes.ApisLetNamesClash | internal/arm/links.go:205-228 | this happens to six APIs of one service, seven requests from an empty collection |
| LinkClashes.ApiCandidates | internal/arm/links.go:218-224 | an API's link has five candidates, its name with each ancestor's name before it |
| LinkClashes.RespellingLetsNamesClash | internal/store/store.go:3690-3702 | a target linked again under another spelling makes two rows with one stored name |
| LinkClashes.RespelledApiClashes | internal/arm/links.go:264-289 | this happens to an API tagged as `a` and again as `A` |
| Clock.Clock.constructor | internal/clock/clock.go:19-21 | a new clock runs on the wall clock |
| Clock.Clock.Now | internal/clock/clock.go:24-31 | the reading is the controlled time of the state |
| Clock.Clock.Advance | internal/clock/clock.go:34-42 | at every wall-clock reading, controlled time is exactly `seconds` further, frozen or not |
| Clock.Clock.SetOffset | internal/clock/clock.go:45-50 | from then on controlled time is the wall clock plus `seconds`, and the clock is not frozen |
| Clock.Clock.Freeze | internal/clock/clock.go:53-60 | controlled time stays what it was at this instant, at every later reading |
| Clock.Clock.Unfreeze | internal/clock/clock.go:63-70 | controlled time continues from where it stood, with the wall clock |
| Clock.Clock.Report | internal/clock/clock.go:73-80 | the reported time is that of `Now`, and the reported offset is its distance from the wall clock |
| Clock.TimeIsConserved | internal/clock/clock.go:24-80 | over every run that sets no offset, controlled time moves by exactly the seconds advanced plus the wall-clock seconds spent thawed |
| Clock.NowNeverDecreases | internal/clock/clock.go:24-80 | over every run of forward advances, freezes and unfreezes on a wall clock that does not go back, controlled time never decreases |
| Clock.RunsThatNeverGoBack | internal/clock/clock.go:24-80 | over any run of all operations on a wall clock that does not go back, controlled time never decreases, between operations and at each, if and only if no advance is negative and no offset names an earlier instant |
| Clock.SetOffsetGoesBack | internal/clock/clock.go:45-50 | setting an offset takes controlled time back if and only if the wall clock plus the offset is earlier than the time it showed |
| FormatStrings.FormatString | internal/expression/statics.go:220-256 | the index loop substitutes piece by piece, with every error of the original |
| FormatStrings.PieceAt | internal/expression/statics.go:223-254 | one round of the loop reads a doubled brace, a placeholder or one byte |
| FormatStrings.FormatOfPrint | internal/expression/statics.go:222-256 | formatting any printed template gives its literals and argument texts in order, whatever braces the literals hold |
| FormatStrings.PlaceholderIsExact | internal/expression/statics.go:241-254 | behind any printed template, a placeholder whose text spells an index stands for its argument, or is refused for having none; any other text, a format specifier or an alignment too, is refused as no index |
| FormatStrings.UnclosedIsRefused | internal/expression/statics.go:241-244 | so is an opening brace that nothing closes |
| FormatStrings.LoneBraceStands | internal/expression/statics.go:225-231 | a closing brace by itself stands for itself |
| FormatStrings.SpecifierIsNoIndex | internal/expression/statics.go:246-249 | a text with any byte that is no digit, but for a sign in front, spells no index |
| FormatStrings.MissingArgumentIsRefused | internal/expression/statics.go:241-252 | a template with a placeholder that has no argument is always refused, and for that reason unless some index does not fit in 64 bits |
| Sections.SnippetElements | scripts/derive_policy_sections.py:201-233 | the loop over the tag stream computes the stack machine |
| Sections.PopUntil | scripts/derive_policy_sections.py:225-226 | the popping loop ends just below the innermost element of that name |
| Sections.ElementsOfStream | scripts/derive_policy_sections.py:201-233 | over the tag stream of any tree, with unclosed elements that an enclosing tag closes, the stack machine gives the elements in preorder with their tree ancestors |
| Sections.SnippetIsRead | scripts/derive_policy_sections.py:201-233 | every tag stream spells a readable forest up to the first closing tag that closes nothing; the snippet is refused if there is one or something is left open, and else its elements are the forest's in preorder |
| Sections.AcceptedSnippets | scripts/derive_policy_sections.py:201-233 | a snippet is accepted if and only if its relevant tags spell a readable forest that leaves nothing open |
| Sections.SnippetIsPreorder | scripts/derive_policy_sections.py:201-233 | so a snippet is read as the tree its relevant tags spell, whatever lies between them |
| Sections.OpenRootsAreRefused | scripts/derive_policy_sections.py:201-233 | a snippet that leaves a root open is refused |
| Sections.FindUse | scripts/derive_policy_sections.py:244-254 | the inner loop finds the section an element counts for |
| Sections.SectionUses | scripts/derive_policy_sections.py:236-255 | the outer loop collects the uses of all elements |
| Sections.UseOfIsPlace | scripts/derive_policy_sections.py:236-255 | an element counts for a section exactly when the first section among its ancestors is followed by transparent elements only |
| Sections.UseIsPassedThrough | scripts/derive_policy_sections.py:249-254 | that section is the outermost one, and everything below it is transparent |
| Sections.SectionUsesOfTree | scripts/derive_policy_sections.py:236-255 | the uses reported for a snippet are exactly the policies its tree has at section level |
| Sections.SectionUsesOfAccepted | scripts/derive_policy_sections.py:236-255 | every accepted snippet has such a tree |
| Sections.Widen | scripts/derive_policy_sections.py:267-300 | the loop succeeds if and only if every conflict is classified by a snippet that shows it and no classification is stale, and then adds exactly the conflicting sections; each refusal has its cause, and one about a pair is about the first |
| Sections.WidenedSections | scripts/derive_policy_sections.py:267-300 | a policy whose page documents some sections then also has those the corpus uses it in, in the fixed order, and the additions are exactly what was not documented |
| Sections.WideningResolves | scripts/derive_policy_sections.py:267-300 | after it no page conflicts with the corpus |

## Left out

- HTTP plumbing, JSON encoding and decoding, TLS, SQLite and the store's internals: a store is a map, or one row.
- Go strings are sequences of bytes, written one `char` to a byte.
- The tables of letters and digits above ASCII are a parameter; every statement holds for any table.
- Case folding is that of ASCII letters, so `strings.ToLower` and `strings.EqualFold` on other letters are not modelled.
- `strconv.ParseFloat`: a floating-point literal keeps its text, and the numbers of a filter are a parameter that maps texts to reals, without infinities and `NaN`.
- Wrap-around of 64-bit seconds in the clock.
- Documents.MergeObject: nested objects are values, so the update in place of maps below the top level, and sharing between patch and target, are not captured.
- FilterMeaning.LookupFindsFirst: an object lists its members in a fixed order, where a Go map may be visited in another order each time; `FilterMeaning.LookupIgnoresOrder` says exactly when that matters to a lookup, and `FilterOrder.MeaningIgnoresOrder` that it does not to a filter where no names clash.
- FilterParser.JudgeIsQuantify: the tag loop inside the lambda's closure is a recursive function, because a closure cannot contain a loop here.
- Clock.Clock.Now: the wall clock's reading is an argument, and the clock's own mutex is left out, since each operation holds it throughout.
- MutationLock.NoLostUpdate: assumes that the store gives a fresh tag to everything it changes, and leaves out role assignments, which return before the lock is taken (`internal/arm/handler.go`, lines 69 to 79).
- Conditional.Handle: the table of operations that need an `If-Match` is the argument `required`, and the answer to the inner GET is the argument `probe`.
- Decoding.ReadOnlyKey: the decoder's case folding is that of ASCII letters; its treatment of `ſ` and the Kelvin sign is left out.
- Backends.Resource.Serve: which URLs are valid is a parameter, and the failure of a later activation, which does not undo the write, is left out.
- LinkCollections.Collection.PutLink: whether the target exists and whether the store takes its row are arguments.
- FormatStrings.FormatString: the check that the first argument is a string, and the rendering of the others as text, come before the modelled loop.
- Sections.SnippetElements: starts from the tags; the regular expression that finds them and the removal of comments are left out, as are reading and writing the inventory files.
- Collection selectors, `$orderby`, the table of filter contracts and the per-route option checks: tables and easy members. A selector may replace the filtered list, so nothing is claimed of filter and selector together.
- The expression parser and evaluator, policy execution, authorization, certificates and the other resource handlers.
