# A verified model of the ledger library's core

This project models the core of the Go `ledger` library, a reader and writer for plain-text
accounting files in the style of the `ledger` command-line tool. The model covers these parts:

- **The two character readers.** `parse/lexer.go` and `parse/lex/lexer.go` each define a
  `CharReader`. It holds the current character `C`, its line `L` and an end flag `EOF`, plus
  the same three for the lookahead character. Carriage returns are dropped.
  - Reader `Lexer` models the first reader as a class over a string.
  - Reader `Lex` models the second one. It also carries the `Location` bit arithmetic.
- **The ledger file parser** (`parse/parse.go`). A file is a run of entries: blank lines,
  unattached comments and transactions. A transaction is a header line followed by indented
  posting and comment lines. These modules cover it:
  - `Parser`: dates and trimmed reads;
  - `Postings`: the posting line (status, account, amount, note);
  - `Comments`: the attached-comment state machine (tags, key/value pairs, plain comments);
  - `LedgerParser`: the header, the posting loop and the file loop.

  Each parsing step has two forms:
  - a pure function over a reader state `Cursor(rest, c, line)`;
  - an imperative method that drives a `Lexer.CharReader`.

  Each method is proved to agree with its function, and the properties are proved about the
  functions.
- **Transactions** (`transaction.go`):
  - `Transactions` covers balancing, canonicalising and summing transactions.
  - `Display` covers the fixed-point amount formatter, whose unit is a ten-thousandth of a
    dollar, and the posting layout.
  - `Sums` covers FormatSums, the account tree with its indented rendering.
- **Directives and writing.**
  - `Directives` covers directive text and comparison (`directive.go`).
  - `Writing` covers the writer that interleaves transactions and directives by each
    directive's `FoundBefore` anchor (`write.go`).
  - `Files` covers the `File` class (`file.go`): Format, Accounts, Payees, CleanCopy and
    StripHistory.
- **Tools** (`tools/zipper.go`, `tools/ltail.go`).
  - `Zipper` merges two ledger files at a sync point.
  - `LTail` cuts a file at a transaction ID.

Module `Ledger` holds the shared entities (Transaction, Posting, Date, Status, Directive,
errors). The remaining modules are support:
- `Chars` holds the reader state with its spans and skips;
- `Text` holds `strings.TrimSpace`, `strings.Split`, string order and `sort.Strings`;
- `Fmt` holds decimal text;
- `Wrappers` holds Option and Result.

Go's `int64` values are modelled as unbounded integers. A `Location` is a `bv64`. Go panics and
the one non-terminating loop become explicit error values; see "Left out".

Two behaviours of the tools are modelled as written:
- The zipper's "No sync point found" check compares the sync point with `len(a.T)`. The
  backward scan never produces that value, so the model has no such error.
- A missing sync point yields -1, and the merge then starts at index 0.

## Model

| member | source | states |
|---|---|---|
| Lexer.CharReader.constructor | parse/lexer.go:48-61 | the reader starts on the given line, at the first character of the input with carriage returns removed |
| Lexer.CharReader.Match | parse/lexer.go:64-75 | true iff not at EOF and the current character is one of `chars` |
| Lexer.CharReader.NMatch | parse/lexer.go:78-89 | true iff a lookahead character exists and is one of `chars` |
| Lexer.CharReader.MatchAlpha | parse/lexer.go:92-98 | true iff not at EOF and the current character is '_' or a letter |
| Lexer.CharReader.MatchNumeric | parse/lexer.go:101-107 | true iff not at EOF and the current character is a decimal digit |
| Lexer.CharReader.Next | parse/lexer.go:113-145 | advances one character and skips '\r'. The line of the new character counts the newlines read. At EOF nothing changes, including the stale C |
| Chars.SkipCarriageReturns | parse/lexer.go:127-139 | the retry loop skips exactly the carriage returns, and the text left to read is unchanged once they are removed |
| Lexer.CharReader.Eat | parse/lexer.go:148-155 | consumes the longest prefix made of `chars` and stops on a character outside `chars` or at EOF |
| Lexer.CharReader.EatUntil | parse/lexer.go:158-165 | consumes the longest prefix free of `chars` and stops on a character in `chars` or at EOF |
| Lexer.CharReader.ReadMatch | parse/lexer.go:168-177 | like Eat, and appends exactly the consumed characters to the buffer |
| Lexer.CharReader.ReadMatchLimit | parse/lexer.go:181-193 | consumes min(limit, run of `chars`) characters, or none when limit ≤ 0, and appends them. The flag is true iff exactly `limit` were read without reaching EOF |
| Lexer.CharReader.ReadUntil | parse/lexer.go:196-205 | like EatUntil, appending the consumed characters. At EOF on entry it appends the stale C |
| Chars.Next | parse/lexer.go:113-145 | the reader state after Next drops exactly one character of the remaining text, or none at EOF |
| Chars.Start | parse/lexer.go:48-61 | the initial state's remaining text is the input without carriage returns |
| Lex.CharReader.constructor | parse/lex/lexer.go:52-70 | as the older reader. The starting line is lost, because Location.L always gives 0 |
| Lex.CharReader.Match | parse/lex/lexer.go:73-84 | true iff not at EOF and the current character is one of `chars` |
| Lex.CharReader.NMatch | parse/lex/lexer.go:87-98 | true iff a lookahead character exists and is one of `chars` |
| Lex.CharReader.MatchAlpha | parse/lex/lexer.go:101-107 | true iff not at EOF and the current character is '_' or a letter |
| Lex.CharReader.MatchNumeric | parse/lex/lexer.go:110-116 | true iff not at EOF and the current character is a digit |
| Lex.CharReader.Next | parse/lex/lexer.go:122-155 | advances one character like the older reader. L and NL stay 0, because the location constructors yield 0 |
| Lex.CharReader.Eat | parse/lex/lexer.go:158-165 | consumes the longest prefix made of `chars` |
| Lex.CharReader.EatUntil | parse/lex/lexer.go:168-175 | consumes the longest prefix free of `chars` |
| Lex.CharReader.ReadMatch | parse/lex/lexer.go:178-187 | consumes and appends the longest prefix made of `chars` |
| Lex.CharReader.ReadMatchLimit | parse/lex/lexer.go:191-203 | consumes and appends at most `limit` matching characters. The flag says the limit was met before EOF |
| Lex.CharReader.ReadUntil | parse/lex/lexer.go:206-215 | consumes and appends up to the first character in `chars`, or the stale C at EOF |
| Lex.Line | parse/lex/lexer.go:221-223 | the low 48 bits of the location, which together with the column bits rebuild it |
| Lex.Column | parse/lex/lexer.go:226-228 | the top 16 bits of the location |
| Lex.LineColumn | parse/lex/lexer.go:218-228 | a location is its column shifted back over its line |
| Lex.LocationString | parse/lex/lexer.go:230-232 | "line:column" in decimal, which reads back to the same two numbers |
| Lex.WithLine | parse/lex/lexer.go:236-243 | as written, the `&` combination yields location 0 for every input |
| Lex.WithColumn | parse/lex/lexer.go:247-254 | as written, it yields 0, and every nonzero column fails the range test |
| Lex.LPlus | parse/lex/lexer.go:257-260 | as written, it yields 0 |
| Lex.CPlus | parse/lex/lexer.go:263-266 | as written, it yields 0 |
| Lex.WithLineFixed | parse/lex/lexer.go:236-243 | corrected: the line becomes i when i fits in 48 bits, otherwise 0, and the column is kept |
| Lex.WithColumnFixed | parse/lex/lexer.go:247-254 | corrected: the column becomes i and the line is kept |
| Lex.LPlusFixed | parse/lex/lexer.go:257-260 | corrected: the line goes up by one (wrapping at 48 bits) and the column is kept |
| Lex.CPlusFixed | parse/lex/lexer.go:263-266 | corrected: the column goes up by one and the line is kept |
| Lex.LineFiveLost | parse/lex/lexer.go:236-260 | setting line 5 gives line 0 as written and 5 when corrected. A following LPlus gives 0 as written and 6 when corrected |
| Parser.TimeParse | parse/parse.go:514 | a parsed date is a valid calendar date |
| Parser.DateGrammar | parse/parse.go:473-515 | a date parses iff the text is 4 digits, a separator from "/-.", 2 digits, a separator, 2 digits, and more input follows, and the date is valid. The value is those three numbers, 10 characters are consumed, and any other error is a bad date |
| Parser.ReadDateField | parse/parse.go:478-484 | reads one fixed-width digit field as the date field function describes |
| Parser.ReadDateSeparator | parse/parse.go:486-490 | a separator from "/-." is consumed and recorded as '/', and anything else is a bad date |
| Parser.ParseDate | parse/parse.go:473-515 | the method's result and reader state agree with the date grammar above |
| Parser.TrimTrailingSpec | parse/parse.go:455-461 | the trailing loop keeps a prefix and removes only blanks. It never removes index 0, and the kept text ends in a non-blank unless it is one character |
| Parser.TrimLeadingSpec | parse/parse.go:462-468 | the leading loop removes only leading blanks. Because its counter grows while the text shrinks, it can stop before reaching a non-blank |
| Parser.TrimTrailingLoop | parse/parse.go:455-461 | the loop computes the trailing-trim function |
| Parser.TrimLeadingLoop | parse/parse.go:462-468 | the loop computes the leading-trim function |
| Parser.ReadUntilTrimmedGrammar | parse/parse.go:449-470 | succeeds iff a terminator follows. The reader then stops on it, and the value is a slice of the text before it with only blanks cut from either side |
| Parser.ReadUntilTrimmed | parse/parse.go:449-470 | the method agrees with that grammar |
| Postings.StatusMark | parse/parse.go:302-311 | '*' and '!' are consumed as Clear and Pending, and nothing else is consumed |
| Postings.ReadStatus | parse/parse.go:302-311 | the method yields the status mark and the state after it |
| Postings.AccountGrammar | parse/parse.go:324-339 | the account name is the text up to the first tab, newline or double space. An empty name is ErrMalformed, and EOF inside the name is an unexpected end |
| Postings.ReadAccount | parse/parse.go:313-339 | the method agrees with the account grammar |
| Postings.AccumulateSpec | parse/parse.go:369-389 | the digit/comma/dot accumulator succeeds iff no '.' precedes the first digit and at most one '.' occurs. The value is the whole and part digits with commas ignored |
| Postings.AmountDigitsGrammar | parse/parse.go:365-389 | the amount loop reads the maximal run of digits, ',' and '.'. It succeeds iff more input follows and the dots are accepted, and refusal is ErrBadAmount |
| Postings.AmountLoopGrammar | parse/parse.go:365-389 | the same outcome stated through the accumulator |
| Postings.ReadAmountDigits | parse/parse.go:365-389 | the loop method agrees with the amount loop function |
| Postings.FixedPoint | parse/parse.go:390-407 | computes the scaled, signed value of whole and part, and refuses a part above 9999 |
| Postings.AmountBodyGrammar | parse/parse.go:357-408 | an amount with no digit is Null. Otherwise its value is whole×10000 plus the magnitude-scaled part, negated after '-' |
| Postings.AmountBodyNull | parse/parse.go:390-408 | a digitless accepted run gives a Null amount |
| Postings.AmountBodyValue | parse/parse.go:390-408 | a run with a digit gives the scaled value |
| Postings.ReadAmountBody | parse/parse.go:357-408 | the method agrees with the amount body function |
| Postings.ReadAmount | parse/parse.go:341-408 | the method agrees with the amount function, including the optional '$' and blanks |
| Postings.PostingNoteGrammar | parse/parse.go:410-438 | after the blanks, a newline ends the posting. A ';' starts a note that needs a later newline, anything else fails, and EOF is an error |
| Postings.ReadPostingNote | parse/parse.go:410-438 | the method agrees with the note function |
| Postings.ReadPostingAmount | parse/parse.go:341-438 | the method agrees with the amount-and-note function |
| Postings.ReadPosting | parse/parse.go:299-438 | the method agrees with the posting function |
| Postings.TwentyDollars | parse/parse.go:365-407 | example only, an instance of the run lemmas: "20.00" is accepted and scales to 200000 |
| Postings.LeadingDotRefused | parse/parse.go:370-373 | example only, an instance of DotsAccepted: ".5" is refused, because '.' comes before any digit |
| Postings.FractionScaledByValue | parse/parse.go:395-402 | a leading zero in the part is lost: "x.0y" has the same value as "x.y" |
| Postings.NinetyNineHundredths | parse/parse.go:395-402 | example only, the defect on one input: "0.99" yields 990, not 9900 |
| Postings.NineTenthsScaled | parse/parse.go:395-402 | example only, the defect on one input: "0.9" yields 900, not 9000 |
| Postings.FiveHundredthsScaled | parse/parse.go:395-402 | example only, the defect on one input: "0.05" yields 5000, fifty cents |
| Postings.CommaAtEndNeverEnds | parse/parse.go:369-381 | "1," at the end of input is the loop that never ends |
| Postings.AmountLoopFixedAgrees | parse/parse.go:369-389 | corrected loop: it ends with an unexpected end where the original never ends, and agrees with the original everywhere else |
| Postings.ScalePartFixedExact | parse/parse.go:395-402 | corrected scaling: a part of n ≤ 4 digits becomes its value times 10^(4-n) |
| Postings.ScalePartNine | parse/parse.go:395-402 | example only: "9" as a part scales to 9000 when corrected and to 900 as written |
| Postings.AmountBodyFixedReadsRun | parse/parse.go:357-408 | the corrected amount body reads the same run as the one as written, and its value depends only on that run's accumulators and its number of fractional digits |
| Postings.AmountValueFixedOf | parse/parse.go:390-406 | corrected: a run's value is Ok exactly when it has at most four fractional digits y. It is then the whole digits times 10000 plus ScalePartFixed(y), negated for '-' |
| Postings.AmountFixedDecimal | parse/parse.go:390-406 | corrected: the decimal text x '.' y is accepted and worth x times 10000 plus ScalePartFixed(y), negated for '-' |
| Postings.NineTenthsFixed | parse/parse.go:395-402 | example only: corrected, "0.9" yields 9000 |
| Postings.FiveHundredthsFixed | parse/parse.go:395-402 | example only: corrected, "0.05" yields 500 |
| Comments.CommentStep | parse/parse.go:163-275 | one pass of the attached-comment loop agrees with the step function in every state |
| Comments.TagStep | parse/parse.go:186-207 | state 1 (tags) agrees with the step function |
| Comments.KeyStep | parse/parse.go:210-256 | state 2 (possible key) agrees with the step function |
| Comments.CommentLoop | parse/parse.go:163-275 | the loop up to the newline agrees with the loop function |
| Comments.FinishComment | parse/parse.go:277-297 | closing the line agrees with the finish function |
| Comments.ParseAttachedComment | parse/parse.go:145-297 | the whole attached-comment branch agrees with its function |
| Comments.FinishKind | parse/parse.go:277-297 | unless in state 1, finishing the line records what the machine found |
| Comments.CommentLineGrammar | parse/parse.go:145-297 | a comment line not starting with ':' is classified from its text alone. It becomes a key/value pair when the first blank or ':' is a ':' followed by a blank, otherwise one trimmed comment. A missing newline is an unexpected end |
| Comments.ClassifyPair | parse/parse.go:210-256 | the key is the text before that ':', and the value is the trimmed rest |
| Comments.TagsTrimmed | parse/parse.go:188-190 | every recorded tag is non-empty and has no surrounding white space |
| Comments.TagsSplit | parse/parse.go:186-199 | each ':' closes one tag segment, whose trimmed text is added when non-empty |
| Comments.TagLineGrammar | parse/parse.go:165-286 | on a tag line, non-blank text after the last ':' is ErrMalformedTagLine. A success records the tags of the line, and success is guaranteed when the line has no white space except blanks. A missing newline is an unexpected end |
| Comments.OddSpaceTagLine | parse/parse.go:186-286 | as written, a tag line whose second segment is a white space other than blank or tab is refused |
| Comments.VerticalTabTagLine | parse/parse.go:186-286 | as written, "; :a:\v:" is refused as a malformed tag line |
| Comments.StepFixedAgrees | parse/parse.go:186-199 | the corrected step clears the buffer after a blank segment and otherwise matches the original |
| Comments.FixedScanFrom | parse/parse.go:186-207 | the corrected tag loop collects the tags of every segment |
| Comments.TagLineFixed | parse/parse.go:165-286 | corrected: a tag line with only blanks after its last ':' succeeds and adds exactly its segments' tags |
| Comments.OddSpaceTagLineFixed | parse/parse.go:186-199 | corrected: the odd-space line succeeds and records its one tag |
| Comments.VerticalTabTagLineFixed | parse/parse.go:186-199 | corrected: "; :a:\v:" succeeds with tag "a" |
| Ledger.NewTransaction | parse/parse.go:64-68 | a new transaction has no postings, comments, tags or pairs, and is stamped with the current line |
| LedgerParser.ReadHeader | parse/parse.go:70-83 | the dates of the header agree with the header function |
| LedgerParser.ReadHeaderStatus | parse/parse.go:85-100 | the blanks and status mark agree with their function |
| LedgerParser.ReadHeaderBlanks | parse/parse.go:102-106 | the blanks after the status agree with their function |
| LedgerParser.ReadHeaderCode | parse/parse.go:108-121 | the optional code agrees with its function |
| LedgerParser.HeaderCodeGrammar | parse/parse.go:108-121 | a code runs to the first ')' or newline. A newline first is ErrMalformed and no terminator is an unexpected end. After ')' the trimmed code is recorded |
| LedgerParser.ReadDescription | parse/parse.go:123-135 | the description agrees with its function |
| LedgerParser.ReadBodyLine | parse/parse.go:138-438 | one indented line agrees with the body step (comment or posting) |
| LedgerParser.ReadBody | parse/parse.go:138-439 | the posting loop runs while the next line is indented and agrees with the body loop |
| LedgerParser.ReadTransaction | parse/parse.go:64-439 | one transaction agrees with its function |
| LedgerParser.ReadEntry | parse/parse.go:47-69 | one pass of the file loop agrees with the entry step |
| LedgerParser.EntrySkipped | parse/parse.go:48-60 | a blank line or an unattached comment line is consumed through its newline and yields nothing |
| LedgerParser.SkippedLine | parse/parse.go:48-60 | the file loop skips such a line, or ends with the transactions so far when it is the last line |
| LedgerParser.LedgerLoopAcc | parse/parse.go:45-445 | the file loop's outcome does not depend on what was parsed before. The result is the earlier transactions followed by the new ones, and an error is the same error |
| LedgerParser.TrailingBlanksRefused | parse/parse.go:47-83 | input ending in blanks without a newline is a bad date, because the loop goes on to parse a transaction |
| LedgerParser.ParseLedgerRaw | parse/parse.go:45-445 | the method returns the file loop's result, or its first error |
| LedgerParser.ParseLedger | parse/parse.go:40-42 | parses the whole string with the reader starting on line 1 |
| Transactions.NullIndex | transaction.go:104-111 | the index of the first Null posting, with none before it. It equals the length iff there is no Null posting |
| Transactions.Balance | transaction.go:99-120 | the method's flag and map agree with the balance function for all posting lists |
| Transactions.BalanceOneNull | transaction.go:115-118 | with exactly one Null posting the flag is true, and the account map sums to zero |
| Transactions.BalanceNoNull | transaction.go:108-119 | with no Null posting the flag is true iff the values sum to zero, and each account maps to the sum of its postings |
| Transactions.AccountSumsMeaning | transaction.go:112-113 | each account's entry is the sum of its non-Null postings, and an account appears iff it has one |
| Transactions.AccountSumsTotal | transaction.go:112-113 | the account map sums to the total of the values |
| Transactions.Canonicalize | transaction.go:125-147 | two Null postings give MultipleNullError(-1, line) and no change. One Null posting gets minus the sum of the others and nothing else changes. No Null posting gives BalanceError(-1, line) iff the sum is nonzero |
| Transactions.CanonicalizeBalances | transaction.go:139-146 | after a successful canonicalisation all values sum to zero |
| Transactions.FirstUnbalanced | transaction.go:153-157 | the first transaction that does not balance, with all earlier ones balanced |
| Transactions.SumTransactions | transaction.go:150-165 | the first unbalanced transaction i is BalanceError(i, line). Otherwise the result is the merge of all balance maps |
| Transactions.AddAll | transaction.go:159-161 | adding one balance map into the totals gives their pointwise sum |
| Transactions.TotalsSumToZero | transaction.go:150-165 | the sums of balanced transactions add up to zero over all accounts |
| Transactions.TotalsPerAccount | transaction.go:150-165 | each account's total is the sum of its per-transaction contributions |
| Transactions.DateLessStrictWeakOrder | transaction.go:370-372 | the date order of the sorter is irreflexive and transitive, and its incomparability is transitive |
| Transactions.Swap | transaction.go:374-376 | exchanges the two elements in place and keeps the multiset |
| Display.FormatHelperNonNegative | transaction.go:330-361 | for a non-negative amount the digits spell the cents rounded half to even on the mill digit, except in the defect case, where the cent digits are 0 and -1 |
| Display.FormatHelperNegative | transaction.go:330-361 | for a negative amount the dollars are truncated toward zero. The cent digits are the magnitude's cents, truncated rather than rounded |
| Display.FormatHelperCents | transaction.go:330-348 | outside the defect case the parts are the rounded cents split into dollars and two digits |
| Display.FormatValueRoundTrip | transaction.go:319-361 | reading FormatValue's text back gives the rounded dollars and cents of a non-negative amount. The defect case gives unreadable text |
| Display.ReadDefect | transaction.go:321 | a "-1" cent digit makes the text unreadable as an amount |
| Display.FormatValueDollar | transaction.go:319-322 | the text always starts with '$' |
| Display.FormatHelperSixMills | transaction.go:330-361 | example only, the defect case on one input: the helper splits 60 into (0, 0, -1) |
| Display.FormatValueSixMills | transaction.go:319-361 | as written, 60 (0.6 cents) prints as "$0.0-1" |
| Display.FormatValueLosesSign | transaction.go:330-337 | as written, every amount strictly between -10000 and 0 prints without '-' |
| Display.FormatValueMinusSixMills | transaction.go:330-361 | example only, an instance of FormatValueLosesSign: as written, -60 prints as "$0.00" |
| Display.FormatValueTruncates | transaction.go:330-361 | as written, -15060 prints as "$-1.50", truncated where rounding gives "$-1.51" |
| Display.FormatValueFixedRoundTrip | transaction.go:319-361 | corrected: the text reads back as the signed amount rounded to cents, and has a '-' iff that is negative |
| Display.FormatValueFixedAgrees | transaction.go:319-361 | the corrected formatter agrees with the original on every non-negative amount outside the defect case |
| Display.PostingLayout | transaction.go:269-302 | a valued posting is the status prefix and the account padded to 50 columns. Then a space for non-negative values, then the '$' amount, then the optional note |
| Display.NullPostingLayout | transaction.go:285-299 | a Null posting is the status prefix, the account and the note, with no amount |
| Display.PostingNote | transaction.go:297-299 | a non-empty note ends the text as " ; " and the note |
| Text.PadRight | transaction.go:286 | `%-50s` keeps the account and pads it with spaces to 50 columns |
| Text.TrimSpace | parse/parse.go:188 | the result is a slice of the input with only white space cut from both ends. It is empty iff the input is all white space |
| Text.Split | transaction.go:205 | the parts contain no separator and join back to the input |
| Text.SortStrings | transaction.go:190 | the result is sorted and a permutation of the keys |
| Sums.AddPath | transaction.go:204-217 | adding an account's value along its path leaves the root value alone |
| Sums.AddPathAt | transaction.go:204-217 | each node on the account's path gains the value, others are unchanged, and the path's nodes exist afterwards |
| Sums.AddPathCommute | transaction.go:204-218 | adding two accounts in either order gives the same tree |
| Sums.BuildTreeRemove | transaction.go:204-218 | the tree of a map is the tree of the others plus any one account, so Go's map iteration order does not matter |
| Sums.TreeSums | transaction.go:200-221 | each node of the account tree holds the sum of all accounts having its path as prefix, and exists iff such an account exists |
| Sums.SortedKeys | transaction.go:186-190 | the children's keys, sorted, without duplicates |
| Sums.SortedUnique | transaction.go:186-190 | two sorted sequences with the same members are equal, so the sorted key order is unique |
| Sums.CollectKeys | transaction.go:186-189 | the key loop collects every child key exactly once |
| Sums.SortedChildKeys | transaction.go:186-190 | the keys are sorted and exactly the children |
| Sums.RenderRows | transaction.go:172-196 | the recursive renderer appends exactly the rows of the render function |
| Sums.RenderKeys | transaction.go:192-194 | the loop over sorted keys appends each child's rows in key order |
| Sums.RenderSingle | transaction.go:173-178 | a node with one child is merged into it as "name:key" |
| Sums.RenderNode | transaction.go:180-195 | any other node emits its own row when named, then its children in sorted order, indented |
| Sums.FormatSums | transaction.go:200-221 | the rows are the rendering of the account tree of the map |
| Sums.BuildTreeSingle | transaction.go:204-218 | one account without ':' gives a root with a single leaf |
| Sums.SingleAccountRow | transaction.go:172-178 | as written, a map with one top-level account renders as ":" followed by its name |
| Sums.SingleAccountRowFixed | transaction.go:172-178 | corrected: the row is the plain account name |
| Directives.Tabbed | directive.go:48-52 | each sub-line is prefixed by a tab, one per line and in order |
| Directives.String | directive.go:40-55 | the text is the type, a space, the argument and a newline, then a tab, the line and a newline for each sub-line |
| Directives.DirectiveTextLines | directive.go:40-55 | with no newline inside the parts, the text splits at newlines into the header line and one tab-led line per sub-line, so it has 2 + |Lines| pieces |
| Directives.Compare | directive.go:58-69 | true iff the types, arguments and line lists are equal |
| Directives.CompareEquivalence | directive.go:58-69 | Compare is reflexive, symmetric and transitive, and ignores FoundBefore and Location |
| Directives.CompareSameText | directive.go:40-69 | equal directives print to the same text |
| Writing.WriteLedgerFile | write.go:37-57 | succeeds iff every anchor lies in [0, len(trs)] and the anchors do not decrease. It then emits each item once, each directive just before its anchored transaction. Failure is ErrImproperInterleave after all transactions and a prefix of the directives |
| Writing.InterleavesUnique | write.go:37-57 | at most one output interleaves the lists by the anchors |
| Writing.Stuck | write.go:47-50 | a directive left over when the transactions are exhausted has an anchor that cannot be met |
| Files.StableSortMultiset | file.go:51-54 | the stable sort is a permutation of the directives |
| Files.StableSortStable | file.go:51-54 | the sorted list is non-decreasing in FoundBefore, and directives with equal anchors keep their order |
| Files.StableSortSorted | file.go:51-54 | an already sorted list is unchanged |
| Files.FormatAnchors | file.go:50-75 | after the sort, interleaving succeeds iff every anchor lies in [0, len(T)] |
| Files.File.Format | file.go:50-75 | sorts D stably in place and keeps T. It succeeds iff the anchors are in range, emitting the interleaving, and otherwise fails with ErrImproperInterleave |
| Files.AccountIndices | file.go:91-94 | the positions, in order, of exactly the "account" directives |
| Files.FirstBadAliasSpec | file.go:112-120 | the first alias sub-line that contains a double space, ';' or a tab, if any |
| Files.FirstBadAccountSpec | file.go:89-134 | the first account directive whose name or alias is malformed, with all earlier ones clean |
| Files.BadAccountAt | file.go:104-120 | a first malformed account at n, after clean directives, is the one reported |
| Files.ReadAccount | file.go:96-131 | a clean account gets the default flag, trimmed aliases, trimmed payees and the last note. Otherwise it is an error carrying the malformed alias and its location |
| Files.File.Accounts | file.go:89-134 | a malformed account returns no accounts and that error. Otherwise it returns one account per "account" directive, in order, with its index in D |
| Files.ReadPayee | file.go:145-160 | the payee carries the directive's name, its trimmed aliases and uuids |
| Files.File.Payees | file.go:138-165 | never fails, and reads one payee per "account" directive (sic), in order |
| Files.KindIndices | file.go:140-143 | the positions, in order, of the directives of a given type |
| Files.PayeeDirectiveIgnored | file.go:141 | as written, a "payee" directive yields no payee |
| Files.PayeesFixed | file.go:136-165 | corrected: one payee per "payee" directive, each read from its directive |
| Files.PayeesFixedComplete | file.go:136-165 | corrected: every "payee" directive is represented |
| Files.File.CleanCopy | file.go:407-419 | a fresh File with equal transactions and directives |
| Files.KeptSpec | file.go:424-444 | the kept positions are the first occurrence of each ID, plus every transaction without an ID, in increasing order |
| Files.LastVersionSpec | file.go:434-436 | the version kept at a position is the last transaction with that ID |
| Files.StrippedDistinctIds | file.go:424-444 | after stripping no ID occurs twice |
| Files.StrippedKeepsUnidentified | file.go:428-431 | every transaction without an ID survives unchanged |
| Files.KeptUnique | file.go:424-444 | with unique IDs every position is kept |
| Files.StrippedIdempotent | file.go:424-444 | stripping a history-free list changes nothing, so stripping is idempotent |
| Files.File.StripHistory | file.go:424-444 | replaces T by its stripped form and keeps D |
| Zipper.NewDirectivesMembers | tools/zipper.go:44-51 | a directive of b is added iff it matches no directive of a |
| Zipper.NewDirectivesAllNew | tools/zipper.go:44-51 | when nothing of b is known, all of b is added in order |
| Zipper.NewDirectivesNoneNew | tools/zipper.go:44-51 | when all of b is known, nothing is added |
| Zipper.MergedDirectivesSelf | tools/zipper.go:41-51 | merging a file's directives with themselves gives them back |
| Zipper.CollectDirectives | tools/zipper.go:41-51 | the loop yields a.D followed by the new directives of b |
| Zipper.AnchorKept | tools/zipper.go:52-54 | as written, the reset loop changes nothing, so an anchor past the end survives and makes Format fail |
| Zipper.ResetAnchors | tools/zipper.go:52-54 | corrected: every anchor becomes 0 and nothing else changes |
| Zipper.MergedDirectivesFixedAnchored | tools/zipper.go:41-54 | corrected: every merged directive is anchored at 0, so the merged file always formats |
| Zipper.ChooseABSpec | tools/zipper.go:156-183 | the result lies in -1..1 and flips with the arguments. It is 0 iff the key is on neither side or equal on both. A one-sided key puts that side first, and otherwise the lexically smaller value goes first |
| Zipper.OrderSpec | tools/zipper.go:100-150 | the tie-breaker is antisymmetric and puts the earlier date first. A 0 means equal dates with ID, RID and FITID all undecided |
| Zipper.SyncPointSpec | tools/zipper.go:60-65 | the last index of a.T whose Code equals the code looked for, or -1 when none matches |
| Zipper.FindSyncPoint | tools/zipper.go:60-65 | the backward scan computes that index |
| Zipper.AgreedSpec | tools/zipper.go:76-84 | the agreed run is the longest run of equal Codes. It succeeds iff both sides end together or the run stops on a mismatch, and otherwise it indexes past an end |
| Zipper.CopyAgreed | tools/zipper.go:70-84 | copies a.T up to the end of the agreed run, or reports the out-of-range index |
| Zipper.InterleavingMultiset | tools/zipper.go:87-152 | an interleaving is a permutation of the union of its inputs |
| Zipper.MergeInterleaves | tools/zipper.go:87-152 | a successful merge interleaves the two remainders, keeping each side's order |
| Zipper.MergeFails | tools/zipper.go:150 | a failed merge is "Could not order", caused by a pair that no key decides |
| Zipper.MergeNoTie | tools/zipper.go:87-152 | when every pair is decided the merge succeeds |
| Zipper.MergeTails | tools/zipper.go:87-152 | the loop appends the merge to the copied prefix, or fails as the merge fails |
| Zipper.ZipShape | tools/zipper.go:40-153 | a successful zip starts with a.T up to the end of the agreed run, followed by an interleaving of the two remainders; with b.T empty it succeeds only when a.T is empty too, with no transactions |
| Zipper.ZipEmptyB | tools/zipper.go:60-66 | with b.T empty the zip succeeds, with no transactions, exactly when a.T is empty; otherwise it is the out-of-range error of reading b.T[0] |
| Zipper.AgreedSelf | tools/zipper.go:76-84 | a file agrees with itself to the end |
| Zipper.ZipSelf | tools/zipper.go:40-153 | a file whose first Code is unique zips with itself to itself |
| Zipper.ZipperHTTP | tools/zipper.go:40-153 | the result holds the zip of the transactions and the merged directives, or the zip's error |
| LTail.TailIndexSpec | tools/ltail.go:30-41 | the largest index whose ID matches, and whose RID matches when one is given, or -1 |
| LTail.FindTail | tools/ltail.go:30-41 | the backward scan computes that index |
| LTail.CutIndexSpec | tools/ltail.go:48-54 | the first directive anchored after the tail index, with all before it anchored at or before it |
| LTail.FindCut | tools/ltail.go:49-54 | the forward scan computes that position |
| LTail.RebaseRoundTrip | tools/ltail.go:57-60 | rebasing changes only FoundBefore and is undone by rebasing back |
| LTail.TailDirectives | tools/ltail.go:46-60 | on sorted directives the cut keeps exactly those anchored after i. They end up anchored at 1 or later and stay in range of the shorter file |
| LTail.RebaseFrom | tools/ltail.go:57-60 | the loop subtracts i from every anchor from the cut on, in place |
| LTail.LTail | tools/ltail.go:28-64 | with a match at i the result is a.T from i on and the rebased directives from the cut on. The caller's D sees the same rebase. With no match it is the out-of-range error and nothing changes |
| LTail.LTailFixed | tools/ltail.go:27-64 | corrected: with no match the result is an empty file and f is unchanged. With a match the result is LTail's |

## Left out

- int64 width: every amount, balance and sum is an unbounded integer, so Go's wrap-around on overflow is not modelled. This covers Postings.AmountStep and Postings.FixedPoint (the accumulator at parse/parse.go:383 and the ×10000 scaling), Transactions.Balance (transaction.go:100-119), Transactions.SumTransactions and Display.FormatHelper.
- Zipper.ZipperHTTP: Go panics on `b.T[0]` when b.T is empty and a.T is not. The model returns Err(IndexOutOfRange). With both empty, Go reads no transaction and returns an empty T, and so does the model.
- Zipper.Agreed: the `||` guard at tools/zipper.go:77-78 makes Go index past the end of the shorter side, which panics. The model returns Err(IndexOutOfRange).
- LTail.LTail: with no matching transaction, Go panics on `f.T[-1:]` (tools/ltail.go:44), contrary to its doc comment. The model returns Err(IndexOutOfRange) and changes nothing. LTail.LTailFixed returns the empty file the doc comment promises (see Findings).
- Postings.AmountLoop: a ',' at the end of input (parse/parse.go:369-381) loops forever in Go. Next at EOF leaves C stale, so the loop test stays true. The model returns Err(AmountNeverEnds). AmountNeverEnds and TimeParseError are ParseError constructors with no Go error value behind them. TimeParseError stands for whatever `time.Parse` returns.
- Transactions.Canonicalize: returns the updated transaction instead of writing `t.Postings[null].Value` in place (transaction.go:139-141).
- LTail.LTail: the returned D and the caller's f.D are separate sequences. The in-place rebase is reflected in f.D at return, but later writes through one slice are not seen through the other.
- Files.File.CleanCopy: transactions and directives are values, so the copy shares nothing mutable by construction. Transaction.CleanCopy (transaction.go:87-94) and Directive's copy are the identity on values and have no member.
- Writing.WriteLedgerFile and Files.File.Format: the io.Writer becomes the returned sequence of items. Transaction.String (transaction.go:223-267) is not modelled, because its tag and key/value order follows Go's randomised map iteration and its dates go through time.Format.
- The RuneReader of NewRawCharReader is a string (`seq<char>`), consumed from the front.
- time.Time is `Date(year, month, day)`. time.Parse is TimeParse, which checks calendar validity.
- Sums.BuildTree: Go's map iteration order in FormatSums becomes a `:|` choice of the next account. Sums.BuildTreeRemove proves the tree does not depend on it, and Sums.SortedUnique does the same for the sorted keys.
- unicode.IsLetter in MatchAlpha is the function parameter `isLetter`.
- ParseValueNumber (transaction.go:306-315) works with float64 and is not modelled.
- File.ImportOFX, File.Matched and File.ParseMatchers (file.go:192-403) depend on OFX decoding, regular expressions and an ID service channel, and are not modelled.
- The message strings of the error types (parse/errors.go, transaction.go:381-399, file.go:83-85) are not modelled. The errors are datatype constructors carrying their index, line or name.
- client/client.go, the command-line mains under tools/ and zipper/, and the I/O and flag helpers of tools/ are not part of this model.
- Comments.TagLineGrammar: success is proved only for tag lines whose white space is all blanks and tabs. Other white space is shown to be refused by Comments.OddSpaceTagLine and Comments.VerticalTabTagLine.
- Parser.ReadUntilTrimmedGrammar: states only that the value is a slice between two blank runs, not that it is fully trimmed. The code leaves some blanks, as Parser.TrimTrailingSpec and Parser.TrimLeadingSpec state exactly.

## Findings

| source | as written | input that shows it | evidently intended | confidence | as-written member | corrected member |
|---|---|---|---|---|---|---|
| transaction.go:338 | roundToEven(0, d) with d > 5 steps down to -1, so the cents print as "0-1" | FormatValue(60) == "$0.0-1" | rounding 0.6 cents up gives "$0.01" | high (not executed) | Display.FormatValueSixMills | Display.FormatValueFixedRoundTrip |
| transaction.go:333-337 | the sign lives only in v/10000, which is 0 for small negative amounts | FormatValue(-5000) has no '-' (any v in (-10000, 0)) | "$-0.50" | high (not executed) | Display.FormatValueLosesSign | Display.FormatValueFixedRoundTrip |
| transaction.go:338 | the mill digit of a negative amount is negative, so roundToEven never rounds it | FormatValue(-15060) == "$-1.50" | "$-1.51" | medium (not executed) | Display.FormatValueTruncates | Display.FormatValueFixedRoundTrip |
| transaction.go:173-178 | the single-child merge prefixes ":" even when the parent name is empty | FormatSums({"Assets": v}) gives the row ":Assets" | "Assets" | high (not executed) | Sums.SingleAccountRow | Sums.SingleAccountRowFixed |
| parse/parse.go:378-381 | ',' is skipped without an EOF check, and Next at EOF leaves C == ',' | posting amount "1," at end of input never ends | an unexpected-end error | high (not executed) | Postings.CommaAtEndNeverEnds | Postings.AmountLoopFixedAgrees |
| parse/parse.go:395-402 | the fraction is scaled by its value, not by its number of digits | "0.9" gives 900 ($0.09), and "0.05" gives 5000 ($0.50) | 9000 and 500 | high (not executed) | Postings.NineTenthsScaled | Postings.AmountFixedDecimal |
| file.go:141 | Payees filters on type "account" | a "payee" directive yields no payee | filter on "payee", as the doc comment says | high (not executed) | Files.PayeeDirectiveIgnored | Files.PayeesFixedComplete |
| parse/lex/lexer.go:241-252 | Location.L and Location.C combine the parts with `&`, so every location is 0 | Line(L(0, 5)) == 0 | combine the parts with bitwise or, keeping line 5 | high (not executed) | Lex.LineFiveLost | Lex.WithLineFixed |
| parse/lex/lexer.go:257-266 | LPlus and CPlus pass the current value without adding 1 | the line after line 5 is 0 even with a fixed L | line 6 | high (not executed) | Lex.LineFiveLost | Lex.LPlusFixed |
| tools/zipper.go:52-54 | the reset loop assigns FoundBefore to the range copy | a b.D directive anchored past the end of the merged file keeps that anchor, and Format fails | all anchors 0, as the doc comment says | high (not executed) | Zipper.AnchorKept | Zipper.MergedDirectivesFixedAnchored |
| parse/parse.go:188-191 | the tag buffer is cleared only when the trimmed tag is non-empty, and the final check accepts only ' ' and '\t' | the comment line "; :a:\v:" is ErrMalformedTagLine | tag "a" recorded | medium (not executed) | Comments.VerticalTabTagLine | Comments.VerticalTabTagLineFixed |
| tools/ltail.go:27-44 | a missing ID leaves i at -1, and `f.T[i:]` panics | LTail(f, id, rid) with no transaction of that ID | an empty file, as the doc comment says | high (not executed) | LTail.LTail | LTail.LTailFixed |
