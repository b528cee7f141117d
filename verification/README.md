# Verified model of devbrowser's core

A Dafny 4.11 model of the parts of the repository whose behaviour is hard to see by
reading one function at a time:

- **httphead** (`Octets`, `Lexer`, `Comments`, `Options`, `OptionGrammar`, `Writer`, `RoundTrip`,
  `UniqueSelection`, `TokenLists`, `Cookies`, `OptionParameters`): the octet table, the lexer over a byte
  slice, the option state machine with its callback, the printer, the cookie scanner, and the
  parameter list with its eight inline slots. Main results: what `ParseOptions` makes of every
  input, by a grammar; that `Select` is a filter of it; the exact set of option lists that are read
  back from `WriteOptions`; when `SelectUnique` selects what it is meant to; and which cookie lists
  survive a scan.
- **pixelmatch** (`Pixels`, `ColourDistance`, `LineReader`, `PixelMatch`, `PixelGeometry`): pixel decoding,
  the colour distance, the five-row window that rotates and reuses its buffers, and the diff loop,
  against a count defined on the whole images and the points in them.
- **chromedp's DOM mirror** (`Attributes`, `Dom`): the node tree and the id index under
  every DOM event, as an object graph that is edited in place.
- **chromedp's protocols**: commands and replies (`CommandReply`), the routing loop
  (`Routing`), the replay of navigation events (`Navigation`), and `shutdownChrome` against
  the one-token channel `allocated` (`Shutdown`). The actors of the first, second and fourth are the
  goroutines; a run is any sequence of their atomic steps, and a step that is not possible
  when its turn comes does nothing. `CommandHistory` and `RoutingHistory` say what the states
  tell about the steps that led to them, and what can always be done from there.
- **humanize** (`Grouping`): four ways of grouping digits against one definition.
- **selection history** (`SelectionHistory`): the bounded list against an unbounded log.

Code that updates variables is modelled as classes and methods with loops; each is proved
against a function of the old state, and the theorems are lemmas about those functions. A
closure passed to a scanner is a pure function from its captured state and the call to the
new state and the answer; nothing is assumed of it. Bytes are the integers 0 to 255. All
lemmas switch automatic induction off, so every induction is in the text of a proof.

`dafny verify dfyconfig.toml` checks everything.

## Where the code departs from its documentation

The model follows the code; these are theorems, not remarks.

- The octet table is filled from 32 up only, so a tab is neither a space nor a separator and
  control characters below 32 are not controls (`Octets.TableAgainstRfc`).
- `RemoveByte` loses the last byte when the removed byte stands right before it
  (`Lexer.RemoveByteIsExact`), so a quoted value that ends in an escaped octet loses it.
- `ScanPairGreedy` looks for opening bytes up to an offset where a position is meant, so that a
  comment with a second nested pair ends too early (`Comments.SecondNestIsMissed`);
  `Comments.CommentEndsRight` says exactly when it ends where its parentheses are balanced.
- `WriteOptions` does not escape the backslash, so a value holding one never comes back
  (`RoundTrip.RoundTripExactly`).
- `SelectUnique` is meant to keep the first option of each name, and skips a repeated one by
  going to the next comma. That goes wrong in two ways: the call that finds the repetition is
  made at the comma behind the option already, so that the next option is swallowed (`a,a,b`
  gives `a`), or a quoted value holds a comma, so that the scan resumes inside it
  (`a,a;k=1;m="x,y",b` gives `a` and an option `y` that is not there, and calls the header
  malformed). `UniqueSelection.SkipIsExact` says when one skip goes right,
  `UniqueSelection.SelectUniqueMeans` and `SelectUniqueExactly` when the selection does.
- `CookieScanner.Scan` drops the result of `trimLeft`, so that lenient mode trims on the right
  only: in `a=b;  c=d`, with two spaces, `c` is dropped (`Cookies.SpacedCookieIsDropped`).
  `Cookies.TrimLeftIsMissed` says exactly when this makes a difference.
- `imageLineReader.At` indexes a row buffer by the column itself: an image that does not start
  at column 0 has no column that is read right (`LineReader.NoColumnIsRight`, with an image in
  `LineReader.ShiftedRead`), so the anti-alias test is of no use on it.
- The components that `readLine` yields are multiplied by their alpha already and `blendRGBA` multiplies
  them once more, so that a half transparent white pixel is shown grey (`ColourDistance.HalfWhiteIsGrey`);
  `ColourDistance.BlendedTwice` says exactly when this makes no difference.
- The threshold is squared and multiplied by 35215, the distance of red and cyan with components of 255;
  but a byte of 255 is decoded as 65535 over 256, so that red and cyan are counted at a threshold of 1
  (`ColourDistance.RedAgainstCyan`, `PixelGeometry.RedAgainstCyanCounts`).
- `BigComma` leaves its argument holding the leading group; the argument survives exactly when
  it is from 0 to 999 (`Grouping.BigComma`).

## Model

| member | source | states |
|---|---|---|
| `Octets.InitOctetTypes` | httphead/octet.go:61-83 | the loop from 32 to 255 leaves in every entry, those below 32 included, the classes of that octet |
| `Octets.TableAgainstRfc` | httphead/octet.go:28-83 | the table agrees with section 2.2 of RFC 2616 on tokens everywhere, on characters and controls exactly from 32 up, on spaces and separators exactly away from the tab |
| `Lexer.ScanUntil` | httphead/lexer.go:236-249 | returns the first occurrence that no backslash immediately precedes, or -1 when there is none |
| `Lexer.FirstUnescapedIs` | httphead/lexer.go:234-249 | the value with those properties is unique |
| `Lexer.CountOpening` | httphead/lexer.go:267-274 | the inner hops count every opening byte of the window |
| `Lexer.ScanPairGreedy` | httphead/lexer.go:253-284 | ends, and returns a closing byte inside the data or -1, by the pair count the source keeps (its window is relative to the search position) |
| `Comments.BalancedMeans` | httphead/lexer.go:251-252 | with the window that was meant, the search finds the first closing byte behind which no pair is open |
| `Comments.CommentEndsRight` | httphead/lexer.go:253-284 | a comment never ends behind that byte, and ends at it (or is unclosed) if and only if the search passes over no opening byte |
| `Comments.OneNestIsRight` | httphead/lexer.go:267-274 | it does when no opening byte stands behind the first closing one |
| `Comments.SecondNestIsMissed` | httphead/lexer.go:267-274 | `(()())` is ended one parenthesis too early |
| `Lexer.RemoveByte` | httphead/lexer.go:288-313 | never exceeds its buffer; returns the data without the byte, but for the last byte when the removed one stands right before it |
| `Lexer.RemoveByteIsExact` | httphead/lexer.go:286-313 | equals the data without the byte, as documented, if and only if the byte is not second to last in front of another byte |
| `Lexer.SkipSpace` | httphead/lexer.go:317-334 | skips spaces and CR LF space, and stops at a byte that is not a space |
| `Lexer.SkipLenIs` | httphead/lexer.go:317-334 | what is skipped is the one run of spaces, and line breaks that a space continues, with no more of them behind it |
| `Lexer.ScanToken` | httphead/lexer.go:338-360 | a separator alone, or the longest run of token octets, or -1 |
| `Lexer.TokenRunIs` | httphead/lexer.go:348-355 | the longest run is the only one with its properties |
| `Lexer.LexNext` | httphead/lexer.go:44-63 | a successful item moves at least one byte, never beyond the data; tokens are token words, strings hold no backslash; a failure that is not an error is the end of the data |
| `Lexer.BlankInFront` | httphead/lexer.go:154-166 | white space in front of an item changes nothing but how far the scanner moves |
| `Lexer.NextFails` | httphead/lexer.go:44-63 | an item is an error exactly for an unclosed string or comment, a stray backslash or closing parenthesis, and an octet that is neither a separator nor a token |
| `Lexer.Scanner.Next` | httphead/lexer.go:44-63 | the fields after a call are those of one lexing step from the remaining bytes; a set error stays set and nothing moves |
| `Lexer.Scanner.NextChar` | httphead/lexer.go:154-166 | skips exactly the leading space and resets the item |
| `Lexer.Scanner.FetchToken` | httphead/lexer.go:188-200 | the item is the token found, or the error is set and nothing moves |
| `Lexer.Scanner.FetchQuotedString` | httphead/lexer.go:202-216 | the item is the text up to the first unescaped quote with the escapes removed, and the position is behind that quote |
| `Lexer.Scanner.FetchComment` | httphead/lexer.go:218-232 | the item is the text up to the closing parenthesis found, unescaped, and the position is behind it |
| `Lexer.Scanner.SkipEscaped` | httphead/lexer.go:129-142 | leaves the bytes behind the first unescaped occurrence, or none; nothing moves after an error |
| `Lexer.Scanner.Peek2` | httphead/lexer.go:86-94 | the next two bytes, 0 for a missing one |
| `Lexer.Scanner.Advance` | httphead/lexer.go:103-110 | moves exactly so far, or to the end with false |
| `Lexer.Scanner.FetchUntil` | httphead/lexer.go:67-73 | false only at the end; the item has no such byte and what remains starts with it or is empty |
| `Lexer.Scanner.FetchOctet` | httphead/lexer.go:173-186 | item and rest together are the bytes that were left |
| `Options.Dispatch` | httphead/httphead.go:213-288 | one item changes the variables of the state machine as the transition function says, or is malformed |
| `Options.ScanOptions` | httphead/httphead.go:195-321 | terminates on every input whatever the callback answers, and leaves the captured state and verdict of the recursive scan |
| `Options.ParseOptions` | httphead/httphead.go:46-60 | the options appended are those of the scan with the closure's captured variables |
| `Options.Select` | httphead/httphead.go:111-159 | the same for the selector's closure, with its last pending option flushed; what that selects is the subject of `SelectFilters`, `SelectedPass`, `SelectUniqueOfDistinct` and of the rows of `UniqueSelection` |
| `Options.SelectAllIsParse` | httphead/httphead.go:111-159 | with no check and no flag, options and verdict equal those of `ParseOptions`, on malformed input too |
| `OptionGrammar.SelectFilters` | httphead/httphead.go:111-159 | without the unique flag, for every check, every input and every list before: that list, then those options of the parse that pass, in order, with the verdict of the parse |
| `OptionGrammar.SelectedPass` | httphead/httphead.go:125-158 | with any flags the list before stays, and all that is added passes the check |
| `OptionGrammar.SelectUniqueOfDistinct` | httphead/httphead.go:134-140 | the unique flag makes no difference on any input whose names are new and all different |
| `OptionGrammar.ParsedMeans` | httphead/httphead.go:46-60 | on every input, accepted or not, the options appended are those of a grammar over the lexer's items, and the verdict is whether the items are well placed up to the end |
| `OptionGrammar.ParseAppends` | httphead/httphead.go:46-60 | parsing only appends, and the list before makes no difference to what it appends |
| `OptionGrammar.VerdictMeans` | httphead/httphead.go:211-321 | the verdict under any callback that goes on: the lexer reaches the end, each item may stand behind those before it, and one is a token |
| `OptionGrammar.BreakIsTrue` | httphead/httphead.go:290-292 | a Break at any call ends the calls there, and before the last call with true, whatever comes behind it |
| `Options.StepsAgree` | httphead/httphead.go:125-150 | each callback call keeps the two closures in step, the selector being one option behind |
| `Options.SelectUniqueIsDistinct` | httphead/httphead.go:134-140 | with `SelectUnique`, distinct names stay distinct, whatever the check and the input |
| `Options.StepKeepsUnique` | httphead/httphead.go:125-150 | every single callback call keeps names distinct and never answers Break |
| `Options.ScanTokens` | httphead/httphead.go:18-39 | terminates, with the calls and the verdict of the recursion that the next three rows are about |
| `TokenLists.ListIsHandedOver` | httphead/httphead.go:18-39 | a comma-separated list of token words is handed to any callback word by word, until it answers false, with true unless the list is empty |
| `TokenLists.TokenRoundTrip` | httphead/httphead.go:13-39 | scanning such a list gives exactly its words in order |
| `TokenLists.OnlyTokens` | httphead/httphead.go:18-39 | on any input only token words are called back, and true means there was one |
| `Writer.Destination.Write` | httphead/writer.go:94 | any io.Writer: takes a head of what it is given and fails if that is not all; a flaky one may stop anywhere and fail even then, any other takes what it has room for |
| `Writer.OptionWriter.Write` | httphead/writer.go:89-97 | what reached the destination is always a head of all that was asked, counted by n, and all of it without an error; nothing is tried after one |
| `Writer.OptionWriter.WriteTokenSanitized` | httphead/writer.go:55-81 | the pieces written make up a token as it is, or the quoted string with each control and quote escaped |
| `Writer.EscapedStretch` | httphead/writer.go:69-72 | copying up to an octet and escaping it extends the escaped text by that octet |
| `Writer.WrittenForm` | httphead/writer.go:13-40 | the documented form of an option: words as they are, a semicolon before each parameter, an equals sign and the value only where there is one |
| `Writer.CommaBetween` | httphead/writer.go:24-26 | options stand apart by one comma and nothing else |
| `Writer.QuotedWhenNeeded` | httphead/writer.go:55-81 | a text is quoted exactly when an octet of it is no token octet; the octets that get a backslash are the quote and DEL |
| `Writer.WriteOptions` | httphead/writer.go:21-40 | on any writer a head of the text, with its length, and all of it unless an error is returned; on one with so much room the longest head that fits, and an error if and only if that is not all |
| `RoundTrip.RoundTripExactly` | httphead/writer.go:21-81 | parsing the text of a list appends exactly that list and succeeds, if and only if the list is not empty, names and keys are token words, and no value holds a backslash or ends in a quote or DEL |
| `RoundTrip.WriteThenParse` | httphead/httphead.go:46-60 | the same for the methods, on any writer that reports no error and any list already there |
| `RoundTrip.ParseWritten` | httphead/httphead.go:195-321 | every list with token names and keys and no backslash comes back, each value less a last octet that had to be escaped |
| `RoundTrip.ParsedIsReadable` | httphead/httphead.go:46-60 | on every input, all that is parsed has token names and keys and values without backslash, and earlier options are untouched |
| `RoundTrip.UnescapeKeeps` | httphead/lexer.go:288-313 | removing the escapes that writing put in gives the value back, less a last octet that was escaped |
| `RoundTrip.LexValue` | httphead/lexer.go:202-216 | a written value is one item of exactly its length, whatever follows it that is not a token octet |
| `RoundTrip.QuoteIsLost` | httphead/writer.go:64-73 | the value that is one quote is written quoted and read back empty |
| `UniqueSelection.SkipEarly` | httphead/httphead.go:296-312 | for any callback that skips: if the first call for an option comes before the comma behind it, the scan resumes at the next comma in what is left, with the index unchanged |
| `UniqueSelection.SkipLate` | httphead/httphead.go:254-270 | ... if it comes at that comma, the scan resumes behind the comma after, with the index one on |
| `UniqueSelection.SkipIsExact` | httphead/lexer.go:129-142 | the place where it resumes is the start of the next option if and only if the call was not made at the comma and no value left in the option holds a comma |
| `UniqueSelection.SelectUniqueOutcome` | httphead/httphead.go:111-159 | exactly what is selected from any written list, for any check and any options selected before, as a recursion over the options; once the scan resumes inside a value without further comma or semicolon, the header is called malformed |
| `UniqueSelection.SelectUniqueMeans` | httphead/httphead.go:87-89 | on every written list, whatever the check and what was selected before, the selection is the first option of each name that passes, with true, if no skip goes wrong |
| `UniqueSelection.SelectUniqueOfSafe` | httphead/httphead.go:87-89 | that is so, with however many repetitions, when every repeated option is the last or has its first call before its comma, and no comma in a value after its first |
| `UniqueSelection.SelectUniqueExactly` | httphead/httphead.go:87-89 | the selection is the documented one if and only if no skip goes wrong, on all lists in which no value leads on behind its first comma and the option first swallowed does not come again |
| `UniqueSelection.SelectUniqueSingle` | httphead/httphead.go:87-89 | with one repetition: if and only if that option is the last, or has its first call before its comma and no comma in a value after its first |
| `UniqueSelection.SelectUniqueLosesNeighbour` | httphead/httphead.go:134-140 | from `a,a,b` only `a` is selected, where parsing gives all three |
| `UniqueSelection.QuotedCommaInvents` | httphead/httphead.go:296-299 | from `a,a;k=u;m="v,y",b` the options `a` and `y` are selected and the header is called malformed, where parsing gives its three options |
| `UniqueSelection.SwallowedButFoundAgain` | httphead/httphead.go:134-140 | in `a,a,b,b` the first `b` is swallowed, and the selection is right all the same, which is why that case is excluded from the equivalence |
| `UniqueSelection.MendedByLuck` | httphead/httphead.go:296-299 | in `a,a;k=u;m="v,a;j=w",b` the scan resumes inside a value and a second skip mends it, likewise |
| `Cookies.ValidCookieValue` | httphead/cookie.go:145-167 | true exactly for cookie octets of section 4.1.1 of RFC 6265, with space and comma let through when not strict |
| `Cookies.ValidCookieName` | httphead/cookie.go:170-177 | true exactly when all octets are token octets |
| `Cookies.TrimLeft` | httphead/cookie.go:186-192 | the name without the spaces in front, whose number is determined |
| `Cookies.TrimRight` | httphead/cookie.go:194-200 | the prefix without trailing spaces |
| `Cookies.ScanPair` | httphead/cookie.go:84-119 | splits at the first equals sign, trims, strips quotes and validates in the source's order |
| `Cookies.ScanCookies` | httphead/cookie.go:49-131 | terminates on every input (fetching an empty pair does not move, so the measure is lexicographic) with the calls and verdict of the recursive scan |
| `Cookies.ScanIsWalk` | httphead/cookie.go:59-128 | for any callback and flags, a header is walked piece by piece between its semicolons: a refused pair is passed over or ends the scan, a false answer ends it with true, a missing space with false in strict mode |
| `Cookies.EveryHeader` | httphead/cookie.go:74-80 | every header is cut into such pieces |
| `Cookies.PairByFlags` | httphead/cookie.go:84-119 | which pairs are accepted, flag by flag, with an equals sign and without one |
| `Cookies.CollectValid` | httphead/cookie.go:49-131 | token names with RFC 6265 cookie-values, in quotes or not, joined as in section 4.2.1, come back in order with true, whatever the flags: quoted values without their quotes, others in lenient mode without spaces at the end |
| `Cookies.TrimLeftIsMissed` | httphead/cookie.go:100-102 | dropping the trimmed name changes what a pair is read as, if and only if the mode is lenient, a space is in front, and the pair would be accepted by its trimmed name |
| `Cookies.SpaceInFront` | httphead/cookie.go:100-108 | every readable pair behind one space is refused as written and would be accepted if trimmed |
| `Cookies.SpacedCookieIsDropped` | httphead/cookie.go:67-108 | of two such pairs with two spaces between them only the first is called back, with true |
| `Cookies.CookieRoundTripExactly` | httphead/cookie.go:49-131 | with both validations on, scanning a cookie-string calls back exactly its pairs in order and returns true, if and only if each name is a token, each value has valid octets, and in lenient mode none ends in a space |
| `Cookies.StrictRoundTrip` | httphead/cookie.go:133-167 | token names and RFC 6265 values always survive in strict mode |
| `Cookies.CollectedIsValid` | httphead/cookie.go:103-119 | on any input, only valid pairs are called back while both validations are on |
| `OptionParameters.Parameters.Set` | httphead/option.go:130-144 | the pairs in use grow by exactly the new one, across the move from eight slots to the list, and the byte count by its length |
| `OptionParameters.Parameters.Copy` | httphead/option.go:101-117 | a fresh list of the same texts, packed without gap at the head of the storage; the rest starts exactly `bytes` further, and nothing before it changed |
| `OptionParameters.CopyPair` | httphead/option.go:167-176 | key and value lie one behind the other, and the storage changed nowhere else |
| `OptionParameters.PackedSpells` | httphead/option.go:109-115 | slices packed over the bytes of some texts spell those texts |
| `OptionParameters.PackedDisjoint` | httphead/option.go:167-176 | copied slices of different pairs share no byte |
| `OptionParameters.UsedSlots` | httphead/option.go:113-115 | going through all eight slots copies no more than the used ones |
| `OptionParameters.NamedOption.Copy` | httphead/option.go:21-26 | name first, then the parameters, in `Size()` bytes of the given storage |
| `OptionParameters.NamedOption.Clone` | httphead/option.go:30-32 | an option of the same texts over fresh storage of which every byte is used |
| `OptionParameters.NewOption` | httphead/option.go:40-50 | any number of `Set` calls leaves exactly the pairs set, in order, and their total length |
| `Pixels.DeltaIsSymmetric` | pixelmatch/pixelmatch.go:193-221 | swapping the colours keeps the size of the distance |
| `ColourDistance.TransparentIsWhite` | pixelmatch/pixelmatch.go:198-206 | a fully transparent pixel is shown white, whatever its components |
| `ColourDistance.OpaqueIsItself` | pixelmatch/pixelmatch.go:197-206 | an opaque one shows its own components; opaque starts at an alpha of 255 times 256 |
| `ColourDistance.ShownIsBetween` | pixelmatch/pixelmatch.go:223-230 | what is shown lies between the component and white |
| `ColourDistance.ShownInProportion` | pixelmatch/pixelmatch.go:223-230 | its distance from white is in proportion to the alpha |
| `ColourDistance.BlendedTwice` | pixelmatch/pixelmatch.go:198-230 | what is shown is the premultiplied pixel over white if and only if the component is 0 or the alpha is full: blending multiplies by the alpha once more |
| `ColourDistance.HalfWhiteIsGrey` | pixelmatch/pixelmatch.go:415-421 | a half transparent white pixel is shown below 192 |
| `ColourDistance.GreyHasNoChroma` | pixelmatch/pixelmatch.go:232-242 | a grey has no chroma, and its luma is its component times the sum of the weights |
| `ColourDistance.GreyDistance` | pixelmatch/pixelmatch.go:208-220 | two greys are as far apart as their components |
| `ColourDistance.Primaries` | pixelmatch/pixelmatch.go:232-242 | luma and chroma of the three primaries at any strength |
| `ColourDistance.BrighterHasMoreLuma` | pixelmatch/pixelmatch.go:232-234 | the luma grows with every component that is shown brighter |
| `ColourDistance.DistanceMeans` | pixelmatch/pixelmatch.go:193-221 | the distance is 0 if and only if the colours are shown alike, and negative if and only if the first has more luma |
| `ColourDistance.TransparentAreAlike` | pixelmatch/pixelmatch.go:198-206 | two fully transparent pixels are no distance apart |
| `ColourDistance.TransparentAgainstWhite` | pixelmatch/pixelmatch.go:121-143 | one and an opaque white are within every threshold from 0.004 on |
| `ColourDistance.RedAgainstCyan` | pixelmatch/pixelmatch.go:121 | 35215 is the distance of red and cyan with components of 255, rounded up; decoded from 255 they are 35490 apart |
| `Pixels.PixelInside` | pixelmatch/pixelmatch.go:385-450 | the bytes of every pixel of a valid image are inside its buffer |
| `Pixels.NoProductWraps` | pixelmatch/pixelmatch.go:410-435 | no 32-bit product of a component and an alpha wraps, and the quotient is no larger than the component |
| `Pixels.DecodedIsBounded` | pixelmatch/pixelmatch.go:385-450 | in each of the six encodings no decoded component exceeds 16 bits, and components multiplied by their alpha are at most the alpha |
| `Pixels.ChannelOrder` | pixelmatch/pixelmatch.go:388-408 | the order of the channels, and of high and low byte |
| `Pixels.EightBitsAreSixteen` | pixelmatch/pixelmatch.go:388-436 | eight bits decode as sixteen with both bytes the same, multiplied by their alpha or not |
| `Pixels.OpaqueAndTransparent` | pixelmatch/pixelmatch.go:410-422 | an opaque pixel is the same with and without premultiplied components, and nothing is left of a transparent one |
| `Pixels.GreyIsOpaque` | pixelmatch/pixelmatch.go:437-450 | grey decodes as three equal opaque channels |
| `Pixels.RowsAreStacked` | pixelmatch/pixelmatch.go:385-450 | in a buffer of rows one behind the other, column i of row j is the pixel of those bytes of that row |
| `Pixels.ReadLine` | pixelmatch/pixelmatch.go:385-457 | the row buffer holds the pixels of that row, in each of the six encodings and for any other image |
| `Pixels.Equals` | pixelmatch/pixelmatch.go:371-383 | whenever no slice it takes is out of range (none is taken after a row that differs), true exactly when the whole buffers, or else all rows, have the same bytes |
| `Pixels.IsIdentical` | pixelmatch/pixelmatch.go:335-369 | true exactly for two images of one known encoding with equal bytes |
| `Pixels.FullIsComparable` | pixelmatch/pixelmatch.go:371-383 | the row slices exist for any two full images of equal bounds |
| `Pixels.WholeBufferOffsets` | pixelmatch/pixelmatch.go:372-376 | when the whole buffers are compared the strides agree, so pixels sit at the same offsets |
| `Pixels.IdenticalPixels` | pixelmatch/pixelmatch.go:335-457 | images the shortcut calls identical decode to the same colour at every pixel |
| `LineReader.ImageLineReader.Next` | pixelmatch/pixelmatch.go:480-511 | after each call every row of the image within two of the current one is loaded in its slot, rows outside are nil, and no two slots share a buffer; false exactly after the last row, with nothing changed |
| `LineReader.ImageLineReader.Load` | pixelmatch/pixelmatch.go:484-492 | the first window, from new buffers |
| `LineReader.ImageLineReader.Rotate` | pixelmatch/pixelmatch.go:493-508 | the window one row further, reusing the buffer of the row that leaves |
| `LineReader.ImageLineReader.At` | pixelmatch/pixelmatch.go:521-523 | within two rows of the current one, the value is the pixel of the image in that row and column |
| `LineReader.ColumnsIndexLines` | pixelmatch/pixelmatch.go:521-523 | every column of an image is an index of its row buffers exactly when the image starts at column 0 |
| `LineReader.NoColumnIsRight` | pixelmatch/pixelmatch.go:521-523 | with any other left edge each column is out of range or gives the pixel of another column |
| `LineReader.ShiftedRead` | pixelmatch/pixelmatch.go:521-523 | an image of two columns in which the first is read as the second and the second is out of range |
| `PixelMatch.NeighboursAreAround` | pixelmatch/pixelmatch.go:245-263 | the pixels visited are exactly those of the image at distance one |
| `PixelMatch.VisitOne` | pixelmatch/pixelmatch.go:259-263 | the loops visit them in one list, each once, but for the centre |
| `PixelMatch.HasManySiblings` | pixelmatch/pixelmatch.go:289-317 | reads only loaded rows and returns whether three neighbours, the border counting as one, have the colour of the pixel on the whole image |
| `PixelMatch.IsAntiAliased` | pixelmatch/pixelmatch.go:244-287 | returns the predicate on the whole images: at most two equally bright neighbours, a darker and a brighter one, and the first darkest or first brightest flat in both images |
| `PixelMatch.OnlyFirsts` | pixelmatch/pixelmatch.go:270-278 | the darkest and brightest neighbours of that predicate are unique |
| `PixelGeometry.NeighboursInOrder` | pixelmatch/pixelmatch.go:259-263 | neighbours are visited column by column from the top, each once |
| `PixelGeometry.BonusOnBorder` | pixelmatch/pixelmatch.go:251-253 | the one to its credit is what a pixel of an outermost row or column has |
| `PixelGeometry.SiblingsMean` | pixelmatch/pixelmatch.go:289-317 | flat means at least three points around it of its own colour, or two on the border |
| `PixelGeometry.AntiAliasedMeans` | pixelmatch/pixelmatch.go:244-287 | anti-aliased means at most two points around it as bright, or one on the border, and the first brightest or the first darkest point around it flat in both images |
| `PixelGeometry.CountIsDiffering` | pixelmatch/pixelmatch.go:136-180 | the count is the number of points of the image that differ |
| `PixelGeometry.CountedPoints` | pixelmatch/pixelmatch.go:143-169 | a point is counted if and only if its colours are beyond the threshold and it is anti-aliased in neither image, or anti-aliasing is included |
| `PixelGeometry.RedAgainstCyanCounts` | pixelmatch/pixelmatch.go:121 | at a threshold of 1 a pixel of full red against one of full cyan is counted |
| `PixelGeometry.RedAgainstCyanPasses` | pixelmatch/pixelmatch.go:121 | with components of exactly 255 they are not counted |
| `PixelGeometry.ThresholdIsSquared` | pixelmatch/pixelmatch.go:121 | the largest distance that passes goes with the square of the threshold |
| `PixelMatch.DiffersAt` | pixelmatch/pixelmatch.go:141-169 | the decision for one pixel, through the windows, is that of the whole images |
| `PixelMatch.CompareRow` | pixelmatch/pixelmatch.go:140-180 | counts the differing pixels of the row |
| `PixelMatch.MatchPixel` | pixelmatch/pixelmatch.go:84-191 | an error exactly when the bounds differ; else the number of differing pixels defined on the whole images, whether the shortcut fired or not; what makes a pixel differ is the subject of `ColourDistance` and `PixelGeometry` |
| `PixelMatch.DiffIsSymmetric` | pixelmatch/pixelmatch.go:136-180 | the count does not depend on the order of the images |
| `PixelMatch.DiffIsBounded` | pixelmatch/pixelmatch.go:122-180 | the count is at most width times height |
| `PixelMatch.DiffShrinksWithThreshold` | pixelmatch/pixelmatch.go:121-143 | raising a non-negative threshold never raises the count |
| `PixelMatch.ShortcutIsSound` | pixelmatch/pixelmatch.go:104-119 | where the shortcut returns 0 the full loop would count 0 too, in every encoding and for every threshold |
| `Attributes.Modify` | chromedp/util.go:229-250 | replaces the first value of the name, or adds a pair at the end |
| `Attributes.Remove` | chromedp/util.go:252-266 | drops every pair of the name and keeps the order of the rest |
| `Attributes.Modified` | chromedp/util.go:229-250 | an even list of distinct names stays one and reads as the map with that entry set |
| `Attributes.Removed` | chromedp/util.go:252-266 | ... as the map without that entry |
| `Attributes.ModifiedInPlace` | chromedp/util.go:229-250 | the first pair of the name gets the value where it stands, and everything else stays where it was; a new name goes to the end |
| `Attributes.RemovedInPlace` | chromedp/util.go:252-266 | the pairs of other names stay, in their order |
| `Attributes.ListIsMap` | chromedp/util.go:229-266 | over every sequence of the two events the list stays flat and equals a map under the same updates |
| `Dom.InsertNode` | chromedp/util.go:360-380 | the node goes right after the first one with that id, or to the front |
| `Dom.RemoveNode` | chromedp/util.go:382-401 | the first node with that id goes, or nothing |
| `Dom.InsertedInPlace` | chromedp/util.go:360-380 | the node stands right behind the first of that id with the rest in order, or in front of all without one |
| `Dom.RemovedInPlace` | chromedp/util.go:382-401 | exactly the first node of that id is gone from its place |
| `Dom.KidsAreAll` | chromedp/util.go:178-216 | the tree goes down by children, shadow roots, pseudo elements, content document and template content, and by nothing else |
| `Dom.InsertThenRemove` | chromedp/util.go:360-401 | inserting a node with a new id and removing that id restores the list |
| `Dom.Channel.Close` | chromedp/target.go:271-273 | may only be called on an open channel; every call in the model meets that |
| `Dom.Frame.Walk` | chromedp/util.go:173-217 | terminates; afterwards the whole subtree is indexed under its ids as those objects, with parents and channel set, nothing indexed before is lost, and nodes above keep their parents |
| `Dom.Frame.SetChildNodes` | chromedp/util.go:219-227 | the list is replaced, the new subtrees are covered, the old index entries stay |
| `Dom.Frame.ChildNodeInserted` | chromedp/util.go:291-299 | the child is in its place and its subtree covered |
| `Dom.Frame.ShadowRootPushed` | chromedp/util.go:311-319 | the same for a shadow root at the end |
| `Dom.Frame.PseudoElementAdded` | chromedp/util.go:331-339 | the same for a pseudo element |
| `Dom.Frame.ChildNodeRemoved` | chromedp/util.go:301-309 | the list loses that child and the index that one id; the index still covers the tree if and only if the id named a child, a detached node, or nothing |
| `Dom.Frame.ShadowRootPopped` | chromedp/util.go:321-329 | the same for a shadow root |
| `Dom.Frame.PseudoElementRemoved` | chromedp/util.go:341-349 | the same for a pseudo element |
| `Dom.Frame.AttributeModified` | chromedp/target.go:376-377 | the node's list changes as `Attributes.Modified` says and the tree is untouched |
| `Dom.Frame.AttributeRemoved` | chromedp/target.go:379-380 | ... as `Attributes.Removed` says |
| `Dom.Frame.DocumentUpdated` | chromedp/target.go:257-287 | the old document's channel is closed, once; the new root has a new open channel and is covered; after a failed reply there is no root and an empty index |
| `Dom.Frame.DomEvent` | chromedp/target.go:360-430 | for every admissible event the index keeps covering the tree, the lists, attributes, value and child count of the node become what the event says, all of that stays for every other node, parents and channels of known nodes stay, and an unknown id changes nothing |
| `Dom.TreeIsCovered` | chromedp/util.go:173-217 | in a valid frame, every node a path from the root reaches is indexed under its id as that object, its parent is the node above it, and it shares the root's channel |
| `Dom.IdsAreUnique` | chromedp/util.go:173-176 | two paths ending at nodes of one id end at one node |
| `Dom.OrphanStays` | chromedp/util.go:301-309 | removing a child leaves every node on a path below it in the index ... |
| `Dom.OrphanIsUnreachable` | chromedp/util.go:301-309 | ... though no path from the root leads to any of them: the index covers the tree but may be larger |
| `CommandReply.RunKeepsInv` | chromedp/browser.go:176-228 | the invariant of calls, listeners, readers and queues holds after every interleaving |
| `CommandReply.NumbersAreUnique` | chromedp/browser.go:177 | a number is new for the browser and all its targets, and numbering disturbs no other call |
| `CommandReply.OwnRepliesOnly` | chromedp/target.go:165-217 | a caller's channel and result only ever hold a reply with its own number; which one, whole, is said by `FirstReplyWins` |
| `CommandReply.SentAtMostOnce` | chromedp/browser.go:180-188 | when a listener is about to send, its channel is empty and was never sent to, whatever replies arrive |
| `CommandReply.ReaderNeverBlocks` | chromedp/util.go:122-135 | a goroutine running listeners can always make its next move, so the send in a listener never blocks it |
| `CommandReply.ListenerComesFirst` | chromedp/browser.go:189-211 | a queued command has its listener registered, unless it was answered or cancelled already |
| `CommandHistory.FirstReplyWins` | chromedp/browser.go:176-228 | what a caller gets or finds in its channel is, whole, the first message with its number that arrived at its own endpoint after its listener was registered |
| `CommandHistory.NoReplyIsLost` | chromedp/browser.go:176-228 | once the listeners have run for such a message, its caller has it, will find it in its channel, or has cancelled |
| `CommandHistory.OutcomeTells` | chromedp/target.go:165-217 | the k-th call has number k and its own endpoint, and its context and outcome tell whether it was cancelled, gave up, failed to encode or received |
| `CommandHistory.CommandsInOrder` | chromedp/browser.go:278-284 | commands are written in the order queued, each once; those without an error count as written, and at most 32 wait |
| `CommandHistory.UndisturbedRun` | chromedp/util.go:122-135 | a run of the listeners that nobody disturbs keeps and calls those live, drops the others, hands the message to the caller it is for if that one is live, and changes nothing else |
| `CommandHistory.CallGoesThrough` | chromedp/browser.go:176-228 | from every reachable state with an idle endpoint a call can be numbered, queued and written, and returns with the whole message that answers it, other calls undisturbed |
| `CommandHistory.CancelledReturns` | chromedp/target.go:195-206 | a caller waiting for the queue or for its reply can be cancelled and then returns, no other call being touched |
| `CommandReply.RunListeners` | chromedp/util.go:122-135 | the loop that removes while it iterates calls every listener that is live when its turn comes, once, in order, and keeps exactly those, whatever the calls and other goroutines cancel meanwhile |
| `CommandReply.CalledOnce` | chromedp/util.go:122-135 | no listener is called more often than it is listed, and one whose context is never done exactly so often |
| `CommandReply.CalledAreLive` | chromedp/util.go:122-135 | if nobody is cancelled on the way, those called are the live ones |
| `Routing.RunKeepsInv` | chromedp/browser.go:230-326 | the invariant of the loop holds after every interleaving |
| `Routing.QueueIsContiguous` | chromedp/browser.go:309-320 | what was put in a target's queue is, in order, a contiguous run of the messages read for its session |
| `Routing.RepliesAreNotMissed` | chromedp/browser.go:158-165 | the run starts no later than the first reply to a command of that target |
| `Routing.NothingIsSkipped` | chromedp/browser.go:309-320 | while a target is in the map, all that was taken for it since its start is in its queue, but for the message being put |
| `Routing.EndsOnlyByDetach` | chromedp/browser.go:297-307 | a target leaves the map exactly when a detach of its session is processed or another executor takes the session |
| `Routing.EndedQueueIsFinal` | chromedp/browser.go:303-314 | after that nothing is put in its queue |
| `RoutingHistory.TakenAsRead` | chromedp/browser.go:247-277 | messages and detaches are processed in the order read, each once, as they were read |
| `RoutingHistory.WrittenAsIssued` | chromedp/browser.go:292-296 | commands are numbered and written in the order issued, and belong to the target that issued them |
| `RoutingHistory.QueueSinceRegistered` | chromedp/browser.go:297-320 | what is in a target's queue is exactly what the loop took for its session from its registration to its end |
| `RoutingHistory.MessageGetsThrough` | chromedp/browser.go:309-320 | a message read while nothing is on its way can reach the page of its session, and no other |
| `RoutingHistory.DetachGetsThrough` | chromedp/browser.go:303-307 | a detach can be processed, and takes the page of its session out of the map |
| `Navigation.ResponseAction.HandleEvent` | chromedp/chromedp.go:587-619 | the shared variables change by one step of the fold, and the listener ends exactly on a load after init or a cancelled failure; what the fold comes to is said, event by event, in the rows from `RequestMeans` on |
| `Navigation.ResponseAction.Listen` | chromedp/chromedp.go:630-666 | the event joins those delivered, and the ids, the buffer, the view and the cancellation stay what the definitions over all delivered events say |
| `Navigation.ResponseAction.Deliver` | chromedp/util.go:122-135 | a cancelled listener is called no more |
| `Navigation.ResponseAction.CancelFromOutside` | chromedp/chromedp.go:585-586 | the caller's context may end the listener at any point without harm to the invariant |
| `Navigation.BufferingIsInvisible` | chromedp/chromedp.go:620-666 | whenever the loader is known, the view is one fold of `handleEvent` over all events delivered, with the ids discovered on the way |
| `Navigation.RequestMeans` | chromedp/chromedp.go:589-592 | the request id is that of the last document request of the loader, or empty when there is none |
| `Navigation.LoadErrMeans` | chromedp/chromedp.go:593-602 | the load error is the text of the last failure whose request was current where it came, and none exactly when there is none |
| `Navigation.ResponseMeans` | chromedp/chromedp.go:603-606 | the response is that of the last one received for the request current where it came, likewise |
| `Navigation.IdsMean` | chromedp/chromedp.go:636-657 | the loader is that of the first event that names one, and the frame the root frame in front of that event |
| `Navigation.ResultMeans` | chromedp/chromedp.go:673-694 | what is returned once the listener is cancelled: the last failure of a current request, else success for a load after init or a fragment navigation, else the caller's error, which only comes when the caller cancelled |
| `Navigation.FinishedMeans` | chromedp/chromedp.go:587-619 | finished if and only if a load event came after an init event of the frame, or the current request failed for good |
| `Navigation.HasInitMeans` | chromedp/chromedp.go:607-610 | the init flag means an init event of that frame was seen |
| `Shutdown.RunKeepsInv` | CloseBrowser.go:17-43 | the invariant of the channel, the process and the caller holds after every run |
| `Shutdown.EveryReceiveIsServed` | chromedp/chromedp.go:284-286 | a receive from `allocated` finds a token, a closed channel, or a channel that a cancelled process is about to close |
| `Shutdown.ClosedOnce` | chromedp/allocate.go:217-237 | the channel is never closed twice |
| `Shutdown.NeverStuck` | CloseBrowser.go:17-43 | until `shutdownChrome` returns, some step that is certain to come is possible; that it does its work on the way is said by the rows from `GracefulFirst` on |
| `Shutdown.StepsRunOut` | CloseBrowser.go:17-43 | every step brings the end nearer, guarded or not |
| `Shutdown.RunsAreShort` | CloseBrowser.go:17-43 | no run takes more steps than a fixed number |
| `Shutdown.Finish` | CloseBrowser.go:17-43 | from every reachable state the certain steps alone lead to the return |
| `Shutdown.RunIsRecorded` | CloseBrowser.go:17-43 | after every run each variable tells which steps took effect, and how far `shutdownChrome` is |
| `Shutdown.GracefulFirst` | CloseBrowser.go:22-28 | with a browser at the start, Chrome is asked to close before the allocator is cancelled, and that comes only after an error, after an answer and the end of the process, or after the deadline or a lost connection; without one nothing is asked |
| `Shutdown.GracefulIsGentle` | chromedp/chromedp.go:252-287 | a Chrome that answers and ends in time is never killed; none is killed before the connection is lost, `Cancel` is through, or the allocator is cancelled |
| `Shutdown.AllocatorIsAwaited` | CloseBrowser.go:35-38 | the wait for the allocator ends only when the process it has seen start is over and counted down |
| `Shutdown.NoChromeSurvives` | CloseBrowser.go:30-43 | on return the allocator was cancelled and awaited before the context, every process seen by the allocator is over, one not seen yet is about to be killed, and none can start |
| `Shutdown.LossIsExpected` | chromedp/allocate.go:264-276 | once Chrome is asked to close, a lost connection no longer cancels the context |
| `Shutdown.WillingChrome` | CloseBrowser.go:17-43 | from every run that leaves a Chrome running, one that obeys lets the call return without a kill |
| `Shutdown.HungChrome` | CloseBrowser.go:30-38 | and one that never answers is killed after the deadline, and the call returns |
| `Shutdown.LateStartIsKilled` | chromedp/allocate.go:187-192 | a process that the allocator sees only after the cancel can be killed and closes the channel |
| `Shutdown.WithoutGuardItBlocks` | CloseBrowser.go:18-23 | without the test for a browser there is a run that ends in the last receive with no step possible |
| `Grouping.Comma` | humanize/comma.go:15-44 | the grouped digits of every int64 with its sign, in seven slots, the least one included |
| `Grouping.Int64HasSevenGroups` | humanize/comma.go:28 | every int64 is below 1000 to the seventh |
| `Grouping.MinInt64Text` | humanize/comma.go:18-21 | the constant for the least value is its grouped text |
| `Grouping.GroupFromLeft` | humanize/comma.go:59-70 | chunking from the left gives the grouped digits |
| `Grouping.InsertSeparators` | humanize/number.go:167-172 | inserting from the right gives the grouped digits, for every separator |
| `Grouping.GroupingsAgree` | humanize/comma.go:28-43 | the three give one string, which reads back as the number |
| `Grouping.GroupedReadsBack` | humanize/comma.go:11-14 | removing the commas and reading the digits gives the number back |
| `Grouping.CommaPlaces` | humanize/comma.go:11-14 | counted from the right, exactly every fourth character is a comma |
| `Grouping.NoLeadingComma` | humanize/comma.go:11-14 | the first character never is |
| `Grouping.CommaTextReadsBack` | humanize/comma.go:11-14 | every integer is read back from its text, sign included |
| `Grouping.NoLeadingZero` | humanize/comma.go:11-14 | only zero starts with a zero |
| `Grouping.Oom` | humanize/big.go:23-31 | for every base above 1: how often it divides, and the number with all but its first two digits cut off, the second behind the point; a negative number comes back as it is |
| `Grouping.BigComma` | humanize/comma.go:89-116 | the slots counted are exactly those filled, for every integer; the result is the grouped text; the argument is left holding its leading group, and is unchanged if and only if it is from 0 to 999 |
| `Grouping.LeadingIsAll` | humanize/comma.go:101-102 | the leading group is the whole number exactly below 1000 |
| `Grouping.BigCommaIsComma` | humanize/comma.go:89-116 | equals `Comma` on every int64 |
| `SelectionHistory.History.Push` | selection_history.go:41-52 | after any run the items are the newest ten of the unbounded log and the counter is its length; a repeated node is refused, any other selection comes back with the next number |
| `SelectionHistory.History.Latest` | selection_history.go:55-64 | the newest of the log in reverse, at most n and at most ten |
| `SelectionHistory.History.Clear` | selection_history.go:73-78 | empties the history, restarts the numbers and returns how many it held |
| `SelectionHistory.HeldAfterAnyRun` | selection_history.go:33-52 | what is held has consecutive numbers that end at the counter, and no two neighbours of one known node |
| `SelectionHistory.NothingElseRefused` | selection_history.go:39-52 | selections without a repetition since the last clear are all accepted, in order, numbered from 1 |
| `SelectionHistory.RepetitionRefused` | selection_history.go:41-44 | a repetition of a known node adds nothing |
| `SelectionHistory.NewestFirst` | selection_history.go:54-64 | the k-th item returned is the k-th last of the log, and there are min(n, held) |

## Left out

Contracts that state less than the source does:

- PixelMatch.MatchPixel: colours are reals, so floating-point rounding is not modelled, and output images are left out. Where a pixel is far enough apart for the anti-alias test, the images start at column 0 (`LineReader.NoColumnIsRight` says why). Excluded are sub-images whose last row cannot be sliced while all earlier rows agree, on which the source panics.
- UniqueSelection.SelectUniqueExactly: the half that says the selection is wrong is not claimed for lists in which a value holds a comma or semicolon behind its first comma, or the option first swallowed comes again, since there a second accident can mend the first (`MendedByLuck`, `SwallowedButFoundAgain`). Written lists only: white space between items is not part of them.
- OptionParameters.Parameters.Copy: the storage has at least `Size()` bytes, as its comment asks, and none of the pairs look into it; copying into overlapping storage is not modelled.
- Routing.NothingIsSkipped: queues are unbounded (1024 messages in the source), so the loop never waits on a full one.
- Shutdown.NeverStuck: one context whose `Allocate` runs at most once, one call of `shutdownChrome`, and no combined output writer (which adds one to the wait group).
- SelectionHistory.History.Latest: n is not negative; `make` panics on a negative capacity.

Not modelled:

- Aliasing of parsed slices with the input, and the `SelectCopy` flag and `Alloc` of the selector, which change where bytes live and not what they are.
- The order in which `return options, ScanOptions(...)` in `ParseOptions` reads the variable and makes the call that updates it, which the language leaves open: the call is taken first.
- The panic of `ScanOptions` on a fourth control value, which no callback of the package gives.
- Struct assignment of `Parameters`, which shares the spill list, and `Parameters.Equal`, which sorts shared storage.
- Locks in the DOM operations: an event is one atomic step. Inline style and distributed nodes events do not touch the tree. Page and runtime events, the frame map and `enclosingFrame` (whose walk up by id need not end) are out; the answer of `DOM.getDocument` is a parameter.
- JSON, the websocket and error replies: message bodies are opaque, and what the other side sends is arbitrary. Malformed messages and the browser's own events never reach the routing loop.
- In `responseAction`, that the final select may see the caller's context first and return its error although the listener has ended.
- The temporary directory and its removal in `Allocate`.
- The rounding of the float result of `oom`, the fractions of `Commaf` and `FormatFloat`, and the conversion of a float to digits.
- Overflow of the 64-bit counters of commands and selections.
- `RemoteAllocator`, readiness of `DevBrowser` across sessions, the MCP tools, `pool`, `ws`, `win` and the generated tables: input and output, foreign calls, or easy members.
