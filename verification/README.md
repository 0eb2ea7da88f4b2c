# A model of dwarfdump's support code

dwarfdump prints and checks DWARF debugging data.  Around the readers it has a
layer of support code with state and arithmetic of its own: a string buffer
with a hand-written printf, a configuration file reader with recursive
includes, usage counting with reports, an option scanner, bucket lists of
addresses, per-compiler check counters, a path join.  Two build programs turn
tables into C: one into a grouped switch, one into a dense array.  This project
models that layer in Dafny and proves what it is for.

`dafny verify dfyconfig.toml` checks everything.

## How it is built

Each component has two layers.  Methods and classes take the form of the C
code (arrays written in place, linked buckets, static counters, loops) and are
proved against specification functions.  Lemmas then prove the laws about
those functions, over all inputs and all runs.

| files | component |
|---|---|
| `CText`, `NumberText`, `QSort` | C strings, digits and fields, the library sort |
| `Esb`, `EsbPrintf`, `EsbFormats`, `EsbRejections`, `EsbRuns` | the extensible string buffer, its printers, what formats mean, which are rejected, whole runs |
| `DwConfText`, `DwConfNumbers` | the dwarfdump.conf reader: lines and tokens, which tokens are numbers |
| `DwConfSpec`, `DwConf` | its meaning, its code |
| `DwConfLaws`, `ReadOutcome`, `DwConfSearch` | its laws, when it succeeds, what its search finds |
| `DwConfLines`, `DwConfHandlers`, `DwConfWritten` | what its lines say, and what a written file is read as |
| `DwConfExamples` | files that are read although something is wrong with them |
| `AttrForm`, `AttrFormReport` | attribute/form usage: legality and counting, the reports |
| `GetoptSpec`, `GetoptLaws`, `Getopt` | the option scanner: meaning and round trip, option strings and refusals, code |
| `BucketSpec`, `BucketGroup` | bucket groups: meaning and laws, the linked list |
| `LnameTable`, `OpsTable` | the two table generators |
| `CompilerSpec`, `CompilerLaws`, `CompilerTargets`, `CompilerInfo` | compiler detection and check counters: meaning, laws, which are checked, code |
| `CanonicalAppend` | the path join |

## What the proofs turned up

- A numeric format whose suffix starts with a letter the scan still looks for
  is rejected: `%ux` never prints a number.  `RenderedU` and `RenderedI` give
  the exact condition.
- Each nested read of dwarfdump.conf sets the error count to zero
  (`dd_dwconf.c:298`), so errors on lines before an `includeabi:` do not fail
  the read.  `ErrorsBeforeInclude` states exactly when they are lost,
  `ReadGivesAbi` exactly when a read succeeds, and `ErrorIsLostInFile` shows a
  file.  The too-deep error is never lost, so cyclic includes do fail.
- When the abi is not found and the last read meets the end of the file, the
  search returns FALSE (`dd_dwconf.c:630`), which its caller does not test for;
  the walk then starts at the beginning of the file, with one error counted.
  `MissesExactly` states when.  The search reads 99 characters at a time and
  the walk 999, so the walk may find what the search has missed, and an include
  then clears the error: a read can succeed for an abi that its search did not
  find.  `MissedReadGivesAbi` states exactly when, `MissedIsReadInFile` shows a
  file, and `TerminatedIsMissedInFile` shows that one newline more at its end
  makes the same read fail.
- The check for text counts the newline in front of a line with it, so the
  first line may have 100 characters and every other one 99 (`IsThisTextFile`).
- The handlers step over one character behind the command word, whatever it is,
  so a `#` there begins no comment: `reg:#eax 1` names register 1 (`RegLine`).
- Recording an attribute with form zero makes its combination legal when
  extensions are not suppressed; with nonzero forms legality never changes.
- The end of a base table is recognised by key1 and key3; key2 is not looked
  at (`dd_attr_form.c:202` tests key1 twice).
- The table generator drops every row that starts where the one before it ends.
  For single opcodes that is harmless; a dropped range loses its other opcodes,
  which the completeness check still finds (`ListedButUnused`).
- Deleting a key can empty a bucket in front of a full one, and the scans then
  miss entries.  `DeleteKeepsGapFree` states when, `DeletedInFrontHides` shows a
  run; under the stack discipline it does not happen.
- The option scanner reads every written option back.  Three things cannot be
  written: an empty long name, an argument attached to the letter `-`, and a
  long option whose value is -1, which is also what the end of options is.
- When the compiler table is full, counts for a new producer go to the one
  that was current before.  The report's sort does not move the current index,
  so counts made after a report go to another compiler unless the current one
  was already where the order of the report puts it (`AttributionSurvives`,
  `ReportMovesCurrent`).

## Model

| member | source | states |
|---|---|---|
| `EsbBuffer.Esb.constructor` | src/bin/dwarfdump/dd_esb.c:349-353 | A new buffer is empty, owns nothing and is valid. |
| `EsbBuffer.Esb.Fixed` | src/bin/dwarfdump/dd_esb.c:356-368 | A caller's buffer of buflen > 0 bytes is adopted and only its first byte changes; with buflen 0 nothing is adopted. |
| `EsbBuffer.Esb.Destroy` | src/bin/dwarfdump/dd_esb.c:372-387 | Every buffer goes back to the freshly constructed, empty state. |
| `EsbBuffer.Esb.InitString` | src/bin/dwarfdump/dd_esb.c:109-148 | The first allocation is alloc_size, or min_len + 1 when that is larger; an allocated buffer is not touched. |
| `EsbBuffer.Esb.AllocateMore` | src/bin/dwarfdump/dd_esb.c:154-210 | Growing keeps the contents and the terminator, whether the old buffer was on the heap or the caller's; the result is at least alloc_size and len larger; a rigid buffer stays as it is. |
| `EsbBuffer.Esb.ForceAllocation` | src/bin/dwarfdump/dd_esb.c:216-235 | Afterwards min_len bytes past the used ones are allocated, contents unchanged. |
| `EsbBuffer.Esb.Reserve` | src/bin/dwarfdump/dd_esb.c:241-269 | How many characters an append may take: all of them, or what fits below the terminator of a rigid buffer; room for them and the NUL exists afterwards. |
| `EsbBuffer.Esb.AppendnInternal` | src/bin/dwarfdump/dd_esb.c:241-279 | Appends exactly the first len characters; NUL-termination inside the allocation is kept, and a rigid buffer holds the prefix that fits of everything appended. |
| `EsbBuffer.Esb.Appendn` | src/bin/dwarfdump/dd_esb.c:283-293 | A length beyond the string appends the rejection text and nothing of the string. |
| `EsbBuffer.Esb.Append` | src/bin/dwarfdump/dd_esb.c:298-307 | Appends the string up to its NUL; NULL appends nothing. |
| `EsbBuffer.Esb.GetString` | src/bin/dwarfdump/dd_esb.c:312-322 | The returned buffer is terminated at the used length, which is its strlen when no NUL was appended. |
| `EsbBuffer.Esb.EmptyString` | src/bin/dwarfdump/dd_esb.c:327-337 | The contents become empty; capacity is kept. |
| `EsbBuffer.Esb.StringLen` | src/bin/dwarfdump/dd_esb.c:340-345 | The used byte count is the number of characters held. |
| `EsbRuns.AllocSizeOf` | src/bin/dwarfdump/dd_esb.c:394-400 | The allocation size is as given, but never zero. |
| `EsbRuns.AfterSnoc` | src/bin/dwarfdump/dd_esb.c:298-337 | Running text, defined on whole histories (all text since the last empty), extends by one event as append and empty do. |
| `EsbRuns.Run` | src/bin/dwarfdump/dd_esb.c:109-935 | Every run of operations, the three formatted appends included, with allocation sizes changing on the way and across the switch from a caller's buffer to the heap: used < allocated, string[used] is NUL, and the contents are all text since the last empty, or its prefix that fits a rigid buffer. |
| `NumberText.DigitsInverse` | src/bin/dwarfdump/dd_esb.c:668-702 | Digits read in their base give the number back, are digits of that base and have no needless leading zero. |
| `NumberText.DigitsBound64` | src/bin/dwarfdump/dd_esb.c:668-702 | A 64-bit number has at most 20 digits in base 10 and 16: the 36-byte scratch array is never underrun. |
| `NumberText.DigitCharIs` | src/bin/dwarfdump/dd_esb.c:530-533 | The digits are those of the tables dtable, xtable and Xtable. |
| `NumberText.DigitValueIs` | src/bin/dwarfdump/dd_esb.c:530-533 | No other character is a digit. |
| `NumberText.DigitsCase` | src/bin/dwarfdump/dd_esb.c:657-702 | Letters among the digits of %x are lower case, of %X upper case. |
| `NumberText.FieldLength` | src/bin/dwarfdump/dd_esb.c:703-716 | A field is max(width, natural length) characters long. |
| `NumberText.FieldLayout` | src/bin/dwarfdump/dd_esb.c:703-716 | Padding is zeros behind the sign if the zero flag is set, else blanks in front of it; the digits end the field. |
| `NumberText.ReadFieldInverse` | src/bin/dwarfdump/dd_esb.c:703-716 | Reading any padded field (spaces, sign, zeros, digits; section 7.21.6.1 of ISO/IEC 9899:2011) gives sign and magnitude back. |
| `EsbPrintf.StoreDigits` | src/bin/dwarfdump/dd_esb.c:674-702 | The digit loop, storing right to left, leaves exactly the digits of v ending at the given place, within 20 bytes, and nothing beyond it changes. |
| `EsbPrintf.EmitRepeated` | src/bin/dwarfdump/dd_esb.c:408-434 | Padding in blocks appends exactly n copies of the pad character. |
| `EsbPrintf.EmitPadded` | src/bin/dwarfdump/dd_esb.c:900-930 | Padding, sign and digits append exactly the padded field, for every combination of zero flag, sign and width. |
| `EsbPrintf.MakeDigitsU` | src/bin/dwarfdump/dd_esb.c:657-702 | The 36-byte array yields the digits in the base of the letter. |
| `EsbPrintf.MakeDigitsI` | src/bin/dwarfdump/dd_esb.c:835-899 | Sign and digits of every 64-bit signed number; the most negative number is taken from its literal and never negated. |
| `EsbPrintf.MostNegative` | src/bin/dwarfdump/dd_esb.c:847-860 | The literal text of -2^63 is the sign and the digits of 2^63. |
| `EsbPrintf.ScanPrefix` | src/bin/dwarfdump/dd_esb.c:564-574 | The scan for the percent sign stops at the first one or at the end. |
| `EsbPrintf.ScanLetters` | src/bin/dwarfdump/dd_esb.c:613-636 | The optional l, l, u, d, x, X are stepped over, at most one each in that order. |
| `EsbPrintf.AppendPrintfU` | src/bin/dwarfdump/dd_esb.c:546-721 | For every format and number: what is appended is what TextU says, rejection texts included, and the buffer stays valid. |
| `EsbPrintf.AppendPrintfI` | src/bin/dwarfdump/dd_esb.c:729-935 | The same for signed numbers and TextI. |
| `EsbPrintf.AppendPrintfS` | src/bin/dwarfdump/dd_esb.c:437-525 | The same for strings and TextS. |
| `EsbPrintf.EmitJustified` | src/bin/dwarfdump/dd_esb.c:487-514 | A string shorter than its width is padded with blanks on the side the flag asks for; a longer one is never cut. |
| `EsbFormats.RenderedU` | src/bin/dwarfdump/dd_esb.c:546-721 | printf_u appends prefix + field + suffix for every format pre%[0][width][l][l](u|x|X)suf exactly when the letter does not capture the first character of suf; otherwise it does not. |
| `EsbFormats.RenderedI` | src/bin/dwarfdump/dd_esb.c:729-935 | The same for pre%[+][0][width][l][l]dsuf. |
| `EsbFormats.PrintedUIsReadBack` | src/bin/dwarfdump/dd_esb.c:546-721 | The printed field has length max(width, digits) and parsing it gives v back, for every 64-bit v. |
| `EsbFormats.PrintedIIsReadBack` | src/bin/dwarfdump/dd_esb.c:729-935 | The same for every signed 64-bit v, -2^63 included. |
| `EsbFormats.CapturedSuffixPrintsNoNumber` | src/bin/dwarfdump/dd_esb.c:613-646 | "%ux" prints a rejection text for every number: the suffix x is taken for a second conversion letter. |
| `EsbFormats.RenderedS` | src/bin/dwarfdump/dd_esb.c:437-525 | printf_s appends prefix + field + suffix for pre%[-][width]s suf: the field is max(width, length) long, holds the string on the left if the minus flag is set and else on the right, and is blank otherwise. |
| `EsbFormats.MessagesAreMarked` | src/bin/dwarfdump/dd_esb.c:637-656 | Every rejection text that can follow the letters begins with ES. |
| `EsbFormats.FieldStart` | src/bin/dwarfdump/dd_esb.c:668-715 | No printed number begins with ES: that is how the two are told apart. |
| `EsbRejections.PrintedULayout` | src/bin/dwarfdump/dd_esb.c:640-716 | The field of %u, %x and %X: zeros or blanks in front as the flag says, then digits in the case of the letter. |
| `EsbRejections.PrintedILayout` | src/bin/dwarfdump/dd_esb.c:835-930 | The field of %d: a minus for negative numbers, a plus for others if the flag asks for it, zeros behind it or blanks in front. |
| `EsbRejections.NoPercentIsRejected` | src/bin/dwarfdump/dd_esb.c:564-579 | Without a percent sign the format itself is appended, and a rejection text. |
| `EsbRejections.BarePercentIsRejected` | src/bin/dwarfdump/dd_esb.c:580-588 | A percent sign at the end, or before a blank, has a text of its own. |
| `EsbRejections.FlagsAloneU` | src/bin/dwarfdump/dd_esb.c:589-596 | Flags with nothing behind them; the minus flag leaves its own text for numbers. |
| `EsbRejections.FlagsAloneI` | src/bin/dwarfdump/dd_esb.c:729-835 | The same for signed numbers, where plus comes before 0. |
| `EsbRejections.MinusIsNoFlagU` | src/bin/dwarfdump/dd_esb.c:589-592 | Before a format that is otherwise rendered a minus flag leaves its text in front of the number. |
| `EsbRejections.MinusIsNoFlagI` | src/bin/dwarfdump/dd_esb.c:757-762 | The same for signed numbers. |
| `EsbRejections.WithoutLetter` | src/bin/dwarfdump/dd_esb.c:613-667 | Without a conversion letter an unsigned number is printed in upper case hexadecimal, and a signed one is rejected. |
| `EsbRejections.LetterSIsRejected` | src/bin/dwarfdump/dd_esb.c:637-640 | The letter s is rejected for numbers. |
| `EsbRejections.WrongLetterIsRejected` | src/bin/dwarfdump/dd_esb.c:642-656 | d is rejected for unsigned numbers; u, x and X for signed ones. |
| `EsbRejections.MissingS` | src/bin/dwarfdump/dd_esb.c:437-525 | A string format without its s is rejected. |
| `EsbRejections.WidthOfNumber` | src/bin/dwarfdump/dd_esb.c:597-603 | A width with blanks or a sign: it sticks at the limits of a long, and a negative one becomes a huge size. |
| `DwConfText.LineEndIsFirst` | src/bin/dwarfdump/dd_dwconf.c:583-590 | fgets stops behind the first newline, when the buffer is full or at the end of the file, whichever comes first. |
| `CText.SpaceIs` | src/bin/dwarfdump/dd_dwconf.c:517-548 | White space is what isspace() takes for it in the C locale. |
| `DwConfText.SkipWhiteIsFirst` | src/bin/dwarfdump/dd_dwconf.c:538-548 | Everything skipped is white space; the scan stops at the first character that is not. |
| `DwConfText.TokenEndIsFirst` | src/bin/dwarfdump/dd_dwconf.c:517-533 | A token is the longest run without white space and #. |
| `DwConfText.HitsEndIs` | src/bin/dwarfdump/dd_dwconf.c:580-590 | A read meets the end of the file exactly when fewer characters are left than fit and none of them is a newline. |
| `DwConfText.TerminatedIsReadable` | src/bin/dwarfdump/dd_dwconf.c:1273-1466 | In a file of terminated lines no line is cut behind its command word. |
| `DwConfLaws.ReadableIsNeverStale` | src/bin/dwarfdump/dd_dwconf.c:286-1472 | A file without such a line never makes a handler step past what was read, whichever abi is looked for. |
| `DwConf.BuildString` | src/bin/dwarfdump/dd_dwconf.c:638-651 | A token is copied out exactly, through a 32-byte stack buffer that moves to the heap when the token is long. |
| `DwConf.ScanToken` | src/bin/dwarfdump/dd_dwconf.c:654-681 | The tokenizer returns the token that GetToken describes and the place behind it. |
| `DwConfNumbers.NumeralIsRead` | src/bin/dwarfdump/dd_dwconf.c:822-849 | Every decimal, octal (0...) and hexadecimal (0x...) numeral, signed or not, is read; beyond 2^64 - 1 the value sticks there, behind a minus sign it counts down from 2^64. |
| `DwConfNumbers.OnlyNumeralsAreRead` | src/bin/dwarfdump/dd_dwconf.c:822-849 | No other token is taken for a number: one that is, is the rendering of a numeral. |
| `DwConfNumbers.OtherTailIsRejected` | src/bin/dwarfdump/dd_dwconf.c:834-844 | A numeral with anything behind it that does not belong to it is no number. |
| `DwConfNumbers.DecimalIsRead` | src/bin/dwarfdump/dd_dwconf.c:822-849 | The decimal digits of any 64-bit number are read back as it. |
| `DwConfNumbers.HexadecimalIsRead` | src/bin/dwarfdump/dd_dwconf.c:822-849 | So are its hexadecimal digits behind 0x or 0X. |
| `DwConfNumbers.OctalIsRead` | src/bin/dwarfdump/dd_dwconf.c:822-849 | And its octal digits behind 0. |
| `DwConfNumbers.NegativeIsRead` | src/bin/dwarfdump/dd_dwconf.c:822-849 | -v is read as 2^64 - v. |
| `DwConfText.LookupIsFirst` | src/bin/dwarfdump/dd_dwconf.c:699-722 | The command of a word is the first entry of the table with that name; without one there is none. |
| `DwConf.WhichCommand` | src/bin/dwarfdump/dd_dwconf.c:699-722 | The first command word equal to the token. |
| `DwConf.ScanLine` | src/bin/dwarfdump/dd_dwconf.c:699-1234 | One line is taken apart as its handler takes it; the rows on DwConfHandlers say into what. |
| `DwConfHandlers.RegLine` | src/bin/dwarfdump/dd_dwconf.c:854-900 | reg: NAME NUMBER, with any white space and any more words, says that register NUMBER is NAME and whether there are more words. |
| `DwConfHandlers.RegWords` | src/bin/dwarfdump/dd_dwconf.c:854-900 | The first word is the name, the second one stands for the number. |
| `DwConfHandlers.RegWithoutNumber` | src/bin/dwarfdump/dd_dwconf.c:867-885 | A name alone lacks its number. |
| `DwConfHandlers.NumberLine` | src/bin/dwarfdump/dd_dwconf.c:907-1179 | The command word and NUMBER set the field of that word to NUMBER. |
| `DwConfHandlers.NumberWord` | src/bin/dwarfdump/dd_dwconf.c:907-1179 | The word behind such a command stands for its number, be it one or not. |
| `DwConfHandlers.BareCommand` | src/bin/dwarfdump/dd_dwconf.c:854-1179 | A command with nothing behind it lacks its operands. |
| `DwConfHandlers.WordLine` | src/bin/dwarfdump/dd_dwconf.c:724-773 | beginabi:, endabi:, includeabi: and option: take the word behind them. |
| `DwConfHandlers.UnknownLine` | src/bin/dwarfdump/dd_dwconf.c:699-722 | A line that begins with any other word is unknown text. |
| `DwConfHandlers.BlankLine` | src/bin/dwarfdump/dd_dwconf.c:699-710 | White space alone and comments are ignored. |
| `DwConf.ConfData.AddToRegTable` | src/bin/dwarfdump/dd_dwconf.c:779-817 | Growth by reallocation is one sparse-table update: old entries survive, new ones are NULL, the index written is inside, and the size stays under the table limit. |
| `DwConf.ConfData.SetField` | src/bin/dwarfdump/dd_dwconf.c:907-1179 | One numeric field changes, nothing else does. |
| `DwConf.ConfReader.ParseReg` | src/bin/dwarfdump/dd_dwconf.c:854-900 | A reg: line has the effect Perform gives it, with the error counts of missing, bad and extra operands and exit beyond the limit. |
| `DwConf.ConfReader.ParseNumber` | src/bin/dwarfdump/dd_dwconf.c:907-1179 | The seven numeric commands with duplicate detection, bad operands and limits. |
| `DwConf.ConfReader.ParseEndAbi` | src/bin/dwarfdump/dd_dwconf.c:1182-1202 | endabi: checks its name and that no more registers were named than the table has entries. |
| `DwConf.ConfReader.FindAbiStart` | src/bin/dwarfdump/dd_dwconf.c:573-632 | Finds the first line that begins the wanted abi, reading 99 characters at a time, and sets the option flag on its way; at an unterminated last line a miss is FALSE, which is not FOUND_ERROR. |
| `DwConf.ConfReader.ParseAbi` | src/bin/dwarfdump/dd_dwconf.c:1236-1472 | The loop over lines has exactly the effect Walk describes, or one error when nested too deep. |
| `DwConf.ConfReader.ParseAbiLine` | src/bin/dwarfdump/dd_dwconf.c:1273-1466 | One line continues or ends the walk as WalkLine says. |
| `DwConf.ConfReader.ParseInclude` | src/bin/dwarfdump/dd_dwconf.c:1437-1460 | The nested read starts as if no beginabi: was seen, and what was seen is restored unless the nested read failed. |
| `DwConf.ConfReader.ReadConfigInner` | src/bin/dwarfdump/dd_dwconf.c:286-383 | Result and final state are those of Read, the pure reader, for files with lines of any length, terminated or not, whenever no handler that runs steps past what was read. |
| `DwConf.IsThisTextFile` | src/bin/dwarfdump/dd_dwconf.c:209-260 | Text exactly when the first 512 characters are at least 100, all of them printable, tabs or line ends, and the lines that end in them have at most 99 characters, the first one 100. |
| `DwConf.FindConfFileAndReadConfig` | src/bin/dwarfdump/dd_dwconf.c:286-403 | From a freshly initialised configuration: on success it is the defaults changed by the fully expanded command list; with no file, or one that is not text, every value is its default. |
| `DwConfSpec.Read` | src/bin/dwarfdump/dd_dwconf.c:286-383 | A read that reports an error has counted one, a read that finds its abi has counted none. |
| `DwConfSpec.WalkIsFlat` | src/bin/dwarfdump/dd_dwconf.c:1236-1472 | Include is inlining, for the walk: with no error at the end the configuration is the flat command list applied to the one before. |
| `DwConfSpec.ReadIsFlat` | src/bin/dwarfdump/dd_dwconf.c:286-383 | Include is inlining, for a whole read at any nesting level: the expansion exists and the configuration is its fold. |
| `DwConfSpec.ApplyConcat` | src/bin/dwarfdump/dd_dwconf.c:1437-1460 | Applying a list with an included body in the middle is applying the parts in turn. |
| `DwConfWritten.WrittenAbiIsRead` | src/bin/dwarfdump/dd_dwconf.c:286-1472 | The round trip: an abi written line by line (any registers, each number at most once, options) is read with success exactly when it names no more registers than its table size, and every field, every register and the option flag are then what its lines say, the defaults elsewhere. |
| `DwConfWritten.OneRegisterIsRead` | src/bin/dwarfdump/dd_dwconf.c:779-900 | An abi with one reg: line names that register and no other. |
| `DwConfWritten.OneLineIsJudged` | src/bin/dwarfdump/dd_dwconf.c:835-1179 | A single line at fault (name or number missing, no number, more words, no interface 2 or 3) fails the read, an operand beyond 10000000, 100000000 or 16 ends the program, and anything else is read. |
| `DwConfWritten.NumberTwice` | src/bin/dwarfdump/dd_dwconf.c:1320-1436 | A number given twice fails the read. |
| `DwConfWritten.EndsAgree` | src/bin/dwarfdump/dd_dwconf.c:1182-1316 | The read succeeds exactly when endabi: repeats the name of beginabi: and neither has more words. |
| `DwConfWritten.EndMissing` | src/bin/dwarfdump/dd_dwconf.c:1467-1472 | Without endabi: before the end of the file the read fails. |
| `DwConfWritten.IncludeOne` | src/bin/dwarfdump/dd_dwconf.c:1437-1450 | More than one word behind includeabi: ends the read, which fails. |
| `DwConfWritten.BeginTwice` | src/bin/dwarfdump/dd_dwconf.c:1302-1316 | A beginabi: line within an abi fails the read. |
| `DwConfWritten.ThreeUnknown` | src/bin/dwarfdump/dd_dwconf.c:1283-1297 | The third line of unknown text ends the read, which fails whatever follows. |
| `DwConfLaws.SuccessfulRead` | src/bin/dwarfdump/dd_dwconf.c:286-383 | After a successful read each numeric field holds the last value the expanded list gives it and the register table is a sparse map with last write winning. |
| `DwConfLaws.TableIsSparseMap` | src/bin/dwarfdump/dd_dwconf.c:779-817 | For every command list: entry n is the last name given to n, all others are NULL, and the table reaches past every index written. |
| `DwConfLaws.FieldIsLastValue` | src/bin/dwarfdump/dd_dwconf.c:907-1179 | A numeric field holds the last value given to it. |
| `DwConfLaws.ErrorsBeforeInclude` | src/bin/dwarfdump/dd_dwconf.c:298-298 | Errors counted before a walk are still there at its end exactly when the walk performs no include; a performed include wipes them and nothing else differs. |
| `DwConfLaws.ReadResets` | src/bin/dwarfdump/dd_dwconf.c:298-298 | A read does not depend on the error count it starts with. |
| `ReadOutcome.WalkPasses` | src/bin/dwarfdump/dd_dwconf.c:1236-1472 | A walk ends without errors exactly when it reaches endabi:, every include it performs is read, and every line at fault is followed by a performed include. |
| `ReadOutcome.ReadGivesAbi` | src/bin/dwarfdump/dd_dwconf.c:286-383 | A read returns FOUND_ABI_START exactly when the abi is found, not nested too deep, and its walk passes in this sense, at each level. |
| `DwConfSearch.FindsExactly` | src/bin/dwarfdump/dd_dwconf.c:573-632 | The search finds the abi at a read if and only if that read begins it and no read before begins it or is an option: line with an unknown option. |
| `DwConfSearch.MissesExactly` | src/bin/dwarfdump/dd_dwconf.c:573-632 | The search returns FALSE for an abi, offset 0 standing, if and only if no read begins it, no option is refused and the last read meets the end of the file. |
| `DwConfSearch.NotReadCounts` | src/bin/dwarfdump/dd_dwconf.c:286-383 | An abi that is not found, or nested more than three deep, is not read: the configuration stays and the errors are counted. |
| `DwConfSearch.NoAbiIsDone` | src/bin/dwarfdump/dd_dwconf.c:286-350 | Without an abi to look for the read is done, unless an option is refused, and changes no configuration. |
| `DwConfSearch.SetsOptionExactly` | src/bin/dwarfdump/dd_dwconf.c:594-608 | The search sets the flag of the joined format if and only if it reads an option: line asking for it before it is over. |
| `DwConfSearch.MissedReadGivesAbi` | src/bin/dwarfdump/dd_dwconf.c:286-383 | A read whose search ran out in that way succeeds if and only if it is not nested too deep and the walk from the beginning of the file passes and performs an include. |
| `DwConfExamples.ErrorIsLost` | src/bin/dwarfdump/dd_dwconf.c:298-298 | For all command words and names that fit one read of the search: in a file whose abi has an unknown word before its include, the read of the abi succeeds. |
| `DwConfExamples.ErrorIsLostInFile` | src/bin/dwarfdump/dd_dwconf.c:209-383 | A seven-line file that passes for text, in the program's own words: its second line is an error, and reading x succeeds. |
| `DwConfExamples.MissedIsRead` | src/bin/dwarfdump/dd_dwconf.c:286-632 | Again for all such words and names: a beginabi: line whose name starts where the 99 characters of the first read end is missed by the search and read by the walk; before an unterminated last line the read succeeds. |
| `DwConfExamples.MissedIsReadInFile` | src/bin/dwarfdump/dd_dwconf.c:209-632 | Such a file that passes for text, its first line 100 characters long: the search does not find x, and reading x succeeds. |
| `DwConfExamples.TerminatedIsMissedInFile` | src/bin/dwarfdump/dd_dwconf.c:209-632 | The same file with a newline at its end: reading x fails. |
| `DwConfLaws.ChainIsBounded` | src/bin/dwarfdump/dd_dwconf.c:1249-1255 | An abi that expands has no chain of includes longer than the nesting limit allows. |
| `DwConfLaws.CyclicAbiIsNeverRead` | src/bin/dwarfdump/dd_dwconf.c:1249-1460 | An abi whose includes lead back into a loop never reads successfully, although nested reads reset the error count. |
| `AttrForm.TableEnds` | src/bin/dwarfdump/dd_attr_form.c:201-204 | Every table has exactly one end. |
| `AttrForm.UsageTree.InsertTableEntry` | src/bin/dwarfdump/dd_attr_form.c:167-185 | An entry goes in exactly when its key is new. |
| `AttrForm.UsageTree.InsertTable` | src/bin/dwarfdump/dd_attr_form.c:201-214 | One table, up to its first row with attribute and form zero, after rows already in. |
| `AttrForm.UsageTree.BuildBaseTree` | src/bin/dwarfdump/dd_attr_form.c:188-216 | Building succeeds exactly when no key is repeated in the rows of the two tables before their first rows with attribute and form zero, and the tree is then just those rows. |
| `AttrForm.UsageTree.LegalAttrFormClassCombination` | src/bin/dwarfdump/dd_attr_form.c:300-332 | The search for (attr, class, 0) and the extension flag decide as Legal says. |
| `AttrForm.UsageTree.RecordAttrFormUse` | src/bin/dwarfdump/dd_attr_form.c:362-416 | One call checks legality on the old tree and counts its own key only. |
| `AttrForm.RecordedCounts` | src/bin/dwarfdump/dd_attr_form.c:363-416 | After any run of calls: which keys are in, that origins of table rows are kept, and that each count has grown by the uses of its key. |
| `AttrForm.LegalAfterRecording` | src/bin/dwarfdump/dd_attr_form.c:300-416 | After any run a combination is legal exactly when it was before, or extensions are not suppressed and it was recorded with form zero. |
| `AttrForm.RecordingKeepsLegality` | src/bin/dwarfdump/dd_attr_form.c:300-416 | Recording nonzero forms never changes legality. |
| `AttrForm.LegalInTables` | src/bin/dwarfdump/dd_attr_form.c:300-332 | On the built tree: legal exactly when the key is in the standard table, or in the extension table with extensions not suppressed. |
| `AttrFormReport.ExtractEntries` | src/bin/dwarfdump/dd_attr_form.c:421-435 | A walk in any order lists every entry of the tree once. |
| `AttrFormReport.CompareIsOrder` | src/bin/dwarfdump/dd_attr_form.c:438-513 | All four comparators are total orders. |
| `AttrFormReport.ComparesAs` | src/bin/dwarfdump/dd_attr_form.c:438-513 | The comparators written out: by count downwards, then attribute, form and class upwards; by one key upwards; by attribute and class upwards. |
| `AttrFormReport.SortedListing` | src/bin/dwarfdump/dd_attr_form.c:438-513 | Sorting by any of them keeps a listing a listing. |
| `AttrFormReport.CountBy` | src/bin/dwarfdump/dd_attr_form.c:619-776 | A grouping loop over sorted records prints a line for exactly the values with a count, each with its total, increasing, and sums to the total of all. |
| `AttrFormReport.TotalIsCalls` | src/bin/dwarfdump/dd_attr_form.c:363-480 | Conservation: the selected counts of any listing add up to the calls with a selected key. |
| `AttrFormReport.LinesCountCalls` | src/bin/dwarfdump/dd_attr_form.c:584-776 | So each class, form or attribute used has one line, with the number of its calls. |
| `AttrFormReport.FilteredListsCalls` | src/bin/dwarfdump/dd_attr_form.c:577-609 | The full listing shows each used key once with the number of its calls, the most used first, equal counts by attribute, form and class. |
| `AttrFormReport.PrintAttrFormUsage` | src/bin/dwarfdump/dd_attr_form.c:536-776 | Recording to report: four lists with their sums, exact for any run of calls; when attributes and forms are nonzero every sum is the number of calls. |
| `AttrFormReport.RecordAndReport` | src/bin/dwarfdump/dd_attr_form.c:188-776 | A whole run from the two tables: loading succeeds exactly for distinct keys, each use is found legal exactly when the tables say so, and the report counts every use once in each of its four lists. |
| `AttrFormReport.TagAttrResults` | src/bin/dwarfdump/dd_attr_form.c:873-978 | The totals by table split the number of instances, whether or not lines without a count are skipped. |
| `GetoptLaws.KindIs` | src/bin/dwarfdump/dd_getopt.c:320-345 | A letter is listed where it stands first in the option string; one colon behind it asks for an argument, two leave it to choice, and a colon is no letter. |
| `GetoptLaws.UnlistedIsRefused` | src/bin/dwarfdump/dd_getopt.c:319-330 | An unlisted letter is returned as ?, and the scan goes on in its word. |
| `GetoptLaws.MissingArgument` | src/bin/dwarfdump/dd_getopt.c:345-372 | A required argument that is missing is returned as : if the option string begins with one, else as ?. |
| `GetoptLaws.ScanEnds` | src/bin/dwarfdump/dd_getopt.c:290-316 | What ends the scan with -1: no word, an operand, an unlisted lone -, and --, which alone is stepped over. |
| `GetoptLaws.LongIs` | src/bin/dwarfdump/dd_getopt.c:63-272 | A long option is the first entry with its name; without one, with an argument it does not take, or without one it requires, ? is returned; --name= passes no argument. |
| `GetoptLaws.ShortDashes` | src/bin/dwarfdump/dd_getopt.c:290-330 | dwgetopt alone: -- ends the options, and any other word beginning with it is the letter - and more letters. |
| `GetoptLaws.NoNameMatchesNothing` | src/bin/dwarfdump/dd_getopt.c:95-155 | --=text matches no long option, not even one with an empty name. |
| `GetoptSpec.StepProgress` | src/bin/dwarfdump/dd_getopt.c:158-379 | Every call from a reachable state returns -1 or leaves strictly less to scan, bad letters, missing arguments, a lone - and unknown names included. |
| `GetoptSpec.WrittenStep` | src/bin/dwarfdump/dd_getopt.c:158-379 | One written option is read back by one call; the letter - , where the option string lists it, is written as a lone -. |
| `GetoptSpec.WrittenOptions` | src/bin/dwarfdump/dd_getopt.c:158-379 | A list of written options before any words is read back before scanning goes on with those words. |
| `GetoptSpec.RoundTrip` | src/bin/dwarfdump/dd_getopt.c:95-379 | Rendering any valid options and then operands, and scanning until -1, returns just those options and arguments and stops at the first operand. |
| `GetoptSpec.WrittenNameMatches` | src/bin/dwarfdump/dd_getopt.c:95-151 | A written name matches its own entry with its argument, and no entry with another name. |
| `GetoptSpec.WordDoesNotMatter` | src/bin/dwarfdump/dd_getopt.c:287-379 | Inside a word only what is left of it matters. |
| `GetoptSpec.SplitCluster` | src/bin/dwarfdump/dd_getopt.c:287-379 | -aREST is -a -REST for a letter without argument, whatever REST and the following words are. |
| `GetoptSpec.LettersAreOneByOne` | src/bin/dwarfdump/dd_getopt.c:287-379 | The letters left in a word, none of which takes an argument, are scanned as words of their own, a listed - included. |
| `GetoptSpec.ClusterIsOneByOne` | src/bin/dwarfdump/dd_getopt.c:287-379 | A cluster of letters without argument is those letters one by one (Guideline 5, section 12.2 of the POSIX.1-2017 Base Definitions), unlisted letters and a listed - behind the first letter included. |
| `GetoptSpec.ScanInTwo` | src/bin/dwarfdump/dd_getopt.c:158-379 | Scanning any words with more behind them is scanning the words and then the rest, unless the last letter asks for an argument they lack. |
| `GetoptSpec.ClusterAnywhere` | src/bin/dwarfdump/dd_getopt.c:158-379 | For all words before and after: a cluster may be written letter by letter; returned values are the same, and so is what is left when the cluster is reached as an option. |
| `GetoptSpec.AttachedAnywhere` | src/bin/dwarfdump/dd_getopt.c:158-379 | For all words before and after: an argument may be attached or separate. |
| `GetoptSpec.AskingTakesTheNextWord` | src/bin/dwarfdump/dd_getopt.c:351-376 | The one exception: a word behind a letter that lacks its argument is not scanned but taken as that argument. |
| `GetoptSpec.AttachedIsSeparate` | src/bin/dwarfdump/dd_getopt.c:331-379 | -oARG is -o ARG for a required argument that is not empty (Guidelines 6 and 7). |
| `GetoptSpec.EmptyNameEndsOptions` | src/bin/dwarfdump/dd_getopt.c:181-200 | Why long names must not be empty: such an option is written -- and ends the options. |
| `Getopt.Scanner.Dwgetopt` | src/bin/dwarfdump/dd_getopt.c:287-379 | One call changes place, dwoptind and dwoptarg as ShortStep says and returns its value. |
| `Getopt.Scanner.DwoptNameMatches` | src/bin/dwarfdump/dd_getopt.c:95-151 | Name, =, and the kinds of argument: matched, argument missing or not wanted, or no match. |
| `Getopt.Scanner.DwgetoptLong` | src/bin/dwarfdump/dd_getopt.c:158-271 | One call is one Step, for short and long options. |
| `Getopt.Scanner.FindLetter` | src/bin/dwarfdump/dd_getopt.c:320-345 | The letter is looked up in the option string as strchr does, a colon never. |
| `Getopt.ScanAll` | src/bin/dwarfdump/dd_getopt.c:158-271 | The loop until -1 terminates and returns what Run says. |
| `BucketSpec.AddIsPush` | src/bin/dwarfdump/dd_checkutil.c:245-315 | Adding keeps the shape (full buckets, then at most one partial one, then empty ones) and pushes. |
| `BucketSpec.AddKeepsAll` | src/bin/dwarfdump/dd_checkutil.c:245-315 | Whatever was deleted before, an add puts the entry somewhere, loses none and overfills no bucket. |
| `BucketSpec.DeleteIsPop` | src/bin/dwarfdump/dd_checkutil.c:320-356 | Deleting the newest key keeps the shape and pops. |
| `BucketSpec.DeleteRemovesOne` | src/bin/dwarfdump/dd_checkutil.c:320-356 | Any deletion removes just the entry found. |
| `BucketSpec.DeleteKeepsGapFree` | src/bin/dwarfdump/dd_checkutil.c:320-356 | Deleting keeps empty buckets behind the others exactly when the bucket had another entry or none follows it. |
| `BucketSpec.GapHides` | src/bin/dwarfdump/dd_checkutil.c:364-466 | With an empty bucket before a non-empty one the scans miss entries. |
| `BucketSpec.VisibleIsFlat` | src/bin/dwarfdump/dd_checkutil.c:364-466 | Without one the scans see every entry. |
| `BucketSpec.GroupIsStack` | src/bin/dwarfdump/dd_checkutil.c:146-356 | Every run of adds under new keys, deletions newest first and resets keeps the shape, and the entries in order are those of a stack. |
| `BucketSpec.SearchesAreOfTheStack` | src/bin/dwarfdump/dd_checkutil.c:364-532 | Searching such a group is searching the stack: the entry found is the one with that key, and an address is valid when it is within the limits and between the ends of an entry, both included. |
| `BucketSpec.BinarySearchIsLowerBound` | src/bin/dwarfdump/dd_checkutil.c:393-436 | The binary search finds the first entry not below the key. |
| `BucketSpec.BinaryIsLinear` | src/bin/dwarfdump/dd_checkutil.c:393-466 | Binary and linear search return the same entry for every key, duplicates included, if buckets are sorted and no gap hides entries. |
| `BucketSpec.KeysAreDistinct` | src/bin/dwarfdump/dd_checkutil.c:245-356 | Under the stack discipline no two entries share a key. |
| `BucketSpec.DeletedInFrontHides` | src/bin/dwarfdump/dd_checkutil.c:320-356 | Add a, add b, delete a, one entry to a bucket: b is still there, and no scan finds it. |
| `BucketGroup.Bucket.RemoveEntry` | src/bin/dwarfdump/dd_checkutil.c:340-351 | The entries behind the deleted one move up one place in the array; nothing else changes. |
| `BucketGroup.Bucket.Scan` | src/bin/dwarfdump/dd_checkutil.c:456-464 | The linear search of one bucket. |
| `BucketGroup.Bucket.Bisect` | src/bin/dwarfdump/dd_checkutil.c:411-421 | The binary search loop computes BinarySearch. |
| `BucketGroup.Group.constructor` | src/bin/dwarfdump/dd_checkutil.c:113-124 | A new group has no buckets. |
| `BucketGroup.Group.AddEntryIntoBucketGroup` | src/bin/dwarfdump/dd_checkutil.c:245-315 | The linked list after an add holds Add of what it held, whether an entry goes into the tail, into a bucket left by a reset, or into a new bucket. |
| `BucketGroup.Group.DeleteKeyInBucketGroup` | src/bin/dwarfdump/dd_checkutil.c:320-356 | The list after a deletion holds Delete of what it held; sentinels and limits stay. |
| `BucketGroup.Group.FindKeyInBucketGroup` | src/bin/dwarfdump/dd_checkutil.c:441-466 | Finds what FindKey says. |
| `BucketGroup.Group.FindAddressInBucketGroup` | src/bin/dwarfdump/dd_checkutil.c:364-390 | Finds what FindAddress says. |
| `BucketGroup.Group.IsValidInBucketGroup` | src/bin/dwarfdump/dd_checkutil.c:504-532 | Valid exactly when an entry before the first empty bucket covers the address. |
| `BucketGroup.Group.FindDataInBucketGroup` | src/bin/dwarfdump/dd_checkutil.c:393-436 | A hit sets pFirst once and pLast always. |
| `BucketGroup.Group.ResetSentinelBucketGroup` | src/bin/dwarfdump/dd_checkutil.c:164-175 | No first and no last hit any more. |
| `BucketGroup.Group.FindAll` | src/bin/dwarfdump/dd_checkutil.c:164-436 | After a reset and any searches, misses included, pFirst is the first hit and pLast the last. |
| `BucketGroup.Group.ResetLimits` | src/bin/dwarfdump/dd_checkutil.c:535-545 | Both limits become 0. |
| `BucketGroup.Group.ResetBucketGroup` | src/bin/dwarfdump/dd_checkutil.c:146-160 | All buckets are emptied and stay in the list. |
| `BucketGroup.Group.SetLimits` | src/bin/dwarfdump/dd_checkutil.c:553-565 | The limits are set if they are increasing, else nothing changes. |
| `BucketGroup.RunOnNewGroup` | src/bin/dwarfdump/dd_checkutil.c:113-356 | Whole runs on the linked structure are PerformAll on a new group. |
| `LnameTable.QComparIsOrder` | src/bin/buildDW_LNAME/buildlname.c:117-138 | qcompar is a total order. |
| `LnameTable.PlaceholderStaysFirst` | src/bin/buildDW_LNAME/buildlname.c:207-227 | After the sort the placeholder is still entry 0, bounds being nonnegative and names distinct. |
| `LnameTable.PrintTableEntries` | src/bin/buildDW_LNAME/buildlname.c:167-204 | The stateful grouping loop emits the runs of equal scheme and bound. |
| `LnameTable.EvalIsLookup` | src/bin/buildDW_LNAME/buildlname.c:151-204 | Evaluating the switch at v gives the bound and the scheme of the entry with value v, NULL exactly for an empty scheme, and no entry when v is absent. |
| `LnameTable.LabelsAreNames` | src/bin/buildDW_LNAME/buildlname.c:167-204 | The case labels are the names in order, each once. |
| `LnameTable.OneGroupPerPair` | src/bin/buildDW_LNAME/buildlname.c:117-204 | In sorted entries there is one group for each distinct pair of scheme and bound. |
| `LnameTable.SwitchImplementsTable` | src/bin/buildDW_LNAME/buildlname.c:167-227 | The switch over any sorted rearrangement gives, at each value of the table, the bound and scheme of its entry, and nothing at any other; its labels are distinct and its groups as few as possible. |
| `LnameTable.WriteNewQueryFunction` | src/bin/buildDW_LNAME/buildlname.c:207-227 | Sorting in place and printing yields such a switch for every well-formed table. |
| `LnameTable.ValidateTouchCount` | src/bin/buildDW_LNAME/buildlname.c:34-62 | Accepts a value once, and only with the name the table has at that index. |
| `LnameTable.ValidateFinalTouchCount` | src/bin/buildDW_LNAME/buildlname.c:65-80 | Accepts exactly when every real entry was touched once. |
| `LnameTable.CheckIfLnameComplete` | src/bin/buildDW_LNAME/buildlname.c:343-366 | The definitions are accepted if and only if they are 1 .. tcount - 1 in order, each matching the table in name and value. |
| `OpsTable.FirstCover` | src/bin/buildopstab/buildopscounttab.c:412-491 | The first row that covers an opcode, none before it does. |
| `OpsTable.EntryForIsEntry` | src/bin/buildopstab/buildopscounttab.c:412-491 | What the rows say about an opcode: operand count and stack change of the first row that contains it, -1 and 0 if none does. |
| `OpsTable.KeptIs` | src/bin/buildopstab/buildopscounttab.c:427-430 | A row is dropped exactly when it starts where the row kept before it ends. |
| `OpsTable.EmitRow` | src/bin/buildopstab/buildopscounttab.c:440-486 | One row is emitted exactly when its opcodes have names and, in a range, no alternative spelling. |
| `OpsTable.RowEmitted` | src/bin/buildopstab/buildopscounttab.c:435-486 | Padding and the entries of one more row extend the table by what the rows say. |
| `OpsTable.DroppedSinglesDoNotMatter` | src/bin/buildopstab/buildopscounttab.c:427-430 | If only single opcodes are dropped as repeats, the kept rows say what all rows say about every opcode. |
| `OpsTable.DroppedRangeIsLost` | src/bin/buildopstab/buildopscounttab.c:427-430 | If a range is dropped, an opcode that only it covers has no entry, whatever its row says. |
| `OpsTable.ExpandTable` | src/bin/buildopstab/buildopscounttab.c:412-491 | Expansion succeeds exactly when the kept rows are in order, every opcode named and none in a range with an alternative spelling; then there are 256 entries, and entry p has the operand count and stack change of the first kept row containing p, or -1 and 0. If no range is dropped that is the first row of all. |
| `OpsTable.ValidateOpListed` | src/bin/buildopstab/buildopscounttab.c:202-228 | An opcode of dwarf.h is found exactly when some row contains it, dropped rows included. |
| `OpsTable.ListedComeFromRows` | src/bin/buildopstab/buildopscounttab.c:202-491 | Every opcode that is found gets its entry from a row exactly when what dropped rows cover is covered by kept rows. |
| `OpsTable.DroppedSinglesAreCovered` | src/bin/buildopstab/buildopscounttab.c:202-491 | So it is when only single opcodes are dropped. |
| `OpsTable.ListedButUnused` | src/bin/buildopstab/buildopscounttab.c:202-491 | An accepted table in which opcode 4 is found and emitted as unused. |
| `CompilerInfo.IsStrStrNoCase` | src/bin/dwarfdump/dd_strstrnocase.c:71-106 | True exactly when the contained string starts, in any case, at some character of the container; giving up early is sound. |
| `CompilerSpec.CompareIsOrder` | src/bin/dwarfdump/dd_compiler_info.c:350-371 | The comparator is a total order: most errors first, then names downwards. |
| `CompilerInfo.CompilerTables.constructor` | src/bin/dwarfdump/dd_compiler_info.c:68-84 | The static tables before main. |
| `CompilerInfo.CompilerTables.FindTarget` | src/bin/dwarfdump/dd_compiler_info.c:278-288 | The first targeted compiler whose name is part of the producer. |
| `CompilerInfo.CompilerTables.UpdateTarget` | src/bin/dwarfdump/dd_compiler_info.c:272-296 | The code computes Target; CompilerTargets says what that means. |
| `CompilerTargets.DetectionChecks` | src/bin/dwarfdump/dd_compiler_info.c:272-348 | After any run a detected producer is checked exactly when a recorded name occurs in it in any case; with no name recorded, when no family is picked or it begins as a picked one (SN, GNU). |
| `CompilerTargets.TargetsOfRun` | src/bin/dwarfdump/dd_compiler_info.c:263-547 | Over every run: the targets are the first 99 names recorded, each marked exactly when it was the first of them to occur in some detected producer, and nothing else changes what is checked. |
| `CompilerInfo.CompilerTables.ChooseCurrent` | src/bin/dwarfdump/dd_compiler_info.c:298-328 | A known producer becomes current, a new one is added while there is room, otherwise nothing changes. |
| `CompilerInfo.CompilerTables.UpdateCompilerTarget` | src/bin/dwarfdump/dd_compiler_info.c:263-328 | Both, for the producer name cut to 511 characters. |
| `CompilerInfo.CompilerTables.CountResult` | src/bin/dwarfdump/dd_compiler_info.c:498-527 | A count goes to entry 0 and, if any, the current compiler, in its category and the total; a check marks the compiler verified. |
| `CompilerInfo.CompilerTables.RecordProducer` | src/bin/dwarfdump/dd_compiler_info.c:532-547 | A target is recorded while there is room, and checking all compilers ends. |
| `CompilerInfo.CompilerTables.SortForReport` | src/bin/dwarfdump/dd_compiler_info.c:380-386 | Sorting in place gives the report order; the current index stays. |
| `CompilerInfo.CompilerTables.Perform` | src/bin/dwarfdump/dd_compiler_info.c:263-547 | The arrays after any run of calls are what Run makes of the history. |
| `CompilerLaws.CountingKeepsTotal` | src/bin/dwarfdump/dd_compiler_info.c:498-527 | The total row stays the sum of the others exactly when the count is not made in the total itself, or is of zero. |
| `CompilerLaws.SumRearranged` | src/bin/dwarfdump/dd_compiler_info.c:380-386 | Sums over the compilers do not depend on their order. |
| `CompilerLaws.Conservation` | src/bin/dwarfdump/dd_compiler_info.c:263-527 | Over every run, reports in between included: entry 0 holds all that was counted, which is the sum over the detected compilers plus what came before any was current; every total is the sum of its categories; names are distinct and at most 99. |
| `CompilerLaws.NothingBeforehand` | src/bin/dwarfdump/dd_compiler_info.c:263-328 | Nothing is charged to a producer before it has an entry. |
| `CompilerLaws.SortKeepsCurrent` | src/bin/dwarfdump/dd_compiler_info.c:350-386 | The sort leaves the current compiler at its index if and only if as many compilers as stand before it have more errors, or as many errors and a greater name. |
| `CompilerLaws.CountsAreAttributed` | src/bin/dwarfdump/dd_compiler_info.c:263-527 | As long as every report found the current compiler in its place in this sense, every compiler holds exactly what was counted while its producer was the last detected one with an entry, and is marked verified exactly when checks were among it; the hundredth and later new producers are counted for the one before. |
| `CompilerLaws.AttributionSurvives` | src/bin/dwarfdump/dd_compiler_info.c:373-386 | Attribution survives a report if and only if the current compiler is in its place before it. |
| `CompilerLaws.CountAfterMove` | src/bin/dwarfdump/dd_compiler_info.c:380-527 | If it is not, the next count is charged to the wrong compiler. |
| `CompilerLaws.ReportMovesCurrent` | src/bin/dwarfdump/dd_compiler_info.c:350-386 | With two producers and no errors, the one detected last is out of its place when its name is the greater. |
| `CompilerLaws.ReportIsTheLedger` | src/bin/dwarfdump/dd_compiler_info.c:373-386 | A report lists each detected producer once with what was counted for it, most errors first and equal counts with the greater name first, as long as every earlier report found the current compiler in its place. |
| `CanonicalAppend.SafeStrcpy` | src/bin/dwarfdump/dd_safe_strcpy.c:64-93 | Copies what fits, always terminates, touches nothing else; with no room at all it does nothing. |
| `CanonicalAppend.CanonicalAppend` | src/bin/dwarfdump/dd_canonical_append.c:45-72 | NULL exactly when the strings do not fit with two bytes to spare, the buffer unchanged; otherwise it holds the join, terminated, and nothing behind it changes. |
| `CanonicalAppend.JoinIs` | src/bin/dwarfdump/dd_canonical_append.c:45-72 | The path is the first part without the slashes it ends in, one slash, and the second part without the slashes it begins with. |
| `CanonicalAppend.TrimRightIs` | src/bin/dwarfdump/dd_canonical_append.c:60-62 | What is left without trailing slashes is determined by that. |
| `CanonicalAppend.TrimLeftIs` | src/bin/dwarfdump/dd_canonical_append.c:58-59 | The same for leading slashes. |
| `CanonicalAppend.JoinIsAssociative` | src/bin/dwarfdump/dd_canonical_append.c:45-72 | Joining is associative for all strings, empty and all-slash ones included. |
| `CanonicalAppend.JoinMakesNoDoubleSlash` | src/bin/dwarfdump/dd_canonical_append.c:37-44 | The path holds a double slash exactly when a part keeps one after trimming. |
| `CanonicalAppend.JoinLeft` | src/bin/dwarfdump/dd_canonical_append.c:45-72 | (a, b) then c through buffers holds the join of a with (b, c), and fits when the lengths do. |
| `CanonicalAppend.JoinRight` | src/bin/dwarfdump/dd_canonical_append.c:45-72 | a with (b, c) through buffers holds the same path. |

## Left out

- Printing, column layout, percentages and the float total: reports are lists of keys and counts, with integer sums.
- Failing allocation and sizes near the limit of size_t: allocation succeeds, and lengths, counts and counters are unbounded integers (only the printed numbers are 64 bits wide).
- File access, environment, Windows paths, argv[0] and the search for the configuration file: text, words and tables are passed in, and whether the file opens is a parameter.
- exit() and its messages: a result or an `exited` flag says that the program gives up.
- The search tree of dd_tsearchbal.c: the usage tree is a map, and a walk visits its keys in some order.
- qsort: an insertion sort stands for it, and only that it sorts is used, so equal elements may come in any order.
- makename and do_uri_translation: names are values.
- The static alloc_size of dd_esb.c is passed to each operation; rejection texts are passed as a record.
- esb_constructor_rigid is declared but not defined in dd_esb.c; the rigid flag is modelled, and Run covers buffers that have it set.
- esb_get_copy, the null device, and the numbers of widths beyond strtol's range other than as saturated.
- ConfReader: what happens once parse_abi has read a line that is cut short directly behind its command word, by the end of the file, a full buffer or a NUL: the handler then steps over the terminating NUL and reads what else is in the buffer.  The reader's methods require that this does not happen on the way (`Stale`); other lines like that in the file do not matter.
- ConfReader: of a line number only whether it is set is kept; error texts are not produced.
- ParseOption: of `option:` only the one flag exists.
- IsStrStrNoCase: case is folded for ASCII letters, as in the C locale; strcmp compares by character code.
- RunOnNewGroup: kinds, names and the print functions of buckets are not modelled, nor IsValidInLinkonce and the name search.
- UpdateCompilerTarget: the lists of compilation unit names, and clean_up_compilers_detected, which leaves the current index behind the emptied table.
- ExpandTable: the generator's duplicate counting (validate_name) is an input, the set of opcodes with an alternative spelling; a table without its terminator, or with a range running downwards, is outside the claim.
- CheckIfLnameComplete: reading dwarf.h line by line; the definitions are given as names and values.
- EmptyNameEndsOptions: messages of the option scanner (dwopterr) and dwoptreset are not modelled.
- dd_command_options.c, dd_glflags.c, dd_elf_naming.c and the other table files: one-branch assignments and data.
- The libdwarf readers themselves.
