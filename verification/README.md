# Verified models of GNU Midnight Commander

This project models the parts of GNU Midnight Commander in which a loop over characters, a table or a
pipe has to agree with a simple mathematical meaning, and proves that it does. Where the code falls short
of that meaning, the exact condition under which it does not is proved instead.

The models keep the form of the C code: a function that rewrites a buffer in place is a method on an
array, a function that builds a string is a method with a loop, a record that is updated is a class. Each
method is proved against a mathematical function, and the theorems are about these functions.

**Paths** (`PathAlgebra`, `CString`, `CanonicalPath`, `Canonicalize`, `BuildFilename`, `DiffPaths`,
`RealPath`). A path means a stack of components. The passes of `canonicalize_pathname_custom` bring a
NUL-terminated buffer to the normal form of its stack behind a preserved `//server` part. On it rest
`mc_build_filename`, the relative path of `diff_two_paths`, and the resolver of symbolic links in
`mc_realpath`. File system lookups are arbitrary functions.

**Search patterns** (`Escapes`, `Regex`, `PlainSearch`, `Glob`, `ReplaceTemplate`, `Replace`,
`GlobReplace`). `Regex` gives a parser and a language to the regular expressions that the translators
emit. Plain text and shell patterns are shown to be translated to exactly their own language. Replacement
templates are shown to be expanded like a list of items read from left to right.

**Texts and stores** (`Decimal`, `Serialize`, `CsiParams`, `Terminal`, `FilePos`, `History`). Printing
followed by reading is the identity on serialized configurations, terminal control sequences, file
positions and input histories, and the stores are followed over whole runs.

**Background operations** (`Protocol`, `RpcRuns`, `Background`). Children call routines of their parent
over two pipes each. `Protocol` is the byte format, `RpcRuns` the machine of all interleavings, and
`Background` the code that reads, writes and keeps the task list.

**Integers** (`Powers`, `IntProps`, `SizeTrunc`). The overflow tests of `lib/intprops.h`, the bound on the
length of printed numbers, and the rounding in `size_trunc_len`.

`Options`, `Sequences` and `Characters` hold what several of them share.

## Where the code and its intent differ

- `mc_build_filename ("/", "a", "b")` gives `/a/b`. Gluing the three elements with slashes gives `//a/b`, and
  canonicalizing this text takes `//a` for a server. The function gives the canonical form of the glued
  text exactly when gluing does not change the UNC part; what it gives otherwise is stated as well
  (`BuildFilename.MCBuildFilename`, `BuildFilename.BuiltExact`, `BuildFilename.RootFirstFails`).
- Without `CANON_PATH_JOINSLASHES`, removing a leading `./` makes a relative path absolute exactly when
  two slashes follow each other behind the dot, as in `.//a` (`Canonicalize.RemLeadingDot`).
- Behind a URL delimiter a single dot is removed together with a slash of the delimiter: `a://.` becomes `a:/`
  (`Canonicalize.NoSlashDotsUrls`, `Canonicalize.DotAfterUrl`).
- `mc_realpath` counts every name it looks up as a symbolic link: a path of many names fails with the error for
  too many links even if none is a link (`RealPath.RealpathWithoutLinks`).
- `diff_two_paths` from `/` to any local path gives `../…`; behind `/` and another slash this names the
  server `..` (`DiffPaths.DiffIsRight`, `DiffPaths.DiffFromRootFails`).
- The case-insensitive rewriting of a regular expression takes apart escapes that are not in its table: `\A` becomes
  `\[\x41\x61]` (`PlainSearch.EscapeKeptIff`).
- In a shell pattern an escaped special character of regular expressions is escaped twice: `\.` asks for a
  backslash and any character (`Glob.EscapedDot`).
- In a replacement template an unclosed `\{` also takes the two characters behind its digits as they stand
  (`Replace.OpenBrace`).
- The tenth wildcard of a shell replacement stands for a colon (`GlobReplace.TenthIsColon`).
- In a replacement template a case flag also acts on the literal text directly before it: `a\U` gives `A`
  (`Replace.ReplacementIsExpansion`, `Replace.FlagReachesBack`).
- A one-character flag without a lasting one loses all of the text behind the character: `\uabc` gives `A`
  (`Replace.OneCharFlagsLose`).
- Code points from 0x10000 up are not written as UTF-8, section 3 of RFC 3629
  (`ReplaceTemplate.EncodeIsUtf8`).
- A configuration with a group without keys, or without groups, is written as a text that is not read
  back (`Serialize.ConfigRoundTrip`).
- A blank first parameter of a control sequence is dropped, so that `;5` is read as one parameter
  (`CsiParams.KeptIff`), and the overflow tests on parameters miss some overflows
  (`CsiParams.OverflowUnseen`).
- A file position that is not that of a new file is not stored exactly when the file of positions does not
  exist yet (`FilePos.StoredIff`, `FilePos.SaveThenLoad`). The file grows beyond its limit, by one record,
  exactly when a record is added to at least as many others (`FilePos.LimitExceeded`). A negative offset
  comes back as the greatest offset (`FilePos.PositionComesBack`), and an offset alone is not recorded
  (`FilePos.RecordedIff`).
- A request with more than four arguments is only warned of; the fifth is stored behind the array that has
  room for four (`Background.BackgroundAttention`).
- The test for sums of mixed types takes some negative sums for overflows: exactly those of an unsigned operand
  above the upper bound and a negative one, in an unsigned common type, that are not below the lower bound
  (`IntProps.GlRangeOverflowExact`, `IntProps.SumMisjudged`). `lib/intprops-internal.h` allows operands of any
  types; the macros are used by compilers without overflow builtins.
- `size_trunc_len` marks the sizes directly below 2^64 as almost nothing (`SizeTrunc.TopSizes`), and with
  units above 1024^3 it can leave the buffer unwritten (`SizeTrunc.NothingWritten`, `SizeTrunc.NoTextForTera`).

## Model

| member | source | states |
|---|---|---|
| `PathAlgebra.CompsPrint` | lib/utilunix.c:804-813 | the text of a stack of components reads back as this stack |
| `PathAlgebra.NormalFixed` | lib/utilunix.c:804-813 | the normal form keeps what the path names and whether it is absolute, and is its own normal form |
| `PathAlgebra.NormalIff` | lib/utilunix.c:804-813 | two paths have the same normal form if and only if they name the same stack from the same start |
| `CString.StrMove` | lib/strutil.h:614-625 | moving the tail of a string down leaves the head, the tail, a terminator, and everything before the string and behind its old terminator |
| `CanonicalPath.CollapseStep` | lib/utilunix.c:956-993 | taking out `token/../` keeps the meaning and leaves nothing to collapse before the cursor |
| `CanonicalPath.RootStep` | lib/utilunix.c:965-969 | `/../foo` and `/foo` name the same, and the shape the loop relies on stays |
| `CanonicalPath.TrailingStep` | lib/utilunix.c:995-1007 | cutting a trailing `token/..` gives the normal form |
| `CanonicalPath.ReducedNormal` | lib/utilunix.c:900-1046 | a tidy path in which no `/..` can be collapsed is in normal form |
| `Canonicalize.CollapseSlashes` | lib/utilunix.c:835-843 | for every text the components stay, and a doubled slash is left only behind a colon; without a URL none is left |
| `Canonicalize.CollapseDots` | lib/utilunix.c:845-850 | no `/./` is left, no doubled slash appears, and the components stay |
| `Canonicalize.JoinSlashes` | lib/utilunix.c:833-851 | for every text both passes together keep the components, both ends and the number of URL delimiters, and leave no `/./`, and a doubled slash only behind a colon |
| `Canonicalize.JoinedNot` | lib/utilunix.c:833-851 | in a joined text no `/./` is left anywhere, and no doubled slash but behind a colon |
| `Canonicalize.RemTrailingSlashes` | lib/utilunix.c:857-864 | exactly the trailing slashes go, except a lone one and those of a URL delimiter; the components stay |
| `Canonicalize.RemLeadingDot` | lib/utilunix.c:866-876 | a leading `./` goes; the early return is taken if and only if the text is `./`, and the path becomes absolute if and only if it starts with `.//` |
| `Canonicalize.RemTrailingDot` | lib/utilunix.c:878-897 | exactly a trailing `/` or `/.` goes, except at a URL delimiter; the components stay, and the text is tidy if the passes before have run |
| `Canonicalize.RemSlashDots` | lib/utilunix.c:853-898 | the three passes one after the other; they keep the components of every text and leave a joined one tidy |
| `Canonicalize.NoSlashDotsUrls` | lib/utilunix.c:853-898 | they keep every URL delimiter, except for one with only a dot and slashes behind it |
| `Canonicalize.CleanedUrls` | lib/utilunix.c:833-898 | so do the passes for slashes and dots under any flags |
| `Canonicalize.DotAfterUrl` | lib/utilunix.c:885-896 | `a://.` becomes `a:/` |
| `Canonicalize.LookupClass` | lib/utilunix.c:936-941 | cutting the string for the lookup is undone, and the lookup sees the class name |
| `Canonicalize.PrevToken` | lib/utilunix.c:914-954 | the cursor moves back to the start of a token for any answers of the file system |
| `Canonicalize.CollapseInside` | lib/utilunix.c:963-993 | the string gets shorter and the invariant of the loop is kept |
| `Canonicalize.CollapseTail` | lib/utilunix.c:995-1045 | a trailing `/..` finishes the path in normal form, or the string gets shorter |
| `Canonicalize.RemDoubleDots` | lib/utilunix.c:901-1046 | ends on every input, whatever the lookups answer, with the normal form of a tidy path without encodings |
| `Canonicalize.GuardUnc` | lib/utilunix.c:821-828 | finds the length of the `//server` part |
| `CanonicalPath.UncIs` | lib/utilunix.c:821-828 | a UNC part is two slashes, a server name and a third slash behind it, and nothing else |
| `Canonicalize.CanonicalizeLocal` | lib/utilunix.c:830-1046 | with the pass for `..` the normal form, without it the components printed as they are, if all passes run on a text without a URL or the text is tidy; for every text and all flags without the pass for `..` exactly what the chosen passes make of it |
| `Canonicalize.CanonicalizePathname` | lib/utilunix.c:814-1047 | for all flags never longer, with its UNC part kept and nothing written behind the old terminator; behind the UNC part, with all passes the normal form, with all but the one for `..` the components printed as they are, and with any flags without that pass exactly what the chosen passes make of it, whatever URLs the path has |
| `Canonicalize.CanonicalUnc` | lib/utilunix.c:804-828 | canonicalizing makes no UNC part and loses none |
| `Canonicalize.CanonicalIdempotent` | lib/utilunix.c:814-1047 | a second run changes nothing |
| `BuildFilename.AppendNormal` | lib/utilunix.c:1303-1312 | appending the normal form of a relative element names the same as appending the element |
| `BuildFilename.BuiltResult` | lib/utilunix.c:1294-1322 | normalizing the elements first loses nothing if and only if gluing them leaves the UNC part of the first alone |
| `BuildFilename.BuiltExact` | lib/utilunix.c:1294-1322 | canonicalizing what is built gives the UNC part of the first element and the normal form of everything behind it |
| `BuildFilename.GluedRelative` | lib/utilunix.c:1274-1277 | for relative elements the glued path is the elements joined with slashes |
| `BuildFilename.MCBuildFilename` | lib/utilunix.c:1279-1323 | the result is the canonical glued path under exactly that condition, and always the UNC part of the first element and the normal form of the rest |
| `BuildFilename.RootFirstFails` | lib/utilunix.c:1290-1312 | for `/`, `a`, `b` the condition fails: the function gives `/a/b`, the canonical glued path is `//a/b` |
| `DiffPaths.SkipCommon` | lib/util.c:895-916 | the walk over the common part leaves as many pieces as the relative path goes up |
| `DiffPaths.CountPieces` | lib/util.c:917-919 | counts the pieces that are left |
| `DiffPaths.WriteRelative` | lib/util.c:928-932 | fills the buffer exactly, with its terminator |
| `DiffPaths.DiffTwoPaths` | lib/util.c:890-938 | the relative path of the two lists of pieces, or nothing without both paths |
| `DiffPaths.RelLeads` | lib/util.c:870-873 | walking the relative path from the first path arrives at the second |
| `DiffPaths.DiffIsRight` | lib/util.c:870-873 | canonicalizing the first path, a slash and the difference gives the second if and only if their UNC parts agree, where `/` counts as the server `..` |
| `DiffPaths.DiffFromRootFails` | lib/util.c:890-933 | from `/` to a local path it does not |
| `RealPath.SkipEncoding` | lib/utilunix.c:1057-1075 | a leading encoding goes, as the next two rows say |
| `RealPath.EncodingGoes` | lib/utilunix.c:1063-1075 | `#enc:` and any name go up to the slash behind it; in a relative path that slash goes too, unless nothing is left |
| `RealPath.NoEncoding` | lib/utilunix.c:1063-1075 | every other path stays |
| `RealPath.BackUp` | lib/utilunix.c:1148-1150 | moving the cursor back drops exactly the last component |
| `RealPath.CopyComponent` | lib/utilunix.c:1155-1164 | copies exactly one component, or reports that it is too long |
| `RealPath.SkipDots` | lib/utilunix.c:1126-1154 | slashes, `.` and `..` change the directory as the resolver does |
| `RealPath.LinkBase` | lib/utilunix.c:1190-1196 | a link is followed from the root or from its own directory |
| `RealPath.Expand` | lib/utilunix.c:1091-1217 | the loop ends and gives the answer of the recursive resolver with the same counter |
| `RealPath.MCRealpath` | lib/utilunix.c:1051-1218 | the answer is that of the path without its encoding: of the rest behind any encoding, and of the path itself if there is none; long paths are refused |
| `RealPath.PlainFrom` | lib/utilunix.c:1102-1122 | an absolute path is looked up from the root, and a relative one gives what the current directory and the path together give |
| `RealPath.ResolveReal` | lib/utilunix.c:1123-1210 | in a result nothing is a link, `.` or `..`, and its length is bounded by the counter |
| `RealPath.ResolveIdempotent` | lib/utilunix.c:1123-1210 | a result resolves to itself |
| `RealPath.ResolveMonotone` | lib/utilunix.c:1092-1202 | larger limits never change an answer that was not a limit error |
| `RealPath.LinkStandsFor` | lib/utilunix.c:1174-1207 | a link can be replaced by its text, read from the directory the link is in or from the root, without changing the answer |
| `RealPath.ResolveComponent` | lib/utilunix.c:1155-1210 | one component: too many, a link, no link or an error, and the limit on the length of the text that is left |
| `RealPath.RealpathSound` | lib/utilunix.c:1123-1217 | a resolved absolute path has no links, is in normal form, and resolves to itself |
| `RealPath.RealpathWithoutLinks` | lib/utilunix.c:1123-1217 | in a tree without links it is the normal form of the path if the path has at most as many names as links are allowed and one more, and otherwise the error for too many links |
| `Escapes.IsCharEscaped` | lib/strutil.h:579 | true if and only if an odd number of backslashes stands directly before |
| `PlainSearch.NormalTranslateToRegex` | lib/search/normal.c:49-79 | the insertions in place give the text with every special character escaped |
| `PlainSearch.AppendIfSpecial` | lib/search/regex.c:67-132 | finds the special sequence at the cursor and its length |
| `PlainSearch.LetterPiece` | lib/search/regex.c:136-164 | what is written for a letter is a class that the parser reads as exactly its two cases |
| `PlainSearch.HexRoundTrip` | lib/search/regex.c:136-164 | the code names the character |
| `PlainSearch.AccumAppend` | lib/search/regex.c:167-216 | rewrites the collected characters one by one |
| `PlainSearch.CaseInsensitive` | lib/search/regex.c:219-268 | the rewriting loop, with its accumulator, is the recursive rewriting of the pattern |
| `PlainSearch.EscapeKeptIff` | lib/search/regex.c:67-132 | of the letters behind a backslash exactly those of the table are left alone; before every other one the backslash quotes the bracket that is put there |
| `PlainSearch.CodeKept` | lib/search/regex.c:67-132 | a code of two digits is left alone |
| `PlainSearch.BraceCodeKept` | lib/search/regex.c:67-132 | a code in braces is left alone up to its closing brace |
| `PlainSearch.BracketKept` | lib/search/regex.c:236-250 | a bracket expression is left alone up to its first closing bracket that is not escaped |
| `PlainSearch.OthersStay` | lib/search/regex.c:189-211 | a character that is no letter stays, and a NUL is dropped |
| `PlainSearch.CaseFreeEscaped` | lib/search/regex.c:219-268 | in an escaped text no pair is taken for a special sequence, and every character is rewritten on its own |
| `PlainSearch.PlainSearchIsExact` | lib/search/normal.c:49-79 | the expression made for a text accepts exactly the texts that are equal to it up to case |
| `Glob.GlobTranslateToRegex` | lib/search/glob.c:49-118 | the loop emits the specified text for every input |
| `Glob.TranslatedGlob` | lib/search/glob.c:49-118 | what is emitted for every item of a pattern |
| `Glob.GlobDenotes` | lib/search/glob.c:49-118 | the emitted text parses, to this expression |
| `Glob.GlobIsExact` | lib/search/glob.c:49-118 | the emitted expression accepts exactly the language of the pattern, for all patterns of literals, wildcards, escapes and groups |
| `Glob.EscapedDot` | lib/search/glob.c:101-112 | the pattern `\.` is translated to an expression for a backslash and any character |
| `ReplaceTemplate.ReadersAgree` | lib/search/regex.c:963-1033 | the reader with waiting text and the left-to-right reader agree if and only if no flag meets text that it changes; they always write equally much |
| `ReplaceTemplate.EncodeIsUtf8` | lib/search/regex.c:738-767 | the bytes written for a code point are its UTF-8 form if and only if it is below 0x10000 |
| `ReplaceTemplate.CtrlWritten` | lib/search/regex.c:706-737 | `\a`, `\b`, `\t`, `\n`, `\v`, `\f`, `\r` give the characters with the codes from 7 to 13 |
| `ReplaceTemplate.HexWritten` | lib/search/regex.c:690-704 | the hexadecimal code of a character, with and without braces, gives this character |
| `ReplaceTemplate.OctWritten` | lib/search/regex.c:705-707 | so does its octal code |
| `ReplaceTemplate.LongCode` | lib/search/regex.c:690-704 | a code beyond 2^32 loses its upper bits |
| `ReplaceTemplate.FlagWritten` | lib/search/regex.c:588-605 | behind `\U` letters are upper case, behind `\L` lower case, behind `\E` as they are |
| `ReplaceTemplate.ParamColumn` | lib/search/regex.c:529-541 | between `${` and `}` the characters of one column of the code table are taken |
| `Replace.EscapeOfItem` | lib/search/regex.c:438-518 | an escape in its printed form, standing anywhere in a template, is recognized as a whole, with octal and hexadecimal digits to the closing brace |
| `Replace.TokenOfItem` | lib/search/regex.c:522-610 | a printed item that is not escaped is taken for this item: its whole length is skipped, a reference gives its number and a case flag the new flags |
| `Replace.ShortCode` | lib/search/regex.c:478-507 | `\x` with one digit is a code, and with none the x stands for itself |
| `Replace.OpenBrace` | lib/search/regex.c:446-466 | of an octal code that is not closed the text is taken as it stands, and the two characters behind it too |
| `Replace.ProcessAppendStr` | lib/search/regex.c:614-665 | appends a text under the current flags |
| `Replace.AppendMode` | lib/search/regex.c:614-665 | under a lasting mode this is the text in that case |
| `Replace.OneCharFlagsLose` | lib/search/regex.c:614-665 | under any flags the appended text is the intended one if and only if there are no flags, or a lasting one, or at most as many characters as one-character flags |
| `Replace.OneCharToken` | lib/search/regex.c:588-605 | `\u`, `\l` and `\E` are recognized anywhere and set their flags |
| `Replace.OneCharWritten` | lib/search/regex.c:614-665 | `\u` alone gives the next letter in upper case, `\l` in lower case, and nothing after it |
| `Replace.ProcessEscapeSequence` | lib/search/regex.c:669-767 | appends the character that an escape stands for |
| `Replace.GetMaxNumOfReplaceTokens` | lib/search/regex.c:379-419 | finds the largest capture number in the template |
| `Replace.MaxRefOfTemplate` | lib/search/regex.c:379-419 | for a printed list of items this is the largest capture the items refer to |
| `Replace.ScanStep` | lib/search/regex.c:963-1028 | one round of the loop goes forward and keeps the invariant |
| `Replace.PrepareReplaceStr` | lib/search/regex.c:937-1035 | for every template the arity error if and only if it refers to a missing capture, and never the invalid-token exit; for every printed list of items otherwise its expansion |
| `Replace.ReplacementIsExpansion` | lib/search/regex.c:937-1035 | the replacement is the left-to-right expansion if and only if no case flag meets literal text that it changes |
| `Replace.FlagReachesBack` | lib/search/regex.c:963-1033 | the template `a\U` shows that the two differ |
| `GlobReplace.TranslateReplaceGlobToRegex` | lib/search/glob.c:122-164 | the loop emits the specified template for every input |
| `GlobReplace.TemplateOfPattern` | lib/search/glob.c:122-164 | the k-th wildcard of a pattern becomes the reference to capture k |
| `GlobReplace.ExpandSelf` | lib/search/glob.c:122-164 | the captures put back in the place of the wildcards give the subject |
| `GlobReplace.SearchedPattern` | lib/search/glob.c:67-80 | the search side numbers its groups in the same way |
| `GlobReplace.SubjectsAccepted` | lib/search/glob.c:49-118 | the translated pattern accepts a subject if and only if there are captures with which it matches |
| `GlobReplace.SelfRename` | lib/search/glob.c:122-164 | the template passes the arity check and expands to the subject |
| `GlobReplace.GlobPrepareReplaceStr` | lib/search/glob.c:198-208 | a pattern of at most nine wildcards, literals and escaped wildcards used as its own replacement gives back every subject it matches; any other replacement whose template is a printed list of items is expanded like this list |
| `GlobReplace.TenthIsColon` | lib/search/glob.c:122-164 | ten wildcards give the first nine captures and a colon |
| `Decimal.DigitsInjective` | lib/mcconfig/history.c:226 | different numbers are printed differently |
| `Characters.HexDigits` | lib/search/regex.c:690-704 | the values of the hexadecimal digits |
| `Characters.OnlyHexDigits` | lib/search/regex.c:690-704 | no other character is one |
| `Characters.Cases` | lib/search/regex.c:614-665 | the letters in both cases |
| `Characters.OnlyLetters` | lib/search/regex.c:614-665 | no other character has two cases |
| `Decimal.StrToLSigned` | lib/util.c:1038-1046 | a printed number is read back by strtol, whatever follows it |
| `Decimal.StrToLForms` | lib/util.c:1038-1046 | spaces and a sign may stand before a number, and a number beyond the range gives the nearest limit |
| `Serialize.TokenRead` | lib/serialize.c:79-183 | a serialized string is read back whatever follows it, and the reader then stands behind it |
| `Serialize.StrRoundTrip` | lib/serialize.c:79-183 | a string is serialized and read back, and nothing is made of no string |
| `Serialize.StrAnswers` | lib/serialize.c:119-183 | for any text, which of the errors is reported, or that the text behind the first colon is cut to the number before it |
| `Serialize.SerializeConfig` | lib/serialize.c:197-267 | the loops write the text of the configuration |
| `Serialize.DeserializeConfig` | lib/serialize.c:280-347 | the automaton ends on every input with the specified result |
| `Serialize.ConfigRoundTrip` | lib/serialize.c:197-347 | reading what was written gives the configuration if and only if it has a group and every group has a key |
| `Serialize.LastValueCounts` | lib/serialize.c:280-347 | groups and keys in any order and with repetitions are read, and the last value of each key counts |
| `Serialize.ErrorPosition` | lib/serialize.c:270-347 | on any input an error position is one past the offset of a token that cannot be read for that reason, with readable tokens up to it |
| `CsiParams.PrintOfFields` | lib/terminal.c:62-69 | splitting a parameter text and printing the fields gives the text |
| `CsiParams.FieldsOfPrint` | lib/terminal.c:62-69 | splitting printed fields gives the fields |
| `CsiParams.ValueIsNumber` | lib/terminal.c:127-132 | what is kept of a number is its value modulo 2^32 |
| `CsiParams.NumberKept` | lib/terminal.c:127-132 | a number is accepted with its own value if and only if it is below 2^32 |
| `CsiParams.OverflowUnseen` | lib/terminal.c:127-132 | a number beyond 2^32 that passes the overflow tests |
| `CsiParams.KeptIff` | lib/terminal.c:123-140 | printed parameters are kept as they are if and only if the first one has a digit |
| `CsiParams.TableSizes` | lib/terminal.c:113-142 | up to 16 parameters of up to 4 parts are accepted, if and only if their digits pass the overflow tests |
| `CsiParams.PrintedIsRead` | lib/terminal.c:113-142 | up to 16 parameters of up to 4 parts below 2^32 are recovered from their text |
| `Terminal.CommandGrammar` | lib/terminal.c:65-74 | the commands are parameters, intermediate bytes and a final byte |
| `Terminal.ByteClasses` | lib/terminal.c:65-74 | which bytes are parameters, intermediate and final bytes, as in section 5.4 of ECMA-48 |
| `Terminal.StartIff` | lib/terminal.c:62-63 | the texts the parser accepts so far are exactly those that can be continued to a command |
| `Terminal.PrefixFree` | lib/terminal.c:65-74 | no command is the beginning of another |
| `Terminal.FirstInvalid` | lib/terminal.c:60-63 | success if and only if the text starts with a command; on failure the pointer is at the first byte after which no command is possible any more |
| `Terminal.StopIsReach` | lib/terminal.c:60-63 | where the parser stops is determined by the text |
| `Terminal.ParameterByte` | lib/terminal.c:121-142 | one byte keeps the table, the counters and the number in step with the text, or the text is not a parameter list |
| `Terminal.ParseCsi` | lib/terminal.c:75-165 | the parser stops at the end of a command or at the first invalid byte, and fills in mode, count and table of the command; a failure changes neither mode nor count |
| `Terminal.PrintedCommand` | lib/terminal.c:65-165 | a printed parameter list with any intermediate and final bytes is a command and gives back the list |
| `Terminal.StripCtrlCodes` | lib/terminal.c:178-258 | the string is compacted in place to the stripped text, which is never longer, and nothing is written behind it |
| `Terminal.StrippedClean` | lib/terminal.c:169-177 | what is left is printable and has no escape character |
| `Terminal.StrippedSubsequence` | lib/terminal.c:169-177 | what is left is a subsequence of the text |
| `Terminal.StripIdempotent` | lib/terminal.c:178-258 | stripping twice is stripping once |
| `Terminal.CommandGoes` | lib/terminal.c:191-201 | a complete control sequence is removed as a whole |
| `Terminal.OscGoes` | lib/terminal.c:202-240 | so is an operating system command that holds no BEL and no ESC before a backslash and is closed by one of them |
| `Terminal.BrokenGoes` | lib/terminal.c:191-201 | of a control sequence that cannot be completed, exactly what could have been completed is removed |
| `Terminal.OscOpen` | lib/terminal.c:202-241 | of an operating system command that is not closed only the escape and the bracket are removed |
| `Terminal.EscapeGoes` | lib/terminal.c:236-241 | an escape before any other character is removed with this character, and alone at the end |
| `Terminal.TextStays` | lib/terminal.c:243-254 | text without an escape stays, but for what cannot be printed, whatever follows it |
| `FilePos.FilePositions.Save` | lib/util.c:1077-1154 | the new file: the new record, unless there is only an offset to record, and the old lines of other names up to the limit; a missing file is only created |
| `FilePos.FilePositions.Load` | lib/util.c:986-1070 | the values read from the lines that match the name |
| `FilePos.SaveThenLoad` | lib/util.c:986-1154 | on any file, loading after saving gives the values of the call, or those of a new file if the call forgets or there was no file |
| `FilePos.StoredIff` | lib/util.c:1090-1100 | a call that does not forget comes back if and only if there was a file or its values are those of a new file |
| `FilePos.PositionComesBack` | lib/util.c:1112-1126 | on a file that exists, line and column of a call always come back, and offset and bookmarks if line, column or bookmarks are not those of a new file |
| `FilePos.RecordedIff` | lib/util.c:1112-1126 | the new file has a line for the name if and only if line, column or bookmarks are not those of a new file |
| `FilePos.RecordsPrinted` | lib/util.c:1114-1126 | the text of two records |
| `FilePos.ShortLine` | lib/util.c:1029-1051 | a line without a column, or without an offset, or with nothing behind the name |
| `FilePos.OtherNamesStay` | lib/util.c:1128-1138 | what is loaded for another name stays while the other records fit |
| `FilePos.LimitExceeded` | lib/util.c:1128-1138 | more than the limit is kept if and only if a record is added to at least as many others; how many lines the new file has, for every limit |
| `FilePos.RecordMatches` | lib/util.c:1016-1026 | a record belongs to one name only, also if names have spaces or begin alike |
| `FilePos.RecordRead` | lib/util.c:1028-1062 | the record of a call gives back its line, column, first ten bookmarks and an offset that is not negative |
| `FilePos.InForceIsLast` | lib/util.c:1112-1138 | a call is in force if and only if it is the last one for its name and does not forget it, and the calls in force are ordered from the last to the first |
| `FilePos.StoreOverRuns` | lib/util.c:1128-1138 | over any run of saves the file holds the first calls in force: all of them if the names are at most one more than the limit, exactly one more than the limit if there are more names and no call forgets, and otherwise fewer by at most the number of forgetting calls |
| `FilePos.LoadOverRuns` | lib/util.c:986-1154 | after any run a name with a record gives the values of its last call, every other name the values of a new file |
| `FilePos.NothingLost` | lib/util.c:986-1154 | with no more names than fit, every name gives the values of its last call |
| `History.TextList.AppendUnique` | lib/util.c:946-978 | walking backwards removes every earlier entry with the same text |
| `History.AppendedLastOnly` | lib/util.c:940-944 | appending one by one keeps the last occurrence of each text, in order |
| `History.Config.HistorySave` | lib/mcconfig/history.c:190-243 | the group holds the recorded entries under the numbers from 0 on |
| `History.Config.HistoryLoad` | lib/mcconfig/history.c:127-180 | the list that the entries give, and the configuration with missing keys added |
| `History.SaveThenLoad` | lib/mcconfig/history.c:127-243 | loading what was saved gives the last occurrence of each text among the recorded entries, in order, and changes nothing |
| `History.SavedIs` | lib/mcconfig/history.c:190-243 | the texts of the last entries, as many as are to be recorded but at least one, stand under the numbers from 0 on; no other group changes |
| `History.LoadedIs` | lib/mcconfig/history.c:127-180 | any group of n keys is loaded as the texts under the numbers below n, an empty one for a missing key, each text once at its last place |
| `History.AskedAdds` | lib/mcconfig/history.c:160-165 | loading adds the missing keys to the group and changes nothing else |
| `History.DistinctComesBack` | lib/mcconfig/history.c:203-205 | a list without repetition comes back as its last entries |
| `History.SecondRound` | lib/mcconfig/history.c:127-243 | saving and loading a second time changes nothing |
| `Protocol.IntRoundTrip` | src/background.c:413-416 | a number written as four bytes is read back |
| `Protocol.HeaderOnTheWire` | src/background.c:405-422 | the bytes of a pointer and of the three ints of a call |
| `Protocol.ArgumentsOnTheWire` | src/background.c:425-442 | every argument follows its size, also one without bytes |
| `Protocol.ReplyOnTheWire` | src/background.c:336-383 | the bytes of a number and of texts |
| `Protocol.RequestAsks` | src/background.c:225-273 | the parent, fed block by block, asks for exactly the next block and ends with the request that was sent |
| `Protocol.ReplyAsks` | src/background.c:445-485 | the same for the child and its reply |
| `RpcRuns.StepKeeps` | src/background.c:138-170 | every step of every process keeps the invariant |
| `RpcRuns.ServeIsRight` | src/background.c:272-340 | when the parent calls a routine it has decoded the request that was sent and replies to the child that asked |
| `RpcRuns.FinishIsRight` | src/background.c:445-485 | the child gets the answer to its own call, and both its pipes are empty |
| `RpcRuns.RunsAreRight` | src/background.c:138-170 | over any run the calls served and the calls finished agree, in order and with the same answers |
| `RpcRuns.RunsServeRight` | src/background.c:188-393 | the request decoded is the one sent, at every call of every run |
| `RpcRuns.NoDeadlock` | src/background.c:188-393 | while a call is in progress some process can go on |
| `RpcRuns.StepLowers` | src/background.c:188-485 | every step of a call in progress lowers the work that is left |
| `RpcRuns.EveryCallEnds` | src/background.c:188-485 | from any reachable state, without a new call, only finitely many steps are possible, and they come to rest if and only if all calls are finished |
| `RpcRuns.CallIsAnswered` | src/background.c:188-485 | after any run a ready child can call, and there is a run that goes on to its answer, a valid one, with all calls finished |
| `RpcRuns.Lifecycle` | src/background.c:88-170 | when a child can be started, can call and can end |
| `Background.TaskList.Register` | src/background.c:88-103 | a new task is put first in the linked list |
| `Background.TaskList.Destroy` | src/background.c:107-133 | the first task of the process is unlinked, and its descriptor is returned |
| `Background.TaskList.Find` | src/background.c:275-282 | finds the first task with a descriptor |
| `Background.ParentCallHeader` | src/background.c:405-422 | writes the header of a request |
| `Background.SendCall` | src/background.c:425-442 | writes the whole request |
| `Background.ReceiveInt` | src/background.c:445-452 | reads back the number and the context of a reply and nothing more |
| `Background.ReceiveString` | src/background.c:476-485 | reads back the text of a reply and nothing more |
| `Background.ReadArgs` | src/background.c:260-273 | reads the arguments, each after its size; a fifth finds no room when its size has been read |
| `Background.WriteReply` | src/background.c:336-383 | writes the reply |
| `Background.BackgroundAttention` | src/background.c:188-393 | takes exactly the request off its pipe and writes the reply to the pipe of the task with this descriptor and to no other; a warning, and a store behind the array, if and only if the request has more than four arguments |
| `IntProps.RangeOverflowExact` | lib/intprops.h:108-130 | each test is true if and only if the exact result does not fit the type, signed or unsigned, and computes nothing that overflows |
| `IntProps.GlRangeOverflowExact` | lib/intprops-internal.h:305-353 | with operands and bounds of any integer types, signed or unsigned and of any widths, the tests for differences and products are true if and only if the exact result is outside the bounds, and the test for a sum is so if and only if the sum is not misjudged; nothing that is computed is undefined |
| `IntProps.TypesCompare` | lib/intprops-internal.h:312-316 | this covers any two types, of whatever widths and signs |
| `IntProps.WideNotMisjudged` | lib/intprops-internal.h:312-328 | no sum is misjudged if the upper bound is not below the greatest value of a signed operand |
| `IntProps.SumMisjudged` | lib/intprops-internal.h:312-328 | a sum of an unsigned long and a long that is -5 and is taken for an overflow of int |
| `IntProps.WrapvCongruent` | lib/intprops-internal.h:286-303 | the wrapped result is congruent to the exact one modulo 2^w |
| `IntProps.OpCalc` | lib/intprops-internal.h:270-278 | the stored value has the low-order bits of the exact result, and the flag is set if and only if they differ or the sum is misjudged |
| `IntProps.DigitsWithinBound` | lib/intprops.h:49-52 | every number of b bits has at most as many digits as the bound, for every b |
| `IntProps.PrintedWithinBound` | lib/intprops.h:54-64 | so has every number of a type, with its sign |
| `IntProps.BoundReached` | lib/intprops.h:49-51 | up to 2620 bits some number needs all these digits |
| `IntProps.BoundMissed` | lib/intprops.h:49-51 | with 2621 bits none does |
| `SizeTrunc.ScaleStepExact` | lib/util.c:472-482 | one step of the scaling is the exact product rounded down, if and only if that fits |
| `SizeTrunc.ScaleLoss` | lib/util.c:466-482 | what all steps together lose by rounding down |
| `SizeTrunc.SizeTruncLen` | lib/util.c:406-519 | the buffer gets the whole text of the outcome, in at most len characters and never cut, and nothing behind them changes |
| `SizeTrunc.ShownIsClose` | lib/util.c:393-404 | a shown number differs from the quotient of the scaled size by less than 501/1000; the mark `~` stands for less than that if and only if the first rounding does not wrap |
| `SizeTrunc.ShownFromInput` | lib/util.c:393-518 | with SI units, how far a shown number is from the size given, scaling and rounding together |
| `SizeTrunc.TextAlways` | lib/util.c:484-518 | with units up to 1024^3 some text is always written |
| `SizeTrunc.NothingIff` | lib/util.c:484-518 | behind the suffix for bytes, nothing is written if and only if the size is too large for the room even with the last suffix |
| `SizeTrunc.NothingWritten` | lib/util.c:484-518 | the same as a threshold on the given size, computed from the room and the units: nothing is written if and only if the size reaches it and the first rounding does not wrap |
| `SizeTrunc.NoTextForTera` | lib/util.c:484-518 | a size in units of 1024^4 for which nothing is written |
| `SizeTrunc.TextsShown` | lib/util.c:447-453 | the prefixes from kilo to quetta, in the texts of numbers and of the mark `~` |
| `SizeTrunc.Lengths` | lib/util.c:455-464 | no length stands for nine characters, and more than nineteen for nineteen |
| `SizeTrunc.TopSizes` | lib/util.c:513-517 | of the sizes in bytes exactly the last 512, or 500 with SI units, are taken for almost nothing |

## Left out

- Canonicalize.CanonicalizePathname: with the pass for `..`, for paths with `://` or with a component starting with `#enc:`, and for that pass on texts that are not tidy and not made so by the others, only termination, the length, the terminator, the frame and the UNC part are stated, because what remains of such a path depends on the file system classes and encodings that are looked up.
- BuildFilename.MCBuildFilename: elements with a colon, an empty first element, and later elements that have a UNC part of their own, are modelled but only the NULL result is stated for them.
- RealPath.MCRealpath: the buffer `got_path` is not bounded and the current directory is always known; the C code writes a path of any length into PATH_MAX bytes and copies an empty path when there is no current directory. The branch that calls realpath(3) is not part of this model.
- DiffPaths.DiffTwoPaths: `resolve_symlinks` is not part of this model; the resolved paths are parameters.
- Replace.PrepareReplaceStr: templates with an unterminated `\{`, `\x{` or `${`, with a literal backslash that starts none of the escapes, and with the one-shot flags `\u` and `\l` are modelled; their errors and single steps are stated, not the expansion of the whole template. Reads behind the end of a template give a NUL. An empty template is not passed by the caller in lib/search/search.c:330.
- PlainSearch.CaseInsensitive: a truncated `\x` at the end of a pattern is cut at the end of the text, and characters are bytes; conversion between character sets is not part of this model.
- Glob.GlobIsExact: patterns with `|`, brackets, nested or unclosed groups, or a backslash before another character are translated by the modelled loop, but no language is stated for them.
- GlobReplace.GlobPrepareReplaceStr: for more than nine wildcards the subject is not promised; the tenth is shown not to be a reference, the ones behind it are translated by the modelled loop only.
- Regex.Accepts: only the fragment of regular expressions that the translators emit has a meaning; the matcher of GLib or PCRE is not part of this model.
- Serialize.ConfigRoundTrip: GKeyFile is a list of groups with a list of keys; its escapes and its files are left out.
- Terminal.StripCtrlCodes: every character is one byte, as in an 8-bit character set; whether it is printable is a parameter.
- FilePos.FilePositions.Save: a line always fits the read buffer, and writing never fails; a stale backup file is not considered.
- History.Config.HistorySave: no conversion between character sets takes place.
- Background.BackgroundAttention: a message that is not well formed and a transfer of a part of a block are only followed to their error return, and a request with too many arguments to the first store behind the array; signals, forks and the closing of descriptors are left out.
- Protocol.RequestAsks: the context is a block of a fixed, unknown number of bytes, a pointer to a routine is a number of eight bytes, and numbers have their lowest byte first.
- IntProps.GlRangeOverflowExact: the branches that use compiler builtins are left out. Types are told apart by their widths and signs; integer ranks of types with equally many bits do not matter for the values.
- SizeTrunc.SizeTruncLen: `uintmax_t` has 64 bits and the units are not negative; the cached length of the suffix table is its constant value.
- Widgets, the help viewer, learning of keys, skins, setup tables, key maps, argument parsing and user menus are interface code.
- The hook and event registries, the uid and gid caches and file highlighting keep no invariant beyond their own tables.
