# The text layer of the robot arm controller, modelled and proved

The controller is configured and commanded through text: an ini file, command lists, marked-up
fields, indented lists, hexadecimal strings, and a message buffer for outgoing data. This project
models that layer (`release/common/static_utils.h`, `release/common/parameters.h`) in Dafny and
proves what it promises.

- `CStrings`, `Trimming`: C strings in a buffer, whitespace, trimming in place.
- `LineSplitting`, `ItemLists`, `ItemLaws`, `Tokens`, `Indentation`: splitting and joining.
- `Substitution`: replacing a key in the string that is being searched.
- `Sections`, `SectionLaws`, `MiddleTags`: sections between nested tags, with and without a middle tag.
- `Fields`, `Markup`: fields of a text, and of marked-up documents.
- `Configuration`, `ConfigurationLaws`, `ConfigurationLayout`, `ConfigurationFiles`,
  `StoredDefinitions`: the configuration file.
- `Quotes`, `Hex`: quotes inside quotes, and the hexadecimal codec (a lower-case form of Base 16,
  section 8 of RFC 4648).
- `OutputMessages`: the bounded message buffer.

Each algorithm is a method with the loops of the source, proved against a function on sequences;
what the source promises is then proved of the functions, for all inputs. Every such function is also
pinned by a contract or a lemma that says what it returns without it.

## How the source is read

- A `char *` is an array with an index. The text it denotes ends at the first NUL; a ghost
  parameter names it. A `string` that is passed by value is a value, and `c_str()` and `strdup` give
  private copies. Texts contain no NUL.
- `isspace` is that of the "C" locale: blank, tab, newline, vertical tab, form feed, carriage return.
- The inner loop of `read_parameters` moves the cursor of the outer one. In the source it runs past
  the end of the list when a block is not closed, which is undefined there; here it stops and
  reports an `overrun`, and `CursorStaysInside` says exactly when that does not happen. The two
  loops are the methods `ReadLines` and `ReadBlock`; between them `ReadRound` is the body of the outer
  loop, and `ReadDefinition` what it does with a line that it does not skip. In the same way `NextLine`
  is the body of the loop of `factor_quotes`. `read_parameters` always returns true.
- `ReadTag` holds the tag tests that both scanners repeat.
- On an empty opening tag, on an empty key of `subst`, and on an empty middle tag beside a nonempty
  closing tag the loops of the source do not advance, so these are excluded. An empty closing tag is
  not: it is read wherever no opening tag stands, each reading lowers the counter, and the scan ends.
- `extract_large_field` searches for a `>` when its opening tag does not end with one. It follows a
  null pointer if there is none, and asks for too small a buffer if the `>` lies behind the closing
  tag. `FieldDefined` says that neither happens. It holds on every text exactly for opening tags that
  end with `>` (`DefinedForWholeTags`), and in the documents in which a tag finds its element (`Finds`).
- `factor_quotes` takes its string by value but writes through it; the model works on the buffer.
- Of a text of several blanks `trim_from_end` and `trim_end` leave the first one (`EndTrimmed`). On a
  text of one blank both look in front of the buffer, and `trim_end` does so on the empty text too;
  these are excluded. `trim` never calls `trim_from_end` with such a text.
- `tabs(d)` writes `d - 1` tabs, because the counter is raised before it is compared.
- `OutputMessage` does not set its expected length and its calculator when it is made: the first is
  the parameter `garbage`, the second is `Unset`, and `AppendData` may use it only when it is set.
- `append_data` compares an unsigned sum. A negative length passes when what is held makes up for it,
  and is then copied as a huge one; that, a chunk that fits but is longer than its data, and data that
  overlap the place they are copied to are excluded.

Some properties one might expect are false of the code. For each the exact condition is proved:

- The two section scanners need not agree, since a middle tag can hide the start of another tag
  (`SectionsAgreeExactly`, `SectionsMayDiffer`).
- A tag does not always give the first element that is asked for. A whole tag fails on elements of its
  name that have attributes; a start such as `<a b` fails on the elements into whose attributes it
  reaches, since no closing tag looks like that, and the empty start `<` fails on all, since it is found
  in closing tags (`ReadsExactly`, `FieldOfStart`). Nor does `<name` tell its elements from those with
  longer names, or with shorter names that attributes complete (`StartsOfNamesExactly`).
- A comment line at top level is a definition unless the reader is told to skip comments, which it is
  not by default (`CommentIgnoredExactly`, `CommentLinesExactly`).
- Whitespace around a colon matters inside a block (`ColonPaddingExactly`).
- Splitting at a delimiter is field splitting only for delimiters that are not whitespace
  (`FieldsNeedVisibleDelimiter`); `ItemsAreVisibleFields` and `TokensAgreeWithItems` say what it is
  for the others.
- Joining and splitting, and replacing in a joined list, lose items or their borders
  (`ItemsOfJoinExactly`, `ItemsRoundTrip`, `WhitespaceRoundTrip`, `WordsRoundTrip`, `ReplacedInJoinExactly`,
  `ItemsOfReplacedJoin`, `BlockCommandsExpand`).
- Not all definitions can be printed and read back (`PrintedFileReadsBack`).

## Model

| member | source | states |
|---|---|---|
| `Sections.MarkSection` | release/common/static_utils.h:966-999 | The counter loop over a buffer finds exactly the section of the text: by the level of the greedy tag stream, and with an empty closing tag the run of opening tags at its start. On failure it reports none. It ends. |
| `Sections.MarkSectionAndMiddle` | release/common/static_utils.h:2404-2444 | The same for the scanner with a middle tag: section and middle are those of the tag stream. |
| `Sections.HasPrefix` | release/common/static_utils.h:977-989 | True exactly if the whole tag stands at the place, in front of the end of the text. |
| `Sections.ReadTag` | release/common/static_utils.h:977-989 | The tests of both scanners in their order: an opening tag if one stands there, else a closing tag, else a middle tag, else a plain character. |
| `Sections.ScanIsSectionOf` | release/common/static_utils.h:966-999 | The loop, as a function of its variables, is the reading of the tag stream by level; with an empty closing tag it is the reading of the opening tags at the start. |
| `Sections.SectionOfRun` | release/common/static_utils.h:966-999 | With an empty closing tag there is a section exactly if the text starts with an opening tag and goes on behind it; it ends behind the run of opening tags, if anything stands there. |
| `SectionLaws.LexSound` | release/common/static_utils.h:977-989 | Every tag of the stream can be read where the stream says, and no tag reaches into the next one. |
| `SectionLaws.LexComplete` | release/common/static_utils.h:977-989 | Every place where a tag can be read lies inside a tag of the stream: the greedy reading misses none. |
| `SectionLaws.LexExactly` | release/common/static_utils.h:977-989 | The stream is the one and only sequence of tags that can be read one behind the other without missing any. |
| `SectionLaws.LevelCounts` | release/common/static_utils.h:977-987 | The depth is the number of opening tags less that of closing tags. |
| `SectionLaws.SectionBegins` | release/common/static_utils.h:993-996 | No section is found exactly if there is no tag but middle tags, the first other tag is a closing one, or nothing follows the first opening tag; otherwise it begins right behind that tag. |
| `SectionLaws.SectionEnds` | release/common/static_utils.h:981-987 | The section ends at the first closing tag that takes the depth back to zero, so its content is balanced; it has no end exactly if the depth never returns. |
| `SectionLaws.SectionMiddle` | release/common/static_utils.h:2428-2432 | The middle is the last middle tag on depth 1 in front of the end, and there is none exactly if no such tag exists. |
| `SectionLaws.SectionDivides` | release/common/static_utils.h:2404-2444 | With an end and a middle, the stretches before and behind the middle tag lie inside the section and are each balanced. |
| `MiddleTags.SectionsAgreeExactly` | release/common/static_utils.h:2404-2444 | The scanner with a middle tag finds the same section as the one without, on every text, if and only if no opening or closing tag can start inside a middle tag that is read. |
| `MiddleTags.LeadCharactersKeepClear` | release/common/static_utils.h:2404-2444 | That condition holds when the characters that the opening and closing tags start with do not occur later in the middle tag. |
| `MiddleTags.SectionsDiffer` | release/common/static_utils.h:2404-2444 | When the condition fails for a tag, a text is built on which the two scanners differ. |
| `MiddleTags.SectionsMayDiffer` | release/common/static_utils.h:2404-2444 | A five-character text on which they differ: the middle tag hides a closing tag. |
| `Fields.ExtractLargeField` | release/common/static_utils.h:1064-1092 | Wherever the source is defined, the result is a text of its own that holds the field: from behind the `>` of the opening tag to the closing tag, or to the end of the text. |
| `Fields.StringExtractField` | release/common/static_utils.h:1095-1102 | The field of a tag whose closing tag is derived from it, on a private copy of the text. |
| `Fields.FieldExactly` | release/common/static_utils.h:1064-1092 | In any text with a section the field goes from behind the first `>` at the end of the opening tag, or behind it, to the end of the section; the source is defined exactly if that `>` stands no later than the end. |
| `Fields.NoSectionNoField` | release/common/static_utils.h:1070 | A text without a section has an empty field. |
| `Fields.NoFieldWithoutEnd` | release/common/static_utils.h:1073-1075 | Without such a `>` the source is not defined. |
| `Fields.DefinedForWholeTags` | release/common/static_utils.h:1073-1077 | The extraction is defined on every text if and only if its opening tag ends with `>`. |
| `Markup.ScanForest` | release/common/static_utils.h:966-999 | Inside a section any document, whatever its attributes, leaves the scan as it was, since it closes every element it opens; outside, it does so if it has no element that is asked for. |
| `Markup.FieldIsFirstElement` | release/common/static_utils.h:1095-1102 | In every rendered document whose tags a query can be read off, the field of a whole tag, or of the start of one, is exactly the rendered children of the first element asked for in preorder, however deeply such elements nest inside it, and empty if there is none; the code stays inside its text. |
| `Markup.FieldOfWholeTag` | release/common/static_utils.h:1095-1102 | So `<name>` gives the first element of that name in every document without attributes. |
| `Markup.ReadsExactly` | release/common/static_utils.h:1095-1102 | A query finds the first element asked for, in all documents with opening tags from a set, if and only if it can be read off each of these: it is not the empty start, and it begins an opening tag exactly when the element is asked for. |
| `Markup.WholeTagReadable` | release/common/static_utils.h:1095-1102 | For a whole tag that means: the tags of its name in the set have no attributes, and no other tag in it reads the same. |
| `Markup.FieldOfStart` | release/common/static_utils.h:1072-1077 | A start gives the content of the first element whose name starts so, from behind the `>` that ends its opening tag, in every document with any attributes, if and only if it is not empty and reaches no whitespace, except behind a `/`, which no name holds. |
| `Markup.StartsOfNamesExactly` | release/common/static_utils.h:1072-1077 | `<name` gives the first element of exactly that name, in all documents with names from a set, if and only if the name is not empty (or the set is), starts no other name of the set, and continues none of them with whitespace. |
| `Configuration.ServerParameters.ReadParameters` | release/common/parameters.h:53-85 | The map becomes the old map with all definitions of the text stored into it in order; the cursor runs past the list exactly when a block is never closed. |
| `Configuration.ServerParameters.ReadLines` | release/common/parameters.h:55-85 | The loop over the lines: the same for a list of lines. |
| `Configuration.ServerParameters.ReadRound` | release/common/parameters.h:56-82 | One round of the outer loop enters the definition at the cursor, if there is one, and goes on behind it; it overruns exactly at a header with no closing line behind it. |
| `Configuration.ReadDefinition` | release/common/parameters.h:58-82 | A line that is not skipped gives the key and value of the definition that starts there and leaves the cursor on its last line, or the cursor runs past the list, exactly when a block is not closed. |
| `Configuration.ReadBlock` | release/common/parameters.h:68-79 | The inner loop stops at the first closing line, with the lines of the block that are no comments joined by `;`, or it runs past the list if there is no such line. |
| `Configuration.SplitDefinition` | release/common/parameters.h:58-63 | A line is cut at its first colon, and both sides are trimmed; a line without a colon is the key, and the term is empty. |
| `ConfigurationLaws.ReadConcat` | release/common/parameters.h:55-85 | Behind lines with all blocks closed, reading starts afresh. |
| `ConfigurationLaws.LastDefinitionWins` | release/common/parameters.h:65-82 | Of several definitions of a key the last one is what the map holds. |
| `ConfigurationLaws.OtherKeysStay` | release/common/parameters.h:65-82 | A key that is not defined keeps its old value, or stays without one. |
| `StoredDefinitions.ColonlessIsStored` | release/common/parameters.h:58-66 | After a file has been read, a line without a colon that stands outside all blocks and is not skipped is mapped to the empty text, unless it is defined again behind it. |
| `StoredDefinitions.PairIsStored` | release/common/parameters.h:58-66 | A line with a colon maps what stands in front of its first colon to what stands behind it, both trimmed. |
| `StoredDefinitions.BlockIsStored` | release/common/parameters.h:67-82 | A block maps its key to its trimmed lines, joined by `;`. |
| `StoredDefinitions.DefinedBetween` | release/common/parameters.h:55-85 | Each of the three adds exactly its definition, between those of the lines before and behind it. |
| `ConfigurationLaws.CursorStaysInside` | release/common/parameters.h:56-79 | The shared cursor stays inside the list if and only if every header reached at top level has a closing line behind it. |
| `ConfigurationLaws.StuckHeader` | release/common/parameters.h:68-72 | When it does not, there is a header reached at top level with no closing line behind it. |
| `ConfigurationLaws.LinesAccounted` | release/common/parameters.h:55-85 | The nested loops read a closed file exactly as one pass over its lines: no line is lost, none is read twice, and the order is kept. |
| `ConfigurationLaws.CommentIgnored` | release/common/parameters.h:58-74 | A comment line changes nothing inside a block, and nothing at top level if comments are skipped there. |
| `ConfigurationLaws.CommentAtTopIsRead` | release/common/parameters.h:58-65 | Otherwise every comment line at top level is read like any other line: when it opens no block, it is a definition of one line between the definitions before and behind it. |
| `ConfigurationLaws.CommentIgnoredExactly` | release/common/parameters.h:58-74 | A comment line changes nothing, whatever follows, if and only if comments are skipped or the reader is inside a block. |
| `ConfigurationLayout.ReadingInPieces` | release/common/parameters.h:53-85 | Reading A followed by B is reading B on top of the map from A, if A ends with a newline and with its blocks closed. |
| `ConfigurationLayout.BlankLinesIgnored` | release/common/parameters.h:53-85 | A blank line anywhere in a file, with or without a newline at its end, changes nothing. |
| `ConfigurationLayout.PaddingIgnored` | release/common/parameters.h:53-85 | Whitespace before and behind any line changes nothing. |
| `ConfigurationLayout.CommentLinesIgnored` | release/common/parameters.h:53-85 | The same as CommentIgnored for the text of any file, with an indented comment. |
| `ConfigurationLayout.CommentLinesExactly` | release/common/parameters.h:53-85 | The same as CommentIgnoredExactly for the text of any file. |
| `ConfigurationLayout.ColonPaddingExactly` | release/common/parameters.h:58-77 | Whitespace around the first colon of a line changes nothing, whatever follows, if and only if the line is outside all blocks, or a comment, or the whitespace stands at an end of the line. |
| `ConfigurationLayout.SpellingsExactly` | release/common/parameters.h:58-77 | So it is for any two lines with the same key and term of which both or neither are comments and none closes a block. |
| `ConfigurationLayout.EveryTextIsFile` | release/common/parameters.h:53 | These speak of all texts: every text is a file of its lines. |
| `ConfigurationFiles.PrintedFileReadsBack` | release/common/parameters.h:53-85 | A sequence of definitions, scalar and block, is read back from its printed text in order, with nothing else, if and only if each of them is printable. |
| `ConfigurationFiles.TextIsPrintable` | release/common/parameters.h:53-85 | Every definition that is read from a text is printable. |
| `ConfigurationFiles.ReadPrintRead` | release/common/parameters.h:53-85 | A file with its blocks closed, read, printed and read again, gives the same definitions; what is printed is a text that the reader takes. |
| `ConfigurationFiles.BlockValueSplits` | release/common/parameters.h:68-82 | Splitting a block value read from a file at `;` gives exactly its lines in order, if and only if none of them contains `;`; this includes the empty block. |
| `ConfigurationFiles.BlockCommandsExpand` | release/build/arm_configuration.h:312-325 | Replacing a variable marker without `;` in a command block of a file and then splitting it gives each command with the marker replaced in it, trimmed, if and only if no command holds a `;`, none holds the marker when the value holds a `;`, and the last is not made of markers alone when the value is blank, or is the only one and something is left of it. |
| `Substitution.Subst` | release/common/static_utils.h:721-741 | Rewriting the string that is being searched gives one left-to-right pass over the original text, whatever the value contains. |
| `Substitution.RoundStep` | release/common/static_utils.h:728-736 | One round keeps that, and the part still to be searched shrinks by at least the length of the key. |
| `Substitution.PiecesExactly` | release/common/static_utils.h:721-741 | The pieces of that pass are the one and only way to cut the text at keys, leftmost first. |
| `Substitution.ReplacedIsJoin` | release/common/static_utils.h:721-741 | The result is those pieces joined with the value. |
| `Substitution.ReplacedLength` | release/common/static_utils.h:721-741 | Its length is that of the text plus the difference of value and key for every replacement. |
| `Substitution.ReplacedInJoin` | release/common/static_utils.h:721-741 | A key without the separator is replaced in every joined item on its own. |
| `Substitution.ReplacedInJoinExactly` | release/common/static_utils.h:721-741 | So it is in all joined lists if and only if the key does not hold the separator, or is replaced by itself. |
| `Substitution.ItemsOfReplacedJoin` | release/common/static_utils.h:2117-2130 | For a key without the separator, replacing in a joined list and splitting it gives each item with the key replaced, trimmed, if and only if no item holds the separator, none holds the key when the value holds the separator, and the last stays visible, or is the only one and does not become empty. |
| `Substitution.ReplacedSurvive` | release/common/static_utils.h:2117-2130 | That is exactly when the items with the key replaced survive being joined and split. |
| `ItemLists.SplitString` | release/common/static_utils.h:745-797 | For a delimiter other than the blank the trimmed text is the two parts around its first delimiter, as they stand, or all in the first part. For the blank the first part is the first word, and the second is what stands behind the whitespace that follows it. |
| `ItemLists.ToItems` | release/common/static_utils.h:2117-2130 | Repeated splitting: the list of trimmed first parts. |
| `ItemLaws.ItemsAreFields` | release/common/static_utils.h:2117-2130 | For a visible delimiter this is: trim, split at every delimiter, trim each field, forget the last field when the trimmed text ends in the delimiter. |
| `ItemLaws.ItemsOfText` | release/common/static_utils.h:2117-2130 | If the trimmed text is a list of texts joined with a visible delimiter, these are the items, trimmed, except for an empty one behind the last delimiter. |
| `ItemLaws.BlankItem` | release/common/static_utils.h:2117-2130 | A text of whitespace alone is one empty item, for every delimiter. |
| `ItemLaws.FieldsNeedVisibleDelimiter` | release/common/static_utils.h:2117-2130 | That description holds for all nonempty texts if and only if the delimiter is no whitespace. |
| `ItemLaws.ItemsAreVisibleFields` | release/common/static_utils.h:2117-2130 | For whitespace other than the blank it is: split at every delimiter, trim each field, drop the blank ones; only a text of whitespace alone gives one empty item instead of none. |
| `ItemLaws.Implode` | release/common/static_utils.h:2511-2526 | Joins what any operation makes of items of any type, with a separator in front or with the first character of that dropped, for every separator. |
| `ItemLaws.ItemsOfJoinExactly` | release/common/static_utils.h:2117-2130 | Items joined with a visible delimiter come back trimmed if and only if none holds it and the last is not blank, or is the only one and not empty. |
| `ItemLaws.ItemsRoundTrip` | release/common/static_utils.h:2117-2130 | Joining with a visible delimiter and splitting gives the items back if and only if they are trimmed and free of it and the last is not empty. |
| `ItemLaws.WhitespaceRoundTrip` | release/common/static_utils.h:2117-2130 | Joining with whitespace other than the blank and splitting gives the items back if and only if they are trimmed, free of it and not empty. |
| `Tokens.Token` | release/common/static_utils.h:1389-1402 | The text is whitespace, the word that is returned, and a rest that is empty or starts with whitespace, at which the pointer is left; no word is returned only when nothing is left. The buffer is as before, despite the NUL written for a moment. |
| `Tokens.TokenOfBlank` | release/common/static_utils.h:1389-1402 | On whitespace alone no word is returned, nothing is left, and there are no words. |
| `Tokens.TokensAgreeWithItems` | release/common/static_utils.h:2117-2130 | Splitting at blanks gives the words that repeated `token` calls return if and only if the text is empty or not blank. |
| `Tokens.WordsRoundTrip` | release/common/static_utils.h:2117-2130 | Joining with blanks and splitting gives the items back if and only if each is a word. |
| `LineSplitting.ExtractLine` | release/common/static_utils.h:117-130 | Takes the first line off a nonempty text; the newline overwritten for a moment is put back. |
| `LineSplitting.EndLine` | release/common/static_utils.h:108-114 | The place behind the first newline, or the end of the text. |
| `LineSplitting.ToNontrimmedLines` | release/common/static_utils.h:1974-1988 | All lines of a page, as they stand. |
| `LineSplitting.ToLines` | release/common/static_utils.h:1918-1932 | All lines, trimmed. |
| `LineSplitting.ToNoEmptyLines` | release/common/static_utils.h:1935-1951 | All lines, trimmed, without the empty ones. |
| `LineSplitting.ClearEmptyLines` | release/common/static_utils.h:2361-2383 | A page whose lines are exactly the nonempty trimmed lines of the original, each of them ended. |
| `LineSplitting.EmptyLine` | release/common/static_utils.h:88-95 | True exactly for a text of whitespace only. |
| `LineSplitting.UnlinesOfLines` | release/common/static_utils.h:1974-1988 | The lines of any page rejoined with newlines give the page, with the final newline exactly if the page has one. |
| `LineSplitting.LinesOfUnlines` | release/common/static_utils.h:1974-1988 | Every list of lines is read back from its page, with or without a final newline. |
| `LineSplitting.ClearedLines` | release/common/static_utils.h:2361-2383 | The same of the specification, and that clearing is idempotent. |
| `Indentation.Tabs` | release/common/static_utils.h:74-85 | One tab less than the argument says, and nothing else. |
| `Indentation.PrintItem` | release/common/static_utils.h:74-85 | A line behind `tabs(depth + 1)` is the printed item of that depth. |
| `Indentation.CountTabs` | release/common/static_utils.h:2162-2173 | The number of tabs in the leading whitespace; other whitespace there does not count. |
| `Indentation.ExtractIndentedLines` | release/common/static_utils.h:2183-2205 | One item for every line that is not empty, in order: the number of tabs it is indented by, and its trimmed text; the buffer is as before. |
| `Indentation.FlatWithoutTabs` | release/common/static_utils.h:2162-2205 | On a page that is indented without tabs every depth is 0. |
| `Indentation.IndentationRoundTrip` | release/common/static_utils.h:2183-2205 | Reading inverts printing with `tabs(depth + 1)` for exactly the item lists whose lines are trimmed and free of newlines, with depths not negative, and no item both empty and at depth 0. |
| `Trimming.TrimFront` | release/common/static_utils.h:370-381 | Shifts the text left over its leading whitespace inside the buffer and returns the place of its last character. |
| `Trimming.TrimFromEnd` | release/common/static_utils.h:358-367 | NULs the whitespace at the end of any text but a single blank, and never goes in front of the buffer; of several blanks the first one stays. |
| `Trimming.Trim` | release/common/static_utils.h:385-390 | The buffer holds the trimmed text, also for empty and blank texts. |
| `Trimming.TrimEnd` | release/common/static_utils.h:342-355 | The same for the end of any text but the empty one and a single blank; it returns the place of the last character that stays, and nothing behind the text changes. |
| `Trimming.EndTrimmedExactly` | release/common/static_utils.h:342-367 | What both leave of a text is its one part without the whitespace at the end that is not empty and, unless it is a single character, ends visibly. |
| `Trimming.TrimmedExactly` | release/common/static_utils.h:385-390 | A text is the trimmed one if and only if it is a middle part without whitespace at its ends between two blank parts. |
| `Trimming.TrimIdempotent` | release/common/static_utils.h:385-390 | Trimming twice is trimming once. |
| `Quotes.LineFactorQuotes` | release/common/static_utils.h:2299-2345 | In the line at the pointer exactly the double quotes strictly between the first and the last become single quotes, everything else stays; the next line, or null at the end of the text, is returned. |
| `Quotes.FactorQuotes` | release/common/static_utils.h:2348-2357 | The loop over all lines does so for every line, leaves the buffer behind the text alone, and ends. |
| `Quotes.FactoredEach` | release/common/static_utils.h:2348-2357 | A character changes exactly if it is a double quote with another one in front of it and another one behind it on its line, and it becomes a single quote. |
| `Quotes.LineFactoredEach` | release/common/static_utils.h:2299-2345 | The same for the line at the pointer. |
| `Quotes.InnerIsBetween` | release/common/static_utils.h:2299-2345 | A place counts as inner exactly if it is strictly between the first and last double quote of its own line. |
| `Quotes.AtMostTwoQuotes` | release/common/static_utils.h:2348-2357 | No line keeps three double quotes. |
| `Quotes.FactoredIdempotent` | release/common/static_utils.h:2348-2357 | Doing it twice is doing it once. |
| `Hex.HexRepresentation` | release/common/static_utils.h:1826-1846 | The two digits of each byte, high half first. |
| `Hex.FromHexRepresentation` | release/common/static_utils.h:1850-1870 | A byte for each pair of characters, and a zero byte behind them. |
| `Hex.EncodedAt` | release/common/static_utils.h:1826-1846 | The two characters of each byte are the digits of its high and its low half, out of `0123456789abcdef`. |
| `Hex.DecodedAt` | release/common/static_utils.h:1850-1870 | Each byte is the value of the first character of its pair, times 16, plus that of the second. |
| `Hex.ValueOfDigit` | release/common/static_utils.h:1774-1795 | A character has the value of the digit it is, in either case, and 0 if it is none. |
| `Hex.CToHex` | release/common/static_utils.h:1815-1823 | Writes two lower-case digits that stand for the byte, high half first, and nothing else. |
| `Hex.DecodeEncode` | release/common/static_utils.h:1826-1870 | Decoding an encoding gives back the bytes. |
| `Hex.EncodeDecode` | release/common/static_utils.h:1826-1870 | Encoding a decoding gives the normalised text. |
| `Hex.NormalisedAt` | release/common/static_utils.h:1774-1795 | Normalising works character by character: lower case for digits, `0` for anything else; an odd last character is dropped. |
| `Hex.EncodingKeepsOrder` | release/common/static_utils.h:1798-1846 | Encoding preserves and reflects the lexicographic order of byte strings. |
| `OutputMessages.OutputMessage.constructor` | release/common/parameters.h:199-212 | A new message holds nothing and its buffer is zero. |
| `OutputMessages.OutputMessage.Copy` | release/common/parameters.h:214-229 | A copy holds the same content, expected length and source, in a buffer of its own whose tail is zero. |
| `OutputMessages.OutputMessage.SetExpectedLengthCalculator` | release/common/parameters.h:262 | Sets the calculator and nothing else. |
| `OutputMessages.OutputMessage.AppendData` | release/common/parameters.h:236-250 | A chunk whose length keeps the message below the bound is added behind what is held; the expected length is then set if nothing was held. Otherwise, and for a negative length, nothing changes. The tail stays zero; it says true either way. |
| `OutputMessages.OutputMessage.ClearData` | release/common/parameters.h:252-255 | Nothing is held and the whole buffer is zero; the expected length stays. |
| `OutputMessages.OutputMessage.Empty` | release/common/parameters.h:257 | True exactly if nothing is held. |
| `OutputMessages.OutputMessage.Length` | release/common/parameters.h:259 | The length of what is held. |
| `OutputMessages.RunsStayBelowTheBound` | release/common/parameters.h:236-255 | Over every run of calls the length stays below MAX_TCP_MESSAGE_SIZE. |
| `OutputMessages.ClearForgets` | release/common/parameters.h:252-255 | What a message holds depends only on the calls since the last clearing. |
| `OutputMessages.HoldsTheKeptChunks` | release/common/parameters.h:236-250 | It holds exactly the chunks that fitted behind those kept before, one after the other. |
| `OutputMessages.RuleDecides` | release/common/parameters.h:236-250 | Which chunks those are is decided by that rule in exactly one way. |
| `OutputMessages.FirstChunkSetsLength` | release/common/parameters.h:240-242 | The expected length is what the calculator says of the first chunk with content. |
| `OutputMessages.EmptyChunkSetsLength` | release/common/parameters.h:238-242 | A chunk without content sets it, too, as long as nothing is held; chunks that are dropped do not. |

## Left out

- File opening and reading, the console echo, and the check of the TCP port in `read_parameters`:
  the text of the file is the input, without a bound on its length.
- Memory management, writing through `c_str()`, and fixed local buffers.
- The fields of `OutputMessage` that these methods only initialise: service type, action, panel,
  priority, time-out and counters.
- Documents with `/>` elements, with comments, or with `<` or `>` inside attributes: they have no
  rendering here. The extraction itself is modelled on every text on which the source is defined.
- Tags to search for that no opening tag starts with: those with a second `<`, with a `/` right behind
  the first, or with text behind a `>`.
- Keys of `subst` that hold the separator, in lists of items: the items have no share of the result
  (`ReplacedInJoinExactly`).
- `pack_spaces`, `extract_xml_attribute`, `token_list`, `token_list_quotes`, `split_string_end`,
  `string_extract_field_with_tags`, `remove_spaces_special`, `extract_time_stamp` and `isfloat`:
  what their code does supports no clean claim.
- Dates of e-mail headers, time functions, and the conversion of months.
- Predicates on single characters and strings (`in_set`, `is_id_char`, `isnumber`), conversion to upper
  and lower case, removing and replacing characters, `mask`, and the helpers for directory and URI paths:
  each is one pass over a text, and nothing is promised across them.
- Cameras, serial lines, TCP connections and the motion of the arm.
