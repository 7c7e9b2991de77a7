# A verified model of cgrates configuration reading and agent protocols

This project models parts of cgrates, a charging system for telecoms, in Dafny 4.11 and
proves what they do.  `dafny verify dfyconfig.toml` checks all of it.

| files | what they model |
|---|---|
| `RjLexical`, `RjReader`, `RjComments`, `RjStream`, `RjEnv`, `RjReference`, `RjLayout`, `RjLaws`, `RjErrorLine` | the relaxed-JSON reader of the configuration files, and the place it reports for a decoding error |
| `DiamTree`, `DiamBuilder`, `DiamMessage`, `DiamSelector` | building Diameter messages along dotted paths, and selecting a pair by filters |
| `Templates` | inflation of template fields |
| `ObjectPath` | the path cache of the object data provider |
| `RsrRules`, `Strings` | rule lists with back-quoted sections |
| `DnsAnswer`, `EnumName` | DNS answers from flat value lists, and ENUM names |
| `DiamLimiter` | the Diameter request handlers with their limiter, as interleaved steps |
| `AsteriskChannels` | the Asterisk channel handlers over the shared event cache, as interleaved steps |
| `ConfigSanity` | the connection checks of the configuration validator |

## How the parts fit together

**Reader.** What the reader delivers next depends only on the unread bytes and on the
in-string flag.  The class `RjReader.Reader` keeps the buffer, the index and the flag of the
source; its methods are verified against functions of buffer positions, and
`SkipFromIsSkip` carries that over to functions of the unread text.  From there the laws are
about text: any chunking delivers the same stream (`ChunkIndependence`), the stream is a
lexing pass followed by a comma-dropping pass (`StripIsTwoPass`), splicing environment values
into the buffer while reading is the same as substituting them first wherever the first byte
of a value needs no lexing (`EnvironmentSplicing`),
layout can be inserted anywhere (`LayoutInsensitive`), and a second reading changes nothing
exactly under the stated condition (`SecondReading`).  `RjLaws` writes the stream out by
equations, one for each way in which a text can begin, with every character spelled.
Bytes are characters below 256.

**Where the code departs from what one would expect.**  The model follows the code.

- An empty block comment is closed correctly behind a comma only.  `OffsetsAgree` says for
  which comments the two closing rules agree, `CommentsCloseCorrectly` for exactly which texts
  the reader closes every comment where it should, `EmptyCommentSwallowsText` gives a text on
  which it does not.
- The first byte of an environment value is delivered unlexed, and a reference inside a value
  is resolved in its turn.  `FirstByteExactly` says which single bytes are safe in every text,
  and `SpaceShows`, `CommaShows`, `QuoteShows`, `QuoteInStringShows` and `TailReferenceShows`
  what is delivered instead.
- A read into an empty slice reports one byte: the first clause of `Reader.Read`.
- The error position counts a comma that is dropped although a comment follows it:
  `HandleJsonError` states the exact sum, and the exact condition under which a carriage
  return makes the report crash.
- A pair can be overwritten by a whole branch.  `ReadBack` is an equivalence with the exact
  condition, `MisplacingMessage` a message that meets it, `TypedNeverMisplaces` excludes it
  for messages that follow the dictionary.
- The inflation loop need not come to an end.  `StopsExactly` and `StopsWithoutCycle` say when
  it does: a list that reaches no faulty field is inflated if and only if no template it
  reaches contains itself, directly or through others.
- With a prefix, whole paths and the steps of a walk share one set of keys.  `PrefixedExactly`
  says for which sets of paths all answers are right, `ClashIsPrefixAgain` that only a path
  along the prefix's own text can clash, and `PrefixMixesKeys` that for every prefix with the
  text of a well-formed path there is one that does.
- A rule list loses an empty last rule behind a quoted one, and a rule with two quoted sections
  is never split right: `RuleListRoundTrip`, `TwoSections`.
- The limiter compares for equality.  `LimitHolds` says exactly which reloads keep the limit,
  `LoweredLimitAdmitsAll` that after any other reload nothing is refused.  A request whose
  Session-Id is unreadable while an ASR template is set is answered twice: `Accounting`, and
  the run of `TwoAnswers`.
- Two notices of a channel's end share one event.  A terminate or CDR call sends the usage of
  whichever closed it last, which `CallsSendLastClosing` compares with the caller's own;
  `OvertakenRun` is a run in which they differ.

**Parameters of the model.** The environment, the Diameter dictionary and the encoding of
values, the verdicts of filters, the compilation of rules, the outcomes of remote calls and of
request processors, and all time stamps are inputs.

## Model

| member | source | states |
|---|---|---|
| `RjReader.SkipFromIsSkip` | config/rjreader.go:137-233 | moving the index over whitespace and comments is skipping them in the unread text, for every close offset |
| `RjReader.SkipFromStays` | config/rjreader.go:211-233 | where the look-ahead stops, the next read stops at once |
| `RjReader.NextByteByPosition` | config/rjreader.go:107-126 | the next byte outside a string, as a function of the unread text, with the comma rule |
| `RjReader.AfterSplice` | config/rjreader.go:255-267 | after splicing a value the index stands behind its first byte, and its tail and the text behind the reference remain unread |
| `RjReader.Reader.ConsumeComment` | config/rjreader.go:142-166 | a line comment ends behind its newline and reports the end of the file exactly when it has none; a block comment ends behind the first star-slash whose slash is three or more bytes on |
| `RjReader.Reader.ReadFirstNonWhiteSpace` | config/rjreader.go:169-178 | the first byte that is not whitespace, or end of file when there is none |
| `RjReader.Reader.ReadByteWC` | config/rjreader.go:181-208 | the next byte, with comments skipped outside strings and quotes toggling the flag |
| `RjReader.Reader.PeekByteWC` | config/rjreader.go:211-233 | the index moves to the next significant byte, which is returned and not consumed |
| `RjReader.Reader.ReadByte` | config/rjreader.go:107-126 | byte, remaining text and flag are those of the pure text function; a comma before a closing bracket or the end vanishes |
| `RjReader.Reader.ReadEnvName` | config/rjreader.go:242-252 | the longest run of letters, digits and underscores |
| `RjReader.Reader.ReplaceEnv` | config/rjreader.go:255-267 | the reference is replaced by its value, or the buffer is untouched and the missing name reported |
| `RjReader.Reader.ReadExpanded` | config/rjreader.go:85-94 | one byte of the loop in Read, references included |
| `RjReader.Reader.Read` | config/rjreader.go:83-98 | the delivered bytes, their number and the error are those of as many pure steps as the slice is long; an empty slice is reported as one byte |
| `RjStream.RunSplit` | config/rjreader.go:83-98 | reading m + n bytes is reading m and then n |
| `RjStream.ChunkIndependence` | config/rjreader.go:83-98 | any sequence of reads delivers what one read of the total size delivers, for every text and environment |
| `RjStream.StripIsTwoPass` | config/rjreader.go:107-233 | the stream is the tokens outside layout and comments, quoted text verbatim, without the commas before a closing bracket or the end, with the same error |
| `RjLaws.LayoutVanishes` | config/rjreader.go:141-233 | blanks, tabs, line feeds, carriage returns, zero bytes, line comments up to either newline and block comments with a body vanish, in any number |
| `RjLaws.CommaVanishes` | config/rjreader.go:107-126 | a comma before `]` or `}` vanishes, whatever layout stands between them |
| `RjLaws.LastCommaVanishes` | config/rjreader.go:107-126 | so does a comma with nothing but layout behind it |
| `RjLaws.CommaIsKept` | config/rjreader.go:107-126 | before any other byte the comma is delivered and only the layout vanishes |
| `RjLaws.StringIsKept` | config/rjreader.go:190-194 | a string is delivered as it is, quotes included, and what follows it is read as any text |
| `RjLaws.LastStringIsKept` | config/rjreader.go:190-194 | a string without an end is delivered to the end of the text |
| `RjLaws.ByteIsKept` | config/rjreader.go:181-208 | any other byte that starts no comment is delivered |
| `RjLaws.LastLineVanishes` | config/rjreader.go:143-152 | a line comment that ends with the text vanishes |
| `RjLaws.UnclosedBlock` | config/rjreader.go:153-164 | a block comment without a close, apart from one right behind its opening, is reported as incomplete |
| `RjLaws.BlockRunsOn` | config/rjreader.go:153-164 | outside the look-ahead a block comment runs on over a close right behind its opening |
| `RjStream.CommaCase` | config/rjreader.go:115-124 | the look-ahead behind a comma sees the next token |
| `RjStream.OffsetsAgree` | config/rjreader.go:153-163 | the two ways to look for the end of a block comment agree exactly when the comment is not empty |
| `RjStream.CommentsCloseCorrectly` | config/rjreader.go:141-233 | every block comment the reader meets ends at the first star-slash behind its opening if and only if empty block comments follow commas only |
| `RjStream.CorrectCommentsLex` | config/rjreader.go:141-233 | then the tokens are those of a reader that always looks for the first star-slash |
| `RjStream.EmptyCommentSwallowsText` | config/rjreader.go:153-163 | a text whose empty comment is run over |
| `RjEnv.EnvironmentSplicing` | config/rjreader.go:83-98 | for every number of bytes, splicing while reading delivers a prefix of the stream of the substituted text, with the same error, and stops short only at a reference without value; the first byte of a value must need no lexing where it stands, its tail may hold anything but a reference that has a value |
| `RjEnv.PlainEnvironmentFits` | config/rjreader.go:254-267 | values whose first byte is no quote, slash, comma, closing bracket or whitespace, and whose tail has no star, fit every text |
| `RjEnv.SkipExpand` | config/rjreader.go:180-233 | skipping layout and substituting references commute |
| `RjEnv.SpliceStep` | config/rjreader.go:255-267 | behind the first byte of a value its tail and the text behind the reference are substituted as one text, strings and comments running on |
| `RjEnv.PlainDelivery` | config/rjreader.go:83-98 | without references a read of n bytes delivers the first n bytes of one fixed stream and fails exactly when it is shorter |
| `RjReference.ReferenceIsRead` | config/rjreader.go:83-98 | reading `*env:` and a name of letters, digits and underscores delivers the first byte of the value and leaves its tail and the text behind unread, or reports the name when it is unset or empty |
| `RjReference.StarIsRead` | config/rjreader.go:235-239 | a star with anything else behind it is an ordinary byte |
| `RjReference.ReferenceIsSubstituted` | config/rjreader.go:254-267 | substitution puts an alphanumeric value in the place of the reference |
| `RjEnv.FirstByteExactly` | config/rjreader.go:86-91 | a value of one byte is delivered as substitution would deliver it, in every text, if and only if the byte is no quote, slash, comma, closing bracket or whitespace |
| `RjEnv.SpaceShows` | config/rjreader.go:86-91 | whitespace at the front of a value is delivered, which no text does outside strings |
| `RjEnv.CommaShows` | config/rjreader.go:115-124 | a comma in front of a value that starts with a closing bracket is not dropped |
| `RjEnv.QuoteInStringShows` | config/rjreader.go:86-91 | a quote at the front of a value does not close the string |
| `RjEnv.TailReferenceShows` | config/rjreader.go:83-98 | a reference in the tail of a value is resolved in its turn |
| `RjLayout.LayoutIsSkipped` | config/rjreader.go:141-233 | whitespace, closed line comments and closed non-empty block comments are skipped on both paths, whatever follows |
| `RjLayout.LayoutInsensitive` | config/rjreader.go:107-233 | layout inserted at any point outside strings and comments and not behind a bare slash leaves the stream unchanged |
| `RjLayout.Relex` | config/rjreader.go:180-208 | delivered bytes that nothing glues into a comment lex back into the same tokens |
| `RjLayout.DropLeavesTrailing` | config/rjreader.go:115-124 | a trailing comma is left exactly where two commas stood before a bracket or the end |
| `RjLayout.SecondReading` | config/rjreader.go:107-233 | reading the output again changes nothing if and only if there is no doubled trailing comma and no pair of bytes that opens a comment once layout is gone |
| `RjErrorLine.Locator.ReadString` | config/rjreader.go:301-320 | string bytes are counted and tracked until the closing quote, the offset or the end |
| `RjErrorLine.Locator.ReadLineComment` | config/rjreader.go:321-336 | ends behind the newline, line and column kept |
| `RjErrorLine.Locator.ReadComment` | config/rjreader.go:338-368 | ends behind the first star-slash, line and column kept |
| `RjErrorLine.Locator.PassSlash` | config/rjreader.go:394-420 | a comment is passed uncounted, a bare slash counted |
| `RjErrorLine.Locator.FindOffset` | config/rjreader.go:296-423 | terminates; line and column are those of the position reached; the count is the bytes delivered plus the commented dropped commas, and reaches the offset or the end |
| `RjErrorLine.HandleJsonError` | config/rjreader.go:270-294 | reported line and column are those of the position, which is behind exactly as many counted bytes as the offset says, and without commented dropped commas right behind that byte of the stream; the report crashes exactly when more carriage returns precede the position than line feeds follow; without carriage returns the reported text is the line of the position |
| `RjErrorLine.LineOfPosition` | config/rjreader.go:292-293 | in a text without carriage returns the piece with the counted number is the line of the position |
| `RjErrorLine.LineIsAnIndex` | config/rjreader.go:292-293 | exactly when the line number is an index into the split text |
| `RjErrorLine.MarksAreTokens` | config/rjreader.go:370-421 | the bytes the position walk passes are the tokens of the text |
| `RjErrorLine.CountIsStream` | config/rjreader.go:381-387 | the count of delivered bytes is the length of the delivered stream, but for a comma undecided at the end |
| `RjErrorLine.PositionInStream` | config/rjreader.go:296-423 | in a text whose comments close where they should, the position stands right behind the byte of the delivered stream whose number is the count, and the rest of the stream lies ahead |
| `DiamTree.FindThrough` | vendor/github.com/Omnitouch/go-diameter/v4/diam/message.go:395-417 | a search along p + r goes through the pairs found at p, in document order |
| `DiamTree.FindByCode` | vendor/github.com/Omnitouch/go-diameter/v4/diam/message.go:395-417 | a search by one code takes the pairs with that code, in their order |
| `DiamTree.FindInside` | vendor/github.com/Omnitouch/go-diameter/v4/diam/message.go:395-417 | a longer search goes on inside the groups with its first code, one after the other |
| `DiamTree.LeafLength` | vendor/github.com/Omnitouch/go-diameter/v4/diam/avp.go:144-154 | a leaf takes eight octets, or twelve with a vendor, and its value up to the next multiple of four |
| `DiamTree.GroupTakesMembers` | vendor/github.com/Omnitouch/go-diameter/v4/diam/avp.go:144-154 | a group takes its header and the lengths of its members |
| `DiamTree.LenIsAligned` | vendor/github.com/Omnitouch/go-diameter/v4/diam/avp.go:144-154 | every length is a multiple of four |
| `DiamTree.ReplaceLength` | agents/libdiam.go:267-273 | overwriting the last match changes the total length by the difference of the two pairs |
| `DiamTree.ReplaceReadBack` | agents/libdiam.go:267-273 | the overwritten path reads back the new pair in the place of the last one |
| `DiamTree.ReplaceFrame` | agents/libdiam.go:251-273 | searches along paths apart from the overwritten one are not affected |
| `DiamBuilder.Decide` | agents/libdiam.go:235-275 | a new branch always opens a new top pair; otherwise the deepest group on a proper prefix is shared, and without one the pair is overwritten exactly when it is there |
| `DiamBuilder.MisplacesIsOverwrite` | agents/libdiam.go:262-273 | exactly when a pair is overwritten by a whole branch |
| `DiamBuilder.LengthIsKept` | agents/libdiam.go:251-278 | on all exit paths the header length stays 20 plus the sum of the recursive padded lengths, modulo 2^32 |
| `DiamBuilder.ChainFind` | agents/libdiam.go:235-245 | a new branch holds its leaf at its own path and nothing off that path |
| `DiamBuilder.ReadBack` | agents/libdiam.go:214-279 | the path reads back the old list and behind it, or for a single segment in place of its last pair, a leaf with the given payload and the code, vendor and vendor bit of the last dictionary entry, if and only if no pair is overwritten by a branch |
| `DiamBuilder.ChainGroups` | agents/libdiam.go:235-245 | the groups opened on the way carry the codes, vendors and vendor bits of their entries and have one member each |
| `DiamBuilder.Frame` | agents/libdiam.go:214-279 | every path that is not a prefix of the one set reads as before, except for what stood below an overwritten group |
| `DiamBuilder.MisplacingMessage` | agents/libdiam.go:246-273 | a message on which a branch replaces a leaf |
| `DiamMessage.Message.FindEntries` | agents/libdiam.go:219-229 | the dictionary entries of the path, or the first unknown name |
| `DiamMessage.Message.Place` | agents/libdiam.go:234-278 | the loop from the leaf up makes the edit and the length change of the specification |
| `DiamMessage.Message.SetAvpsWithPath` | agents/libdiam.go:214-279 | a refused call leaves the message untouched; an accepted one leaves, as the last pair found at the path, a leaf with the encoded value under the code and vendor of the last name, unless it overwrites a pair with a branch; the header length is kept |
| `DiamMessage.PreparedExactly` | agents/libdiam.go:214-250 | which paths and values are accepted, what is placed for them, and which refusal each other one gets |
| `DiamMessage.PlanFollowsItems` | agents/libdiam.go:416-438 | the placements of an item list are those of its accepted items up to the first refused one, in order, and the error is that refusal |
| `DiamMessage.Message.UpdateFromItems` | agents/libdiam.go:416-438 | items are placed in order up to the first failure, which is returned; the header length is kept |
| `DiamMessage.TypedNeverMisplaces` | agents/libdiam.go:246-273 | in a message that follows the dictionary no branch replaces a leaf |
| `DiamMessage.TypedApply` | agents/libdiam.go:214-279 | a placement keeps a message within the dictionary |
| `DiamMessage.TypedStep` | agents/libdiam.go:214-279 | one placement adds its leaf at the end of its own path and changes no path it does not extend |
| `DiamMessage.WholeReply` | agents/libdiam.go:416-438 | after a whole reply a path reads what it held before and behind it every value placed there, in order, for any set of codes used as groups |
| `DiamMessage.WholeReplyValues` | agents/libdiam.go:416-438 | the values at a path are the old ones followed by those placed there, in order |
| `DiamMessage.ReplyReadsBack` | agents/libdiam.go:416-438 | the same for the placements of an item list whose paths go through groups of the dictionary |
| `DiamMessage.SeparatedReply` | agents/libdiam.go:416-438 | the same for a fresh message whatever the dictionary says of the inner names, if no path goes through a code at which another ends |
| `DiamSelector.FindFor` | agents/libdiam.go:366-373 | the attribute is searched under ever shorter prefixes until something is found |
| `DiamSelector.SearchIsLongest` | agents/libdiam.go:366-373 | what is found is found under the longest prefix that has anything, and nothing only if none has |
| `DiamSelector.RowsAreVerdicts` | agents/libdiam.go:361-391 | each filter judges as many pairs as there are to choose from, found along the selected pairs' own path |
| `DiamSelector.CountRow` | agents/libdiam.go:379-390 | the map counts, for every index, the filters passed so far |
| `DiamSelector.Choose` | agents/libdiam.go:392-402 | in any map order an index counted by all filters is taken, and none exactly when there is none |
| `DiamSelector.Select` | agents/libdiam.go:356-403 | the chosen index is in range and passes every filter; not found exactly when no index passes all, a match list has the wrong length or is empty, or there is no path to search |
| `Templates.Append` | config/fctemplate.go:156 | append writes in place within the capacity and on a new array otherwise |
| `Templates.InflateTemplates` | config/fctemplate.go:136-165 | for every list and table on which the loop comes to an end: returns the left-to-right full expansion, nothing when there was no template field, or the first fault; the arrays of the table are not touched |
| `Templates.InflatedTemplate` | config/fctemplate.go:139-158 | a template field expands into the full expansion of the fields of its template, followed by that of the rest |
| `Templates.InflatedPlainTemplate` | config/fctemplate.go:152-156 | a template of plain fields is put in exactly as it is in the table |
| `Templates.InflatedPlain` | config/fctemplate.go:159 | a plain field stays in its place |
| `Templates.InflatedFault` | config/fctemplate.go:141-151 | which error a template field without id, without template or with an empty template gives |
| `Templates.InflateStep` | config/fctemplate.go:139-158 | one replacement keeps the expansion and takes one turn off the count |
| `Templates.TurnCount` | config/fctemplate.go:138-158 | the loop takes exactly the counted number of turns |
| `Templates.EndlessForever` | config/fctemplate.go:136-165 | a nesting deeper than the table is large is a nesting without end |
| `Templates.StopsExactly` | config/fctemplate.go:138-158 | the loop comes to an end if and only if the expansion does |
| `Templates.StopsWithoutCycle` | config/fctemplate.go:138-158 | it comes to an end if no reached template contains itself, and only then where nothing reached is faulty |
| `Templates.Deeper` | config/fctemplate.go:136-165 | an expansion with an end is the same at every greater depth |
| `Templates.ExpandedIsPlain` | config/fctemplate.go:136-165 | no template field is left |
| `Templates.PlainIsExpanded` | config/fctemplate.go:136-165 | inflating an inflated list changes nothing |
| `Templates.SucceedsExactly` | config/fctemplate.go:141-151 | inflation succeeds if and only if every template field reached has a computable id naming a non-empty template and no template reached contains itself |
| `Templates.CycleNeverExpands` | config/fctemplate.go:138-158 | a template that is met again inside itself, at any distance, expands at no depth |
| `Templates.EndlessMeansCycle` | config/fctemplate.go:138-158 | a list without an end reaches a template that contains itself |
| `ObjectPath.ObjectDP.FieldAsInterface` | config/objdp.go:57-124 | answer and cache are those of the query function, malformed elements and prefixes included |
| `ObjectPath.KeyIsInjective` | config/objdp.go:87-105 | different hop lists have different keys |
| `ObjectPath.JoinIsKey` | config/objdp.go:62-122 | the joined path is the key the walk ends with |
| `ObjectPath.VisitIsWalk` | config/objdp.go:92-101 | a cached hop from a recorded object records what the plain walk finds |
| `ObjectPath.QueryIsWalk` | config/objdp.go:57-124 | without a prefix, a path the plain walk can follow is answered with exactly its value, any other with an error or nil; the cache stays consistent |
| `ObjectPath.FirstQuery` | config/objdp.go:57-124 | the first query of a path is answered with what the plain walk finds, and with an error if it finds nothing |
| `ObjectPath.MalformedElement` | config/objdp.go:79-86 | an element whose bracket is not closed is an error, one that ends in an opening bracket crashes |
| `ObjectPath.AnyHistory` | config/objdp.go:57-124 | the same as for one query after any history of queries |
| `ObjectPath.AnyPrefixedHistory` | config/objdp.go:57-124 | with any prefix, after any history over a set of remainders none of which clash, every remainder is answered as the plain walk finds it; paths with another prefix change nothing |
| `ObjectPath.PrefixedExactly` | config/objdp.go:62-105 | all histories over a set of remainders are answered rightly if and only if no walk along one of them meets the key of another whole path |
| `ObjectPath.ClashIsPrefixAgain` | config/objdp.go:62-105 | a walk meets the key of a whole path exactly when it goes along the text of the prefix and then along that path |
| `ObjectPath.OtherTextIsSafe` | config/objdp.go:62-105 | remainders that never go along the text of the prefix do not clash |
| `ObjectPath.PrefixMixesKeys` | config/objdp.go:62-75 | for every prefix with the text of a well-formed path, and every remainder, a query that goes along that text again makes the remainder be answered wrongly |
| `ObjectPath.ForeignPathFails` | config/objdp.go:65-75 | after any history, a path with another prefix whose joined text is no key of a path queried is an error and changes nothing |
| `ObjectPath.ForeignPathExactly` | config/objdp.go:62-75 | after a history of remainders without clashes that the plain walk can follow, a path with another prefix is an error if and only if its joined text is no key of theirs |
| `RsrRules.TurnOnRules` | config/rsrparser.go:43-80 | one turn of the loop on a printed rule list takes all rules up to the first quoted one, its quotes removed, and leaves the others |
| `RsrRules.TailBecomesParts` | config/rsrparser.go:58-80 | behind a closing quote the end of the rule joins it, and the other rules are left, split or dropped when empty |
| `RsrRules.SplitQuoted` | config/rsrparser.go:41-81 | the whole loop, all slices in range or the failing one reported |
| `RsrRules.NewRSRParsersFromSlice` | config/rsrparser.go:87-99 | succeeds exactly when every rule is non-empty and compiles, and keeps the rules |
| `RsrRules.NewRSRParsers` | config/rsrparser.go:34-85 | the outcome for every string: unclosed quote, failing slice, or the compiled parts |
| `RsrRules.LoopOnRules` | config/rsrparser.go:42-81 | on a printed list of rules with at most one section each the loop collects the rules, quotes removed, quoted separators kept |
| `RsrRules.LoopOnManySections` | config/rsrparser.go:42-81 | a rule with more sections makes the loop fail or leave a back-quote in a part |
| `RsrRules.QuotesArePaired` | config/rsrparser.go:38-40 | a printed rule list has two back-quotes for every quoted section |
| `RsrRules.RuleListRoundTrip` | config/rsrparser.go:34-85 | printing and splitting gives back the rules if and only if no rule has more than one quoted section, the list is not one empty rule and does not end in an empty rule behind a quoted one |
| `RsrRules.EveryString` | config/rsrparser.go:34-85 | every string with paired back-quotes is the print of a rule list, so the equivalence covers every input; any other string is refused |
| `RsrRules.LostRule` | config/rsrparser.go:74-77 | what is left of a list that ends in an empty rule behind a quoted one, and of the empty string |
| `RsrRules.SeparatorIsForUnquoted` | config/rsrparser.go:84 | the separator of the caller is used only where nothing is quoted |
| `RsrRules.TwoSections` | config/rsrparser.go:61-73 | one rule with two sections fails exactly when the second one holds a separator, and otherwise keeps the quotes around it |
| `RsrRules.PrintValue` | config/fctemplate.go:219-230 | the value is the rules joined by the separator, absent when there are none |
| `RsrRules.ValueRoundTrip` | config/rsrparser.go:84 | a printed value parses back into the same rules if and only if no rule holds the separator and it is not one empty rule |
| `DnsAnswer.Msg.UpdateFromItems` | agents/libdns.go:156-233 | response code, answers and error are those of the items folded in order |
| `DnsAnswer.RunsArePartition` | agents/libdns.go:171-180 | the greedy runs give back the items and repeat no name |
| `DnsAnswer.GreedyIsMinimal` | agents/libdns.go:171-180 | no partition into runs without repeated names has fewer runs |
| `DnsAnswer.OneRecordPerRun` | agents/libdns.go:156-233 | a successful call on a message without answers fills one record for every greedy run, and no others |
| `DnsAnswer.RecordHolds` | agents/libdns.go:181-227 | every value of a run is read back from its record, numbers truncated to sixteen bits |
| `DnsAnswer.RecordAnswers` | agents/libdns.go:127-153 | every record carries the name of the question and its type |
| `DnsAnswer.RecordFields` | agents/libdns.go:189-227 | Order, Preference, Flags, Service, Regexp and Replacement of a record are the values of the items with these names |
| `DnsAnswer.UnnamedFields` | agents/libdns.go:127-153 | fields that no item names are zero or empty |
| `DnsAnswer.SucceedsExactly` | agents/libdns.go:156-233 | which item lists succeed |
| `DnsAnswer.FirstRefusal` | agents/libdns.go:156-233 | a call that fails reports the refusal of the first item that is not accepted |
| `DnsAnswer.PutAllKeeps` | agents/libdns.go:181-227 | a field whose name the run does not have keeps its value |
| `DnsAnswer.RcodeIsLast` | agents/libdns.go:183-188 | the response code is that of the last item that sets one |
| `EnumName.MarkStandsBehindDigits` | agents/libdns.go:41 | the first e164 label of an ENUM name is that of its domain |
| `EnumName.EnumRoundTrip` | agents/libdns.go:40-59 | decoding an ENUM name gives back the number and the domain |
| `EnumName.EnumRebuilds` | agents/libdns.go:40-59 | encoding the decoded parts rebuilds the name up to trailing dots |
| `EnumName.EnumNameAt` | agents/libdns.go:40-50 | an ENUM name character by character: the digits from the last to the first, each with a dot behind it, then the domain |
| `EnumName.NoLabel` | agents/libdns.go:40-59 | a name has no number exactly when it has no e164 label, and its domain is then the name without outer dots |
| `DiamLimiter.HandlerStep` | agents/diamagent.go:129-247 | a handler's step changes that handler only, and the counter together with its counted mark |
| `DiamLimiter.StepKeepsInv` | agents/diamagent.go:129-247 | every step keeps the counter and the number of answers right |
| `DiamLimiter.Accounting` | agents/diamagent.go:129-247 | in every interleaving with any reloads the counter is the number of admitted handlers not yet left; a handler that is done has sent one answer, or two exactly when its Session-Id was unreadable with an ASR template set |
| `DiamLimiter.TwoAnswers` | agents/diamagent.go:171-182 | a run in which a handler answers twice |
| `DiamLimiter.LastAnswer` | agents/diamagent.go:129-247 | in every run the last answer is the reply if and only if some processor dealt with the request, none failed and the reply could be built, and a bare error if and only if the request could not be decoded |
| `DiamLimiter.LastProcessor` | agents/diamagent.go:203-224 | a processor that fails, or that deals with the request without the continue flag, is the last to be run; behind any other the next one can be run |
| `DiamLimiter.NobodyStumbles` | agents/diamagent.go:171-182 | without an ASR template, or with readable Session-Ids, nobody answers twice |
| `DiamLimiter.LimitHolds` | agents/diamagent.go:184-201 | the limit holds in every state of a run if and only if no reload puts it below the admitted requests |
| `DiamLimiter.FixedLimit` | agents/diamagent.go:184-201 | with a fixed limit the counter stays between zero and the limit |
| `DiamLimiter.RefusedAtLimit` | agents/diamagent.go:184-201 | a request is refused exactly when as many are admitted as the limit says, and counted otherwise |
| `DiamLimiter.ActiveAreCounted` | agents/diamagent.go:184-201 | as long as there is a limit exactly the handlers past the limiter are counted |
| `DiamLimiter.Unlimited` | agents/diamagent.go:184 | with a limit of -1 nothing is counted |
| `DiamLimiter.LoweredLimitAdmitsAll` | agents/diamagent.go:186-194 | once the limit is below the counter any number of requests is admitted |
| `AsteriskChannels.AnswerKeepsInv` | agents/asterisk_event.go:192-194 | an answer sets the time on the event the handler looked up, which stays what the log leaves of it |
| `AsteriskChannels.CloseKeepsInv` | agents/asterisk_event.go:195-214 | a destroy update that succeeds writes to the event the usage the log calls for, and one that fails leaves it |
| `AsteriskChannels.StepKeepsInv` | agents/astagent.go:151-323 | every step keeps the order of the log, the values it carries, and each event equal to the replay of the log |
| `AsteriskChannels.CallsAreAuthorized` | agents/astagent.go:151-323 | in every run an initiate, terminate or CDR call comes after a completed authorization of its channel and after the caching of its event |
| `AsteriskChannels.CallsFollowAuthorization` | agents/astagent.go:151-323 | the action that makes such a call comes after a stasis start of its channel, a successful authorization by the same handler and the storing of the event, in this order |
| `AsteriskChannels.Provenance` | agents/astagent.go:151-323 | in every run there is one note for every authorization that succeeds, storing, update, call and wanted CDR; an answer is due to a change to the up state with its time, a closing and the calls after it to a destroy event |
| `AsteriskChannels.CacheFollowsLog` | agents/astagent.go:230-236 | the cache holds for each channel the event cached for it last |
| `AsteriskChannels.ThroughForGood` | agents/astagent.go:151-323 | a handler does nothing more once its channel was refused, its event is stored, the new state is not up, or the CDR is decided |
| `AsteriskChannels.EventsFollowLog` | agents/asterisk_event.go:189-217 | in every run answer time and usage of a cached event are those the log leaves on it |
| `AsteriskChannels.UsageIsFromLastAnswer` | agents/asterisk_event.go:195-214 | in every run the usage is 0s without a recorded answer or with a zero one, and otherwise the time from the last recorded answer to the end; it stands on the event right after the update |
| `AsteriskChannels.LastAnswerIsLast` | agents/asterisk_event.go:192-194 | the last answer is a recorded one with no later one, or the time given when the event was cached |
| `AsteriskChannels.CallsSendLastClosing` | agents/astagent.go:282-323 | in every run a terminate or CDR call sends the usage of the last successful closing of its event, which is the usage its own handler computed if and only if no closing with a different usage came last in between |
| `AsteriskChannels.OvertakenRun` | agents/astagent.go:282-323 | a run in which a terminate call carries the usage that another handler computed |
| `ConfigSanity.CheckConnections` | config/configsanity.go:34-595 | the connection checks pass exactly when all hold, and otherwise the first one that fails reports its first bad connection |
| `ConfigSanity.AcceptedIsClosed` | config/configsanity.go:34-595 | they pass if and only if chains of internal connections from what is on reach only enabled services, every other connection made there is defined, and the remaining connection checks hold |

## Left out

- The checks of `config/configsanity.go` that are not about connections (field paths, folders, types, limits, intervals): a conjunction of independent tests.
- Console commands, section loaders, reload signalling, XML elements and the XML data provider: easy members, or no law that holds.
- Sockets, TLS, dictionaries, JSON decoding, regular expressions, converters, logging and time parsing: inputs or absent.
- The FreeSWITCH, Kamailio, RADIUS and HTTP agents, and `processRequest`: the Diameter steps take processor results as they come.
- Diameter pairs are trees of values and a message object holds them: aliasing between messages is not modelled; in-place edits through a found pair are edits of the last match.
- The numeric selector and the value cache of `diameterDP.FieldAsInterface`: plain indexing and a plain map.
- Fields of a template other than its type and its id, and the sharing of field objects between lists.
- ObjectPath.QueryIsWalk: stated for well-formed paths (names, each with at most one bracketed selector), as are the results for prefixes; for other paths only the query function itself is given.
- RjEnv.EnvironmentSplicing: outside strings a value that starts with a comma is covered only where a byte that keeps the comma stands right behind it; layout in between is left out although it does no harm there.
- What the reader does after its first error, and the position a reader has moved to when a call fails.
- The Asterisk event's other fields: a failing destroy update still changes its name and cause, which is not modelled.
