# inpx: a Dafny model of the `.inpx` library-index reader

An `.inpx` file is a zip archive that indexes a library of books. Three kinds of
entry matter:

- `version.info` holds an integer version.
- `collection.info` holds the collection's name on its first line.
- Each `<pack>.inp` lists the books stored in the book archive `<pack>.zip`, one
  record per line. The fields of a record are separated by the byte `0x04` and
  laid out by a *structure*: a list of field kinds, `DefaultStructure` unless
  the caller supplies one.

`OpenWithStructure` reads the entries in order. It builds an `Index` (name,
version, records per pack) and stops at the first entry it cannot read or parse.
`File.Open` later finds a book's file `<name>.<ext>` inside its pack archive.

The model covers:

- the tokenizer `splitBy`/`splitName` (module `Tokenizer`). The reference
  definition is `SplitBy`; `SplitByScan` is the loop of the code, proved equal to it.
- the record decoder `fieldsToBook`, with its `toStr`, `toInt` and `toDate`
  helpers, the field map and the `setField` assembly (module `Records`).
- the two library parsers it relies on, `strconv.Atoi` and
  `time.Parse("2006-01-02", …)`, with formatters that invert them (module `Numbers`).
- the entry loop of `OpenWithStructure`, the `.inp` line loop, `Open`, and the
  lookup of `File.Open` (module `Inpx`).
- the string functions these call: `strings.Split`, `bytes.Split`,
  `strings.Trim`, `TrimSpace`, `TrimRight`, `HasSuffix`, `TrimSuffix`, and
  `bufio.Reader.ReadBytes('\n')` as a list of lines (module `Text`).
- `Option`/`Result` (module `Wrappers`).

The archive is an abstract list of named entries. Each entry's body is either
its text or `Unreadable`. Reading is a fold over the entries
(`Inpx.BuildFrom`); the methods `OpenWithStructure`, `ReadEntry` and
`ReadRecords` are the loops of the code, proved equal to the fold.

Behaviour kept as the code has it, even where a reader might expect otherwise:

- A comma followed by a space does not cut a name. The part before it is lost:
  the name `Doe, John` decodes to the single part `John`.
- A record line is cut at every `0x04` byte by `bytes.Split`. Empty tokens
  count as fields: `a\x04 b\x04c` is three tokens.
- A blank author token gives one author with no name parts. A blank genre token
  gives the genre list `[""]`.
- Genres and keywords are not trimmed.
- A record that fails to decode is dropped from its pack, but does not stop the
  reading.
- A final line without a newline is never read.

## Model

| member | source | states |
|---|---|---|
| Records.Code | inpx.go:19-35 | each field kind's constant is its `iota` position, below the length of the default structure |
| Records.DefaultStructureCodes | inpx.go:37-42 | the default structure has fourteen kinds, kind `i` at position `i` |
| Records.DefaultStructurePositions | inpx.go:37-42 | under the default structure every kind occurs, and its last position is its code |
| Tokenizer.SplitByScan | inpx.go:44-59 | the rune loop of `splitBy` returns exactly the tokens of the reference definition `SplitBy` |
| Tokenizer.Scan | inpx.go:46-58 | the loop over a text without trailing delimiters keeps a piece when the delimiter after it is followed by a non-space, and keeps the last piece when it is not empty |
| Tokenizer.SplitByEmpty | inpx.go:44-59 | an empty text has no tokens |
| Tokenizer.SplitByNoDelimiter | inpx.go:44-59 | a text without the delimiter is one token, unless it is empty |
| Tokenizer.SplitByTrailing | inpx.go:45 | a trailing delimiter changes nothing |
| Tokenizer.SplitByCut | inpx.go:48-52 | a delimiter followed by a non-space character emits the text before it, then tokenization goes on after it |
| Tokenizer.SplitBySpacedDelimiter | inpx.go:48-52 | a delimiter followed by a space emits nothing, and the text before it is lost |
| Tokenizer.SplitByExample | inpx.go:44-59 | `splitBy("a, b,c", ',')` is `[" b", "c"]` |
| Tokenizer.SplitName | inpx.go:61-63 | name parts never hold a comma |
| Tokenizer.SplitByParts | inpx.go:44-59 | a token holds only characters of its text |
| Text.JoinSplit | inpx.go:107 | joining the pieces of `strings.Split` with the separator gives back the text |
| Text.SplitJoin | inpx.go:116 | splitting a join of separator-free pieces gives back the pieces |
| Text.SplitCount | inpx.go:107 | there is one piece more than there are separators |
| Records.ToStr | inpx.go:70-78 | the result has no surrounding white space and holds only characters of the token |
| Records.ToStrTrims | inpx.go:72-75 | the result is the token without its one trailing colon, with only white space removed around it |
| Records.ToStrDropsOneColon | inpx.go:72-74 | of a trailing `::` exactly one colon is dropped; a single trailing colon is dropped |
| Records.ToStrPlain | inpx.go:70-78 | a token without surrounding white space or trailing colon is returned unchanged |
| Records.ToInt | inpx.go:79-89 | a blank token is 0 without error; otherwise success exactly when `Atoi` parses the text, and failure gives 0 and an error carrying the text |
| Records.ToIntFormat | inpx.go:79-89 | the decimal form of any integer decodes to it, with or without a trailing colon |
| Records.ToIntRejects | inpx.go:84-88 | a text that is not an optionally signed digit run is an error that leaves 0 |
| Records.ToDate | inpx.go:90-100 | a blank token is the zero date without error; otherwise success exactly when the layout parses the text, and failure gives the zero date and an error |
| Records.DateField | inpx.go:119-120 | a date written with the layout decodes to itself, without error |
| Records.DateBlank | inpx.go:90-94 | a blank date is the zero date, without error |
| Numbers.ParseIntAccepts | inpx.go:84 | `Atoi` succeeds exactly on an optional sign followed by one or more digits, so `1-2`, `+-1`, a lone sign and blanks are rejected |
| Numbers.ParseFormatInt | inpx.go:84 | `Atoi(Itoa(n)) == n` for every integer |
| Numbers.ParsePlusZeros | inpx.go:84 | a leading `+` and a leading zero are accepted |
| Numbers.ParseFormatDate | inpx.go:95 | formatting a valid date with `2006-01-02` and parsing it gives the date back |
| Numbers.FormatParseDate | inpx.go:95 | whatever parses is exactly the formatted form of its date |
| Numbers.ParseDateRejectsFeb29 | inpx.go:95 | 29 February of a common year is rejected |
| Numbers.ParseDateRejectsShortMonth | inpx.go:95 | a one-digit month is rejected |
| Numbers.ParseDateExample | inpx.go:95 | `2020-05-01` is 1 May 2020 |
| Records.DecodeField | inpx.go:102-128 | the value has the Go type of its kind; only integer, deleted and date kinds can fail; a blank token never fails |
| Records.BlankField | inpx.go:102-128 | a blank token gives the zero value of each stored kind, except one nameless author and one empty genre |
| Records.DecodeAuthors | inpx.go:105-114 | one author per colon-separated segment, each named by the trimmed `splitName` parts of its segment |
| Records.AuthorCount | inpx.go:107 | there is one author more than there are colons |
| Records.DecodeAuthorsCons | inpx.go:107-113 | authors are decoded segment by segment, in order |
| Records.AuthorPartsClean | inpx.go:107-111 | every name part is trimmed and holds neither a colon nor a comma |
| Records.AuthorTrailingSeparators | inpx.go:70-114 | `a,b,:` decodes to one author with parts `a` and `b` |
| Records.AuthorSpacedComma | inpx.go:107-111 | `a1, b1:a2, b2` decodes to two authors named `b1` and `b2` |
| Records.ListFieldPieces | inpx.go:115-116 | genre and keyword pieces are untrimmed: joined with their separator they give the whole `toStr` text, and none holds the separator |
| Records.DeletedFlag | inpx.go:117-118 | the deleted flag is set exactly when the number is not zero |
| Records.DeletedBlank | inpx.go:117-118 | a blank deleted flag is clear and no error |
| Records.IntFieldFormat | inpx.go:121-122 | a series number, file size or library id written in decimal decodes to that number without error |
| Records.IntFieldRejects | inpx.go:121-122 | such a field that is neither blank nor an optionally signed digit run is 0 with a syntax error naming its text |
| Records.TextFieldTrimmed | inpx.go:125-126 | every other kind is text and never fails: the token with one trailing colon dropped and its surrounding white space removed |
| Records.DecodeMap | inpx.go:101-129 | the field map holds exactly the kinds of the structure, each with the value at its last position |
| Records.Assemble | inpx.go:130-148 | each stored kind present in the map overwrites its attribute; every other attribute keeps its zero value |
| Records.AssembleExactly | inpx.go:130-148 | a record agreeing with the map on every stored kind, with an empty location, is the assembled record |
| Records.FieldsToBook | inpx.go:65-68 | fewer tokens than kinds is the wrong-count error with the zero record; the location of the decoded record is empty |
| Records.FieldsToBookFields | inpx.go:101-148 | each stored kind of the structure takes the value decoded from the token at its last position; the rest stay zero |
| Records.FieldsToBookNoError | inpx.go:85-87 | no error is reported exactly when no position fails to decode |
| Records.FieldsToBookFirstError | inpx.go:85-87 | a failed decoding reports the error of the first failing position |
| Records.FieldsToBookDefault | inpx.go:37-42 | with the default structure, kind `k` is decoded from token number `Code(k)` |
| Records.FieldsToBookIgnoresExtra | inpx.go:102 | tokens beyond the structure's length change nothing |
| Records.RepeatedKindLastWins | inpx.go:128 | a kind that occurs twice keeps the value of its last token |
| Records.PartialRecord | inpx.go:85-88 | a bad number does not stop decoding: the title after it is filled in, and the number's error comes back with the record |
| Inpx.Classify | inpx.go:166-194 | the two info files are recognised by exact name; any other name ending in `.inp` is a record file whose pack is the name without the suffix |
| Inpx.ClassifyPack | inpx.go:190-194 | the entry `<pack>.inp` is the record file of `pack` |
| Inpx.CollectionName | inpx.go:182-187 | a name exists exactly when there is a newline; it is trimmed of the cut set at both ends |
| Inpx.CollectionNameLine | inpx.go:183-184 | the name is the first line, trimmed of newline, tab, space and byte-order mark; the rest is ignored |
| Text.LinesCons | inpx.go:201-212 | a line followed by a newline comes first, without its newline, then the lines of the rest |
| Text.LinesUnterminated | inpx.go:202-205 | text after the last newline is never read |
| Inpx.Stamp | inpx.go:217-218 | a kept record gets the directory and the pack as its location, and nothing else changes |
| Inpx.Kept | inpx.go:213-220 | a line contributes a record exactly when it decodes without error, and then the stamped record |
| Inpx.PackRecords | inpx.go:199-228 | no more records than lines, all stamped with the directory and pack |
| Inpx.PackRecordsSingle | inpx.go:213-220 | the records of one line are that line's stamped record when it decodes without error, else none |
| Inpx.PackRecordsAppend | inpx.go:201-221 | the records of concatenated lines are those of each part, in order |
| Inpx.PackRecordsMember | inpx.go:213-220 | a record is kept exactly when some line yields it |
| Inpx.ReadRecords | inpx.go:199-221 | the line loop returns the records of the complete lines, in order |
| Inpx.EntryError | inpx.go:166-198 | unknown entries never fail; an unreadable entry of a known kind fails; a record file fails exactly when it is unreadable; a readable `version.info` fails exactly when `scanInt` rejects its text; a readable `collection.info` fails exactly when it has no newline |
| Inpx.EntryErrorTag | inpx.go:166-208 | a failing `version.info` gives the version error, a failing `collection.info` the collection error, and a failing `.inp` entry the record-file error |
| Inpx.ReadEntry | inpx.go:166-230 | the body of the entry loop is one step of the fold |
| Inpx.OpenWithStructure | inpx.go:153-233 | the entry loop computes the fold over the entries from the empty index, stopping at the first error |
| Inpx.Open | inpx.go:236-238 | `Open` is `OpenWithStructure` with the default structure |
| Inpx.BuildAppend | inpx.go:165-231 | reading `a + b` is reading `a` and then going on with `b` |
| Inpx.ErrorSticks | inpx.go:170-197 | once an entry has failed, later entries change nothing |
| Inpx.SkipUnknown | inpx.go:190-193 | an unknown entry, wherever it stands, changes nothing |
| Inpx.BuildAccepts | inpx.go:165-232 | reading succeeds exactly when every entry is accepted |
| Inpx.BuildFirstError | inpx.go:165-232 | a failed reading reports the error of the first rejected entry |
| Inpx.BuildVersion | inpx.go:167-176 | after a successful reading the version is that of the last `version.info`, or the starting one |
| Inpx.BuildName | inpx.go:177-188 | after a successful reading the name is that of the last `collection.info`, or the starting one |
| Inpx.BuildArchive | inpx.go:223-228 | after a successful reading a pack holds the records of its last `.inp` entry, even an empty one, or whatever it held before |
| Inpx.BuildStamped | inpx.go:217-218 | every record of every pack carries the directory and its own pack name |
| Inpx.FindEntry | inpx.go:279-280 | the first entry with the given name, or none |
| Inpx.OpenBook | inpx.go:274-294 | no archive is an error, and a given archive never gives that error; no entry named `<name>.<ext>` is `NotExist`; otherwise the first such entry's text, or its read error |
| Inpx.OpenBookFirst | inpx.go:279-290 | a later entry with the same name is never reached |

## Left out

- Inpx.OpenWithStructure: opening the `.inpx` zip (inpx.go:154-158) is not modelled. The caller passes the archive as a list of entries. `filepath.Dir(path)` (inpx.go:160) is the `dir` parameter.
- Inpx.Setting: `fmt.Fscan` of the version (inpx.go:172) is the parameter `scanInt`. The model does not say which texts it accepts.
- Inpx.OpenBook: `File.Open` is modelled as a lookup that returns the whole text of the entry. Locating the archive at `Dir/Archive.zip` (inpx.go:275) is left to the caller, who passes the archive's entries or nothing. The `multiReadCloser` wrapper and the closing of readers (inpx.go:247-257, 286-292) are not modelled.
- Numbers.ParseInt: any optionally signed run of digits, of any length, is accepted. `strconv.Atoi` fails with a range error outside the 64-bit range (inpx.go:84). Go then drops such a line (inpx.go:214-215); the model keeps it.
- Records.ToInt: has the same gap as `ParseInt`. An out-of-range number decodes here with no error.
- Tokenizer.SplitBy: text is `seq<char>`. Go's `[]rune` conversion (inpx.go:45) turns invalid UTF-8 into U+FFFD, and the model does not.
- Text.Split: record fields are bytes cut by `bytes.Split` (inpx.go:213); the model treats them as characters, and the separator `0x04` as the character 4.
- Records.FieldKind: structure codes outside 0..13 cannot be written. In Go they take the `default` branch (inpx.go:125-126) and then behave like `FieldLibRate`: decoded as text, never stored.
- Inpx.BuildError: `log.Println` (inpx.go:191, 215) is left out. Error messages are reduced to the tags `VersionInfoError`, `CollectionInfoError` and `InpError`. Decoding errors are reduced to `WrongFieldsCount`, `IntSyntax` and `DateSyntax`.
- Inpx.ReadRecords: a read error in the middle of an `.inp` entry (inpx.go:206-208) is modelled only as an unreadable entry. Partial reads are not modelled. The defensive copy of the records (inpx.go:223-227) and the `total` counter (inpx.go:164, 229) have no observable effect and are left out.
- Numbers.ParseDate: only the layout `2006-01-02` is modelled, and dates carry no time of day or zone.
