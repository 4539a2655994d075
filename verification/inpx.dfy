/**
 * Reading a whole library index. The entries of the `.inpx` archive are
 * visited in their order: `version.info` gives the version, `collection.info`
 * the collection's name, each `<pack>.inp` the records of the book archive
 * `<pack>`, and every other entry is skipped. The archive is an abstract list
 * of named entries, each either readable (its text) or not.
 *
 * Also here: the lookup `File.Open` performs inside a book archive.
 */
module Inpx {
  import opened Wrappers
  import opened Text
  import opened Records

  /** The text of an archive entry, or the failure to open or read it. */
  datatype Body = Contents(data: string) | Unreadable

  datatype Entry = Entry(name: string, body: Body)

  /** The text of a readable body; nothing for an unreadable one. */
  function Data(b: Body): string
  {
    if b.Contents? then b.data else ""
  }

  /** `Index`: the collection's name, its version, and the records of each archive, by pack name. */
  datatype Index = Index(name: string, version: int, archives: map<string, seq<Book>>)

  /** The index before any entry is read. */
  const EmptyIndex: Index := Index("", 0, map[])

  /**
   * What reading needs besides the entries: the directory the `.inpx` file
   * lives in, the field structure of the `.inp` records, and how an integer is
   * scanned from the start of a text (`fmt.Fscan`), which is not modelled here.
   */
  datatype Setting = Setting(dir: string, structure: seq<FieldKind>, scanInt: string -> Option<int>)

  /** Which kind of entry stopped the reading. */
  datatype BuildError = VersionInfoError | CollectionInfoError | InpError

  /** How an entry is treated, decided by its name alone. */
  datatype EntryKind = VersionInfo | CollectionInfo | RecordFile(pack: string) | Unknown

  const RecordSuffix: string := ".inp"

  /** The byte that separates the fields of an `.inp` line. */
  const FieldSeparator: char := 4 as char

  /** The characters removed from both ends of the collection's name, a byte order mark among them. */
  const NameCut: set<char> := {'\n', '\t', ' ', '\U{FEFF}'}

  /**
   * The two info files are recognised by their exact name; any other name
   * ending in `.inp` is a record file whose pack is the name without the
   * suffix; the rest is unknown.
   */
  function Classify(name: string): (k: EntryKind)
    ensures k == VersionInfo <==> name == "version.info"
    ensures k == CollectionInfo <==> name == "collection.info"
    ensures k.RecordFile? <==> name != "version.info" && name != "collection.info" && HasSuffix(name, RecordSuffix)
    ensures k.RecordFile? ==> k.pack + RecordSuffix == name
  {
    if name == "version.info" then VersionInfo
    else if name == "collection.info" then CollectionInfo
    else if HasSuffix(name, RecordSuffix) then RecordFile(TrimSuffix(name, RecordSuffix))
    else Unknown
  }

  /** Every pack name is read back from the entry `<pack>.inp`. */
  lemma ClassifyPack(pack: string)
    ensures Classify(pack + RecordSuffix) == RecordFile(pack)
  {
    var name := pack + RecordSuffix;
    assert name[|name| - 1] == 'p';
    assert "version.info"[11] == 'o' && "collection.info"[14] == 'o';
    assert name[..|pack|] == pack;
  }

  /**
   * The first line of `collection.info`, trimmed. A text without a newline is
   * an error: the line reader meets the end of the input first.
   */
  function CollectionName(data: string): (r: Option<string>)
    ensures r.Some? <==> '\n' in data
    ensures r.Some? ==> r.value == [] || (r.value[0] !in NameCut && r.value[|r.value| - 1] !in NameCut)
  {
    var i := IndexOf(data, '\n');
    if i < 0 then None else Some(Trim(data[..i + 1], NameCut))
  }

  /** The name is the first line without its newline and surrounding blanks; the rest is ignored. */
  lemma CollectionNameLine(line: string, rest: string)
    requires '\n' !in line
    ensures CollectionName(line + "\n" + rest) == Some(Trim(line, NameCut))
  {
    var s := line + "\n" + rest;
    assert s[..|line|] == line;
    IndexAt(s, '\n', |line|);
    assert s[..|line| + 1] == line + ['\n'];
    TrimDropLast(line, '\n', NameCut);
  }

  /** A record line decoded: the line is cut at every field separator, then decoded with the structure. */
  function ParseLine(line: string, structure: seq<FieldKind>): Decoded<Book>
  {
    FieldsToBook(Split(line, FieldSeparator), structure)
  }

  /** A kept record is told where its file lives: the `.inpx` file's directory and the pack. */
  function Stamp(b: Book, dir: string, pack: string): (r: Book)
    ensures r.file.dir == dir && r.file.archive == pack
    ensures forall k | Stored(k) :: Field(r, k) == Field(b, k)
  {
    b.(file := b.file.(dir := dir, archive := pack))
  }

  /** The record a line yields, when it decodes without error. */
  predicate Yields(line: string, structure: seq<FieldKind>, dir: string, pack: string, b: Book)
  {
    var r := ParseLine(line, structure);
    r.err.None? && b == Stamp(r.value, dir, pack)
  }

  /** The decoding of each line, in order. */
  function ParseLines(lines: seq<string>, structure: seq<FieldKind>): (rs: seq<Decoded<Book>>)
    ensures |rs| == |lines|
  {
    seq(|lines|, i requires 0 <= i < |lines| => ParseLine(lines[i], structure))
  }

  /** What one decoded line contributes: its stamped record when it has no error, else nothing. */
  function KeepOne(r: Decoded<Book>, dir: string, pack: string): (books: seq<Book>)
    ensures |books| <= 1
    ensures forall b :: b in books <==> r.err.None? && b == Stamp(r.value, dir, pack)
  {
    if r.err.None? then [Stamp(r.value, dir, pack)] else []
  }

  /** The stamped records of the error-free decodings, in order. */
  function KeepAll(rs: seq<Decoded<Book>>, dir: string, pack: string): (books: seq<Book>)
    ensures |books| <= |rs|
    ensures forall b | b in books :: b.file.dir == dir && b.file.archive == pack
    decreases |rs|
  {
    if rs == [] then []
    else KeepOne(rs[0], dir, pack) + KeepAll(rs[1..], dir, pack)
  }

  /**
   * The records of one `.inp` file, given its lines: lines that fail to
   * decode are dropped, the others are stamped and keep their order.
   */
  function PackRecords(lines: seq<string>, structure: seq<FieldKind>, dir: string, pack: string): (books: seq<Book>)
    ensures |books| <= |lines|
    ensures forall b | b in books :: b.file.dir == dir && b.file.archive == pack
  {
    KeepAll(ParseLines(lines, structure), dir, pack)
  }

  /** What one line contributes: its stamped record when it decodes without error, else nothing. */
  function Kept(line: string, structure: seq<FieldKind>, dir: string, pack: string): (books: seq<Book>)
    ensures |books| <= 1
    ensures forall b | b in books :: b.file.dir == dir && b.file.archive == pack
    ensures forall b :: b in books <==> Yields(line, structure, dir, pack, b)
  {
    KeepOne(ParseLine(line, structure), dir, pack)
  }

  /** The records of a single line are what that line contributes. */
  lemma PackRecordsSingle(line: string, structure: seq<FieldKind>, dir: string, pack: string)
    ensures PackRecords([line], structure, dir, pack) == Kept(line, structure, dir, pack)
  {
    ParseLinesSingle(line, structure);
    KeepAllSingle(ParseLine(line, structure), dir, pack);
  }

  lemma ParseLinesSingle(line: string, structure: seq<FieldKind>)
    ensures ParseLines([line], structure) == [ParseLine(line, structure)]
  {
  }

  lemma KeepAllSingle(r: Decoded<Book>, dir: string, pack: string)
    ensures KeepAll([r], dir, pack) == KeepOne(r, dir, pack)
  {
    assert [r][1..] == [];
  }

  lemma ParseLinesAppend(a: seq<string>, b: seq<string>, structure: seq<FieldKind>)
    ensures ParseLines(a + b, structure) == ParseLines(a, structure) + ParseLines(b, structure)
  {
    var whole := ParseLines(a + b, structure);
    var parts := ParseLines(a, structure) + ParseLines(b, structure);
    forall i | 0 <= i < |whole|
      ensures whole[i] == parts[i]
    {
      ParseLinesAppendAt(a, b, structure, i);
    }
  }

  lemma ParseLinesAppendAt(a: seq<string>, b: seq<string>, structure: seq<FieldKind>, i: int)
    requires 0 <= i < |a| + |b|
    ensures ParseLines(a + b, structure)[i] == (ParseLines(a, structure) + ParseLines(b, structure))[i]
  {
    var parts := ParseLines(a, structure) + ParseLines(b, structure);
    if i < |a| {
      assert (a + b)[i] == a[i];
      assert parts[i] == ParseLines(a, structure)[i];
    } else {
      assert (a + b)[i] == b[i - |a|];
      assert parts[i] == ParseLines(b, structure)[i - |a|];
    }
  }

  lemma {:induction false} KeepAllAppend(x: seq<Decoded<Book>>, y: seq<Decoded<Book>>, dir: string, pack: string)
    ensures KeepAll(x + y, dir, pack) == KeepAll(x, dir, pack) + KeepAll(y, dir, pack)
    decreases |x|
  {
    if x == [] {
      assert x + y == y;
    } else {
      assert (x + y)[0] == x[0];
      assert (x + y)[1..] == x[1..] + y;
      KeepAllAppend(x[1..], y, dir, pack);
    }
  }

  /** The records of a concatenation are those of each part, in order. */
  lemma PackRecordsAppend(a: seq<string>, b: seq<string>, structure: seq<FieldKind>, dir: string, pack: string)
    ensures PackRecords(a + b, structure, dir, pack) == PackRecords(a, structure, dir, pack) + PackRecords(b, structure, dir, pack)
  {
    ParseLinesAppend(a, b, structure);
    KeepAllAppend(ParseLines(a, structure), ParseLines(b, structure), dir, pack);
  }

  lemma {:induction false} KeepAllMember(rs: seq<Decoded<Book>>, dir: string, pack: string, b: Book)
    ensures b in KeepAll(rs, dir, pack) <==> exists i | 0 <= i < |rs| :: b in KeepOne(rs[i], dir, pack)
    decreases |rs|
  {
    if rs != [] {
      var tail := rs[1..];
      KeepAllMember(tail, dir, pack, b);
      if b in KeepAll(tail, dir, pack) {
        var i :| 0 <= i < |tail| && b in KeepOne(tail[i], dir, pack);
        assert rs[i + 1] == tail[i];
      }
      if exists i | 0 <= i < |rs| :: b in KeepOne(rs[i], dir, pack) {
        var i :| 0 <= i < |rs| && b in KeepOne(rs[i], dir, pack);
        if i > 0 {
          assert tail[i - 1] == rs[i];
        }
      }
    }
  }

  /** A record is kept exactly when some line yields it. */
  lemma PackRecordsMember(lines: seq<string>, structure: seq<FieldKind>, dir: string, pack: string, b: Book)
    ensures b in PackRecords(lines, structure, dir, pack) <==> exists i | 0 <= i < |lines| :: Yields(lines[i], structure, dir, pack, b)
  {
    var rs := ParseLines(lines, structure);
    KeepAllMember(rs, dir, pack, b);
    forall i | 0 <= i < |lines|
      ensures b in KeepOne(rs[i], dir, pack) <==> Yields(lines[i], structure, dir, pack, b)
    {
      assert rs[i] == ParseLine(lines[i], structure);
    }
  }

  /**
   * The line loop of a `.inp` entry: each `\n`-terminated line loses its
   * newline (a `\r` before it stays), is decoded, and is kept with its stamp
   * when it decodes without error; text after the last newline is never read.
   */
  method ReadRecords(data: string, structure: seq<FieldKind>, dir: string, pack: string) returns (recs: seq<Book>)
    ensures recs == PackRecords(Lines(data), structure, dir, pack)
  {
    recs := [];
    var rest := data;
    var i := IndexFrom(rest, '\n', 0);
    while i < |rest|
      invariant i == IndexFrom(rest, '\n', 0)
      invariant recs + PackRecords(Lines(rest), structure, dir, pack) == PackRecords(Lines(data), structure, dir, pack)
      decreases |rest|
    {
      var line := rest[..i];
      var rec := ParseLine(line, structure);
      ghost var before := recs;
      if rec.err.None? {
        recs := recs + [Stamp(rec.value, dir, pack)];
      }
      assert recs == before + Kept(line, structure, dir, pack);
      ReadAdvance(data, rest, i, before, recs, structure, dir, pack);
      rest := rest[i + 1..];
      i := IndexFrom(rest, '\n', 0);
    }
    LinesEnd(rest);
  }

  /** The loop invariant of `ReadRecords` survives one line. */
  lemma ReadAdvance(data: string, rest: string, i: nat, before: seq<Book>, recs: seq<Book>,
                    structure: seq<FieldKind>, dir: string, pack: string)
    requires i < |rest| && i == IndexFrom(rest, '\n', 0)
    requires before + PackRecords(Lines(rest), structure, dir, pack) == PackRecords(Lines(data), structure, dir, pack)
    requires recs == before + Kept(rest[..i], structure, dir, pack)
    ensures recs + PackRecords(Lines(rest[i + 1..]), structure, dir, pack) == PackRecords(Lines(data), structure, dir, pack)
  {
    ReadStep(rest, i, structure, dir, pack);
    var later := PackRecords(Lines(rest[i + 1..]), structure, dir, pack);
    ConcatAssoc(before, Kept(rest[..i], structure, dir, pack), later);
  }

  /**
   * Regrouping a concatenation. Stated apart so that the step in `ReadAdvance`
   * is taken without the definitions of the records in view.
   */
  lemma ConcatAssoc<T>(a: seq<T>, b: seq<T>, c: seq<T>)
    ensures a + (b + c) == (a + b) + c
  {
  }

  /** One line read: its record, if kept, comes before the records of the rest. */
  lemma ReadStep(rest: string, i: nat, structure: seq<FieldKind>, dir: string, pack: string)
    requires i < |rest| && i == IndexFrom(rest, '\n', 0)
    ensures PackRecords(Lines(rest), structure, dir, pack)
         == Kept(rest[..i], structure, dir, pack) + PackRecords(Lines(rest[i + 1..]), structure, dir, pack)
  {
    LinesNext(rest, i);
    var line := rest[..i];
    var later := Lines(rest[i + 1..]);
    var rs := ParseLines([line] + later, structure);
    ParseLinesAppend([line], later, structure);
    assert rs[0] == ParseLine(line, structure);
    assert rs[1..] == ParseLines(later, structure);
  }

  /**
   * The error an entry stops the reading with, if any: an info file that
   * cannot be read or parsed, or a record file that cannot be read. Unknown
   * entries are never opened, so they never fail.
   */
  function EntryError(e: Entry, setting: Setting): (err: Option<BuildError>)
    ensures Classify(e.name).Unknown? ==> err.None?
    ensures e.body.Unreadable? && !Classify(e.name).Unknown? ==> err.Some?
    ensures Classify(e.name).RecordFile? ==> (err.None? <==> e.body.Contents?)
    ensures Classify(e.name) == VersionInfo && e.body.Contents? ==> (err.None? <==> setting.scanInt(e.body.data).Some?)
    ensures Classify(e.name) == CollectionInfo && e.body.Contents? ==> (err.None? <==> '\n' in e.body.data)
  {
    match Classify(e.name)
    case VersionInfo =>
      if e.body.Unreadable? || setting.scanInt(e.body.data).None? then Some(VersionInfoError) else None
    case CollectionInfo =>
      if e.body.Unreadable? || CollectionName(e.body.data).None? then Some(CollectionInfoError) else None
    case RecordFile(_) =>
      if e.body.Unreadable? then Some(InpError) else None
    case Unknown => None
  }

  /** Each kind of entry fails with its own error: the version, the collection name or a record file. */
  lemma EntryErrorTag(e: Entry, setting: Setting)
    ensures var err := EntryError(e, setting);
      && (Classify(e.name) == VersionInfo && err.Some? ==> err == Some(VersionInfoError))
      && (Classify(e.name) == CollectionInfo && err.Some? ==> err == Some(CollectionInfoError))
      && (Classify(e.name).RecordFile? && err.Some? ==> err == Some(InpError))
  {
  }

  /** What an accepted entry changes in the index. */
  function Apply(idx: Index, e: Entry, setting: Setting): Index
    requires EntryError(e, setting).None?
  {
    match Classify(e.name)
    case VersionInfo => idx.(version := setting.scanInt(e.body.data).value)
    case CollectionInfo => idx.(name := CollectionName(e.body.data).value)
    case RecordFile(pack) =>
      idx.(archives := idx.archives[pack := PackRecords(Lines(e.body.data), setting.structure, setting.dir, pack)])
    case Unknown => idx
  }

  /** One turn of the entry loop. */
  function Step(idx: Index, e: Entry, setting: Setting): Result<Index, BuildError>
  {
    match EntryError(e, setting)
    case Some(err) => Err(err)
    case None => Ok(Apply(idx, e, setting))
  }

  /** The entry loop from the index `start`, as a fold that stops at the first error. */
  function BuildFrom(start: Index, entries: seq<Entry>, setting: Setting): Result<Index, BuildError>
    decreases |entries|
  {
    if entries == [] then Ok(start)
    else
      var n := |entries| - 1;
      var prev := BuildFrom(start, entries[..n], setting);
      if prev.Err? then prev else Step(prev.value, entries[n], setting)
  }

  /** Continues a partial reading with more entries, unless it has already failed. */
  function Then(r: Result<Index, BuildError>, more: seq<Entry>, setting: Setting): Result<Index, BuildError>
  {
    if r.Err? then r else BuildFrom(r.value, more, setting)
  }

  /** Reading `a + b` is reading `a`, then going on with `b`. */
  lemma {:induction false} BuildAppend(start: Index, a: seq<Entry>, b: seq<Entry>, setting: Setting)
    ensures BuildFrom(start, a + b, setting) == Then(BuildFrom(start, a, setting), b, setting)
    decreases |b|
  {
    if b == [] {
      assert a + b == a;
    } else {
      var n := |b| - 1;
      assert (a + b)[..|a| + n] == a + b[..n];
      assert (a + b)[|a| + n] == b[n];
      BuildAppend(start, a, b[..n], setting);
    }
  }

  /** Once an entry has failed, later entries change nothing. */
  lemma ErrorSticks(start: Index, a: seq<Entry>, b: seq<Entry>, setting: Setting)
    requires BuildFrom(start, a, setting).Err?
    ensures BuildFrom(start, a + b, setting) == BuildFrom(start, a, setting)
  {
    BuildAppend(start, a, b, setting);
  }

  /** An unknown entry, wherever it stands, changes nothing. */
  lemma SkipUnknown(start: Index, a: seq<Entry>, e: Entry, b: seq<Entry>, setting: Setting)
    requires Classify(e.name) == Unknown
    ensures BuildFrom(start, a + [e] + b, setting) == BuildFrom(start, a + b, setting)
  {
    BuildAppend(start, a + [e], b, setting);
    BuildAppend(start, a, b, setting);
    assert (a + [e])[..|a|] == a;
  }

  /** Reading succeeds exactly when every entry is accepted. */
  lemma {:induction false} BuildAccepts(start: Index, entries: seq<Entry>, setting: Setting)
    ensures BuildFrom(start, entries, setting).Ok?
        <==> forall i | 0 <= i < |entries| :: EntryError(entries[i], setting).None?
    decreases |entries|
  {
    if entries != [] {
      var n := |entries| - 1;
      BuildAccepts(start, entries[..n], setting);
      assert forall i | 0 <= i < n :: entries[..n][i] == entries[i];
    }
  }

  /** Entry `j` is the first one rejected. */
  predicate FirstRejected(entries: seq<Entry>, setting: Setting, j: int)
  {
    && 0 <= j < |entries|
    && EntryError(entries[j], setting).Some?
    && forall i | 0 <= i < j :: EntryError(entries[i], setting).None?
  }

  /** A failed reading reports the error of the first rejected entry. */
  lemma {:induction false} BuildFirstError(start: Index, entries: seq<Entry>, setting: Setting)
    requires BuildFrom(start, entries, setting).Err?
    ensures exists j :: FirstRejected(entries, setting, j)
              && BuildFrom(start, entries, setting).error == EntryError(entries[j], setting).value
    decreases |entries|
  {
    var n := |entries| - 1;
    var prev := BuildFrom(start, entries[..n], setting);
    if prev.Err? {
      BuildFirstError(start, entries[..n], setting);
      var j :| FirstRejected(entries[..n], setting, j) && prev.error == EntryError(entries[..n][j], setting).value;
      assert forall i | 0 <= i < j :: entries[..n][i] == entries[i];
      assert FirstRejected(entries, setting, j);
    } else {
      BuildAccepts(start, entries[..n], setting);
      assert forall i | 0 <= i < n :: entries[..n][i] == entries[i];
      assert FirstRejected(entries, setting, n);
    }
  }

  /** The kind of each entry, in order. */
  function Kinds(entries: seq<Entry>): (ks: seq<EntryKind>)
    ensures |ks| == |entries|
  {
    seq(|entries|, i requires 0 <= i < |entries| => Classify(entries[i].name))
  }

  /** The position of the last entry of kind `kind`, if any. */
  function LastOf(entries: seq<Entry>, kind: EntryKind): (r: Option<nat>)
    ensures r.Some? ==> r.value < |entries| && Classify(entries[r.value].name) == kind
    ensures r.Some? ==> forall j | r.value < j < |entries| :: Classify(entries[j].name) != kind
    ensures r.None? ==> forall j | 0 <= j < |entries| :: Classify(entries[j].name) != kind
  {
    var ks := Kinds(entries);
    var r := LastIn(ks, kind);
    assert forall j | 0 <= j < |entries| :: ks[j] == Classify(entries[j].name);
    r
  }

  /** A map lookup that may miss. */
  function Lookup<K, V>(m: map<K, V>, k: K): (r: Option<V>)
    ensures r.Some? <==> k in m
    ensures r.Some? ==> r.value == m[k]
  {
    if k in m then Some(m[k]) else None
  }

  /**
   * After a successful reading, archive `pack` holds the records of the last
   * `<pack>.inp` entry, even one without any record; with no such entry it is
   * whatever the starting index held.
   */
  lemma {:induction false} BuildArchive(start: Index, entries: seq<Entry>, setting: Setting, pack: string)
    requires BuildFrom(start, entries, setting).Ok?
    ensures var archives := BuildFrom(start, entries, setting).value.archives;
      match LastOf(entries, RecordFile(pack))
      case None => Lookup(archives, pack) == Lookup(start.archives, pack)
      case Some(i) => Lookup(archives, pack) == Some(PackRecords(Lines(Data(entries[i].body)), setting.structure, setting.dir, pack))
    decreases |entries|
  {
    if entries != [] {
      var n := |entries| - 1;
      var prev := BuildFrom(start, entries[..n], setting);
      BuildArchive(start, entries[..n], setting, pack);
      assert BuildFrom(start, entries, setting) == Step(prev.value, entries[n], setting);
      ApplyArchive(prev.value, entries[n], setting, pack);
      if Classify(entries[n].name) != RecordFile(pack) {
        LastOfInit(entries, RecordFile(pack));
      }
    }
  }

  /** An accepted entry replaces archive `pack` when it is `<pack>.inp`, and leaves it alone otherwise. */
  lemma ApplyArchive(idx: Index, e: Entry, setting: Setting, pack: string)
    requires EntryError(e, setting).None?
    ensures var archives := Apply(idx, e, setting).archives;
      if Classify(e.name) == RecordFile(pack)
      then Lookup(archives, pack) == Some(PackRecords(Lines(Data(e.body)), setting.structure, setting.dir, pack))
      else Lookup(archives, pack) == Lookup(idx.archives, pack)
  {
  }

  /** Without a match at the end, the last match is the last match of the rest. */
  lemma LastOfInit(entries: seq<Entry>, kind: EntryKind)
    requires entries != [] && Classify(entries[|entries| - 1].name) != kind
    ensures LastOf(entries, kind) == LastOf(entries[..|entries| - 1], kind)
  {
    var n := |entries| - 1;
    var ks := Kinds(entries);
    assert ks[n] != kind;
    assert Kinds(entries[..n]) == ks[..n];
  }

  /** After a successful reading the version is the one of the last `version.info`, else the starting one. */
  lemma {:induction false} BuildVersion(start: Index, entries: seq<Entry>, setting: Setting)
    requires BuildFrom(start, entries, setting).Ok?
    ensures var idx := BuildFrom(start, entries, setting).value;
      match LastOf(entries, VersionInfo)
      case None => idx.version == start.version
      case Some(i) => setting.scanInt(Data(entries[i].body)) == Some(idx.version)
    decreases |entries|
  {
    if entries != [] {
      var n := |entries| - 1;
      BuildVersion(start, entries[..n], setting);
      if Classify(entries[n].name) != VersionInfo {
        LastOfInit(entries, VersionInfo);
      }
    }
  }

  /** After a successful reading the name is the one of the last `collection.info`, else the starting one. */
  lemma {:induction false} BuildName(start: Index, entries: seq<Entry>, setting: Setting)
    requires BuildFrom(start, entries, setting).Ok?
    ensures var idx := BuildFrom(start, entries, setting).value;
      match LastOf(entries, CollectionInfo)
      case None => idx.name == start.name
      case Some(i) => CollectionName(Data(entries[i].body)) == Some(idx.name)
    decreases |entries|
  {
    if entries != [] {
      var n := |entries| - 1;
      BuildName(start, entries[..n], setting);
      if Classify(entries[n].name) != CollectionInfo {
        LastOfInit(entries, CollectionInfo);
      }
    }
  }

  /** Every record of archive `pack` is stamped with the directory and `pack`. */
  ghost predicate Stamped(idx: Index, dir: string)
  {
    forall pack, b | pack in idx.archives && b in idx.archives[pack] :: b.file.dir == dir && b.file.archive == pack
  }

  /** Reading keeps every archive stamped. */
  lemma {:induction false} BuildStamped(start: Index, entries: seq<Entry>, setting: Setting)
    requires Stamped(start, setting.dir)
    requires BuildFrom(start, entries, setting).Ok?
    ensures Stamped(BuildFrom(start, entries, setting).value, setting.dir)
    decreases |entries|
  {
    if entries != [] {
      var n := |entries| - 1;
      BuildStamped(start, entries[..n], setting);
    }
  }

  /** `OpenWithStructure`, past the opening of the archive: reads the entries in order, stopping at the first error. */
  method OpenWithStructure(entries: seq<Entry>, dir: string, structure: seq<FieldKind>, scanInt: string -> Option<int>)
    returns (r: Result<Index, BuildError>)
    ensures r == BuildFrom(EmptyIndex, entries, Setting(dir, structure, scanInt))
  {
    var setting := Setting(dir, structure, scanInt);
    var idx := EmptyIndex;
    var i := 0;
    while i < |entries|
      invariant 0 <= i <= |entries|
      invariant BuildFrom(EmptyIndex, entries[..i], setting) == Ok(idx)
    {
      var step := ReadEntry(idx, entries[i], setting);
      assert entries[..i + 1][..i] == entries[..i];
      if step.Err? {
        ErrorSticks(EmptyIndex, entries[..i + 1], entries[i + 1..], setting);
        assert entries[..i + 1] + entries[i + 1..] == entries;
        return step;
      }
      idx := step.value;
      i := i + 1;
    }
    assert entries[..i] == entries;
    r := Ok(idx);
  }

  /** The body of the entry loop: dispatch on the name, then read the entry. */
  method ReadEntry(idx: Index, e: Entry, setting: Setting) returns (r: Result<Index, BuildError>)
    ensures r == Step(idx, e, setting)
  {
    match Classify(e.name)
    case VersionInfo =>
      if e.body.Unreadable? {
        return Err(VersionInfoError);
      }
      match setting.scanInt(e.body.data) {
        case None => r := Err(VersionInfoError);
        case Some(v) => r := Ok(idx.(version := v));
      }
    case CollectionInfo =>
      if e.body.Unreadable? {
        return Err(CollectionInfoError);
      }
      match CollectionName(e.body.data) {
        case None => r := Err(CollectionInfoError);
        case Some(name) => r := Ok(idx.(name := name));
      }
    case RecordFile(pack) =>
      if e.body.Unreadable? {
        return Err(InpError);
      }
      var recs := ReadRecords(e.body.data, setting.structure, setting.dir, pack);
      r := Ok(idx.(archives := idx.archives[pack := recs]));
    case Unknown =>
      r := Ok(idx);
  }

  /** `Open`: `OpenWithStructure` with the default structure. */
  method Open(entries: seq<Entry>, dir: string, scanInt: string -> Option<int>) returns (r: Result<Index, BuildError>)
    ensures r == BuildFrom(EmptyIndex, entries, Setting(dir, DefaultStructure, scanInt))
  {
    r := OpenWithStructure(entries, dir, DefaultStructure, scanInt);
  }

  /** Why a book's file could not be opened. */
  datatype OpenError = ArchiveUnavailable | EntryUnavailable | NotExist

  /** The name of a book's file inside its archive. */
  function EntryName(f: File): string
  {
    f.name + "." + f.ext
  }

  /** Position of the first entry called `name`. */
  function FindEntry(entries: seq<Entry>, name: string): (r: Option<nat>)
    ensures r.Some? ==> r.value < |entries| && entries[r.value].name == name
    ensures r.Some? ==> forall j | 0 <= j < r.value :: entries[j].name != name
    ensures r.None? ==> forall j | 0 <= j < |entries| :: entries[j].name != name
    decreases |entries|
  {
    if entries == [] then None
    else if entries[0].name == name then Some(0)
    else
      match FindEntry(entries[1..], name)
      case None => None
      case Some(i) => Some(i + 1)
  }

  /**
   * `File.Open`: in the entries of the book's archive (none when the archive
   * cannot be opened) the first entry named `<name>.<ext>` is opened; with no
   * such entry the file does not exist.
   */
  function OpenBook(f: File, archive: Option<seq<Entry>>): (r: Result<string, OpenError>)
    ensures archive.None? ==> r == Err(ArchiveUnavailable)
    ensures archive.Some? ==> r != Err(ArchiveUnavailable)
    ensures archive.Some? ==> (r == Err(NotExist) <==> forall e | e in archive.value :: e.name != EntryName(f))
    ensures r.Ok? || r == Err(EntryUnavailable) ==>
              exists i :: FirstNamed(archive.value, EntryName(f), i)
                       && archive.value[i].body == (if r.Ok? then Contents(r.value) else Unreadable)
  {
    match archive
    case None => Err(ArchiveUnavailable)
    case Some(entries) =>
      match FindEntry(entries, EntryName(f))
      case None => Err(NotExist)
      case Some(i) =>
        assert FirstNamed(entries, EntryName(f), i);
        match entries[i].body
        case Contents(data) => Ok(data)
        case Unreadable => Err(EntryUnavailable)
  }

  /** Entry `i` is the first one called `name`. */
  predicate FirstNamed(entries: seq<Entry>, name: string, i: int)
  {
    0 <= i < |entries| && entries[i].name == name && forall j | 0 <= j < i :: entries[j].name != name
  }

  /** A later entry of the same name is never reached. */
  lemma OpenBookFirst(f: File, before: seq<Entry>, body: Body, after: seq<Entry>)
    requires forall e | e in before :: e.name != EntryName(f)
    ensures OpenBook(f, Some(before + [Entry(EntryName(f), body)] + after))
         == if body.Contents? then Ok(body.data) else Err(EntryUnavailable)
  {
    var entries := before + [Entry(EntryName(f), body)] + after;
    assert entries[|before|].name == EntryName(f);
    assert forall j | 0 <= j < |before| :: entries[j] == before[j];
    assert FirstNamed(entries, EntryName(f), |before|);
  }
}
