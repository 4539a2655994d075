/**
 * Decoding one `.inp` record: the field kinds and the structure that lays
 * them out, the per-kind coercions, and the assembly of a `Book` that keeps
 * the first coercion error next to whatever was decoded.
 */
module Records {
  import opened Wrappers
  import opened Text
  import opened Tokenizer
  import opened Numbers

  /** The kinds of field an `.inp` line can hold, in the order of their codes. */
  datatype FieldKind =
    | FieldAuthor | FieldGenre | FieldTitle | FieldSeries | FieldSeriesNum
    | FieldFileName | FieldFileSize | FieldLibId | FieldDeleted | FieldExt
    | FieldDate | FieldLang | FieldLibRate | FieldKeywords

  /** The integer constant of each kind (Go's `iota` sequence). */
  function Code(k: FieldKind): (c: nat)
    ensures c < |DefaultStructure|
  {
    match k
    case FieldAuthor => 0
    case FieldGenre => 1
    case FieldTitle => 2
    case FieldSeries => 3
    case FieldSeriesNum => 4
    case FieldFileName => 5
    case FieldFileSize => 6
    case FieldLibId => 7
    case FieldDeleted => 8
    case FieldExt => 9
    case FieldDate => 10
    case FieldLang => 11
    case FieldLibRate => 12
    case FieldKeywords => 13
  }

  /** The field order an `.inp` file uses unless told otherwise. */
  const DefaultStructure: seq<FieldKind> := [
    FieldAuthor, FieldGenre, FieldTitle, FieldSeries, FieldSeriesNum,
    FieldFileName, FieldFileSize, FieldLibId, FieldDeleted, FieldExt, FieldDate, FieldLang,
    FieldLibRate, FieldKeywords
  ]

  /** An author: the comma-separated parts of the name, in their order. */
  datatype Author = Author(name: seq<string>)

  /** Where a book's payload lives: `<name>.<ext>` inside `<dir>/<archive>.zip`. */
  datatype File = File(name: string, ext: string, dir: string, archive: string, size: int)

  /** One catalogue record. Keywords and the library rating are decoded but not kept. */
  datatype Book = Book(
    authors: seq<Author>,
    genres: seq<string>,
    title: string,
    series: string,
    seriesNum: int,
    file: File,
    libId: int,
    deleted: bool,
    date: Date,
    lang: string)

  /** Go's `Book{}`. */
  const ZeroBook: Book := Book([], [], "", "", 0, File("", "", "", "", 0), 0, false, ZeroDate, "")

  datatype DecodeError =
    | WrongFieldsCount(count: nat)   // fewer tokens than the structure has kinds
    | IntSyntax(text: string)        // an integer field that `strconv.Atoi` rejects
    | DateSyntax(text: string)       // a date field that `time.Parse` rejects

  /** A decoded value together with the error met while decoding it, if any. */
  datatype Decoded<T> = Decoded(value: T, err: Option<DecodeError>)

  /** The value of one decoded field, one alternative per Go type a kind decodes to. */
  datatype Value =
    | AuthorsValue(authors: seq<Author>)
    | ListValue(items: seq<string>)
    | TextValue(text: string)
    | IntValue(n: int)
    | BoolValue(b: bool)
    | DateValue(date: Date)

  /** The alternative of `Value` each kind decodes to. */
  predicate WellTyped(k: FieldKind, v: Value)
  {
    match k
    case FieldAuthor => v.AuthorsValue?
    case FieldGenre | FieldKeywords => v.ListValue?
    case FieldSeriesNum | FieldFileSize | FieldLibId => v.IntValue?
    case FieldDeleted => v.BoolValue?
    case FieldDate => v.DateValue?
    case _ => v.TextValue?
  }

  /**
   * `toStr`: drops one trailing `:` if there is one, then surrounding white
   * space. A token ending in `::` keeps one colon.
   */
  function ToStr(token: string): (s: string)
    ensures Bare(s, Spaces)
    ensures forall c | c in s :: c in token
  {
    var cur := DropColon(token);
    SliceChars(token, 0, |cur|);
    TrimSpace(cur)
  }

  /** `toStr` removes white space, and nothing else, around the token without its colon. */
  lemma ToStrTrims(token: string)
    ensures Trimmed(DropColon(token), ToStr(token), Spaces)
  {
    TrimTrims(DropColon(token), Spaces);
  }

  /** The token without its last character when that is a colon. */
  function DropColon(token: string): (cur: string)
    ensures token != [] && token[|token| - 1] == ':' ==> cur + ":" == token
    ensures token == [] || token[|token| - 1] != ':' ==> cur == token
  {
    if token != [] && token[|token| - 1] == ':' then token[..|token| - 1] else token
  }

  /**
   * `toInt`: a blank token is 0 without error; otherwise `strconv.Atoi`, whose
   * failure is reported and leaves the value 0.
   */
  function ToInt(token: string): (r: Decoded<int>)
    ensures r.err.Some? ==> r.value == 0 && r.err == Some(IntSyntax(ToStr(token)))
    ensures r.err.Some? <==> ToStr(token) != [] && ParseInt(ToStr(token)).None?
    ensures r.err.None? && ToStr(token) != [] ==> ParseInt(ToStr(token)) == Some(r.value)
    ensures ToStr(token) == [] ==> r == Decoded(0, None)
  {
    var s := ToStr(token);
    if s == [] then Decoded(0, None)
    else match ParseInt(s)
      case Some(v) => Decoded(v, None)
      case None => Decoded(0, Some(IntSyntax(s)))
  }

  /**
   * `toDate`: a blank token is the zero date without error; otherwise the
   * layout `2006-01-02`, whose failure is reported and leaves the zero date.
   */
  function ToDate(token: string): (r: Decoded<Date>)
    ensures r.err.Some? ==> r.value == ZeroDate && r.err == Some(DateSyntax(ToStr(token)))
    ensures r.err.Some? <==> ToStr(token) != [] && ParseDate(ToStr(token)).None?
    ensures r.err.None? && ToStr(token) != [] ==> ParseDate(ToStr(token)) == Some(r.value)
    ensures ToStr(token) == [] ==> r == Decoded(ZeroDate, None)
  {
    var s := ToStr(token);
    if s == [] then Decoded(ZeroDate, None)
    else match ParseDate(s)
      case Some(d) => Decoded(d, None)
      case None => Decoded(ZeroDate, Some(DateSyntax(s)))
  }

  /** Each part with its surrounding white space removed. */
  function TrimEach(parts: seq<string>): (trimmed: seq<string>)
    ensures |trimmed| == |parts|
    ensures forall i | 0 <= i < |parts| :: trimmed[i] == TrimSpace(parts[i])
  {
    seq(|parts|, i requires 0 <= i < |parts| => TrimSpace(parts[i]))
  }

  /**
   * The author list of an already `toStr`-ed token: one author per
   * colon-separated segment, each segment cut by `splitName` into trimmed parts.
   */
  function DecodeAuthors(s: string): (authors: seq<Author>)
    ensures |authors| == |Split(s, ':')|
    ensures forall i | 0 <= i < |authors| ::
              authors[i].name == TrimEach(SplitName(Split(s, ':')[i]))
  {
    AuthorsOf(Split(s, ':'))
  }

  /** One author per segment, in order. */
  function AuthorsOf(segments: seq<string>): (authors: seq<Author>)
    ensures |authors| == |segments|
    ensures forall i | 0 <= i < |segments| :: authors[i].name == TrimEach(SplitName(segments[i]))
  {
    seq(|segments|, i requires 0 <= i < |segments| => Author(TrimEach(SplitName(segments[i]))))
  }

  lemma AuthorsOfCons(x: string, more: seq<string>)
    ensures AuthorsOf([x] + more) == [Author(TrimEach(SplitName(x)))] + AuthorsOf(more)
  {
    var segs := [x] + more;
    var whole := AuthorsOf(segs);
    var parts := [Author(TrimEach(SplitName(x)))] + AuthorsOf(more);
    forall i | 0 <= i < |whole|
      ensures whole[i] == parts[i]
    {
      if i > 0 {
        assert segs[i] == more[i - 1];
      }
    }
  }

  /**
   * Every name part is trimmed and holds neither separator: no colon (authors
   * are cut at colons) and no comma (parts are cut at commas).
   */
  lemma AuthorPartsClean(s: string)
    ensures forall a, p | a in DecodeAuthors(s) && p in a.name ::
              ',' !in p && ':' !in p && Bare(p, Spaces)
  {
    var segments := Split(s, ':');
    var authors := DecodeAuthors(s);
    forall a, p | a in authors && p in a.name
      ensures ',' !in p && ':' !in p && Bare(p, Spaces)
    {
      var i :| 0 <= i < |authors| && authors[i] == a;
      assert segments[i] in segments;
      NamePartClean(segments[i], p);
    }
  }

  /** A trimmed name part of a colon-free segment holds no separator. */
  lemma NamePartClean(segment: string, p: string)
    requires ':' !in segment
    requires p in TrimEach(SplitName(segment))
    ensures ',' !in p && ':' !in p && Bare(p, Spaces)
  {
    var parts := SplitName(segment);
    var j :| 0 <= j < |parts| && TrimEach(parts)[j] == p;
    var raw := parts[j];
    assert p == TrimSpace(raw);
    assert raw in parts;
    SplitByParts(segment, ',', raw);
  }

  /**
   * One field of a record, coerced by kind: authors, colon-separated genres,
   * comma-separated keywords, integers, the deleted flag (an integer compared
   * with zero), the date, and plain text for every other kind. Only integer
   * and date fields can fail, and a blank token never fails.
   */
  function DecodeField(kind: FieldKind, token: string): (d: Decoded<Value>)
    ensures WellTyped(kind, d.value)
    ensures d.err.Some? ==> kind in {FieldSeriesNum, FieldFileSize, FieldLibId, FieldDeleted, FieldDate}
    ensures ToStr(token) == [] ==> d.err.None?
  {
    var s := ToStr(token);
    match kind
    case FieldAuthor => Decoded(AuthorsValue(DecodeAuthors(s)), None)
    case FieldGenre => Decoded(ListValue(Split(s, ':')), None)
    case FieldDeleted =>
      var n := ToInt(token);
      Decoded(BoolValue(n.value != 0), n.err)
    case FieldDate =>
      var t := ToDate(token);
      Decoded(DateValue(t.value), t.err)
    case FieldSeriesNum | FieldFileSize | FieldLibId =>
      var n := ToInt(token);
      Decoded(IntValue(n.value), n.err)
    case FieldKeywords => Decoded(ListValue(Split(s, ',')), None)
    case _ => Decoded(TextValue(s), None)
  }

  /**
   * Genres are cut at colons and keywords at commas, and the pieces are not
   * trimmed: put back together with their separator they give the whole
   * `toStr`-ed token, spaces included.
   */
  lemma ListFieldPieces(k: FieldKind, token: string)
    requires k == FieldGenre || k == FieldKeywords
    ensures var sep := if k == FieldGenre then ':' else ',';
      var d := DecodeField(k, token);
      && d.err.None?
      && Join(d.value.items, sep) == ToStr(token)
      && forall p | p in d.value.items :: sep !in p
  {
    var sep := if k == FieldGenre then ':' else ',';
    assert DecodeField(k, token).value.items == Split(ToStr(token), sep);
    JoinSplit(ToStr(token), sep);
  }

  /** The kinds a `Book` keeps; the library rating and the keywords are dropped. */
  predicate Stored(k: FieldKind)
  {
    k != FieldLibRate && k != FieldKeywords
  }

  /** Reads back the attribute of `b` that kind `k` fills. */
  function Field(b: Book, k: FieldKind): (v: Value)
    requires Stored(k)
    ensures WellTyped(k, v)
  {
    match k
    case FieldAuthor => AuthorsValue(b.authors)
    case FieldGenre => ListValue(b.genres)
    case FieldTitle => TextValue(b.title)
    case FieldSeries => TextValue(b.series)
    case FieldSeriesNum => IntValue(b.seriesNum)
    case FieldFileName => TextValue(b.file.name)
    case FieldFileSize => IntValue(b.file.size)
    case FieldLibId => IntValue(b.libId)
    case FieldDeleted => BoolValue(b.deleted)
    case FieldExt => TextValue(b.file.ext)
    case FieldDate => DateValue(b.date)
    case FieldLang => TextValue(b.lang)
  }

  /**
   * `setField`, with an explicit choice of attribute per kind in place of
   * reflection: the attribute of kind `k` becomes `v` and nothing else changes.
   */
  function SetField(b: Book, k: FieldKind, v: Value): (r: Book)
    requires Stored(k) && WellTyped(k, v)
    ensures Field(r, k) == v
    ensures forall j | Stored(j) && j != k :: Field(r, j) == Field(b, j)
    ensures r.file.dir == b.file.dir && r.file.archive == b.file.archive
  {
    match k
    case FieldAuthor => b.(authors := v.authors)
    case FieldGenre => b.(genres := v.items)
    case FieldTitle => b.(title := v.text)
    case FieldSeries => b.(series := v.text)
    case FieldSeriesNum => b.(seriesNum := v.n)
    case FieldFileName => b.(file := b.file.(name := v.text))
    case FieldFileSize => b.(file := b.file.(size := v.n))
    case FieldLibId => b.(libId := v.n)
    case FieldDeleted => b.(deleted := v.b)
    case FieldExt => b.(file := b.file.(ext := v.text))
    case FieldDate => b.(date := v.date)
    case FieldLang => b.(lang := v.text)
  }

  /** Two books that agree on every stored attribute and on the file's location are equal. */
  lemma BookEquality(a: Book, b: Book)
    requires forall k | Stored(k) :: Field(a, k) == Field(b, k)
    requires a.file.dir == b.file.dir && a.file.archive == b.file.archive
    ensures a == b
  {
    assert Field(a, FieldAuthor) == Field(b, FieldAuthor);
    assert Field(a, FieldGenre) == Field(b, FieldGenre);
    assert Field(a, FieldTitle) == Field(b, FieldTitle);
    assert Field(a, FieldSeries) == Field(b, FieldSeries);
    assert Field(a, FieldSeriesNum) == Field(b, FieldSeriesNum);
    assert Field(a, FieldFileName) == Field(b, FieldFileName);
    assert Field(a, FieldFileSize) == Field(b, FieldFileSize);
    assert Field(a, FieldLibId) == Field(b, FieldLibId);
    assert Field(a, FieldDeleted) == Field(b, FieldDeleted);
    assert Field(a, FieldExt) == Field(b, FieldExt);
    assert Field(a, FieldDate) == Field(b, FieldDate);
    assert Field(a, FieldLang) == Field(b, FieldLang);
  }

  /** The order of `fieldsToBook`'s `setField` calls, which copy decoded values into the record. */
  const SetOrder: seq<FieldKind> := [
    FieldAuthor, FieldGenre, FieldTitle, FieldSeries, FieldSeriesNum,
    FieldFileName, FieldFileSize, FieldExt, FieldLibId, FieldDeleted, FieldDate, FieldLang
  ]

  lemma StoredInSetOrder(k: FieldKind)
    requires Stored(k)
    ensures k in SetOrder
  {
    match k {
      case FieldAuthor => assert SetOrder[0] == k;
      case FieldGenre => assert SetOrder[1] == k;
      case FieldTitle => assert SetOrder[2] == k;
      case FieldSeries => assert SetOrder[3] == k;
      case FieldSeriesNum => assert SetOrder[4] == k;
      case FieldFileName => assert SetOrder[5] == k;
      case FieldFileSize => assert SetOrder[6] == k;
      case FieldExt => assert SetOrder[7] == k;
      case FieldLibId => assert SetOrder[8] == k;
      case FieldDeleted => assert SetOrder[9] == k;
      case FieldDate => assert SetOrder[10] == k;
      case FieldLang => assert SetOrder[11] == k;
      case FieldLibRate =>
      case FieldKeywords =>
    }
  }

  predicate WellTypedMap(fm: map<FieldKind, Value>)
  {
    forall k | k in fm :: WellTyped(k, fm[k])
  }

  /** Copies into `b`, for each of `kinds` in turn, the value `fm` holds for it, if any. */
  function SetAll(b: Book, fm: map<FieldKind, Value>, kinds: seq<FieldKind>): (r: Book)
    requires WellTypedMap(fm)
    requires forall k | k in kinds :: Stored(k)
    ensures forall k | Stored(k) :: Field(r, k) == if k in kinds && k in fm then fm[k] else Field(b, k)
    ensures r.file.dir == b.file.dir && r.file.archive == b.file.archive
    decreases |kinds|
  {
    if kinds == [] then b
    else
      var k := kinds[0];
      assert kinds == [k] + kinds[1..];
      SetAll(if k in fm then SetField(b, k, fm[k]) else b, fm, kinds[1..])
  }

  /**
   * The record built from the decoded fields: every stored kind present in the
   * map overwrites its attribute, every other attribute keeps its zero value.
   */
  function Assemble(fm: map<FieldKind, Value>): (b: Book)
    requires WellTypedMap(fm)
    ensures forall k | Stored(k) :: Field(b, k) == if k in fm then fm[k] else Field(ZeroBook, k)
    ensures b.file.dir == [] && b.file.archive == []
  {
    assert forall k | Stored(k) :: k in SetOrder by {
      forall k | Stored(k) ensures k in SetOrder {
        StoredInSetOrder(k);
      }
    }
    SetAll(ZeroBook, fm, SetOrder)
  }

  /** The last position of `k` in the structure: a repeated kind takes its last token. */
  function LastIndex(structure: seq<FieldKind>, k: FieldKind): (j: nat)
    requires k in structure
    ensures j < |structure| && structure[j] == k
    ensures forall i | j < i < |structure| :: structure[i] != k
  {
    LastIn(structure, k).value
  }

  /** The value decoded at each structure position, in order. */
  function Values(structure: seq<FieldKind>, fields: seq<string>): (vals: seq<Value>)
    requires |structure| <= |fields|
    ensures |vals| == |structure|
  {
    seq(|structure|, j requires 0 <= j < |structure| => DecodeField(structure[j], fields[j]).value)
  }

  /**
   * The field map the decoding loop fills from the values of the positions:
   * each kind of the structure, with the value at its last position.
   */
  function DecodeMap(structure: seq<FieldKind>, vals: seq<Value>): (fm: map<FieldKind, Value>)
    requires |structure| == |vals|
    ensures forall k :: k in fm <==> k in structure
    ensures forall k | k in fm :: fm[k] == vals[LastIndex(structure, k)]
    decreases |structure|
  {
    if structure == [] then map[]
    else
      var n := |structure| - 1;
      assert structure == structure[..n] + [structure[n]];
      DecodeMap(structure[..n], vals[..n])[structure[n] := vals[n]]
  }

  /** Decoded values give a map whose every value fits its kind. */
  lemma DecodeMapTyped(structure: seq<FieldKind>, fields: seq<string>)
    requires |structure| <= |fields|
    ensures WellTypedMap(DecodeMap(structure, Values(structure, fields)))
  {
    var vals := Values(structure, fields);
    var fm := DecodeMap(structure, vals);
    forall k | k in fm
      ensures WellTyped(k, fm[k])
    {
      var j := LastIndex(structure, k);
      assert fm[k] == DecodeField(structure[j], fields[j]).value;
    }
  }

  /** The coercion outcome of each structure position, in order. */
  function Errors(structure: seq<FieldKind>, fields: seq<string>): (errs: seq<Option<DecodeError>>)
    requires |structure| <= |fields|
    ensures |errs| == |structure|
  {
    seq(|structure|, j requires 0 <= j < |structure| => DecodeField(structure[j], fields[j]).err)
  }

  /** The error the decoding loop keeps: the first one met; later ones are ignored. */
  function FirstSome<T>(xs: seq<Option<T>>): Option<T>
    decreases |xs|
  {
    if xs == [] then None
    else
      var e := FirstSome(xs[..|xs| - 1]);
      if e.Some? then e else xs[|xs| - 1]
  }

  /** Position `j` holds the first error. */
  predicate FirstSomeAt<T>(xs: seq<Option<T>>, j: int)
  {
    0 <= j < |xs| && xs[j].Some? && forall i | 0 <= i < j :: xs[i].None?
  }

  /** There is no error to keep exactly when no position failed. */
  lemma {:induction false} FirstSomeNone<T>(xs: seq<Option<T>>)
    ensures FirstSome(xs).None? <==> forall j | 0 <= j < |xs| :: xs[j].None?
    decreases |xs|
  {
    if xs != [] {
      var n := |xs| - 1;
      FirstSomeNone(xs[..n]);
      assert forall j | 0 <= j < n :: xs[..n][j] == xs[j];
    }
  }

  /** The error kept is the one of the first failing position. */
  lemma {:induction false} FirstSomeFirst<T>(xs: seq<Option<T>>)
    ensures FirstSome(xs).Some? ==> exists j :: FirstSomeAt(xs, j) && FirstSome(xs) == xs[j]
    decreases |xs|
  {
    if xs != [] {
      var n := |xs| - 1;
      var init := xs[..n];
      FirstSomeFirst(init);
      if FirstSome(init).Some? {
        var j :| FirstSomeAt(init, j) && FirstSome(init) == init[j];
        assert forall i | 0 <= i < j :: init[i] == xs[i];
        assert FirstSomeAt(xs, j);
      } else if xs[n].Some? {
        FirstSomeNone(init);
        assert forall i | 0 <= i < n :: init[i] == xs[i];
        assert FirstSomeAt(xs, n);
      }
    }
  }

  /** An error at the first position is the one kept. */
  lemma FirstSomeHead<T>(xs: seq<Option<T>>)
    requires xs != [] && xs[0].Some?
    ensures FirstSome(xs) == xs[0]
  {
    FirstSomeNone(xs);
    FirstSomeFirst(xs);
    var j :| FirstSomeAt(xs, j) && FirstSome(xs) == xs[j];
  }

  /**
   * `fieldsToBook`: too few tokens is an immediate error with the zero record;
   * otherwise the structure's kinds take tokens position by position, extra
   * tokens are ignored, and the assembled record comes back with the first
   * coercion error, if any, even though the record is filled in.
   */
  function FieldsToBook(fields: seq<string>, structure: seq<FieldKind>): (r: Decoded<Book>)
    ensures |fields| < |structure| ==> r == Decoded(ZeroBook, Some(WrongFieldsCount(|fields|)))
    ensures r.value.file.dir == [] && r.value.file.archive == []
  {
    if |fields| < |structure| then Decoded(ZeroBook, Some(WrongFieldsCount(|fields|)))
    else
      DecodeMapTyped(structure, fields);
      Decoded(Assemble(DecodeMap(structure, Values(structure, fields))), FirstSome(Errors(structure, fields)))
  }

  /**
   * With enough tokens, each stored kind of the structure is decoded from the
   * token at its (last) position, and every other attribute keeps its zero value.
   */
  lemma FieldsToBookFields(fields: seq<string>, structure: seq<FieldKind>)
    requires |fields| >= |structure|
    ensures forall k | Stored(k) ::
              Field(FieldsToBook(fields, structure).value, k)
              == if k in structure then DecodeField(k, fields[LastIndex(structure, k)]).value else Field(ZeroBook, k)
  {
    var vals := Values(structure, fields);
    var fm := DecodeMap(structure, vals);
    assert FieldsToBook(fields, structure).value == Assemble(fm);
    forall k | k in structure
      ensures fm[k] == DecodeField(k, fields[LastIndex(structure, k)]).value
    {
      var j := LastIndex(structure, k);
      assert vals[j] == DecodeField(structure[j], fields[j]).value;
    }
  }

  /** With enough tokens, decoding reports no error exactly when no position fails. */
  lemma FieldsToBookNoError(fields: seq<string>, structure: seq<FieldKind>)
    requires |fields| >= |structure|
    ensures FieldsToBook(fields, structure).err.None?
        <==> forall j | 0 <= j < |structure| :: DecodeField(structure[j], fields[j]).err.None?
  {
    var errs := Errors(structure, fields);
    assert FieldsToBook(fields, structure).err == FirstSome(errs);
    FirstSomeNone(errs);
    forall j | 0 <= j < |structure|
      ensures errs[j].None? <==> DecodeField(structure[j], fields[j]).err.None?
    {
      assert errs[j] == DecodeField(structure[j], fields[j]).err;
    }
  }

  /** A failed decoding reports the error of the first failing position. */
  lemma FieldsToBookFirstError(fields: seq<string>, structure: seq<FieldKind>)
    requires |fields| >= |structure|
    requires FieldsToBook(fields, structure).err.Some?
    ensures exists j :: FirstSomeAt(Errors(structure, fields), j)
              && FieldsToBook(fields, structure).err == DecodeField(structure[j], fields[j]).err
  {
    var errs := Errors(structure, fields);
    var e := FieldsToBook(fields, structure).err;
    assert e == FirstSome(errs);
    FirstSomeFirst(errs);
    var j :| FirstSomeAt(errs, j) && FirstSome(errs) == errs[j];
    assert errs[j] == DecodeField(structure[j], fields[j]).err;
  }

  /** `FieldsToBookFields` for one stored kind of the structure. */
  lemma FieldsToBookAt(fields: seq<string>, structure: seq<FieldKind>, k: FieldKind)
    requires |fields| >= |structure|
    requires Stored(k) && k in structure
    ensures Field(FieldsToBook(fields, structure).value, k) == DecodeField(k, fields[LastIndex(structure, k)]).value
  {
    FieldsToBookFields(fields, structure);
  }

  /** The default structure lists the fourteen kinds in the order of their codes. */
  lemma DefaultStructureCodes()
    ensures |DefaultStructure| == 14
    ensures forall i | 0 <= i < |DefaultStructure| :: Code(DefaultStructure[i]) == i
  {
  }

  /** Under the default structure every kind occurs, exactly at its code. */
  lemma DefaultStructurePositions(k: FieldKind)
    ensures k in DefaultStructure && LastIndex(DefaultStructure, k) == Code(k)
  {
    DefaultStructureCodes();
    assert DefaultStructure[Code(k)] == k;
    var j := LastIndex(DefaultStructure, k);
    assert Code(DefaultStructure[j]) == j;
  }

  /** With the default structure, kind `k` is decoded from token number `Code(k)`. */
  lemma FieldsToBookDefault(fields: seq<string>)
    requires |fields| >= |DefaultStructure|
    ensures forall k | Stored(k) :: DecodeField(k, fields[Code(k)]).value == Field(FieldsToBook(fields, DefaultStructure).value, k)
  {
    FieldsToBookFields(fields, DefaultStructure);
    forall k | Stored(k)
      ensures DecodeField(k, fields[Code(k)]).value == Field(FieldsToBook(fields, DefaultStructure).value, k)
    {
      DefaultStructurePositions(k);
    }
  }

  /** Tokens beyond the structure's length change nothing. */
  lemma FieldsToBookIgnoresExtra(fields: seq<string>, extra: seq<string>, structure: seq<FieldKind>)
    requires |fields| >= |structure|
    ensures FieldsToBook(fields + extra, structure) == FieldsToBook(fields, structure)
  {
    var all := fields + extra;
    assert forall j | 0 <= j < |structure| :: all[j] == fields[j];
    assert Values(structure, all) == Values(structure, fields);
    assert Errors(structure, all) == Errors(structure, fields);
  }

  /** A token ending in two colons keeps one of them. */
  lemma ToStrDropsOneColon(s: string)
    requires Bare(s, Spaces)
    ensures ToStr(s + "::") == s + ":"
    ensures ToStr(s + ":") == s
  {
    ToStrColon(s);
    ToStrDoubleColon(s);
  }

  lemma ToStrDoubleColon(s: string)
    requires Bare(s, Spaces)
    ensures ToStr(s + "::") == s + ":"
  {
    var t := s + ":";
    ColonBare(s);
    ToStrColon(t);
    assert t + ":" == s + "::";
  }

  /** A colon is not white space, so appending one keeps a text bare. */
  lemma ColonBare(s: string)
    requires Bare(s, Spaces)
    ensures Bare(s + ":", Spaces)
  {
    var t := s + ":";
    assert t[0] == if s == [] then ':' else s[0];
  }

  /** A bare text followed by one colon loses just the colon. */
  lemma ToStrColon(s: string)
    requires Bare(s, Spaces)
    ensures ToStr(s + ":") == s
  {
    var t := s + ":";
    assert t[..|s|] == s;
    assert DropColon(t) == s;
    TrimUnchanged(s, Spaces);
  }

  /** A token without surrounding white space or a trailing colon is taken as it is. */
  lemma ToStrPlain(s: string)
    requires Bare(s, Spaces) && (s == [] || s[|s| - 1] != ':')
    ensures ToStr(s) == s
  {
    TrimUnchanged(s, Spaces);
  }

  /** An integer written in decimal decodes to itself, with or without the trailing colon. */
  lemma ToIntFormat(n: int)
    ensures ToInt(FormatInt(n)) == Decoded(n, None)
    ensures ToInt(FormatInt(n) + ":") == Decoded(n, None)
  {
    var s := FormatInt(n);
    FormatIntEnds(n);
    ToStrDropsOneColon(s);
    ToStrPlain(s);
    ParseFormatInt(n);
  }

  lemma FormatIntEnds(n: int)
    ensures var s := FormatInt(n); s[0] !in Spaces && s[|s| - 1] !in Spaces && s[|s| - 1] != ':'
  {
    var s := FormatInt(n);
    assert IsDigit(s[|s| - 1]) by {
      if n < 0 {
        var d := FormatNat(-n);
        assert s[|s| - 1] == d[|d| - 1];
      }
    }
  }

  /**
   * A token whose text is not an optionally signed run of digits is an error
   * that leaves 0 behind, the error carrying the text.
   */
  lemma ToIntRejects(token: string)
    requires ToStr(token) != [] && !IntText(ToStr(token))
    ensures ToInt(token) == Decoded(0, Some(IntSyntax(ToStr(token))))
  {
    ParseIntAccepts(ToStr(token));
  }

  /** The deleted flag is set exactly when the number is not zero. */
  lemma DeletedFlag(n: int)
    ensures DecodeField(FieldDeleted, FormatInt(n)) == Decoded(BoolValue(n != 0), None)
  {
    var token := FormatInt(n);
    ToIntFormat(n);
    DeletedField(token);
  }

  /** A blank deleted flag is clear. */
  lemma DeletedBlank()
    ensures DecodeField(FieldDeleted, "") == Decoded(BoolValue(false), None)
  {
    ToStrPlain("");
    DeletedField("");
  }

  lemma DeletedField(token: string)
    ensures DecodeField(FieldDeleted, token) == Decoded(BoolValue(ToInt(token).value != 0), ToInt(token).err)
  {
  }

  /** A date written with the layout decodes to itself. */
  lemma DateField(d: Date)
    requires ValidDate(d)
    ensures DecodeField(FieldDate, FormatDate(d)) == Decoded(DateValue(d), None)
  {
    var s := FormatDate(d);
    DateTextPlain(d);
    ParseFormatDate(d);
    assert ToDate(s) == Decoded(d, None);
    DateFieldOf(s);
  }

  lemma DateFieldOf(token: string)
    ensures DecodeField(FieldDate, token) == Decoded(DateValue(ToDate(token).value), ToDate(token).err)
  {
  }

  /** A blank date is the zero date, without error. */
  lemma DateBlank()
    ensures DecodeField(FieldDate, "") == Decoded(DateValue(ZeroDate), None)
  {
    ToStrPlain("");
  }

  /** A formatted date starts and ends with a digit, so `toStr` leaves it alone. */
  lemma DateTextPlain(d: Date)
    requires ValidDate(d)
    ensures ToStr(FormatDate(d)) == FormatDate(d)
  {
    var s := FormatDate(d);
    assert s[0] == Pad(d.year, 4)[0] && IsDigit(s[0]);
    assert s[9] == Pad(d.day, 2)[1] && IsDigit(s[9]);
    ToStrPlain(s);
  }

  /** There is one author per colon-separated segment, so always at least one. */
  lemma AuthorCount(s: string)
    ensures |DecodeAuthors(s)| == multiset(s)[':'] + 1
  {
    SplitCount(s, ':');
  }

  /**
   * A blank token decodes without error to the zero value of its kind, except
   * for authors (one author with no name parts) and genres (one empty genre).
   */
  lemma BlankField(k: FieldKind, token: string)
    requires ToStr(token) == []
    ensures DecodeField(k, token).err.None?
    ensures k == FieldAuthor ==> DecodeField(k, token).value == AuthorsValue([Author([])])
    ensures k == FieldGenre ==> DecodeField(k, token).value == ListValue([""])
    ensures Stored(k) && k != FieldAuthor && k != FieldGenre ==> DecodeField(k, token).value == Field(ZeroBook, k)
  {
    SplitNone([], ':');
    SplitByEmpty(',');
  }

  /** A segment without a colon is a single author. */
  lemma DecodeAuthorsSingle(s: string)
    requires ':' !in s
    ensures DecodeAuthors(s) == [Author(TrimEach(SplitName(s)))]
  {
    SplitNone(s, ':');
  }

  /** Author decoding goes segment by segment. */
  lemma DecodeAuthorsCons(a: string, rest: string)
    requires ':' !in a
    ensures DecodeAuthors(a + ":" + rest) == [Author(TrimEach(SplitName(a)))] + DecodeAuthors(rest)
  {
    var s := a + ":" + rest;
    assert s[..|a|] == a && s[|a| + 1..] == rest;
    SplitAt(s, ':', |a|);
    AuthorsOfCons(a, Split(rest, ':'));
  }

  lemma AuthorField(token: string)
    ensures DecodeField(FieldAuthor, token) == Decoded(AuthorsValue(DecodeAuthors(ToStr(token))), None)
  {
  }

  /**
   * A name written `"<a>,<b>,:"` (for instance `"Doe,John,:"`): the trailing
   * colon and the trailing comma both go, leaving one author with parts a and b.
   */
  lemma AuthorTrailingSeparators(a: string, b: string)
    requires ',' !in a && ',' !in b && ':' !in a && ':' !in b
    requires b != [] && Bare(a, Spaces) && Bare(b, Spaces)
    ensures DecodeField(FieldAuthor, a + [','] + b + [',', ':']).value == AuthorsValue([Author([a, b])])
  {
    var s := a + [','] + b + [','];
    TrailingColon(a, b);
    AuthorField(s + ":");
    TrailingCommaAuthor(a, b);
  }

  lemma TrailingColon(a: string, b: string)
    requires Bare(a, Spaces)
    ensures var s := a + [','] + b + [','];
      s + ":" == a + [','] + b + [',', ':'] && ToStr(s + ":") == s
  {
    var s := a + [','] + b + [','];
    assert s[0] == if a == [] then ',' else a[0];
    assert ',' !in Spaces;
    ToStrDropsOneColon(s);
  }

  lemma TrailingCommaAuthor(a: string, b: string)
    requires ',' !in a && ',' !in b && ':' !in a && ':' !in b
    requires b != [] && Bare(a, Spaces) && Bare(b, Spaces)
    ensures DecodeAuthors(a + [','] + b + [',']) == [Author([a, b])]
  {
    var s := a + [','] + b + [','];
    assert ':' !in s;
    DecodeAuthorsSingle(s);
    TrailingCommaName(a, b);
  }

  lemma TrailingCommaName(a: string, b: string)
    requires ',' !in a && ',' !in b && b != [] && Bare(a, Spaces) && Bare(b, Spaces)
    ensures TrimEach(SplitName(a + [','] + b + [','])) == [a, b]
  {
    assert ' ' in Spaces;
    TrailingCommaParts(a, b);
    TrimUnchanged(a, Spaces);
    TrimUnchanged(b, Spaces);
  }

  /** A trailing comma is dropped and a comma followed by a non-space cuts. */
  lemma TrailingCommaParts(a: string, b: string)
    requires ',' !in a && ',' !in b && b != [] && b[0] != ' '
    ensures SplitName(a + [','] + b + [',']) == [a, b]
  {
    SplitByTrailing(a + [','] + b, ',');
    SplitByNoDelimiter(b, ',');
    SplitByCut(a, b, ',');
  }

  /**
   * Two authors written `"<a1>, <b1>:<a2>, <b2>"` (for instance
   * `"Doe, John:Roe, Jane"`): because a comma followed by a space is no cut,
   * only b1 and b2 survive, one per author.
   */
  lemma AuthorSpacedComma(a1: string, b1: string, a2: string, b2: string)
    requires ',' !in a1 && ',' !in b1 && ',' !in a2 && ',' !in b2
    requires ':' !in a1 && ':' !in b1 && ':' !in a2 && ':' !in b2
    requires a1 != [] && b1 != [] && b2 != []
    requires Bare(a1, Spaces) && Bare(b1, Spaces) && Bare(b2, Spaces)
    ensures DecodeField(FieldAuthor, a1 + ", " + b1 + ":" + a2 + ", " + b2).value
         == AuthorsValue([Author([b1]), Author([b2])])
  {
    var s := a1 + ", " + b1 + ":" + a2 + ", " + b2;
    assert s[0] == a1[0] && s[|s| - 1] == b2[|b2| - 1];
    ToStrPlain(s);
    AuthorField(s);
    SpacedAuthors(a1, b1, a2, b2);
  }

  lemma SpacedAuthors(a1: string, b1: string, a2: string, b2: string)
    requires ',' !in a1 && ',' !in b1 && ',' !in a2 && ',' !in b2
    requires ':' !in a1 && ':' !in b1 && ':' !in a2 && ':' !in b2
    requires b1 != [] && b2 != [] && Bare(b1, Spaces) && Bare(b2, Spaces)
    ensures DecodeAuthors(a1 + ", " + b1 + ":" + a2 + ", " + b2) == [Author([b1]), Author([b2])]
  {
    var n1, n2 := a1 + ", " + b1, a2 + ", " + b2;
    assert a1 + ", " + b1 + ":" + a2 + ", " + b2 == n1 + ":" + n2;
    assert ':' !in n1 && ':' !in n2;
    DecodeAuthorsCons(n1, n2);
    DecodeAuthorsSingle(n2);
    SpacedName(a1, b1);
    SpacedName(a2, b2);
  }

  lemma SpacedNameParts(a: string, b: string)
    requires ',' !in a && ',' !in b && b != []
    ensures SplitName(a + ", " + b) == [" " + b]
  {
    var spaced := " " + b;
    assert a + ", " + b == a + [','] + spaced;
    SplitBySpacedDelimiter(a, spaced, ',');
    SplitByNoDelimiter(spaced, ',');
  }

  lemma TrimLeadingSpace(b: string)
    requires b != [] && Bare(b, Spaces)
    ensures TrimSpace(" " + b) == b
  {
    assert ' ' in Spaces;
    TrimAround(" ", b, [], Spaces);
    assert " " + b + [] == " " + b;
  }

  /** `"<a>, <b>"` as a name: only the trimmed `b` is left. */
  lemma SpacedName(a: string, b: string)
    requires ',' !in a && ',' !in b && b != []
    requires Bare(b, Spaces)
    ensures TrimEach(SplitName(a + ", " + b)) == [b]
  {
    SpacedNameParts(a, b);
    TrimLeadingSpace(b);
    assert TrimEach([" " + b]) == [b];
  }

  /**
   * A bad number does not stop decoding: the title after it is still filled in,
   * and the number's error comes back with the record.
   */
  lemma PartialRecord(num: string, title: string)
    requires ToInt(num).err.Some?
    ensures FieldsToBook([num, title], [FieldSeriesNum, FieldTitle])
         == Decoded(ZeroBook.(title := ToStr(title)), ToInt(num).err)
  {
    PartialMap(num, title);
    PartialAssemble(ToStr(title));
    PartialRecordError(num, title);
  }

  lemma PartialMap(num: string, title: string)
    requires ToInt(num).err.Some?
    ensures DecodeMap([FieldSeriesNum, FieldTitle], Values([FieldSeriesNum, FieldTitle], [num, title]))
         == map[FieldSeriesNum := IntValue(0), FieldTitle := TextValue(ToStr(title))]
  {
    var structure := [FieldSeriesNum, FieldTitle];
    var fields := [num, title];
    IntField(FieldSeriesNum, num);
    TextField(FieldTitle, title);
    var vals := Values(structure, fields);
    assert vals == [IntValue(0), TextValue(ToStr(title))];
    DecodeMapPair(FieldSeriesNum, FieldTitle, IntValue(0), TextValue(ToStr(title)));
  }

  /** Two distinct kinds give a map of two entries. */
  lemma DecodeMapPair(k1: FieldKind, k2: FieldKind, v1: Value, v2: Value)
    requires k1 != k2
    ensures DecodeMap([k1, k2], [v1, v2]) == map[k1 := v1, k2 := v2]
  {
    var structure := [k1, k2];
    var vals := [v1, v2];
    assert structure[..1] == [k1] && vals[..1] == [v1];
    assert [k1][..0] == [] && [v1][..0] == [];
  }

  /** Assembling a series number of 0 and a title gives the zero record with that title. */
  lemma PartialAssemble(title: string)
    ensures Assemble(map[FieldSeriesNum := IntValue(0), FieldTitle := TextValue(title)]) == ZeroBook.(title := title)
  {
    var fm := map[FieldSeriesNum := IntValue(0), FieldTitle := TextValue(title)];
    var want := ZeroBook.(title := title);
    forall k | Stored(k)
      ensures Field(want, k) == if k in fm then fm[k] else Field(ZeroBook, k)
    {
      TitleOnly(title, k);
    }
    AssembleExactly(fm, want);
  }

  /** A record is the assembly of a field map when it agrees with it on every stored kind. */
  lemma AssembleExactly(fm: map<FieldKind, Value>, want: Book)
    requires WellTypedMap(fm)
    requires forall k | Stored(k) :: Field(want, k) == if k in fm then fm[k] else Field(ZeroBook, k)
    requires want.file.dir == [] && want.file.archive == []
    ensures Assemble(fm) == want
  {
    BookEquality(Assemble(fm), want);
  }

  lemma TitleOnly(title: string, k: FieldKind)
    requires Stored(k)
    ensures Field(ZeroBook.(title := title), k) == if k == FieldTitle then TextValue(title) else Field(ZeroBook, k)
  {
  }

  lemma PartialRecordError(num: string, title: string)
    requires ToInt(num).err.Some?
    ensures FieldsToBook([num, title], [FieldSeriesNum, FieldTitle]).err == ToInt(num).err
  {
    var structure := [FieldSeriesNum, FieldTitle];
    var fields := [num, title];
    IntField(FieldSeriesNum, num);
    var errs := Errors(structure, fields);
    assert errs[0] == ToInt(num).err;
    FirstSomeHead(errs);
  }

  lemma IntField(k: FieldKind, token: string)
    requires k == FieldSeriesNum || k == FieldFileSize || k == FieldLibId
    ensures DecodeField(k, token) == Decoded(IntValue(ToInt(token).value), ToInt(token).err)
  {
  }

  lemma TextField(k: FieldKind, token: string)
    requires k in {FieldTitle, FieldSeries, FieldFileName, FieldExt, FieldLang, FieldLibRate}
    ensures DecodeField(k, token) == Decoded(TextValue(ToStr(token)), None)
  {
  }

  /** An integer field written in decimal decodes to that number, without error. */
  lemma IntFieldFormat(k: FieldKind, n: int)
    requires k == FieldSeriesNum || k == FieldFileSize || k == FieldLibId
    ensures DecodeField(k, FormatInt(n)) == Decoded(IntValue(n), None)
  {
    ToIntFormat(n);
  }

  /** An integer field that is not blank and not a signed digit run is 0 with a syntax error. */
  lemma IntFieldRejects(k: FieldKind, token: string)
    requires k == FieldSeriesNum || k == FieldFileSize || k == FieldLibId
    requires ToStr(token) != [] && !IntText(ToStr(token))
    ensures DecodeField(k, token) == Decoded(IntValue(0), Some(IntSyntax(ToStr(token))))
  {
    ToIntRejects(token);
  }

  /** A text field is the token without one trailing colon and its surrounding white space, and never fails. */
  lemma TextFieldTrimmed(k: FieldKind, token: string)
    requires k in {FieldTitle, FieldSeries, FieldFileName, FieldExt, FieldLang, FieldLibRate}
    ensures var d := DecodeField(k, token);
      && d.err.None? && d.value.TextValue?
      && Bare(d.value.text, Spaces) && Trimmed(DropColon(token), d.value.text, Spaces)
  {
    ToStrTrims(token);
  }

  /** A repeated kind keeps the value of its last token. */
  lemma RepeatedKindLastWins(a: string, b: string)
    ensures FieldsToBook([a, b], [FieldTitle, FieldTitle]).value.title == ToStr(b)
  {
    var structure := [FieldTitle, FieldTitle];
    var fields := [a, b];
    assert LastIndex(structure, FieldTitle) == 1;
    FieldsToBookAt(fields, structure, FieldTitle);
    TextField(FieldTitle, b);
  }
}
