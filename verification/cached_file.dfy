/** The `files` table's rows and their decoding: `DATABASE_COLUMNS`, the
    row as SQLite returns it, and `CachedFile.new`, which reads each field
    at the index of its column name. */
module Records {
  import opened Wrappers
  import opened Text
  import opened Ordering

  /** The columns every query selects, in this order. */
  const DATABASE_COLUMNS: seq<string> := ["rowid", "path", "size", "updated_at", "millis", "sha512", "md5"]

  /** A value as the SQLite driver returns it. */
  datatype Cell = IntCell(i: int) | TextCell(text: string) | NullCell

  /** A stored row: `updatedAt` holds the text `Time#to_s` gave. */
  datatype Row = Row(
    rowid: int,
    path: string,
    size: int,
    updatedAt: string,
    millis: int,
    sha512: string,
    md5: string)

  /** `Time#to_s` of a whole-second time and `Time.parse`, on seconds since
      the epoch; their text formats are not part of this model. */
  datatype Clock = Clock(toS: int -> string, parse: string -> Option<int>)
  {
    /** Printing a whole second and parsing the text gives it back. */
    ghost predicate RoundTrip() {
      forall s :: parse(toS(s)) == Some(s)
    }
  }

  /** The stored value of one column of a row. */
  function Column(row: Row, name: string): Cell {
    if name == "rowid" then IntCell(row.rowid)
    else if name == "path" then TextCell(row.path)
    else if name == "size" then IntCell(row.size)
    else if name == "updated_at" then TextCell(row.updatedAt)
    else if name == "millis" then IntCell(row.millis)
    else if name == "sha512" then TextCell(row.sha512)
    else if name == "md5" then TextCell(row.md5)
    else NullCell
  }

  /** `SELECT rowid,path,…,md5`: the row's cells in `DATABASE_COLUMNS`
      order. */
  function Encode(row: Row): (cells: seq<Cell>)
    ensures |cells| == |DATABASE_COLUMNS|
    ensures forall i :: 0 <= i < |cells| ==> cells[i] == Column(row, DATABASE_COLUMNS[i])
  {
    seq(|DATABASE_COLUMNS|, i requires 0 <= i < |DATABASE_COLUMNS| => Column(row, DATABASE_COLUMNS[i]))
  }

  /** `DATABASE_COLUMNS.index(name)`, written out for the seven names
      (`ColumnIndexIsPosition` shows it is the first position of `name`). */
  function ColumnIndex(name: string): (k: nat)
    requires name in DATABASE_COLUMNS
    ensures k < |DATABASE_COLUMNS| && DATABASE_COLUMNS[k] == name
  {
    if name == "rowid" then 0
    else if name == "path" then 1
    else if name == "size" then 2
    else if name == "updated_at" then 3
    else if name == "millis" then 4
    else if name == "sha512" then 5
    else 6
  }

  /** `data[DATABASE_COLUMNS.index(name)]`: reading past the end of the
      array gives nil. */
  function Field(data: seq<Cell>, name: string): (c: Cell)
    requires name in DATABASE_COLUMNS
  {
    var k := ColumnIndex(name);
    if k < |data| then data[k] else NullCell
  }

  /** `#to_i` on a cell: an integer is itself, a text is read by
      `String#to_i`, nil is 0. */
  function ToInteger(c: Cell): int {
    match c
    case IntCell(i) => i
    case TextCell(t) => ToI(t)
    case NullCell => 0
  }

  /** A decoded row: `path`, `sha512` and `md5` are copied as they are,
      `updatedAt` is the parsed time. */
  datatype CachedFile = CachedFile(
    id: int,
    path: Cell,
    size: int,
    updatedAt: int,
    millis: int,
    sha512: Cell,
    md5: Cell)

  /** `CachedFile.new(data)`; `None` stands for nil. Indexing nil is a
      NoMethodError; `Time.parse` refuses a non-text value with a
      TypeError and a text without a time with an ArgumentError. */
  function Decode(data: Option<seq<Cell>>, parse: string -> Option<int>): (r: Result<CachedFile>)
    ensures data.None? ==> r == Err(NoMethodError)
    ensures data.Some? && !Field(data.value, "updated_at").TextCell? ==> r == Err(TypeError)
    ensures data.Some? && Field(data.value, "updated_at").TextCell? ==>
      (r.Ok? <==> parse(Field(data.value, "updated_at").text).Some?)
  {
    match data
    case None => Err(NoMethodError)
    case Some(d) =>
      match Field(d, "updated_at")
      case TextCell(t) =>
        (match parse(t)
         case None => Err(ArgumentError)
         case Some(time) =>
           Ok(CachedFile(
             ToInteger(Field(d, "rowid")),
             Field(d, "path"),
             ToInteger(Field(d, "size")),
             time,
             ToInteger(Field(d, "millis")),
             Field(d, "sha512"),
             Field(d, "md5"))))
      case _ => Err(TypeError)
  }

  /** Each field sits at its column's position: rowid 0, path 1, size 2,
      updated_at 3, millis 4, sha512 5, md5 6. */
  lemma ColumnIndexIsPosition(name: string)
    requires name in DATABASE_COLUMNS
    ensures Position(DATABASE_COLUMNS, name) == Some(ColumnIndex(name))
  {
    if name == "rowid" {
      PositionOfRowid();
    } else if name == "path" {
      PositionOfPath();
    } else if name == "size" {
      PositionOfSize();
    } else if name == "updated_at" {
      PositionOfUpdatedAt();
    } else if name == "millis" {
      PositionOfMillis();
    } else if name == "sha512" {
      PositionOfSha512();
    } else {
      PositionOfMd5();
    }
  }

  lemma PositionOfRowid()
    ensures Position(DATABASE_COLUMNS, "rowid") == Some(0)
  {
    PositionAt(DATABASE_COLUMNS, 0, "rowid");
  }

  lemma PositionOfPath()
    ensures Position(DATABASE_COLUMNS, "path") == Some(1)
  {
    assert DATABASE_COLUMNS[0] != "path";
    PositionAt(DATABASE_COLUMNS, 1, "path");
  }

  lemma PositionOfSize()
    ensures Position(DATABASE_COLUMNS, "size") == Some(2)
  {
    assert DATABASE_COLUMNS[0] != "size" && DATABASE_COLUMNS[1] != "size";
    PositionAt(DATABASE_COLUMNS, 2, "size");
  }

  lemma PositionOfUpdatedAt()
    ensures Position(DATABASE_COLUMNS, "updated_at") == Some(3)
  {
    assert DATABASE_COLUMNS[0] != "updated_at" && DATABASE_COLUMNS[1] != "updated_at" && DATABASE_COLUMNS[2] != "updated_at";
    PositionAt(DATABASE_COLUMNS, 3, "updated_at");
  }

  lemma PositionOfMillis()
    ensures Position(DATABASE_COLUMNS, "millis") == Some(4)
  {
    assert DATABASE_COLUMNS[0] != "millis" && DATABASE_COLUMNS[1] != "millis" && DATABASE_COLUMNS[2] != "millis" && DATABASE_COLUMNS[3] != "millis";
    PositionAt(DATABASE_COLUMNS, 4, "millis");
  }

  lemma PositionOfSha512()
    ensures Position(DATABASE_COLUMNS, "sha512") == Some(5)
  {
    assert DATABASE_COLUMNS[0] != "sha512" && DATABASE_COLUMNS[1] != "sha512" && DATABASE_COLUMNS[2] != "sha512" && DATABASE_COLUMNS[3] != "sha512" && DATABASE_COLUMNS[4] != "sha512";
    PositionAt(DATABASE_COLUMNS, 5, "sha512");
  }

  lemma PositionOfMd5()
    ensures Position(DATABASE_COLUMNS, "md5") == Some(6)
  {
    assert DATABASE_COLUMNS[0] != "md5" && DATABASE_COLUMNS[1] != "md5" && DATABASE_COLUMNS[2] != "md5" && DATABASE_COLUMNS[3] != "md5" && DATABASE_COLUMNS[4] != "md5" && DATABASE_COLUMNS[5] != "md5";
    PositionAt(DATABASE_COLUMNS, 6, "md5");
  }

  /** A stored row decodes back to its own values, the time being the
      parse of its stored text; a text that does not parse is refused. */
  lemma DecodeEncode(row: Row, parse: string -> Option<int>)
    ensures parse(row.updatedAt).Some? ==>
      Decode(Some(Encode(row)), parse) == Ok(CachedFile(
        row.rowid, TextCell(row.path), row.size, parse(row.updatedAt).value,
        row.millis, TextCell(row.sha512), TextCell(row.md5)))
    ensures parse(row.updatedAt).None? ==> Decode(Some(Encode(row)), parse) == Err(ArgumentError)
  {
  }

  /** A row with no cells decodes to nils and zeros, and then fails at
      `Time.parse(nil)`. */
  lemma DecodeShortRow(parse: string -> Option<int>)
    ensures Decode(Some([]), parse) == Err(TypeError)
    ensures Decode(Some([IntCell(7), TextCell("/a")]), parse) == Err(TypeError)
  {
  }

  /** `CachedFile.new(row)` on a row as the table stores it. */
  method Load(row: Row, parse: string -> Option<int>) returns (file: CachedFile)
    requires parse(row.updatedAt).Some?
    ensures file == CachedFile(row.rowid, TextCell(row.path), row.size, parse(row.updatedAt).value,
                               row.millis, TextCell(row.sha512), TextCell(row.md5))
  {
    DecodeEncode(row, parse);
    file := Decode(Some(Encode(row)), parse).value;
  }
}
