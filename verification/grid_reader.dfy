/**
 The cell-grid reader of the upload handler: from a worksheet's decoded
 range and its cells, the list of header labels and one record per data row.

 Two behaviours of the upload handler are kept as they are:
 - the header row is always row 0, whatever row the range starts on;
 - a data cell in column C is stored under `headers[C]`, an ABSOLUTE column
   index into a list that starts at the range's first column. When the range
   starts after column 0 the keys shift, and columns past the end of the list
   write to the property "undefined" (the name JavaScript gives an undefined
   property key).
 */
module GridReader {
  import opened Records
  import opened JsText

  /** A cell address, zero-based, as `encode_cell({c, r})` takes it. */
  datatype Address = Address(c: nat, r: nat)

  /** A decoded `!ref`: the start and end corners of the used area. */
  datatype Range = Range(s: Address, e: Address)

  /** Cells present in a worksheet, each holding its value already turned into
      text by `String(cell.v)`. An absent key is a missing cell. */
  type Cells = map<Address, string>

  /** The same cells after `.trim()`: what the reader works with. */
  type Texts = map<Address, string>

  /** `String(cell.v).trim()` for every present cell; missing cells stay missing. */
  function CellTexts(cells: Cells): (texts: Texts)
    ensures texts.Keys == cells.Keys
    ensures forall a :: a in texts ==> Trimmed(texts[a])
  {
    map a | a in cells :: Trim(cells[a])
  }

  /** The key JavaScript uses for a property named by a missing array element. */
  const UndefinedKey: string := "undefined"

  /** Number of columns the range spans. */
  function Width(range: Range): nat {
    if range.e.c >= range.s.c then range.e.c - range.s.c + 1 else 0
  }

  /** One past the last column the loops visit. */
  function ColumnEnd(range: Range): nat {
    range.s.c + Width(range)
  }

  /** Number of data rows below the range's first row. */
  function Height(range: Range): nat {
    if range.e.r > range.s.r then range.e.r - range.s.r else 0
  }

  /** The label of column `c`: the text of its row-0 cell, or `Coluna_<c+1>`
      when that cell is missing. */
  function HeaderAt(texts: Texts, c: nat): string {
    if Address(c, 0) in texts then texts[Address(c, 0)]
    else "Coluna_" + NatToDecimal(c + 1)
  }

  /** The value of the cell at column `c`, row `r`: its text, or "" when the
      cell is missing. */
  function ValueAt(texts: Texts, c: nat, r: nat): string {
    if Address(c, r) in texts then texts[Address(c, r)] else ""
  }

  /** The property a value in column `c` is written to: `headers[c]`. */
  function KeyAt(headers: seq<string>, c: nat): string {
    if c < |headers| then headers[c] else UndefinedKey
  }

  /** The labels of the `n` columns starting at `lo`, pushed in column order. */
  function HeadersFrom(texts: Texts, lo: nat, n: nat): (hs: seq<string>)
    ensures |hs| == n
    ensures forall i :: 0 <= i < n ==> hs[i] == HeaderAt(texts, lo + i)
  {
    if n == 0 then [] else HeadersFrom(texts, lo, n - 1) + [HeaderAt(texts, lo + n - 1)]
  }

  /** The header list: one label per column of the range, read from row 0. */
  function ReadHeaders(range: Range, texts: Texts): (hs: seq<string>)
    ensures |hs| == Width(range)
    ensures forall i :: 0 <= i < |hs| ==> hs[i] == HeaderAt(texts, range.s.c + i)
  {
    HeadersFrom(texts, range.s.c, Width(range))
  }

  /** The properties written by columns `lo` up to (not including) `hi`. */
  function KeysBetween(headers: seq<string>, lo: nat, hi: nat): (ks: set<string>)
    requires lo <= hi
    ensures forall c: nat :: lo <= c < hi ==> KeyAt(headers, c) in ks
    decreases hi - lo
  {
    if hi == lo then {} else KeysBetween(headers, lo, hi - 1) + {KeyAt(headers, hi - 1)}
  }

  /** Nothing but the columns' keys is written. */
  lemma {:induction false} KeysBetweenExact(headers: seq<string>, lo: nat, hi: nat, k: string)
    requires lo <= hi
    requires k in KeysBetween(headers, lo, hi)
    ensures exists c: nat :: lo <= c < hi && KeyAt(headers, c) == k
    decreases hi - lo
  {
    if k != KeyAt(headers, hi - 1) {
      KeysBetweenExact(headers, lo, hi - 1, k);
    }
  }

  /** No column in `(c, hi)` writes to the same property as column `c`. */
  predicate LaterKeysDiffer(headers: seq<string>, c: nat, hi: nat) {
    forall c' :: c < c' < hi ==> KeyAt(headers, c') != KeyAt(headers, c)
  }

  /** The object `linha` after the inner loop has run over columns `lo` up to
      (not including) `hi` of row `r`: each column's key is written in turn,
      so a key shared by several columns ends up with the last one's value. */
  function RowBetween(texts: Texts, headers: seq<string>, r: nat, lo: nat, hi: nat): (rec: Record)
    requires lo <= hi
    ensures rec.Keys == KeysBetween(headers, lo, hi)
    ensures forall c: nat {:trigger LaterKeysDiffer(headers, c, hi)} ::
              lo <= c < hi && LaterKeysDiffer(headers, c, hi) ==>
              rec[KeyAt(headers, c)] == ValueAt(texts, c, r)
    decreases hi - lo
  {
    if hi == lo then map[]
    else
      var prev := RowBetween(texts, headers, r, lo, hi - 1);
      var rec := prev[KeyAt(headers, hi - 1) := ValueAt(texts, hi - 1, r)];
      forall c: nat | lo <= c < hi && LaterKeysDiffer(headers, c, hi)
        ensures rec[KeyAt(headers, c)] == ValueAt(texts, c, r)
      {
        if c < hi - 1 {
          assert KeyAt(headers, hi - 1) != KeyAt(headers, c);
          assert LaterKeysDiffer(headers, c, hi - 1);
        }
      }
      rec
  }

  /** The set of properties every row record of the range carries. */
  function RowKeys(range: Range, headers: seq<string>): set<string> {
    KeysBetween(headers, range.s.c, ColumnEnd(range))
  }

  /** Column `c` is in the range and no later column of the range shares its key. */
  predicate LastWriter(range: Range, headers: seq<string>, c: nat) {
    range.s.c <= c < ColumnEnd(range) && LaterKeysDiffer(headers, c, ColumnEnd(range))
  }

  /** What a record read from row `r` looks like: one property per column
      key, and where two columns share a key, the value of the later one. */
  ghost predicate IsRowRecord(range: Range, texts: Texts, headers: seq<string>, r: nat, rec: Record) {
    && rec.Keys == RowKeys(range, headers)
    && forall c: nat {:trigger LastWriter(range, headers, c)} :: LastWriter(range, headers, c) ==>
         KeyAt(headers, c) in rec && rec[KeyAt(headers, c)] == ValueAt(texts, c, r)
  }

  /** The record built for row `r` by writing each column's value under its key. */
  function ReadRow(range: Range, texts: Texts, headers: seq<string>, r: nat): (rec: Record)
    ensures IsRowRecord(range, texts, headers, r, rec)
  {
    var rec := RowBetween(texts, headers, r, range.s.c, ColumnEnd(range));
    forall c: nat | LastWriter(range, headers, c)
      ensures KeyAt(headers, c) in rec && rec[KeyAt(headers, c)] == ValueAt(texts, c, r)
    {
      assert LaterKeysDiffer(headers, c, ColumnEnd(range));
    }
    rec
  }

  /** The records of the `n` rows starting at `first`, pushed in row order. */
  function RowsFrom(range: Range, texts: Texts, headers: seq<string>, first: nat, n: nat)
    : (rows: seq<Record>)
    ensures |rows| == n
    ensures forall i :: 0 <= i < n ==> IsRowRecord(range, texts, headers, first + i, rows[i])
  {
    if n == 0 then []
    else
      var prev := RowsFrom(range, texts, headers, first, n - 1);
      var last := ReadRow(range, texts, headers, first + (n - 1));
      var rows := prev + [last];
      forall i | 0 <= i < n
        ensures IsRowRecord(range, texts, headers, first + i, rows[i])
      {
        if i < n - 1 {
          assert rows[i] == prev[i];
        } else {
          assert first + i == first + (n - 1);
          assert rows[i] == last;
        }
      }
      rows
  }

  /** The data rows: one record for each row after the range's first. */
  function ReadRows(range: Range, texts: Texts, headers: seq<string>): (rows: seq<Record>)
    ensures |rows| == Height(range)
    ensures forall i :: 0 <= i < |rows| ==> IsRowRecord(range, texts, headers, range.s.r + 1 + i, rows[i])
  {
    RowsFrom(range, texts, headers, range.s.r + 1, Height(range))
  }

  /** Headers and rows of a worksheet, as the upload handler stores them. */
  datatype Grid = Grid(headers: seq<string>, rows: seq<Record>)

  /** Read the whole range from the trimmed cell texts: one header label per
      column, read from row 0, and one record per data row. What each record
      holds is stated by RowRecordAt. */
  function ReadGrid(range: Range, texts: Texts): (g: Grid)
    ensures |g.headers| == Width(range)
    ensures forall i :: 0 <= i < |g.headers| ==> g.headers[i] == HeaderAt(texts, range.s.c + i)
    ensures |g.rows| == Height(range)
  {
    var hs := ReadHeaders(range, texts);
    Grid(hs, ReadRows(range, texts, hs))
  }

  /** The record of data row `i` carries one property per column key and, where
      two columns share a key, the later column's value. */
  lemma RowRecordAt(range: Range, texts: Texts, i: nat)
    requires i < Height(range)
    ensures var g := ReadGrid(range, texts);
            IsRowRecord(range, texts, g.headers, range.s.r + 1 + i, g.rows[i])
  {
  }

  /** The properties of every record are exactly the keys of the range's
      columns: each column's key is present and nothing else is. */
  lemma RowKeysExact(range: Range, texts: Texts, i: nat, k: string)
    requires i < Height(range)
    ensures var g := ReadGrid(range, texts);
            k in g.rows[i] <==> exists c: nat :: range.s.c <= c <= range.e.c && KeyAt(g.headers, c) == k
  {
    RowRecordAt(range, texts, i);
    var g := ReadGrid(range, texts);
    assert g.rows[i].Keys == RowKeys(range, g.headers);
    if k in g.rows[i] {
      KeysBetweenExact(g.headers, range.s.c, ColumnEnd(range), k);
    }
  }

  /** With the range starting at column 0 and one header per column, the keys
      written are exactly the headers. */
  lemma KeysAreHeaders(range: Range, headers: seq<string>, k: string)
    requires range.s.c == 0 && |headers| == Width(range)
    ensures k in RowKeys(range, headers) <==> k in headers
  {
    if k in RowKeys(range, headers) {
      KeysBetweenExact(headers, range.s.c, ColumnEnd(range), k);
    }
    if k in headers {
      var j :| 0 <= j < |headers| && headers[j] == k;
      assert KeyAt(headers, j) == k;
    }
  }

  /** When the range starts at column 0 the keys line up with the labels: each
      record's properties are exactly the header labels, and a column whose
      label is not repeated to its right holds that column's cell. */
  lemma AlignedAtColumnZero(range: Range, texts: Texts, i: nat, c: nat)
    requires range.s.c == 0
    requires i < Height(range) && c <= range.e.c
    requires forall c' :: c < c' <= range.e.c ==> HeaderAt(texts, c') != HeaderAt(texts, c)
    ensures var g := ReadGrid(range, texts);
            && (forall k :: k in g.rows[i] <==> k in g.headers)
            && g.headers[c] == HeaderAt(texts, c)
            && g.rows[i][HeaderAt(texts, c)] == ValueAt(texts, c, range.s.r + 1 + i)
  {
    RowRecordAt(range, texts, i);
    var g := ReadGrid(range, texts);
    var hs := g.headers;
    assert IsRowRecord(range, texts, hs, range.s.r + 1 + i, g.rows[i]);
    forall k ensures k in g.rows[i] <==> k in hs {
      KeysAreHeaders(range, hs, k);
    }
    assert hs[c] == HeaderAt(texts, c);
    forall c' | c < c' < ColumnEnd(range) ensures KeyAt(hs, c') != KeyAt(hs, c) {
      assert hs[c'] == HeaderAt(texts, c');
    }
    assert LastWriter(range, hs, c);
  }

  /** When the range starts at column `s.c > 0`, a value in column `c` is
      stored under the label of column `c + s.c`, or under "undefined" once
      `c + s.c` is past the range. */
  lemma ShiftedKeys(range: Range, texts: Texts, c: nat)
    requires 0 < range.s.c <= c <= range.e.c
    ensures var hs := ReadGrid(range, texts).headers;
            KeyAt(hs, c) == (if c + range.s.c <= range.e.c then HeaderAt(texts, c + range.s.c) else UndefinedKey)
  {
    var hs := ReadGrid(range, texts).headers;
    if c + range.s.c <= range.e.c {
      assert hs[c] == HeaderAt(texts, range.s.c + c);
    }
  }

  /** With a range that starts after column 0, every data record carries the
      property "undefined", which no header of the sheet need be. */
  lemma ShiftedRangeWritesUndefined(range: Range, texts: Texts, i: nat)
    requires 0 < range.s.c <= range.e.c
    requires i < Height(range)
    ensures UndefinedKey in ReadGrid(range, texts).rows[i]
  {
    RowRecordAt(range, texts, i);
    var g := ReadGrid(range, texts);
    assert KeyAt(g.headers, range.e.c) == UndefinedKey;
    assert KeyAt(g.headers, range.e.c) in RowKeys(range, g.headers);
  }

  /** Headers come from row 0 only: two ranges over the same columns read the
      same labels whatever rows they span, and texts outside row 0 do not
      affect them. */
  lemma HeadersReadFromRowZero(range1: Range, range2: Range, texts1: Texts, texts2: Texts)
    requires range1.s.c == range2.s.c && range1.e.c == range2.e.c
    requires forall c :: range1.s.c <= c <= range1.e.c ==>
               (Address(c, 0) in texts1 <==> Address(c, 0) in texts2) &&
               (Address(c, 0) in texts1 ==> texts1[Address(c, 0)] == texts2[Address(c, 0)])
    ensures ReadGrid(range1, texts1).headers == ReadGrid(range2, texts2).headers
  {
    var h1 := ReadGrid(range1, texts1).headers;
    var h2 := ReadGrid(range2, texts2).headers;
    forall i | 0 <= i < |h1| ensures h1[i] == h2[i] {
      var c := range1.s.c + i;
      assert h1[i] == HeaderAt(texts1, c);
      assert h2[i] == HeaderAt(texts2, c);
    }
  }

  /** The upload handler's reading of a worksheet: trim every cell, then read
      the range. */
  function ReadSheet(range: Range, cells: Cells): (g: Grid)
    ensures |g.headers| == Width(range) && |g.rows| == Height(range)
    ensures forall i :: 0 <= i < |g.headers| ==>
              g.headers[i] == if Address(range.s.c + i, 0) in cells then Trim(cells[Address(range.s.c + i, 0)])
                              else "Coluna_" + NatToDecimal(range.s.c + i + 1)
    ensures forall i :: 0 <= i < |g.headers| ==> Trimmed(g.headers[i])
  {
    var g := ReadGrid(range, CellTexts(cells));
    assert forall i :: 0 <= i < |g.headers| ==>
             && g.headers[i] == (if Address(range.s.c + i, 0) in cells then Trim(cells[Address(range.s.c + i, 0)])
                                 else "Coluna_" + NatToDecimal(range.s.c + i + 1))
             && Trimmed(g.headers[i]) by {
      forall i | 0 <= i < |g.headers|
        ensures g.headers[i] == (if Address(range.s.c + i, 0) in cells then Trim(cells[Address(range.s.c + i, 0)])
                                 else "Coluna_" + NatToDecimal(range.s.c + i + 1))
        ensures Trimmed(g.headers[i])
      {
        SheetLabelsAndValues(range, cells, range.s.c + i, 0);
      }
    }
    g
  }

  /** Every header label of a sheet is either the trimmed text of the column's
      row-0 cell or, for a missing cell, `Coluna_` followed by the column's
      one-based number; every value is the trimmed cell text or "". */
  lemma SheetLabelsAndValues(range: Range, cells: Cells, c: nat, r: nat)
    ensures HeaderAt(CellTexts(cells), c) ==
              if Address(c, 0) in cells then Trim(cells[Address(c, 0)])
              else "Coluna_" + NatToDecimal(c + 1)
    ensures ValueAt(CellTexts(cells), c, r) ==
              if Address(c, r) in cells then Trim(cells[Address(c, r)]) else ""
    ensures Trimmed(HeaderAt(CellTexts(cells), c)) && Trimmed(ValueAt(CellTexts(cells), c, r))
  {
    var n := NatToDecimal(c + 1);
    if Address(c, 0) !in cells {
      var h := "Coluna_" + n;
      assert h[0] == 'C' && h[|h| - 1] == n[|n| - 1];
    }
  }
}
