/**
 The column projector of the extraction handler: every stored row is cut
 down to the requested column names, in the row order of the stored data.

 A requested column whose value is missing from the row, or is the empty
 string, becomes "---": the handler writes `linha[coluna] || '---'`, and the
 empty string is falsy in JavaScript just as `undefined` is.
 */
module Projector {
  import opened Records

  /** Placeholder for a missing or empty value. */
  const Placeholder: string := "---"

  /** The columns used when the request names none. */
  const DefaultColumns: seq<string> := [
    "PARTICIPANTE", "SEXO", "1", "1 CONTATO", "2", "2 CONTATO",
    "3", "3 CONTATO", "Pedido de Carta", "Central de Cartas"
  ]

  /** `colunasDesejadas || [...]`: an absent (undefined or null) list falls
      back to the defaults; any list given, even the empty one, is used as it
      is, since an array is truthy. */
  function ChosenColumns(requested: Option<seq<string>>): (cols: seq<string>)
    ensures requested.Some? ==> cols == requested.value
    ensures requested.None? ==> cols == DefaultColumns
  {
    match requested
    case None => DefaultColumns
    case Some(cols) => cols
  }

  /** `linha[coluna] || '---'` for a row whose values are all strings. */
  function CellOrPlaceholder(row: Record, col: string): string {
    if col in row && row[col] != "" then row[col] else Placeholder
  }

  /** The object built by `forEach` over `cols`: each name in turn is written
      with the row's value or the placeholder. */
  function ProjectRow(row: Record, cols: seq<string>): (out: Record)
    ensures forall k :: k in out <==> k in cols
    ensures forall i :: 0 <= i < |cols| ==> out[cols[i]] == CellOrPlaceholder(row, cols[i])
  {
    if |cols| == 0 then map[]
    else
      var prev := ProjectRow(row, cols[..|cols| - 1]);
      var last := cols[|cols| - 1];
      var out := prev[last := CellOrPlaceholder(row, last)];
      assert forall i :: 0 <= i < |cols| - 1 ==> cols[i] == cols[..|cols| - 1][i];
      out
  }

  /** `dados.map(...)`: one projected record per stored row, in order. */
  function ProjectRows(rows: seq<Record>, cols: seq<string>): (out: seq<Record>)
    ensures |out| == |rows|
    ensures forall i :: 0 <= i < |rows| ==> out[i] == ProjectRow(rows[i], cols)
  {
    if |rows| == 0 then []
    else ProjectRows(rows[..|rows| - 1], cols) + [ProjectRow(rows[|rows| - 1], cols)]
  }

  /** The extraction's filtered data for the request's column list. */
  function Extract(rows: seq<Record>, requested: Option<seq<string>>): (out: seq<Record>)
    ensures |out| == |rows|
    ensures forall i, k :: 0 <= i < |out| ==> (k in out[i] <==> k in ChosenColumns(requested))
    ensures forall i, k :: 0 <= i < |out| && k in out[i] ==> out[i][k] != ""
  {
    var out := ProjectRows(rows, ChosenColumns(requested));
    assert forall i, k :: 0 <= i < |out| && k in out[i] ==> out[i][k] != "" by {
      forall i, k | 0 <= i < |out| && k in out[i] ensures out[i][k] != "" {
        ProjectedValuesNonEmpty(rows[i], ChosenColumns(requested), k);
      }
    }
    out
  }

  /** What each projected record holds: exactly the chosen names as
      properties, each with the row's non-empty value or the placeholder. */
  lemma ExtractContents(rows: seq<Record>, requested: Option<seq<string>>, i: nat, k: string)
    requires i < |rows|
    ensures var out := Extract(rows, requested);
            && |out| == |rows|
            && (k in out[i] <==> k in ChosenColumns(requested))
            && (k in out[i] ==>
                  out[i][k] == if k in rows[i] && rows[i][k] != "" then rows[i][k] else Placeholder)
  {
    var cols := ChosenColumns(requested);
    var out := Extract(rows, requested);
    if k in out[i] {
      var j :| 0 <= j < |cols| && cols[j] == k;
      assert out[i][cols[j]] == CellOrPlaceholder(rows[i], cols[j]);
    }
  }

  /** No projected value is ever the empty string. */
  lemma ProjectedValuesNonEmpty(row: Record, cols: seq<string>, k: string)
    requires k in ProjectRow(row, cols)
    ensures ProjectRow(row, cols)[k] != ""
  {
    var j :| 0 <= j < |cols| && cols[j] == k;
    assert ProjectRow(row, cols)[cols[j]] == CellOrPlaceholder(row, cols[j]);
  }

  /** An empty column list yields one empty record per row. */
  lemma EmptySelection(rows: seq<Record>)
    ensures Extract(rows, Some([])) == seq(|rows|, _ => map[])
  {
    var out := Extract(rows, Some([]));
    forall i | 0 <= i < |rows| ensures out[i] == map[] {
      assert forall k :: k !in out[i];
    }
  }

  /** Projecting an already projected row onto the same columns changes
      nothing: every value is present and non-empty. */
  lemma ProjectRowIdempotent(row: Record, cols: seq<string>)
    ensures ProjectRow(ProjectRow(row, cols), cols) == ProjectRow(row, cols)
  {
    var once := ProjectRow(row, cols);
    var twice := ProjectRow(once, cols);
    forall k | k in once ensures twice[k] == once[k] {
      var j :| 0 <= j < |cols| && cols[j] == k;
      assert once[cols[j]] == CellOrPlaceholder(row, cols[j]);
      assert twice[cols[j]] == CellOrPlaceholder(once, cols[j]);
    }
    assert twice.Keys == once.Keys;
  }

  /** Extraction with the same column list is idempotent on the whole data. */
  lemma ExtractIdempotent(rows: seq<Record>, cols: seq<string>)
    ensures ProjectRows(ProjectRows(rows, cols), cols) == ProjectRows(rows, cols)
  {
    var once := ProjectRows(rows, cols);
    forall i | 0 <= i < |rows| ensures ProjectRows(once, cols)[i] == once[i] {
      ProjectRowIdempotent(rows[i], cols);
    }
  }

  /** Only the requested columns of a row matter: rows that agree on those
      columns project to the same record. */
  lemma ProjectRowDependsOnColumnsOnly(row1: Record, row2: Record, cols: seq<string>)
    requires forall i :: 0 <= i < |cols| ==>
               CellOrPlaceholder(row1, cols[i]) == CellOrPlaceholder(row2, cols[i])
    ensures ProjectRow(row1, cols) == ProjectRow(row2, cols)
  {
    var p1, p2 := ProjectRow(row1, cols), ProjectRow(row2, cols);
    forall k | k in p1 ensures p1[k] == p2[k] {
      var j :| 0 <= j < |cols| && cols[j] == k;
      assert p1[cols[j]] == CellOrPlaceholder(row1, cols[j]);
    }
    assert p1.Keys == p2.Keys;
  }
}
