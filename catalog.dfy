/** The loaded catalog sheet and the article search over it. */
module Catalog {
  import opened Strings

  /** One spreadsheet cell: empty (pandas NaN or None) or a text value. */
  datatype Cell = Null | Text(text: string)

  /** One catalog row, restricted to the columns the lookup flow reads. The value
      of a field whose column the sheet lacks is never consulted. */
  datatype Row = Row(
    codarticulo: Cell,
    articulo: Cell,
    lote: Cell,
    codbarras: Cell,
    presentacion: Cell,
    vencimiento: Cell)

  /** A loaded sheet: the (already normalised) column names it has, and its rows
      in sheet order. */
  datatype Table = Table(columns: set<string>, rows: seq<Row>)

  const CodeColumn: string := "codarticulo"
  const NameColumn: string := "articulo"
  const LotColumn: string := "lote"
  const BarcodeColumn: string := "codbarras"
  const PresentationColumn: string := "presentacion"
  const ExpiryColumn: string := "vencimiento"

  /** A row is found by a code when its article code is a text value that contains
      the code, ignoring case. An empty article code cell never matches. */
  predicate Matches(row: Row, code: string) {
    row.codarticulo.Text? && ContainsIgnoringCase(row.codarticulo.text, code)
  }

  /** The article-code column holds no text at all: pandas reads such a column
      as numbers, and its string accessor raises instead of searching. */
  predicate NoTextCodes(rows: seq<Row>) {
    rows != [] && forall i :: 0 <= i < |rows| ==> rows[i].codarticulo.Null?
  }

  /** a can be obtained from b by deleting elements. */
  predicate IsSubsequence<T(==)>(a: seq<T>, b: seq<T>)
    decreases |b|
  {
    a == [] || (b != [] && if a[0] == b[0] then IsSubsequence(a[1..], b[1..]) else IsSubsequence(a, b[1..]))
  }

  /** The rows whose article code contains the code, ignoring case: they keep
      their catalog order, only matching rows are kept, and every matching row
      is kept as often as it occurs. */
  function Search(rows: seq<Row>, code: string): (r: seq<Row>)
    ensures IsSubsequence(r, rows)
    ensures forall k :: 0 <= k < |r| ==> Matches(r[k], code)
    ensures forall row :: Matches(row, code) ==> multiset(r)[row] == multiset(rows)[row]
  {
    if rows == [] then []
    else
      var rest := Search(rows[1..], code);
      assert rows == [rows[0]] + rows[1..];
      if Matches(rows[0], code) then [rows[0]] + rest else rest
  }

  /** The boolean-mask selection keeps the sheet's columns. */
  function SearchTable(t: Table, code: string): Table {
    Table(t.columns, Search(t.rows, code))
  }

  /** The search comes back empty exactly when no row matches. */
  lemma SearchEmptyIff(rows: seq<Row>, code: string)
    ensures Search(rows, code) == [] <==> forall i :: 0 <= i < |rows| ==> !Matches(rows[i], code)
  {
    if i :| 0 <= i < |rows| && Matches(rows[i], code) {
      assert rows[i] in multiset(rows);
      assert rows[i] in multiset(Search(rows, code));
    }
  }

  /** Row i is the first row of the catalog that the code matches. */
  ghost predicate IsFirstMatch(rows: seq<Row>, code: string, i: int) {
    0 <= i < |rows| && Matches(rows[i], code) &&
    forall j :: 0 <= j < i ==> !Matches(rows[j], code)
  }

  /** The first search result is the first matching row of the catalog. */
  lemma {:induction false} SearchHeadIsFirstMatch(rows: seq<Row>, code: string)
    requires Search(rows, code) != []
    ensures exists i :: IsFirstMatch(rows, code, i) && Search(rows, code)[0] == rows[i]
  {
    if !Matches(rows[0], code) {
      SearchHeadIsFirstMatch(rows[1..], code);
      var i :| IsFirstMatch(rows[1..], code, i) && Search(rows[1..], code)[0] == rows[1..][i];
      assert IsFirstMatch(rows, code, i + 1);
    } else {
      assert IsFirstMatch(rows, code, 0);
    }
  }
}
