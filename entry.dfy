/** One pass of the lookup form: choose the code, search, offer lots, resolve the
    lot and, when the add button was pressed, build the record to append. */
module Entry {
  import opened Optional
  import opened Catalog
  import opened Lots

  /** One saved entry, with its fields in the order the form writes them. */
  datatype Record = Record(
    codarticulo: string,
    articulo: Cell,
    lote: string,
    codbarras: Cell,
    presentacion: Cell,
    vencimiento: Cell,
    cantidad: Cell)

  /** What one pass of the form ends in. */
  datatype Outcome =
    | Idle                                      // no code: nothing is searched
    | ColumnError(column: string)               // the sheet lacks a column the pass indexes
    | NotTextColumn(column: string)             // the column has no text, so .str raises
    | NotFound                                  // the code matched no row
    | Offered(lots: seq<string>)                // lots offered, add button not pressed
    | MissingLot(lots: seq<string>)             // add pressed with an empty lot
    | Added(lots: seq<string>, record: Record)  // add pressed, record built

  /** A barcode already decoded into the session replaces the typed code. */
  function SelectCode(barcode: Option<string>, typed: string): (r: string)
    ensures barcode.Some? ==> r == barcode.value
    ensures barcode.None? ==> r == typed
  {
    if barcode.Some? then barcode.value else typed
  }

  /** The lot the entry is saved under: the typed lot when the Other marker is
      selected, the selected lot otherwise. */
  function EffectiveLot(selected: string, typed: string): (r: string)
    ensures selected == Other ==> r == typed
    ensures selected != Other ==> r == selected
  {
    if selected == Other then typed else selected
  }

  /** The optional quantity: an empty text becomes an empty cell. */
  function QuantityCell(quantity: string): (c: Cell)
    ensures c == Null <==> quantity == ""
    ensures c.Text? ==> c.text == quantity
  {
    if quantity == "" then Null else Text(quantity)
  }

  /** The value of a column of the template row, or an empty cell when the
      sheet has no such column. */
  function ColumnValue(t: Table, column: string, value: Cell): Cell {
    if column in t.columns then value else Null
  }

  /** The descriptive fields of rec are those of row, each one empty when the
      sheet lacks its column. */
  ghost predicate DescribedBy(t: Table, row: Row, rec: Record) {
    rec.articulo == (if NameColumn in t.columns then row.articulo else Null) &&
    rec.codbarras == (if BarcodeColumn in t.columns then row.codbarras else Null) &&
    rec.presentacion == (if PresentationColumn in t.columns then row.presentacion else Null) &&
    rec.vencimiento == (if ExpiryColumn in t.columns then row.vencimiento else Null)
  }

  /** The record for the search result: entered code and effective lot, the
      descriptive fields of the first found row, and the optional quantity. */
  function BuildRecord(matches: Table, code: string, lot: string, quantity: string): (r: Record)
    requires matches.rows != []
    ensures r.codarticulo == code && r.lote == lot
    ensures r.cantidad == Null <==> quantity == ""
    ensures r.cantidad.Text? ==> r.cantidad.text == quantity
    ensures DescribedBy(matches, matches.rows[0], r)
  {
    var first := matches.rows[0];
    Record(
      code,
      ColumnValue(matches, NameColumn, first.articulo),
      lot,
      ColumnValue(matches, BarcodeColumn, first.codbarras),
      ColumnValue(matches, PresentationColumn, first.presentacion),
      ColumnValue(matches, ExpiryColumn, first.vencimiento),
      QuantityCell(quantity))
  }

  /** One pass of the form for a given code and user input: the lot choice as a
      position in the offered list, the typed new lot, the quantity text, and
      whether the add button was pressed. */
  function Interaction(catalog: Table, code: string, pick: nat, typedLot: string, quantity: string, pressed: bool): (r: Outcome)
    ensures r.Idle? <==> code == ""
    ensures r.NotFound? <==>
      code != "" && CodeColumn in catalog.columns && !NoTextCodes(catalog.rows) && Search(catalog.rows, code) == []
    ensures r.NotTextColumn? <==> code != "" && CodeColumn in catalog.columns && NoTextCodes(catalog.rows)
    ensures r.ColumnError? <==>
      code != "" && (CodeColumn !in catalog.columns ||
        (LotColumn !in catalog.columns && !NoTextCodes(catalog.rows) && Search(catalog.rows, code) != []))
    ensures r.ColumnError? ==> r.column == (if CodeColumn !in catalog.columns then CodeColumn else LotColumn)
    ensures r.Offered? <==>
      code != "" && CodeColumn in catalog.columns && LotColumn in catalog.columns &&
      !NoTextCodes(catalog.rows) && Search(catalog.rows, code) != [] && !pressed
    ensures (r.Offered? || r.MissingLot? || r.Added?) ==>
      LotColumn in catalog.columns && Search(catalog.rows, code) != [] &&
      r.lots == LotOptions(Search(catalog.rows, code))
    ensures (r.MissingLot? || r.Added?) ==> pressed
    ensures r.Added? ==> r.record.codarticulo == code && r.record.lote != ""
  {
    if code == "" then Idle
    else if CodeColumn !in catalog.columns then ColumnError(CodeColumn)
    else if NoTextCodes(catalog.rows) then NotTextColumn(CodeColumn)
    else
      var matches := SearchTable(catalog, code);
      if matches.rows == [] then NotFound
      else if LotColumn !in catalog.columns then ColumnError(LotColumn)
      else
        var lots := LotOptions(matches.rows);
        var lot := EffectiveLot(Choose(lots, pick), typedLot);
        if !pressed then Offered(lots)
        else if lot == "" then MissingLot(lots)
        else Added(lots, BuildRecord(matches, code, lot, quantity))
  }

  /** An empty code searches nothing, whatever else was entered. */
  lemma NoCodeNoSearch(catalog: Table, code: string, pick: nat, typedLot: string, quantity: string, pressed: bool)
    ensures Interaction(catalog, code, pick, typedLot, quantity, pressed) == Idle <==> code == ""
  {
  }

  /** With a code and a code column, the not-found error is reported exactly
      when no row matches; no lot list comes with it. */
  lemma NotFoundIffNoMatch(catalog: Table, code: string, pick: nat, typedLot: string, quantity: string, pressed: bool)
    requires code != "" && CodeColumn in catalog.columns
    ensures Interaction(catalog, code, pick, typedLot, quantity, pressed) == NotFound <==>
      !NoTextCodes(catalog.rows) && forall i :: 0 <= i < |catalog.rows| ==> !Matches(catalog.rows[i], code)
  {
    SearchEmptyIff(catalog.rows, code);
  }

  /** A non-empty sheet whose article-code cells are all empty makes the
      search line raise, whatever the code. */
  lemma AllEmptyCodesRaise(catalog: Table, code: string, pick: nat, typedLot: string, quantity: string, pressed: bool)
    requires code != "" && CodeColumn in catalog.columns
    requires |catalog.rows| > 0 && forall i :: 0 <= i < |catalog.rows| ==> catalog.rows[i].codarticulo == Null
    ensures Interaction(catalog, code, pick, typedLot, quantity, pressed) == NotTextColumn(CodeColumn)
  {
  }

  /** Lots are offered exactly when, with both the code and the lot column
      present, some row matches and add was not pressed; when offered (or when
      add was pressed), they are the lot options of the search result. A missing
      column raises exactly when it is indexed: the code column for any code,
      the lot column once some row matched. */
  lemma LotsOnlyForMatches(catalog: Table, code: string, pick: nat, typedLot: string, quantity: string, pressed: bool)
    ensures var o := Interaction(catalog, code, pick, typedLot, quantity, pressed);
      (o.Offered? <==>
        code != "" && CodeColumn in catalog.columns && LotColumn in catalog.columns &&
        (exists i :: 0 <= i < |catalog.rows| && Matches(catalog.rows[i], code)) && !pressed) &&
      ((o.Offered? || o.MissingLot? || o.Added?) ==>
        o.lots == LotOptions(Search(catalog.rows, code))) &&
      (o.ColumnError? <==>
        code != "" && (CodeColumn !in catalog.columns ||
          (LotColumn !in catalog.columns && exists i :: 0 <= i < |catalog.rows| && Matches(catalog.rows[i], code)))) &&
      (o.ColumnError? ==> o.column == (if CodeColumn !in catalog.columns then CodeColumn else LotColumn))
  {
    SearchEmptyIff(catalog.rows, code);
  }

  /** Once lots are offered and add is pressed, the entry is refused exactly
      when the effective lot is empty. */
  lemma MissingLotIffEmpty(catalog: Table, code: string, pick: nat, typedLot: string, quantity: string)
    requires code != "" && CodeColumn in catalog.columns && LotColumn in catalog.columns
    requires exists i :: 0 <= i < |catalog.rows| && Matches(catalog.rows[i], code)
    ensures var lots := LotOptions(Search(catalog.rows, code));
      var o := Interaction(catalog, code, pick, typedLot, quantity, true);
      (o.MissingLot? <==> EffectiveLot(Choose(lots, pick), typedLot) == "") &&
      (o.Added? <==> EffectiveLot(Choose(lots, pick), typedLot) != "")
  {
    SearchEmptyIff(catalog.rows, code);
  }

  /** Only emptiness is checked: a lot made of a blank is accepted as is. */
  lemma BlankLotAccepted(catalog: Table, code: string, quantity: string)
    requires code != "" && CodeColumn in catalog.columns && LotColumn in catalog.columns
    requires exists i :: 0 <= i < |catalog.rows| && Matches(catalog.rows[i], code)
    ensures var lots := LotOptions(Search(catalog.rows, code));
      var o := Interaction(catalog, code, |lots| - 1, " ", quantity, true);
      o.Added? && o.record.lote == " "
  {
    SearchEmptyIff(catalog.rows, code);
    var i :| 0 <= i < |catalog.rows| && Matches(catalog.rows[i], code);
    assert !NoTextCodes(catalog.rows);
    var lots := LotOptions(Search(catalog.rows, code));
    assert Choose(lots, |lots| - 1) == Other;
    assert EffectiveLot(Other, " ") == " ";
  }

  /** A saved record carries the entered code, the effective lot (never empty),
      the quantity or an empty cell for an empty quantity, and the descriptive
      fields of the FIRST catalog row the code matches, whichever lot was chosen. */
  lemma AddedRecord(catalog: Table, code: string, pick: nat, typedLot: string, quantity: string, pressed: bool)
    ensures var o := Interaction(catalog, code, pick, typedLot, quantity, pressed);
      o.Added? ==>
        var selected := Choose(o.lots, pick);
        pressed &&
        o.record.codarticulo == code &&
        o.record.lote != "" &&
        o.record.lote == (if selected == Other then typedLot else selected) &&
        (o.record.cantidad == Null <==> quantity == "") &&
        (o.record.cantidad.Text? ==> o.record.cantidad.text == quantity) &&
        exists i :: IsFirstMatch(catalog.rows, code, i) && DescribedBy(catalog, catalog.rows[i], o.record)
  {
    var o := Interaction(catalog, code, pick, typedLot, quantity, pressed);
    if o.Added? {
      var matches := Search(catalog.rows, code);
      SearchHeadIsFirstMatch(catalog.rows, code);
      var i :| IsFirstMatch(catalog.rows, code, i) && matches[0] == catalog.rows[i];
      assert DescribedBy(catalog, catalog.rows[i], o.record);
    }
  }

  /** A lot picked from the list (not the Other marker) is the lot of some row
      the code matches. */
  lemma PickedLotBelongsToMatch(catalog: Table, code: string, pick: nat, typedLot: string, quantity: string, pressed: bool)
    ensures var o := Interaction(catalog, code, pick, typedLot, quantity, pressed);
      o.Added? && Choose(o.lots, pick) != Other ==>
        exists i :: 0 <= i < |catalog.rows| && Matches(catalog.rows[i], code) && catalog.rows[i].lote == Text(o.record.lote)
  {
    var o := Interaction(catalog, code, pick, typedLot, quantity, pressed);
    if o.Added? && Choose(o.lots, pick) != Other {
      var matches := Search(catalog.rows, code);
      var sel := Choose(o.lots, pick);
      OfferedLotHasRow(matches, sel);
      var j :| 0 <= j < |matches| && matches[j].lote == Text(sel);
      assert Matches(matches[j], code);
      assert matches[j] in multiset(matches);
      assert matches[j] in multiset(catalog.rows);
      var i :| 0 <= i < |catalog.rows| && catalog.rows[i] == matches[j];
    }
  }

  /** Once a barcode is in the session, what is typed in the code box does not
      change the pass. */
  lemma ScannedCodeWins(catalog: Table, barcode: string, typed1: string, typed2: string,
                        pick: nat, typedLot: string, quantity: string, pressed: bool)
    ensures Interaction(catalog, SelectCode(Some(barcode), typed1), pick, typedLot, quantity, pressed) ==
            Interaction(catalog, barcode, pick, typedLot, quantity, pressed) ==
            Interaction(catalog, SelectCode(Some(barcode), typed2), pick, typedLot, quantity, pressed)
  {
  }

  /** Two lots of one article: searching in lower case finds both rows, the
      list is L1, L2, Otro, and choosing L2 saves L2 with the name of the L1 row
      (the first match) and the code as typed. */
  lemma TwoLotScenario()
    ensures var catalog := Table({CodeColumn, NameColumn, LotColumn}, [
        Row(Text("A100"), Text("first"), Text("L1"), Null, Null, Null),
        Row(Text("A100"), Text("second"), Text("L2"), Null, Null, Null)]);
      Interaction(catalog, "a100", 1, "", "5", true) ==
        Added(["L1", "L2", Other], Record("a100", Text("first"), "L2", Null, Null, Null, Text("5")))
  {
    var r1 := Row(Text("A100"), Text("first"), Text("L1"), Null, Null, Null);
    var r2 := Row(Text("A100"), Text("second"), Text("L2"), Null, Null, Null);
    var catalog := Table({CodeColumn, NameColumn, LotColumn}, [r1, r2]);
    ScenarioSearch(r1, r2);
    ScenarioLots(r1, r2);
    var matches := SearchTable(catalog, "a100");
    assert matches.rows == [r1, r2];
    var lots := LotOptions(matches.rows);
    assert Choose(lots, 1) == "L2";
    assert EffectiveLot("L2", "") == "L2";
    ScenarioRecord(matches);
    assert Interaction(catalog, "a100", 1, "", "5", true) == Added(lots, BuildRecord(matches, "a100", "L2", "5"));
  }

  lemma ScenarioSearch(r1: Row, r2: Row)
    requires r1.codarticulo == Text("A100") && r2.codarticulo == Text("A100")
    ensures Search([r1, r2], "a100") == [r1, r2]
  {
    assert Strings.Lower("a100") == "a100";
    assert Strings.Lower("A100") == "a100";
    assert Strings.IsPrefix("a100", "a100");
    assert Matches(r1, "a100") && Matches(r2, "a100");
    assert [r1, r2][1..] == [r2];
    assert [r2][1..] == [];
  }

  lemma ScenarioLots(r1: Row, r2: Row)
    requires r1.lote == Text("L1") && r2.lote == Text("L2")
    ensures LotOptions([r1, r2]) == ["L1", "L2", Other]
  {
    assert [r1, r2][1..] == [r2];
    assert [r2][1..] == [];
    assert NonNullLots([r1, r2]) == ["L1", "L2"];
    ScenarioDedup();
  }

  lemma ScenarioDedup()
    ensures Dedup(["L1", "L2"]) == ["L1", "L2"]
  {
    var s: seq<string> := ["L1", "L2"];
    assert s[..1] == ["L1"];
    assert ["L1"][..0] == [];
    assert Dedup(["L1"]) == ["L1"];
    assert "L2" != "L1";
  }

  lemma ScenarioRecord(matches: Table)
    requires matches.columns == {CodeColumn, NameColumn, LotColumn}
    requires matches.rows != [] && matches.rows[0].articulo == Text("first")
    ensures BuildRecord(matches, "a100", "L2", "5") == Record("a100", Text("first"), "L2", Null, Null, Null, Text("5"))
  {
    assert BarcodeColumn !in matches.columns;
    assert PresentationColumn !in matches.columns;
    assert ExpiryColumn !in matches.columns;
  }
}
