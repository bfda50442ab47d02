/** The per-session state of the form and one top-to-bottom pass over it. */
module Sessions {
  import opened Optional
  import opened Catalog
  import opened Lots
  import opened Entry

  /** The saved entries, or none before the list has been created. */
  function Saved(consultas: Option<seq<Record>>): seq<Record> {
    if consultas.Some? then consultas.value else []
  }

  /** The entries a pass appends: its record when it added one. */
  function Appended(o: Outcome): seq<Record> {
    if o.Added? then [o.record] else []
  }

  /** The session store: the last decoded barcode and the saved entries, each
      absent until first set. */
  class Session {
    var barcode: Option<string>
    var consultas: Option<seq<Record>>

    constructor ()
      ensures barcode == None && consultas == None
    {
      barcode := None;
      consultas := None;
    }

    /** Creates the empty entry list when there is none; an existing list is kept. */
    method InitConsultas()
      modifies this`consultas
      ensures consultas == Some(Saved(old(consultas)))
    {
      if consultas.None? {
        consultas := Some([]);
      }
    }

    /** The values decoded from one camera frame, in detection order, are each
        written to the session in turn: the last one stays. */
    method ScanFrame(decoded: seq<string>)
      modifies this`barcode
      ensures barcode == if decoded == [] then old(barcode) else Some(decoded[|decoded| - 1])
    {
      var k := 0;
      while k < |decoded|
        invariant 0 <= k <= |decoded|
        invariant barcode == if k == 0 then old(barcode) else Some(decoded[k - 1])
      {
        barcode := Some(decoded[k]);
        k := k + 1;
      }
    }

    /** The add button: an empty lot is refused and the list is left alone;
        otherwise exactly one record is appended and the earlier ones stay. */
    method AddEntry(matches: Table, code: string, lot: string, quantity: string) returns (added: bool)
      requires consultas.Some? && matches.rows != []
      modifies this`consultas
      ensures added <==> lot != ""
      ensures consultas == Some(old(consultas).value + if added then [BuildRecord(matches, code, lot, quantity)] else [])
    {
      if lot == "" {
        added := false;
        assert consultas.value + [] == consultas.value;
      } else {
        var rec := BuildRecord(matches, code, lot, quantity);
        consultas := Some(consultas.value + [rec]);
        added := true;
      }
    }

    /** One pass of the form: create the list if needed, pick the code, search,
        offer lots and, when add is pressed, save. The outcome is the one
        Interaction describes, and the list grows by that outcome's record and
        nothing else. */
    method Run(catalog: Table, typedCode: string, pick: nat, typedLot: string, quantity: string, pressed: bool)
      returns (o: Outcome)
      modifies this`consultas
      ensures o == Interaction(catalog, SelectCode(barcode, typedCode), pick, typedLot, quantity, pressed)
      ensures consultas == Some(Saved(old(consultas)) + Appended(o))
    {
      InitConsultas();
      assert consultas.value + [] == consultas.value;
      var code := SelectCode(barcode, typedCode);
      if code == "" {
        return Idle;
      }
      if CodeColumn !in catalog.columns {
        return ColumnError(CodeColumn);
      }
      if NoTextCodes(catalog.rows) {
        return NotTextColumn(CodeColumn);
      }
      var matches := SearchTable(catalog, code);
      if matches.rows == [] {
        return NotFound;
      }
      if LotColumn !in catalog.columns {
        return ColumnError(LotColumn);
      }
      var lots := LotOptions(matches.rows);
      var lot := EffectiveLot(Choose(lots, pick), typedLot);
      if !pressed {
        return Offered(lots);
      }
      var added := AddEntry(matches, code, lot, quantity);
      if added {
        o := Added(lots, BuildRecord(matches, code, lot, quantity));
      } else {
        o := MissingLot(lots);
      }
    }
  }
}
