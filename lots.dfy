/** The lot options offered for the rows a search found. */
module Lots {
  import opened Catalog

  /** The marker offered after the existing lots, meaning "type a new lot". */
  const Other: string := "Otro"

  /** The non-empty lot cells of the rows, in row order (dropna on the lot column). */
  function NonNullLots(rows: seq<Row>): (r: seq<string>)
    ensures |r| <= |rows|
    ensures forall x :: x in r <==> exists i :: 0 <= i < |rows| && rows[i].lote == Text(x)
  {
    if rows == [] then []
    else
      var rest := NonNullLots(rows[1..]);
      assert forall x, i :: 0 <= i < |rows| - 1 ==> (rows[1..][i].lote == Text(x) <==> rows[i + 1].lote == Text(x));
      if rows[0].lote.Text? then [rows[0].lote.text] + rest else rest
  }

  predicate Distinct<T(==)>(s: seq<T>) {
    forall i, j :: 0 <= i < j < |s| ==> s[i] != s[j]
  }

  /** Position of the first occurrence of x in s. */
  function FirstIndex<T(==)>(s: seq<T>, x: T): (k: nat)
    requires x in s
    ensures k < |s| && s[k] == x && x !in s[..k]
  {
    if s[0] == x then 0
    else
      var k := FirstIndex(s[1..], x);
      assert s[..k + 1] == [s[0]] + s[1..][..k];
      k + 1
  }

  lemma FirstIndexUnique<T>(s: seq<T>, x: T, k: nat)
    requires k < |s| && s[k] == x && x !in s[..k]
    ensures FirstIndex(s, x) == k
  {
    var f := FirstIndex(s, x);
  }

  /** pandas' unique(): each value once, in the order of its first occurrence.
      The result has no repeats, holds exactly the values of s, and lists them
      by increasing first position in s. */
  function Dedup<T(==,!new)>(s: seq<T>): (r: seq<T>)
    ensures Distinct(r)
    ensures forall x :: x in r <==> x in s
    ensures forall i, j :: 0 <= i < j < |r| ==> FirstIndex(s, r[i]) < FirstIndex(s, r[j])
  {
    if s == [] then []
    else
      var p, y := s[..|s| - 1], s[|s| - 1];
      assert s == p + [y];
      var d := Dedup(p);
      forall x | x in p
        ensures FirstIndex(s, x) == FirstIndex(p, x)
      {
        var k := FirstIndex(p, x);
        assert s[..k] == p[..k];
        FirstIndexUnique(s, x, k);
      }
      if y in d then d
      else
        assert s[..|s| - 1] == p;
        FirstIndexUnique(s, y, |s| - 1);
        d + [y]
  }

  /** Position of the first row whose lot is x. */
  ghost function FirstLotRow(rows: seq<Row>, x: string): (k: nat)
    requires exists i :: 0 <= i < |rows| && rows[i].lote == Text(x)
    ensures k < |rows| && rows[k].lote == Text(x)
    ensures forall j :: 0 <= j < k ==> rows[j].lote != Text(x)
  {
    if rows[0].lote == Text(x) then 0
    else
      var i :| 0 <= i < |rows| && rows[i].lote == Text(x);
      assert rows[1..][i - 1].lote == Text(x);
      1 + FirstLotRow(rows[1..], x)
  }

  /** Ordering two lots by first position among the non-empty lots is ordering
      them by the first row that carries them. */
  lemma {:induction false} FirstLotOrder(rows: seq<Row>, x: string, y: string)
    requires x in NonNullLots(rows) && y in NonNullLots(rows)
    ensures FirstIndex(NonNullLots(rows), x) < FirstIndex(NonNullLots(rows), y) <==>
            FirstLotRow(rows, x) < FirstLotRow(rows, y)
  {
    var s := NonNullLots(rows);
    var rest := NonNullLots(rows[1..]);
    var c := rows[0].lote;
    if c == Text(x) || c == Text(y) {
    } else {
      var i :| 0 <= i < |rows| && rows[i].lote == Text(x);
      var j :| 0 <= j < |rows| && rows[j].lote == Text(y);
      assert rows[1..][i - 1].lote == Text(x);
      assert rows[1..][j - 1].lote == Text(y);
      FirstLotOrder(rows[1..], x, y);
      if c.Text? {
        assert s == [c.text] + rest;
        assert s[1..] == rest;
      }
    }
  }

  /** The lots offered for the search result: its distinct non-empty lots in
      first-seen order, followed by the Other marker. */
  function LotOptions(rows: seq<Row>): (r: seq<string>)
    ensures |r| >= 1 && r[|r| - 1] == Other
    ensures Distinct(r[..|r| - 1])
    ensures forall x :: x in r[..|r| - 1] <==> exists i :: 0 <= i < |rows| && rows[i].lote == Text(x)
    ensures forall i, j :: 0 <= i < j < |r| - 1 ==> FirstLotRow(rows, r[i]) < FirstLotRow(rows, r[j])
  {
    var nn := NonNullLots(rows);
    var d := Dedup(nn);
    assert (d + [Other])[..|d|] == d;
    forall i, j | 0 <= i < j < |d|
      ensures FirstLotRow(rows, d[i]) < FirstLotRow(rows, d[j])
    {
      FirstLotOrder(rows, d[i], d[j]);
    }
    d + [Other]
  }

  /** An offered lot other than the marker is the lot of some row. */
  lemma OfferedLotHasRow(rows: seq<Row>, x: string)
    requires x in LotOptions(rows) && x != Other
    ensures exists i :: 0 <= i < |rows| && rows[i].lote == Text(x)
  {
    var r := LotOptions(rows);
    var n := |r| - 1;
    var k :| 0 <= k < |r| && r[k] == x;
    assert r[..n][k] == x;
  }

  /** The offered list repeats nothing exactly when no row's lot is itself the
      Other marker; otherwise the marker is offered twice. */
  lemma LotOptionsDistinctIff(rows: seq<Row>)
    ensures Distinct(LotOptions(rows)) <==> forall i :: 0 <= i < |rows| ==> rows[i].lote != Text(Other)
  {
    var r := LotOptions(rows);
    var n := |r| - 1;
    if i :| 0 <= i < |rows| && rows[i].lote == Text(Other) {
      assert Other in r[..n];
      var k :| 0 <= k < n && r[..n][k] == Other;
      assert r[k] == r[n];
    } else {
      forall a, b | 0 <= a < b < |r|
        ensures r[a] != r[b]
      {
        if b < n {
          assert r[..n][a] == r[a] && r[..n][b] == r[b];
        } else {
          assert r[..n][a] in r[..n];
        }
      }
    }
  }

  /** The selection box returns one of the offered lots; the choice is given as
      a position, and a position past the end yields the first entry, which is
      what the box shows by default. */
  function Choose(lots: seq<string>, pick: nat): (r: string)
    requires lots != []
    ensures r in lots
    ensures pick < |lots| ==> r == lots[pick]
  {
    if pick < |lots| then lots[pick] else lots[0]
  }
}
