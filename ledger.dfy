/**
 * The two queries the bot runs against the wallet's `outputs` table, as
 * functions of the table's rows and the notified units. Rows are modelled in
 * table order; SQL leaves the order of a result unspecified, and this model
 * fixes it to the order of first appearance.
 */
module Ledger {
  import opened Wrappers

  /** A row of the `outputs` table: the unit that created it, the address paid, its asset (None for bytes) and its amount. */
  datatype LedgerOutput = LedgerOutput(unit: string, address: string, asset: Option<string>, amount: int)

  /** A result row: an address and an amount. */
  datatype Row = Row(address: string, amount: int)

  /** `WHERE unit IN(?) AND asset IS NULL` */
  predicate Selected(o: LedgerOutput, units: set<string>) {
    o.unit in units && o.asset == None
  }

  /** `SELECT address, amount FROM outputs WHERE unit IN(?) AND asset IS NULL`: one row per selected output, in table order. */
  function UnconfirmedRows(outs: seq<LedgerOutput>, units: set<string>): (rows: seq<Row>)
    ensures |rows| <= |outs|
    ensures forall r :: r in rows <==>
      exists i :: 0 <= i < |outs| && Selected(outs[i], units) && r == Row(outs[i].address, outs[i].amount)
  {
    if outs == [] then []
    else
      var rest := UnconfirmedRows(outs[1..], units);
      assert forall i :: 0 < i < |outs| ==> outs[i] == outs[1..][i - 1];
      assert forall i :: 0 <= i < |outs| - 1 ==> outs[1..][i] == outs[i + 1];
      if Selected(outs[0], units) then [Row(outs[0].address, outs[0].amount)] + rest else rest
  }

  /**
   * The unconfirmed query reports outputs one by one, in table order: the
   * rows for two stretches of the table are those of the first followed by
   * those of the second.
   */
  lemma {:induction false} UnconfirmedAppend(outs: seq<LedgerOutput>, more: seq<LedgerOutput>, units: set<string>)
    ensures UnconfirmedRows(outs + more, units) == UnconfirmedRows(outs, units) + UnconfirmedRows(more, units)
  {
    if outs == [] {
      assert outs + more == more;
    } else {
      assert (outs + more)[0] == outs[0];
      assert (outs + more)[1..] == outs[1..] + more;
      UnconfirmedAppend(outs[1..], more, units);
    }
  }

  /** A single output gives its own row when it is selected, and no row otherwise. */
  lemma UnconfirmedOne(o: LedgerOutput, units: set<string>)
    ensures UnconfirmedRows([o], units) == if Selected(o, units) then [Row(o.address, o.amount)] else []
  {
    assert [o][1..] == [];
  }

  /** Some selected output pays `a`. */
  predicate Pays(outs: seq<LedgerOutput>, units: set<string>, a: string) {
    exists i :: 0 <= i < |outs| && Selected(outs[i], units) && outs[i].address == a
  }

  /** `SUM(amount)` over the selected outputs that pay `a`. */
  function Total(outs: seq<LedgerOutput>, units: set<string>, a: string): int {
    if outs == [] then 0
    else
      var o := outs[|outs| - 1];
      Total(outs[..|outs| - 1], units, a) + (if Selected(o, units) && o.address == a then o.amount else 0)
  }

  /** The addresses paid by selected outputs, each once, in order of first appearance. */
  function PaidAddresses(outs: seq<LedgerOutput>, units: set<string>): seq<string> {
    if outs == [] then []
    else
      var seen := PaidAddresses(outs[..|outs| - 1], units);
      var o := outs[|outs| - 1];
      if Selected(o, units) && o.address !in seen then seen + [o.address] else seen
  }

  /** `SELECT address, SUM(amount) AS amount ... GROUP BY address` */
  function StableRows(outs: seq<LedgerOutput>, units: set<string>): seq<Row> {
    var addresses := PaidAddresses(outs, units);
    seq(|addresses|, i requires 0 <= i < |addresses| => Row(addresses[i], Total(outs, units, addresses[i])))
  }

  predicate DistinctAddresses(rows: seq<Row>) {
    forall i, j :: 0 <= i < j < |rows| ==> rows[i].address != rows[j].address
  }

  lemma {:induction false} PaidAddressesSpec(outs: seq<LedgerOutput>, units: set<string>)
    ensures var seen := PaidAddresses(outs, units);
      (forall i, j :: 0 <= i < j < |seen| ==> seen[i] != seen[j])
      && (forall a :: a in seen <==> Pays(outs, units, a))
  {
    if outs != [] {
      var init := outs[..|outs| - 1];
      PaidAddressesSpec(init, units);
      forall a
        ensures Pays(outs, units, a) <==> Pays(init, units, a) || (Selected(outs[|outs| - 1], units) && outs[|outs| - 1].address == a)
      {
        if Pays(outs, units, a) {
          var i :| 0 <= i < |outs| && Selected(outs[i], units) && outs[i].address == a;
          if i < |outs| - 1 {
            assert init[i] == outs[i];
          }
        }
        if Pays(init, units, a) {
          var i :| 0 <= i < |init| && Selected(init[i], units) && init[i].address == a;
          assert outs[i] == init[i];
        }
      }
    }
  }

  /**
   * The grouped query returns each paid address exactly once, with the sum
   * of every selected output to it across the notified units, and returns
   * no other address.
   */
  lemma StableRowsSpec(outs: seq<LedgerOutput>, units: set<string>)
    ensures DistinctAddresses(StableRows(outs, units))
    ensures forall r :: r in StableRows(outs, units) ==> r.amount == Total(outs, units, r.address)
    ensures forall a :: Pays(outs, units, a) <==> exists r :: r in StableRows(outs, units) && r.address == a
  {
    var rows := StableRows(outs, units);
    var seen := PaidAddresses(outs, units);
    PaidAddressesSpec(outs, units);
    forall i, j | 0 <= i < j < |rows|
      ensures rows[i].address != rows[j].address
    {
      assert rows[i].address == seen[i] && rows[j].address == seen[j];
    }
    forall a
      ensures Pays(outs, units, a) <==> exists r :: r in rows && r.address == a
    {
      if a in seen {
        var i :| 0 <= i < |seen| && seen[i] == a;
        assert rows[i] in rows;
      }
    }
  }

  /** Two outputs of 100 and 150 bytes to one address in two units give a single row of 250 bytes. */
  lemma AggregatesAcrossUnits(x: string, u1: string, u2: string)
    ensures StableRows([LedgerOutput(u1, x, None, 100), LedgerOutput(u2, x, None, 150)], {u1, u2}) == [Row(x, 250)]
  {
    var outs := [LedgerOutput(u1, x, None, 100), LedgerOutput(u2, x, None, 150)];
    assert outs[..1][..0] == [];
    assert outs[..1] == [outs[0]];
    assert PaidAddresses(outs[..1], {u1, u2}) == [x];
    assert Total(outs[..1], {u1, u2}, x) == 100;
  }
}
