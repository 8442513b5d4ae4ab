/**
 * The event handlers of the deductions table as functions on the two list
 * containers they replace: adding a catalog entry as a row, deleting a row
 * and overwriting one cell of a row. The lemmas relate the handlers to each
 * other (add then delete), to the derived values (total, annual amount)
 * and to the invariants the table relies on: the validation schema, and
 * every deduction type being either offered in the selector or used by
 * exactly one row.
 */
module Transitions {
  import opened Deductions

  /** The catalog still offered in the selector (`deductionList`) and the
      rows of the form (`deductions`). */
  datatype Table = Table(catalog: seq<string>, deductions: seq<Deduction>)

  /** Selecting a catalog entry. `id` is the clock reading the new row gets
      as its id. An empty name changes nothing; any other name becomes a new
      last row with both amounts 0, and every copy of it leaves the catalog.
      The name is not checked against the catalog. */
  function Add(t: Table, name: string, id: int): (r: Table)
    ensures name == "" ==> r == t
    ensures name != "" ==>
      && |r.deductions| == |t.deductions| + 1
      && r.deductions[..|t.deductions|] == t.deductions
      && r.deductions[|t.deductions|] == Deduction(id, name, Some(0), Some(0))
      && name !in r.catalog
      && (forall x :: x != name ==> multiset(r.catalog)[x] == multiset(t.catalog)[x])
  {
    var newDeduction := NewDeduction(id, name);
    if name == "" then t
    else Table(RemoveName(t.catalog, name), t.deductions + [newDeduction])
  }

  /** Deleting the row `(id, name)`: every row with that id goes, the others
      stay, and `name` is offered again at the end of the catalog. */
  function Delete(t: Table, id: int, name: string): (r: Table)
    ensures forall d :: d in r.deductions <==> d in t.deductions && d.id != id
    ensures |r.catalog| == |t.catalog| + 1 && r.catalog[|t.catalog|] == name
    ensures r.catalog[..|t.catalog|] == t.catalog
  {
    Table(t.catalog + [name], KeepOthers(t.deductions, id))
  }

  /** Typing into the cell `field` of the row at `index`. */
  function UpdateField(ds: seq<Deduction>, index: nat, field: Field, value: Amount): (r: seq<Deduction>)
    requires index < |ds|
    ensures |r| == |ds|
    ensures forall j :: 0 <= j < |r| ==> r[j].id == ds[j].id && r[j].name == ds[j].name
    ensures forall j, g :: 0 <= j < |r| ==>
      FieldValue(r[j], g) == if j == index && g == field then value else FieldValue(ds[j], g)
  {
    ds[index := WithField(ds[index], field, value)]
  }

  // ---------------------------------------------------------------------
  // Add and delete

  /** Deleting an id no row carries still offers the name again. */
  lemma DeleteAbsentId(t: Table, id: int, name: string)
    requires id !in IdSeq(t.deductions)
    ensures Delete(t, id, name) == Table(t.catalog + [name], t.deductions)
  {
    KeepOthersAbsent(t.deductions, id);
  }

  /** Adding a name with a fresh id and deleting the new row gives back the
      rows exactly, and the catalog up to the count of that name, which is
      one afterwards. */
  lemma AddThenDeleteRestores(t: Table, name: string, id: int)
    requires name != "" && id !in IdSeq(t.deductions)
    ensures Delete(Add(t, name, id), id, name).deductions == t.deductions
    ensures multiset(Delete(Add(t, name, id), id, name).catalog) == multiset(t.catalog)[name := 1]
  {
    var nd := NewDeduction(id, name);
    KeepOthersAppend(t.deductions, [nd], id);
    KeepOthersAbsent(t.deductions, id);
    assert KeepOthers([nd], id) == [] by {
      assert [nd][1..] == [];
    }
    var c := RemoveName(t.catalog, name);
    assert multiset(c + [name]) == multiset(c) + multiset{name};
  }

  /** When the added name was offered once, at position `k`, add then delete
      restores the catalog except that the name now comes last. */
  lemma AddThenDeleteMovesNameLast(t: Table, id: int, k: nat)
    requires k < |t.catalog| && t.catalog[k] != "" && multiset(t.catalog)[t.catalog[k]] == 1
    requires id !in IdSeq(t.deductions)
    ensures Delete(Add(t, t.catalog[k], id), id, t.catalog[k])
         == Table(t.catalog[..k] + t.catalog[k + 1..] + [t.catalog[k]], t.deductions)
  {
    AddThenDeleteRestores(t, t.catalog[k], id);
    RemoveNameAt(t.catalog, k);
  }

  // ---------------------------------------------------------------------
  // The total and the annual amount

  /** The total splits around any row. */
  lemma NetTotalAround(ds: seq<Deduction>, k: nat)
    requires k < |ds|
    ensures NetTotal(ds) == NetTotal(ds[..k]) + Numeric(ds[k].monthlyAmount) + NetTotal(ds[k + 1..])
  {
    SplitAt(ds, k);
    NetTotalAppend(ds[..k], [ds[k]] + ds[k + 1..]);
    NetTotalAppend([ds[k]], ds[k + 1..]);
    assert [ds[k]][..0] == [];
  }

  /** A new row adds 0 to the total. */
  lemma AddKeepsNetTotal(t: Table, name: string, id: int)
    ensures NetTotal(Add(t, name, id).deductions) == NetTotal(t.deductions)
  {
    if name != "" {
      var ds := t.deductions + [NewDeduction(id, name)];
      assert ds[..|ds| - 1] == t.deductions;
    }
  }

  /** With distinct ids, deleting row `k` takes its monthly amount off the
      total and nothing else. */
  lemma DeleteNetTotal(t: Table, k: nat, name: string)
    requires k < |t.deductions| && NoDuplicates(IdSeq(t.deductions))
    ensures NetTotal(Delete(t, t.deductions[k].id, name).deductions)
         == NetTotal(t.deductions) - Numeric(t.deductions[k].monthlyAmount)
  {
    var ds := t.deductions;
    KeepOthersAt(ds, k);
    NetTotalAround(ds, k);
    NetTotalAppend(ds[..k], ds[k + 1..]);
  }

  /** Editing a monthly amount moves the total by the difference; editing a
      calculation leaves it alone. */
  lemma UpdateNetTotal(ds: seq<Deduction>, index: nat, field: Field, value: Amount)
    requires index < |ds|
    ensures NetTotal(UpdateField(ds, index, field, value)) == NetTotal(ds) +
      (if field == MonthlyAmount then Numeric(value) - Numeric(ds[index].monthlyAmount) else 0)
  {
    var r := UpdateField(ds, index, field, value);
    NetTotalAround(ds, index);
    NetTotalAround(r, index);
    assert r[..index] == ds[..index];
    assert r[index + 1..] == ds[index + 1..];
    assert r[index].monthlyAmount == FieldValue(r[index], MonthlyAmount);
  }

  /** After typing `v` into a monthly amount that row shows `12 * v` a year;
      every other row shows what it showed before, and typing into a
      calculation changes no annual amount. */
  lemma AnnualAfterEdit(ds: seq<Deduction>, index: nat, field: Field, value: Amount)
    requires index < |ds|
    ensures field == MonthlyAmount ==>
      AnnualAmount(UpdateField(ds, index, field, value)[index]) == 12 * Numeric(value)
    ensures forall j :: 0 <= j < |ds| && (j != index || field == Calculation) ==>
      AnnualAmount(UpdateField(ds, index, field, value)[j]) == AnnualAmount(ds[j])
  {
    var r := UpdateField(ds, index, field, value);
    assert forall j :: 0 <= j < |ds| ==> r[j].monthlyAmount == FieldValue(r[j], MonthlyAmount);
  }

  // ---------------------------------------------------------------------
  // The validation schema

  /** A new row passes the schema. */
  lemma AddKeepsSchema(t: Table, name: string, id: int)
    requires SchemaValid(t.deductions)
    ensures SchemaValid(Add(t, name, id).deductions)
  {
  }

  /** The rows left after a delete pass the schema when all rows did. */
  lemma DeleteKeepsSchema(t: Table, id: int, name: string)
    requires SchemaValid(t.deductions)
    ensures SchemaValid(Delete(t, id, name).deductions)
  {
    var ds, r := t.deductions, Delete(t, id, name).deductions;
    forall i | 0 <= i < |r|
      ensures AmountValid(r[i].calculation) && AmountValid(r[i].monthlyAmount)
    {
      assert r[i] in ds;
      var j :| 0 <= j < |ds| && ds[j] == r[i];
    }
  }

  /** An edit changes the validity of the edited cell only: that cell is
      valid exactly when the new value is, every other cell as before. */
  lemma UpdateCellValidity(ds: seq<Deduction>, index: nat, field: Field, value: Amount)
    requires index < |ds|
    ensures forall j, g :: 0 <= j < |ds| ==>
      AmountValid(FieldValue(UpdateField(ds, index, field, value)[j], g)) ==
        if j == index && g == field then AmountValid(value) else AmountValid(FieldValue(ds[j], g))
  {
  }

  /** Starting from valid rows, the rows after an edit are valid exactly
      when the value typed is. */
  lemma UpdateKeepsSchema(ds: seq<Deduction>, index: nat, field: Field, value: Amount)
    requires index < |ds| && SchemaValid(ds)
    ensures SchemaValid(UpdateField(ds, index, field, value)) <==> AmountValid(value)
  {
    var r := UpdateField(ds, index, field, value);
    SchemaValidByCell(ds);
    SchemaValidByCell(r);
    assert FieldValue(r[index], field) == value;
  }

  // ---------------------------------------------------------------------
  // The closed-world catalog

  /** The invariant the table relies on, over the fixed list `universe` of
      deduction types: every type is either offered in the selector or used
      by exactly one row, never both and never twice; and row ids are
      distinct, so a delete removes one row. */
  ghost predicate Partitioned(t: Table, universe: seq<string>) {
    && NoDuplicates(universe)
    && multiset(t.catalog) + multiset(NameSeq(t.deductions)) == multiset(universe)
    && NoDuplicates(IdSeq(t.deductions))
  }

  /** What the partition says name by name: the catalog and the row names
      are disjoint, neither repeats a name, and together they are the
      fixed list. */
  lemma PartitionedMeans(t: Table, universe: seq<string>)
    requires Partitioned(t, universe)
    ensures forall x :: x in t.catalog ==> x !in NameSeq(t.deductions)
    ensures forall x :: x in t.catalog || x in NameSeq(t.deductions) <==> x in universe
    ensures NoDuplicates(t.catalog) && NoDuplicates(NameSeq(t.deductions))
  {
    SplitOfDistinct(t.catalog, NameSeq(t.deductions), universe);
  }

  /** Two sequences whose counts add up to those of a duplicate-free one
      are duplicate-free, disjoint, and cover it. */
  lemma SplitOfDistinct(c: seq<string>, n: seq<string>, u: seq<string>)
    requires NoDuplicates(u) && multiset(c) + multiset(n) == multiset(u)
    ensures forall x :: x in c ==> x !in n
    ensures forall x :: x in c || x in n <==> x in u
    ensures NoDuplicates(c) && NoDuplicates(n)
  {
    forall x
      ensures (x in c ==> x !in n) && (x in c || x in n <==> x in u)
      ensures multiset(c)[x] <= 1 && multiset(n)[x] <= 1
    {
      assert multiset(c)[x] + multiset(n)[x] == multiset(u)[x];
      assert x in c <==> x in multiset(c);
      assert x in n <==> x in multiset(n);
      assert x in u <==> x in multiset(u);
    }
  }

  /** Adding an offered name with a fresh id keeps the partition. */
  lemma AddKeepsPartition(t: Table, universe: seq<string>, name: string, id: int)
    requires Partitioned(t, universe) && name != "" && name in t.catalog && id !in IdSeq(t.deductions)
    ensures Partitioned(Add(t, name, id), universe)
  {
    PartitionedMeans(t, universe);
    var nd := NewDeduction(id, name);
    var c, ds := RemoveName(t.catalog, name), t.deductions + [nd];
    assert multiset(t.catalog)[name] == 1;
    RemoveOnce(t.catalog, name);
    AppendedColumns(t.deductions, nd);
    NoDuplicatesGrow(IdSeq(t.deductions), IdSeq(ds), id);
    assert Add(t, name, id) == Table(c, ds);
  }

  /** Deleting an existing row, under its own name, keeps the partition. */
  lemma DeleteKeepsPartition(t: Table, universe: seq<string>, k: nat)
    requires Partitioned(t, universe) && k < |t.deductions|
    ensures Partitioned(Delete(t, t.deductions[k].id, t.deductions[k].name), universe)
  {
    var ds, d := t.deductions, t.deductions[k];
    var rest := ds[..k] + ds[k + 1..];
    KeepOthersAt(ds, k);
    SplitAt(ds, k);
    ColumnsGap(ds[..k], d, ds[k + 1..]);
    NoDuplicatesGrow(IdSeq(rest), IdSeq(ds), d.id);
    assert multiset(t.catalog + [d.name]) == multiset(t.catalog) + multiset{d.name};
    assert Delete(t, d.id, d.name) == Table(t.catalog + [d.name], rest);
  }

  /** Adding a row with a fresh id keeps the row ids distinct. */
  lemma AddKeepsDistinctIds(t: Table, name: string, id: int)
    requires NoDuplicates(IdSeq(t.deductions)) && id !in IdSeq(t.deductions)
    ensures NoDuplicates(IdSeq(Add(t, name, id).deductions))
  {
    if name != "" {
      var nd := NewDeduction(id, name);
      AppendedColumns(t.deductions, nd);
      NoDuplicatesGrow(IdSeq(t.deductions), IdSeq(t.deductions + [nd]), id);
    }
  }

  /** Deleting keeps the row ids distinct, whatever id is deleted. */
  lemma DeleteKeepsDistinctIds(t: Table, id: int, name: string)
    requires NoDuplicates(IdSeq(t.deductions))
    ensures NoDuplicates(IdSeq(Delete(t, id, name).deductions))
  {
    var before, after := IdSeq(t.deductions), IdSeq(KeepOthers(t.deductions, id));
    KeepOthersIdsShrink(t.deductions, id);
    forall x ensures multiset(after)[x] <= 1 {
      assert multiset(after)[x] <= multiset(before)[x];
    }
  }

  /** The row filter only drops ids. */
  lemma {:induction false} KeepOthersIdsShrink(ds: seq<Deduction>, id: int)
    ensures multiset(IdSeq(KeepOthers(ds, id))) <= multiset(IdSeq(ds))
  {
    if ds != [] {
      KeepOthersIdsShrink(ds[1..], id);
      var head := if ds[0].id == id then [] else [ds[0]];
      assert KeepOthers(ds, id) == head + KeepOthers(ds[1..], id);
      ColumnsAppend(head, KeepOthers(ds[1..], id));
      assert IdSeq(ds) == [ds[0].id] + IdSeq(ds[1..]);
      assert IdSeq(head) == if ds[0].id == id then [] else [ds[0].id];
    }
  }

  lemma RemoveOnce(c: seq<string>, name: string)
    requires multiset(c)[name] == 1
    ensures multiset(RemoveName(c, name)) + multiset{name} == multiset(c)
  {
  }

  lemma AppendedColumns(ds: seq<Deduction>, d: Deduction)
    ensures multiset(IdSeq(ds + [d])) == multiset(IdSeq(ds)) + multiset{d.id}
    ensures multiset(NameSeq(ds + [d])) == multiset(NameSeq(ds)) + multiset{d.name}
  {
    ColumnsAppend(ds, [d]);
    assert IdSeq([d]) == [d.id] && NameSeq([d]) == [d.name];
  }

  /** Adding one element keeps a sequence duplicate-free exactly when the
      element is new. */
  lemma NoDuplicatesGrow<T(!new)>(s: seq<T>, s': seq<T>, x: T)
    requires multiset(s') == multiset(s) + multiset{x}
    ensures NoDuplicates(s') <==> NoDuplicates(s) && x !in s
  {
    if NoDuplicates(s') {
      forall y ensures multiset(s)[y] <= 1 {
        assert multiset(s')[y] <= 1;
      }
      assert multiset(s')[x] <= 1;
    }
  }

  // ---------------------------------------------------------------------
  // The starting state

  /** As written, the starting catalog still offers "Professional Tax",
      which the seeded row already uses, so the partition fails from the
      first render. */
  lemma SeedStateNotPartitioned()
    ensures !Partitioned(Table(DeductionList, SeedDeductions), DeductionList)
  {
    assert DeductionList[0] == "Professional Tax";
    SeedOverlap(DeductionList);
  }

  lemma SeedOverlap(catalog: seq<string>)
    requires "Professional Tax" in catalog
    ensures !Partitioned(Table(catalog, SeedDeductions), catalog)
  {
    assert NameSeq(SeedDeductions) == ["Professional Tax"];
    var m := multiset(catalog);
    assert (m + multiset(NameSeq(SeedDeductions)))["Professional Tax"] == m["Professional Tax"] + 1;
  }

  /** From that state, selecting "Professional Tax", which the catalog
      offers, yields two rows of the same type. */
  lemma SeedStateAllowsDuplicateRow(id: int)
    ensures "Professional Tax" in DeductionList
    ensures NameSeq(Add(Table(DeductionList, SeedDeductions), "Professional Tax", id).deductions)
         == ["Professional Tax", "Professional Tax"]
  {
    assert DeductionList[0] == "Professional Tax";
    SeedDuplicate(DeductionList, id);
  }

  /** From that state, deleting the seeded row offers "Professional Tax"
      twice. */
  lemma SeedDeleteOffersTwice()
    ensures multiset(Delete(Table(DeductionList, SeedDeductions), 1, "Professional Tax").catalog)["Professional Tax"] == 2
  {
    DeductionListDistinct();
    assert DeductionList[0] == "Professional Tax";
    assert multiset(DeductionList)["Professional Tax"] == 1;
    assert multiset(DeductionList + ["Professional Tax"]) == multiset(DeductionList) + multiset{"Professional Tax"};
  }

  lemma SeedDuplicate(catalog: seq<string>, id: int)
    ensures NameSeq(Add(Table(catalog, SeedDeductions), "Professional Tax", id).deductions)
         == ["Professional Tax", "Professional Tax"]
  {
    var ds := SeedDeductions + [NewDeduction(id, "Professional Tax")];
    assert Add(Table(catalog, SeedDeductions), "Professional Tax", id).deductions == ds;
    assert NameSeq(ds)[0] == "Professional Tax" && NameSeq(ds)[1] == "Professional Tax";
  }

  lemma SeededPartition(universe: seq<string>)
    requires NoDuplicates(universe) && "Professional Tax" in universe
    ensures Partitioned(Table(RemoveName(universe, "Professional Tax"), SeedDeductions), universe)
  {
    assert NameSeq(SeedDeductions) == ["Professional Tax"];
    assert IdSeq(SeedDeductions) == [1];
    assert multiset(universe)["Professional Tax"] == 1;
    RemoveOnce(universe, "Professional Tax");
  }
}
