/**
 * The table component as an object: one field per state container and one
 * method per event handler. Each method states the new state through the
 * functions of module Transitions and module Deductions, and the invariants
 * proved there as conditional postconditions.
 */
module ProductTableState {
  import opened Deductions
  import opened Transitions

  class ProductTable {
    /** `deductionList`: the names the selector still offers. */
    var catalog: seq<string>
    /** The form's `deductions`: the rows, in display order. */
    var deductions: seq<Deduction>
    /** `editableDeductionField`: the cell shown as an input. */
    var focus: EditableField
    /** The fixed list of deduction types this table was started from. */
    ghost const universe: seq<string>

    /** The two list containers as one value. */
    function Lists(): Table
      reads this
    {
      Table(catalog, deductions)
    }

    /** The state of the first render, as written: the whole fixed list is
        offered beside the seeded row. */
    constructor ()
      ensures catalog == DeductionList && deductions == SeedDeductions && focus == NoFocus()
      ensures universe == DeductionList && NoDuplicates(IdSeq(deductions))
    {
      universe := DeductionList;
      catalog := DeductionList;
      deductions := SeedDeductions;
      focus := NoFocus();
      new;
      assert IdSeq(deductions) == [1];
    }

    /** The first render with the catalog the partition calls for: the
        fixed list `types` without the name of the seeded row. */
    constructor WithoutSeededName(types: seq<string>)
      requires NoDuplicates(types) && "Professional Tax" in types
      ensures catalog == RemoveName(types, "Professional Tax") && deductions == SeedDeductions
      ensures focus == NoFocus() && universe == types
      ensures Partitioned(Lists(), universe)
    {
      universe := types;
      catalog := RemoveName(types, "Professional Tax");
      deductions := SeedDeductions;
      focus := NoFocus();
      new;
      SeededPartition(types);
    }

    /** Selecting `name` in the catalog; `id` is the clock reading. */
    method HandleAddDeduction(name: string, id: int)
      modifies this
      ensures Lists() == Add(old(Lists()), name, id)
      ensures focus == old(focus)
      ensures NetTotal(deductions) == NetTotal(old(deductions))
      ensures SchemaValid(old(deductions)) ==> SchemaValid(deductions)
      ensures Partitioned(old(Lists()), universe) && name != "" && name in old(catalog) && id !in IdSeq(old(deductions))
              ==> Partitioned(Lists(), universe)
      ensures NoDuplicates(IdSeq(old(deductions))) && id !in IdSeq(old(deductions))
              ==> NoDuplicates(IdSeq(deductions))
    {
      ghost var before := Lists();
      var newDeduction := NewDeduction(id, name);
      if name != "" {
        deductions := deductions + [newDeduction];
        catalog := RemoveName(catalog, name);
      }
      AddKeepsNetTotal(before, name, id);
      if SchemaValid(before.deductions) {
        AddKeepsSchema(before, name, id);
      }
      if Partitioned(before, universe) && name != "" && name in before.catalog && id !in IdSeq(before.deductions) {
        AddKeepsPartition(before, universe, name, id);
      }
      if NoDuplicates(IdSeq(before.deductions)) && id !in IdSeq(before.deductions) {
        AddKeepsDistinctIds(before, name, id);
      }
    }

    /** The delete button of the row `(id, name)`. */
    method HandleDelete(id: int, name: string)
      modifies this
      ensures Lists() == Delete(old(Lists()), id, name)
      ensures focus == old(focus)
      ensures SchemaValid(old(deductions)) ==> SchemaValid(deductions)
      ensures Partitioned(old(Lists()), universe) &&
              (exists d :: d in old(deductions) && d.id == id && d.name == name)
              ==> Partitioned(Lists(), universe)
      ensures NoDuplicates(IdSeq(old(deductions))) ==> NoDuplicates(IdSeq(deductions))
    {
      ghost var before := Lists();
      var updatedDeductions := KeepOthers(deductions, id);
      deductions := updatedDeductions;
      catalog := catalog + [name];
      if SchemaValid(before.deductions) {
        DeleteKeepsSchema(before, id, name);
      }
      if Partitioned(before, universe) && exists d :: d in before.deductions && d.id == id && d.name == name {
        var d :| d in before.deductions && d.id == id && d.name == name;
        var k :| 0 <= k < |before.deductions| && before.deductions[k] == d;
        DeleteKeepsPartition(before, universe, k);
      }
      if NoDuplicates(IdSeq(before.deductions)) {
        DeleteKeepsDistinctIds(before, id, name);
      }
    }

    /** Typing `value` into the cell `field` of the row at `index`. */
    method SetField(index: nat, field: Field, value: Amount)
      requires index < |deductions|
      modifies this
      ensures deductions == UpdateField(old(deductions), index, field, value)
      ensures catalog == old(catalog) && focus == old(focus)
      ensures NetTotal(deductions) == NetTotal(old(deductions)) +
        (if field == MonthlyAmount then Numeric(value) - Numeric(old(deductions)[index].monthlyAmount) else 0)
    {
      UpdateNetTotal(deductions, index, field, value);
      deductions := UpdateField(deductions, index, field, value);
    }

    /** A click on the cell `field` of the row `id`: that cell, and only
        that cell, is editing afterwards, whatever was before. */
    method FocusCell(id: int, field: Field)
      modifies this
      ensures focus == FocusOn(id, field)
      ensures forall id', g :: IsEditing(focus, id', g) <==> id' == id && g == field
      ensures Lists() == old(Lists())
    {
      focus := FocusOn(id, field);
    }

    /** Leaving an input: no cell is editing afterwards. */
    method Blur()
      modifies this
      ensures focus == NoFocus()
      ensures forall id, g :: !IsEditing(focus, id, g)
      ensures Lists() == old(Lists())
    {
      focus := NoFocus();
    }
  }

  /** The corrected first render over the component's fixed list: every
      type is either offered or used by a row, never both. */
  method FirstRender() returns (table: ProductTable)
    ensures fresh(table) && table.deductions == SeedDeductions && table.focus == NoFocus()
    ensures "Professional Tax" !in table.catalog && |table.catalog| == |DeductionList| - 1
    ensures table.universe == DeductionList && Partitioned(table.Lists(), table.universe)
  {
    DeductionListDistinct();
    assert DeductionList[0] == "Professional Tax";
    table := new ProductTable.WithoutSeededName(DeductionList);
    RemoveNameAt(DeductionList, 0);
  }

  /** Selecting the name offered once at position `k` and then deleting the
      row it created leaves the rows as they were and moves the name to the
      end of the catalog. */
  method AddThenDelete(table: ProductTable, id: int, k: nat)
    requires k < |table.catalog| && table.catalog[k] != "" && multiset(table.catalog)[table.catalog[k]] == 1
    requires id !in IdSeq(table.deductions)
    modifies table
    ensures table.deductions == old(table.deductions)
    ensures table.catalog == old(table.catalog[..k] + table.catalog[k + 1..] + [table.catalog[k]])
    ensures table.focus == old(table.focus)
  {
    ghost var before := table.Lists();
    var name := table.catalog[k];
    table.HandleAddDeduction(name, id);
    table.HandleDelete(id, name);
    AddThenDeleteMovesNameLast(before, id, k);
  }
}
