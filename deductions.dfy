/**
 * The entities of the payroll-deductions table and the values it derives
 * from them on every render: the per-row annual amount, the "Net Salary"
 * total, the edit-mode test of a cell and the per-row validation schema.
 * Everything here is pure; the state that the event handlers replace lives
 * in module Transitions (as values) and module ProductTableState (as an
 * object).
 */
module Deductions {

  datatype Option<T> = None | Some(value: T)

  /** A numeric cell of a row. `None` is the empty raw input a number field
      hands back once the user has cleared it; `Some(v)` is a parsed number. */
  type Amount = Option<int>

  /** One row of the table. */
  datatype Deduction = Deduction(id: int, name: string, calculation: Amount, monthlyAmount: Amount)

  /** The two inline-editable columns of a row. */
  datatype Field = Calculation | MonthlyAmount

  /** The cell shown as an input; `EditableField(0, "")` means no cell. */
  datatype EditableField = EditableField(deductionId: int, fieldName: string)

  /** The fixed catalog of deduction types the table starts from. */
  const DeductionList: seq<string> := [
    "Professional Tax",
    "Income Tax",
    "Employee State Insurance (ESI)",
    "Provident Fund (PF)",
    "Public Provident Fund (PPF)",
    "Health Insurance Premium",
    "Life Insurance Premium",
    "Loan Repayment",
    "Housing Loan Principal",
    "Housing Loan Interest",
    "Voluntary Provident Fund (VPF)",
    "Gratuity",
    "Leave Adjustments",
    "Unpaid Leave Deduction"
  ]

  /** The rows the form starts with. */
  const SeedDeductions: seq<Deduction> := [Deduction(1, "Professional Tax", Some(0), Some(20000))]

  /** The row that adding a catalog entry creates. */
  function NewDeduction(id: int, name: string): Deduction {
    Deduction(id, name, Some(0), Some(0))
  }

  // ---------------------------------------------------------------------
  // Sequences of names and ids

  /** Every element occurs at most once. */
  ghost predicate NoDuplicates<T(!new)>(s: seq<T>) {
    forall x :: multiset(s)[x] <= 1
  }

  lemma {:induction false} DistinctIndicesNoDuplicates<T(!new)>(s: seq<T>)
    requires forall i, j :: 0 <= i < j < |s| ==> s[i] != s[j]
    ensures NoDuplicates(s)
  {
    if s != [] {
      DistinctIndicesNoDuplicates(s[1..]);
      assert s == [s[0]] + s[1..];
      assert s[0] !in s[1..] by {
        forall j | 0 <= j < |s[1..]| ensures s[1..][j] != s[0] {
          assert s[1..][j] == s[j + 1];
        }
      }
    }
  }

  /** The fourteen catalog names are pairwise different and none is empty. */
  lemma DeductionListDistinct()
    ensures NoDuplicates(DeductionList)
    ensures "" !in DeductionList
  {
    DistinctIndicesNoDuplicates(DeductionList);
  }

  /** The id column of a sequence of rows. */
  function IdSeq(ds: seq<Deduction>): (r: seq<int>)
    ensures |r| == |ds|
    ensures forall i :: 0 <= i < |ds| ==> r[i] == ds[i].id
  {
    if ds == [] then [] else [ds[0].id] + IdSeq(ds[1..])
  }

  /** The name column of a sequence of rows. */
  function NameSeq(ds: seq<Deduction>): (r: seq<string>)
    ensures |r| == |ds|
    ensures forall i :: 0 <= i < |ds| ==> r[i] == ds[i].name
  {
    if ds == [] then [] else [ds[0].name] + NameSeq(ds[1..])
  }

  lemma ColumnsAppend(a: seq<Deduction>, b: seq<Deduction>)
    ensures IdSeq(a + b) == IdSeq(a) + IdSeq(b)
    ensures NameSeq(a + b) == NameSeq(a) + NameSeq(b)
  {
    IdSeqAppend(a, b);
    NameSeqAppend(a, b);
  }

  lemma {:induction false} IdSeqAppend(a: seq<Deduction>, b: seq<Deduction>)
    ensures IdSeq(a + b) == IdSeq(a) + IdSeq(b)
  {
    var l, r := IdSeq(a + b), IdSeq(a) + IdSeq(b);
    assert |l| == |r|;
    forall i | 0 <= i < |l| ensures l[i] == r[i] {
      if i < |a| {
        assert (a + b)[i] == a[i];
      } else {
        assert (a + b)[i] == b[i - |a|];
      }
    }
  }

  lemma {:induction false} NameSeqAppend(a: seq<Deduction>, b: seq<Deduction>)
    ensures NameSeq(a + b) == NameSeq(a) + NameSeq(b)
  {
    var l, r := NameSeq(a + b), NameSeq(a) + NameSeq(b);
    assert |l| == |r|;
    forall i | 0 <= i < |l| ensures l[i] == r[i] {
      if i < |a| {
        assert (a + b)[i] == a[i];
      } else {
        assert (a + b)[i] == b[i - |a|];
      }
    }
  }

  /** The catalog after removing a name, as `filter((dl) => dl !== name)`
      does: every copy of `name` goes and every other name keeps its count. */
  function RemoveName(catalog: seq<string>, name: string): (r: seq<string>)
    ensures multiset(r) == multiset(catalog)[name := 0]
    ensures forall x :: x in r <==> x in catalog && x != name
    ensures |r| <= |catalog|
  {
    if catalog == [] then []
    else
      assert catalog == [catalog[0]] + catalog[1..];
      (if catalog[0] == name then [] else [catalog[0]]) + RemoveName(catalog[1..], name)
  }

  /** Filtering commutes with concatenation, so the names that stay keep
      their relative order. */
  lemma {:induction false} RemoveNameAppend(a: seq<string>, b: seq<string>, name: string)
    ensures RemoveName(a + b, name) == RemoveName(a, name) + RemoveName(b, name)
  {
    if a == [] {
      assert a + b == b;
    } else {
      assert (a + b)[0] == a[0];
      assert (a + b)[1..] == a[1..] + b;
      RemoveNameAppend(a[1..], b, name);
    }
  }

  /** Removing a name the catalog does not hold changes nothing. */
  lemma {:induction false} RemoveNameAbsent(catalog: seq<string>, name: string)
    requires name !in catalog
    ensures RemoveName(catalog, name) == catalog
  {
    if catalog != [] {
      RemoveNameAbsent(catalog[1..], name);
      assert catalog == [catalog[0]] + catalog[1..];
    }
  }

  /** Removing a name held once, at position `k`, closes the gap at `k`
      and moves nothing else. */
  lemma RemoveNameAt(catalog: seq<string>, k: nat)
    requires k < |catalog| && multiset(catalog)[catalog[k]] == 1
    ensures RemoveName(catalog, catalog[k]) == catalog[..k] + catalog[k + 1..]
  {
    var name, a, b := catalog[k], catalog[..k], catalog[k + 1..];
    assert catalog == a + ([name] + b);
    assert multiset(catalog)[name] == multiset(a)[name] + 1 + multiset(b)[name];
    RemoveNameAbsent(a, name);
    RemoveNameAbsent(b, name);
    RemoveNameAppend(a, [name] + b, name);
    assert RemoveName([name] + b, name) == RemoveName(b, name) by {
      assert ([name] + b)[1..] == b;
    }
  }

  /** The rows after `filter((d) => d.id !== id)`: exactly those whose id
      differs. */
  function KeepOthers(ds: seq<Deduction>, id: int): (r: seq<Deduction>)
    ensures forall d :: d in r <==> d in ds && d.id != id
    ensures |r| <= |ds|
  {
    if ds == [] then []
    else
      assert ds == [ds[0]] + ds[1..];
      (if ds[0].id == id then [] else [ds[0]]) + KeepOthers(ds[1..], id)
  }

  /** Filtering rows commutes with concatenation: the rows that stay keep
      their order. */
  lemma {:induction false} KeepOthersAppend(a: seq<Deduction>, b: seq<Deduction>, id: int)
    ensures KeepOthers(a + b, id) == KeepOthers(a, id) + KeepOthers(b, id)
  {
    if a == [] {
      assert a + b == b;
    } else {
      assert (a + b)[0] == a[0];
      assert (a + b)[1..] == a[1..] + b;
      KeepOthersAppend(a[1..], b, id);
    }
  }

  /** Deleting an id no row carries changes nothing. */
  lemma {:induction false} KeepOthersAbsent(ds: seq<Deduction>, id: int)
    requires id !in IdSeq(ds)
    ensures KeepOthers(ds, id) == ds
  {
    if ds != [] {
      assert IdSeq(ds)[0] == ds[0].id;
      assert id !in IdSeq(ds[1..]) by {
        forall j | 0 <= j < |ds[1..]| ensures IdSeq(ds[1..])[j] != id {
          assert IdSeq(ds[1..])[j] == ds[j + 1].id == IdSeq(ds)[j + 1];
        }
      }
      KeepOthersAbsent(ds[1..], id);
      assert ds == [ds[0]] + ds[1..];
    }
  }

  /** An element of a duplicate-free sequence occurs neither before nor
      after its own position. */
  lemma NoDuplicatesAround<T(!new)>(s: seq<T>, k: nat)
    requires k < |s| && NoDuplicates(s)
    ensures s[k] !in s[..k] && s[k] !in s[k + 1..]
  {
    assert s == s[..k] + ([s[k]] + s[k + 1..]);
    assert multiset(s) == multiset(s[..k]) + multiset{s[k]} + multiset(s[k + 1..]);
    assert multiset(s)[s[k]] <= 1;
  }

  /** With distinct ids, no row before or after row `k` carries its id. */
  lemma IdUniqueAround(ds: seq<Deduction>, k: nat)
    requires k < |ds| && NoDuplicates(IdSeq(ds))
    ensures ds[k].id !in IdSeq(ds[..k]) && ds[k].id !in IdSeq(ds[k + 1..])
  {
    NoDuplicatesAround(IdSeq(ds), k);
    IdSeqSlices(ds, k);
  }

  lemma IdSeqSlices(ds: seq<Deduction>, k: nat)
    requires k < |ds|
    ensures IdSeq(ds[..k]) == IdSeq(ds)[..k]
    ensures IdSeq(ds[k + 1..]) == IdSeq(ds)[k + 1..]
  {
    var l, r := IdSeq(ds[..k]), IdSeq(ds)[..k];
    assert |l| == |r| && forall i :: 0 <= i < |l| ==> l[i] == r[i];
    l, r := IdSeq(ds[k + 1..]), IdSeq(ds)[k + 1..];
    assert |l| == |r| && forall i :: 0 <= i < |l| ==> l[i] == r[i];
  }

  /** With distinct ids, deleting the id of row `k` removes exactly row `k`. */
  lemma KeepOthersAt(ds: seq<Deduction>, k: nat)
    requires k < |ds| && NoDuplicates(IdSeq(ds))
    ensures KeepOthers(ds, ds[k].id) == ds[..k] + ds[k + 1..]
  {
    IdUniqueAround(ds, k);
    SplitAt(ds, k);
    KeepOthersGap(ds[..k], ds[k], ds[k + 1..]);
  }

  lemma KeepOthersGap(a: seq<Deduction>, d: Deduction, b: seq<Deduction>)
    requires d.id !in IdSeq(a) && d.id !in IdSeq(b)
    ensures KeepOthers(a + ([d] + b), d.id) == a + b
  {
    KeepOthersAbsent(a, d.id);
    KeepOthersAbsent(b, d.id);
    KeepOthersSplit(a, d, b);
  }

  lemma {:induction false} KeepOthersSplit(a: seq<Deduction>, d: Deduction, b: seq<Deduction>)
    ensures KeepOthers(a + ([d] + b), d.id) == KeepOthers(a, d.id) + KeepOthers(b, d.id)
  {
    KeepOthersAppend(a, [d] + b, d.id);
    KeepOthersSkip(d, b);
  }

  /** The deleted row itself is dropped from the front of a run. */
  lemma {:induction false} KeepOthersSkip(d: Deduction, b: seq<Deduction>)
    ensures KeepOthers([d] + b, d.id) == KeepOthers(b, d.id)
  {
    var s := [d] + b;
    assert s != [] && s[0] == d && s[1..] == b;
  }

  /** Taking row `d` out of the middle of a run removes exactly its id and
      its name from the columns. */
  lemma {:induction false} ColumnsGap(a: seq<Deduction>, d: Deduction, b: seq<Deduction>)
    ensures multiset(IdSeq(a + ([d] + b))) == multiset(IdSeq(a + b)) + multiset{d.id}
    ensures multiset(NameSeq(a + ([d] + b))) == multiset(NameSeq(a + b)) + multiset{d.name}
  {
    IdSeqAppend(a, [d] + b);
    IdSeqAppend([d], b);
    IdSeqAppend(a, b);
    assert IdSeq([d]) == [d.id];
    MiddleOut(IdSeq(a), [d.id], IdSeq(b));
    NameSeqAppend(a, [d] + b);
    NameSeqAppend([d], b);
    NameSeqAppend(a, b);
    assert NameSeq([d]) == [d.name];
    MiddleOut(NameSeq(a), [d.name], NameSeq(b));
  }

  lemma MiddleOut<T>(x: seq<T>, y: seq<T>, z: seq<T>)
    ensures multiset(x + (y + z)) == multiset(x + z) + multiset(y)
  {
  }

  lemma SplitAt<T>(s: seq<T>, k: nat)
    requires k < |s|
    ensures s == s[..k] + ([s[k]] + s[k + 1..])
  {
  }

  // ---------------------------------------------------------------------
  // Derived values

  /** `Number(...)` of a cell: an emptied cell counts as 0. */
  function Numeric(a: Amount): int {
    match a
    case None => 0
    case Some(v) => v
  }

  /** The "Net Salary" total: the sum of the monthly amounts, folded from
      the first row to the last. */
  function NetTotal(ds: seq<Deduction>): int {
    if ds == [] then 0 else NetTotal(ds[..|ds| - 1]) + Numeric(ds[|ds| - 1].monthlyAmount)
  }

  /** The total of two runs of rows is the sum of their totals. */
  lemma {:induction false} NetTotalAppend(a: seq<Deduction>, b: seq<Deduction>)
    ensures NetTotal(a + b) == NetTotal(a) + NetTotal(b)
  {
    if b == [] {
      assert a + b == a;
    } else {
      assert (a + b)[..|a + b| - 1] == a + b[..|b| - 1];
      NetTotalAppend(a, b[..|b| - 1]);
    }
  }

  /** The annual amount shown in a row. */
  function AnnualAmount(d: Deduction): int {
    12 * Numeric(d.monthlyAmount)
  }

  // ---------------------------------------------------------------------
  // Cells and the validation schema

  /** The value of one editable cell of a row. */
  function FieldValue(d: Deduction, field: Field): Amount {
    match field
    case Calculation => d.calculation
    case MonthlyAmount => d.monthlyAmount
  }

  /** The row with one cell overwritten and every other part kept. */
  function WithField(d: Deduction, field: Field, value: Amount): (r: Deduction)
    ensures FieldValue(r, field) == value
    ensures forall g :: g != field ==> FieldValue(r, g) == FieldValue(d, g)
    ensures r.id == d.id && r.name == d.name
  {
    match field
    case Calculation => d.(calculation := value)
    case MonthlyAmount => d.(monthlyAmount := value)
  }

  /** A cell passes `number().required().min(0)`: it holds a number, and
      that number is at least 0. */
  predicate AmountValid(a: Amount) {
    a.Some? && a.value >= 0
  }

  /** The schema: every row has both numeric cells present and at least 0. */
  predicate SchemaValid(ds: seq<Deduction>) {
    forall i :: 0 <= i < |ds| ==> AmountValid(ds[i].calculation) && AmountValid(ds[i].monthlyAmount)
  }

  /** The schema reads cell by cell. */
  lemma SchemaValidByCell(ds: seq<Deduction>)
    ensures SchemaValid(ds) <==>
      forall i, g :: 0 <= i < |ds| ==> AmountValid(FieldValue(ds[i], g))
  {
    if !SchemaValid(ds) {
      var i :| 0 <= i < |ds| && !(AmountValid(ds[i].calculation) && AmountValid(ds[i].monthlyAmount));
      assert !AmountValid(FieldValue(ds[i], Calculation)) || !AmountValid(FieldValue(ds[i], MonthlyAmount));
    }
  }

  /** Under the schema every monthly amount is at least 0, so is the total. */
  lemma {:induction false} NetTotalNonNegative(ds: seq<Deduction>)
    requires SchemaValid(ds)
    ensures NetTotal(ds) >= 0
  {
    if ds != [] {
      NetTotalNonNegative(ds[..|ds| - 1]);
    }
  }

  // ---------------------------------------------------------------------
  // The edit focus

  /** The name the focus records for a column. */
  function FieldKey(field: Field): string {
    match field
    case Calculation => "calculation"
    case MonthlyAmount => "monthlyAmount"
  }

  /** Whether a cell is rendered as an input under the given focus. */
  predicate IsEditing(focus: EditableField, id: int, field: Field) {
    focus.deductionId == id && focus.fieldName == FieldKey(field)
  }

  /** The focus a click on a cell sets: that cell, and no other, is editing. */
  function FocusOn(id: int, field: Field): (r: EditableField)
    ensures forall id', g :: IsEditing(r, id', g) <==> id' == id && g == field
  {
    EditableField(id, FieldKey(field))
  }

  /** The focus a blur resets to: no cell of any row is editing, not even
      one of a row whose id is 0. */
  function NoFocus(): (r: EditableField)
    ensures r.deductionId == 0
    ensures forall id, g :: !IsEditing(r, id, g)
  {
    EditableField(0, "")
  }

  /** Whatever the focus, at most one cell is editing. */
  lemma AtMostOneCellEditing(focus: EditableField, id1: int, f1: Field, id2: int, f2: Field)
    requires IsEditing(focus, id1, f1) && IsEditing(focus, id2, f2)
    ensures id1 == id2 && f1 == f2
  {
    assert FieldKey(f1) == FieldKey(f2);
    assert FieldKey(Calculation) != FieldKey(MonthlyAmount) by {
      assert FieldKey(Calculation)[0] != FieldKey(MonthlyAmount)[0];
    }
  }

  /** With distinct row ids, at most one cell of the rows, one row and one
      column, tests as editing. */
  lemma AtMostOneRowCellEditing(focus: EditableField, ds: seq<Deduction>, i: nat, f1: Field, j: nat, f2: Field)
    requires i < |ds| && j < |ds| && NoDuplicates(IdSeq(ds))
    requires IsEditing(focus, ds[i].id, f1) && IsEditing(focus, ds[j].id, f2)
    ensures i == j && f1 == f2
  {
    AtMostOneCellEditing(focus, ds[i].id, f1, ds[j].id, f2);
    SameIdSameRow(ds, i, j);
  }

  /** With distinct ids, a row is determined by its id. */
  lemma SameIdSameRow(ds: seq<Deduction>, i: nat, j: nat)
    requires i < |ds| && j < |ds| && NoDuplicates(IdSeq(ds))
    requires ds[i].id == ds[j].id
    ensures i == j
  {
    var ids := IdSeq(ds);
    assert ids[i] == ids[j];
    DistinctAt(ids, i, j);
  }

  /** In a duplicate-free sequence, a value sits at one position only. */
  lemma DistinctAt<T(!new)>(s: seq<T>, i: nat, j: nat)
    requires i < |s| && j < |s| && NoDuplicates(s) && s[i] == s[j]
    ensures i == j
  {
    if i < j {
      RepeatedTwice(s, i, j);
    } else if j < i {
      RepeatedTwice(s, j, i);
    }
  }

  /** An element found at two positions occurs at least twice. */
  lemma RepeatedTwice<T>(s: seq<T>, i: nat, j: nat)
    requires i < j < |s| && s[i] == s[j]
    ensures multiset(s)[s[i]] >= 2
  {
    assert s == s[..j] + s[j..];
    assert s[i] in s[..j];
    assert s[j..][0] == s[i];
  }
}
