# Payroll deductions table — a Dafny model

The model covers the state machine behind the React component
`ProductTable` (src/components/ProductTable.tsx), a payroll-deductions
table. The component keeps three pieces of state:

- the **catalog** `deductionList`: the deduction types the selector still
  offers. It starts as the fixed list of fourteen names.
- the **rows** `deductions`: the form's records `{id, name, calculation,
  monthlyAmount}`. They start with one "Professional Tax" row.
- the **edit focus** `editableDeductionField`: the single cell shown as an
  input. The pair `(0, "")` means no cell.

The component has five event handlers:

- selecting a catalog entry adds a row and withdraws the name from the catalog;
- the delete button drops the row and offers its name again;
- typing overwrites one cell of the row at a given index;
- a click on a cell focuses it;
- leaving the input blurs it.

On every render the component derives:

- the "Net Salary" total;
- the annual amount of each row (12 × monthly);
- for each cell, whether it is the one being edited;
- the validation schema's verdict.

The project has three modules:

- `Deductions` (deductions.dfy) holds:
  - the entities and the fixed data;
  - the pure list operations the handlers are built from (`RemoveName` is
    the catalog filter, `KeepOthers` is the row filter);
  - the derived values (`NetTotal`, `AnnualAmount`, `IsEditing`,
    `SchemaValid`);
  - their lemmas.
- `Transitions` (transitions.dfy) states each handler as a function on the
  pair (catalog, rows). It proves how the handlers combine with each other
  and with the derived values. It also proves which invariants they keep:
  - the schema;
  - the partition of the fixed list between catalog and rows.
- `ProductTableState` (product_table.dfy) models the component as the
  class `ProductTable`, with one field per state container and one method
  per handler. Each method's postcondition ties the new state to the
  functions of `Transitions` and `Deductions` and carries the preserved invariants.

Modelling decisions:

- A numeric cell is an `Amount = Option<int>`. `None` is the emptied input, which the number coercion of the total and the annual amount reads as 0 (`Numeric`). `Some(v)` is a parsed number.
- The new row's id comes from the clock. It is a parameter `id` of the add handler, and the round-trip and partition lemmas require it to be fresh.
- The per-cell edit is addressed by row index, as in the component. Its precondition `index < |deductions|` reflects that the index comes from the row being rendered.

## Model

| member | source | states |
|---|---|---|
| Deductions.DeductionList | src/components/ProductTable.tsx:25-40 | the fixed list of fourteen deduction types, in the component's order |
| Deductions.SeedDeductions | src/components/ProductTable.tsx:77-84 | the single row the form starts with: id 1, "Professional Tax", calculation 0, monthly amount 20000 |
| Deductions.NewDeduction | src/components/ProductTable.tsx:95-100 | the row a selection creates: the given id and name, both amounts 0 |
| Deductions.Numeric | src/components/ProductTable.tsx:118 | the number coercion of a cell: a parsed value as itself, an emptied cell as 0 |
| Deductions.NetTotal | src/components/ProductTable.tsx:117-120 | the "Net Salary" total: the left fold, from 0, adding each row's coerced monthly amount |
| Deductions.AnnualAmount | src/components/ProductTable.tsx:246 | a row's annual amount: 12 times its coerced monthly amount |
| Deductions.FieldKey | src/components/ProductTable.tsx:145-148 | the field name the focus stores for each editable column: "calculation", as set here, or "monthlyAmount", as the monthly cell's click sets it at lines 196-201 |
| Deductions.IsEditing | src/components/ProductTable.tsx:151-152 | a cell is shown as an input iff the focus holds its row's id and its column's field name |
| Deductions.AmountValid | src/components/ProductTable.tsx:57-62 | a cell passes the schema iff its value is present and at least 0 |
| Deductions.SchemaValid | src/components/ProductTable.tsx:54-65 | the rows pass the schema iff both cells of every row pass |
| Transitions.Partitioned | src/components/ProductTable.tsx:94-115 | the invariant add and delete rely on: the offered names and the row names together are the fixed list, each type once, and row ids are distinct |
| Deductions.DeductionListDistinct | src/components/ProductTable.tsx:25-40 | the fixed list of deduction types holds each name once and never the empty name |
| Deductions.RemoveName | src/components/ProductTable.tsx:103 | the catalog filter removes every copy of the name and keeps every other name with its count; a name is in the result iff it was in the catalog and differs from the removed one |
| Deductions.RemoveNameAppend | src/components/ProductTable.tsx:103 | the filter works piecewise over a concatenation, so the surviving names keep their relative order |
| Deductions.RemoveNameAbsent | src/components/ProductTable.tsx:103 | filtering out a name the catalog does not hold leaves the catalog unchanged |
| Deductions.RemoveNameAt | src/components/ProductTable.tsx:103 | filtering out the name at position k, when it appears only there, yields exactly the catalog with position k cut out |
| Deductions.KeepOthers | src/components/ProductTable.tsx:108 | the row filter keeps a row iff it was there and its id differs from the deleted one |
| Deductions.KeepOthersAppend | src/components/ProductTable.tsx:108 | the row filter works piecewise over a concatenation, so the kept rows stay in their original order |
| Deductions.KeepOthersAbsent | src/components/ProductTable.tsx:108 | filtering by an id no row carries leaves the rows unchanged |
| Deductions.KeepOthersAt | src/components/ProductTable.tsx:108 | with distinct ids, filtering by the id of row k yields exactly the rows with row k cut out |
| Deductions.NetTotalAppend | src/components/ProductTable.tsx:117-120 | the total of two runs of rows is the sum of their totals (with the fold's base case, the total is the sum of the monthly amounts) |
| Deductions.NetTotalNonNegative | src/components/ProductTable.tsx:117-120 | rows that pass the schema have a non-negative total |
| Deductions.WithField | src/components/ProductTable.tsx:160-164 | overwriting one cell of a row sets that cell, keeps the other cell, and keeps the id and the name |
| Deductions.SchemaValidByCell | src/components/ProductTable.tsx:54-65 | the rows pass the schema iff every row has both numeric cells present and at least 0 |
| Deductions.FocusOn | src/components/ProductTable.tsx:144-152 | after focusing (id, field), an (id, field) pair tests as editing iff it is that pair |
| Deductions.NoFocus | src/components/ProductTable.tsx:166-171 | the blurred focus has id 0 and no cell of any row tests as editing |
| Deductions.AtMostOneCellEditing | src/components/ProductTable.tsx:151-152 | whatever the focus, at most one (id, field) pair tests as editing |
| Deductions.AtMostOneRowCellEditing | src/components/ProductTable.tsx:151-152 | when the row ids are distinct, at most one cell of the table (one row, one column) tests as editing; the monthly column's test at lines 203-204 is the same predicate |
| Transitions.Add | src/components/ProductTable.tsx:94-105 | an empty name changes nothing; otherwise exactly one row `{id, name, 0, 0}` is appended after the unchanged earlier rows, the name leaves the catalog, and every other name keeps its count |
| Transitions.Delete | src/components/ProductTable.tsx:107-115 | exactly the rows whose id differs remain, and the name is appended to the end of the unchanged catalog |
| Transitions.UpdateField | src/components/ProductTable.tsx:160-164 | an edit at row index i changes only the chosen field of row i; every other row and cell, every id and every name is unchanged |
| Transitions.DeleteAbsentId | src/components/ProductTable.tsx:107-115 | deleting an id no row carries keeps the rows and still appends the name to the catalog |
| Transitions.AddThenDeleteRestores | src/components/ProductTable.tsx:94-115 | adding a non-empty name with a fresh id and then deleting that row restores the rows exactly and leaves the name offered once |
| Transitions.AddThenDeleteMovesNameLast | src/components/ProductTable.tsx:94-115 | when the name was offered once, add then delete restores the rows and the catalog up to moving that name to the end |
| Transitions.NetTotalAround | src/components/ProductTable.tsx:117-120 | the total is the total before row k, plus row k's monthly amount, plus the total after it |
| Transitions.AddKeepsNetTotal | src/components/ProductTable.tsx:94-105 | adding a row leaves the total unchanged, since the new row's monthly amount is 0 |
| Transitions.DeleteNetTotal | src/components/ProductTable.tsx:107-120 | with distinct ids, deleting row k lowers the total by exactly that row's monthly amount |
| Transitions.UpdateNetTotal | src/components/ProductTable.tsx:212-216 | editing a monthly amount moves the total by the difference; editing a calculation leaves it unchanged |
| Transitions.AnnualAfterEdit | src/components/ProductTable.tsx:246 | after an edit, the edited row's annual amount is 12 times the new monthly value, and every other row's annual amount is unchanged |
| Transitions.AddKeepsSchema | src/components/ProductTable.tsx:94-105 | a newly added row passes the schema, so valid rows stay valid |
| Transitions.DeleteKeepsSchema | src/components/ProductTable.tsx:107-115 | the rows left after a delete pass the schema when all rows did |
| Transitions.UpdateCellValidity | src/components/ProductTable.tsx:54-65 | after an edit, the edited cell is valid iff the new value is, and every other cell keeps its validity |
| Transitions.UpdateKeepsSchema | src/components/ProductTable.tsx:54-65 | from valid rows, the rows after an edit are valid iff the typed value is present and at least 0 |
| Transitions.PartitionedMeans | src/components/ProductTable.tsx:68 | under the partition, names are either offered or used by a row and never both, together they make up the fixed list, and neither side repeats a name |
| Transitions.AddKeepsPartition | src/components/ProductTable.tsx:94-105 | adding an offered name with a fresh id keeps the partition |
| Transitions.DeleteKeepsPartition | src/components/ProductTable.tsx:107-115 | deleting an existing row under its own name keeps the partition |
| Transitions.AddKeepsDistinctIds | src/components/ProductTable.tsx:94-105 | adding a row with an id no row carries keeps the row ids distinct |
| Transitions.DeleteKeepsDistinctIds | src/components/ProductTable.tsx:107-115 | deleting any id, present or not, keeps the row ids distinct |
| Transitions.KeepOthersIdsShrink | src/components/ProductTable.tsx:108 | the row filter never adds an id: each id occurs in the kept rows at most as often as before |
| Transitions.SeedStateNotPartitioned | src/components/ProductTable.tsx:68-84 | the starting state as written is not partitioned: the catalog still offers the seeded row's name |
| Transitions.SeedStateAllowsDuplicateRow | src/components/ProductTable.tsx:68-104 | from the starting state as written, selecting the offered "Professional Tax" yields two rows of the same type |
| Transitions.SeedDeleteOffersTwice | src/components/ProductTable.tsx:68-115 | from the starting state as written, deleting the seeded row leaves "Professional Tax" offered twice |
| ProductTableState.ProductTable.constructor | src/components/ProductTable.tsx:67-90 | the first render as written: the whole fixed list offered, the seeded row, no focus, and distinct row ids |
| ProductTableState.ProductTable.WithoutSeededName | src/components/ProductTable.tsx:68 | the corrected first render over a duplicate-free list of types: the catalog lacks the seeded row's name and the state is partitioned |
| ProductTableState.ProductTable.HandleAddDeduction | src/components/ProductTable.tsx:94-105 | the new state is `Add` of the old; focus and total are unchanged; the schema and, for an offered name with a fresh id, the partition are preserved; distinct row ids stay distinct when the new id is fresh |
| ProductTableState.ProductTable.HandleDelete | src/components/ProductTable.tsx:107-115 | the new state is `Delete` of the old; focus is unchanged; the schema and, for an existing row under its own name, the partition are preserved; distinct row ids stay distinct for any deleted id |
| ProductTableState.ProductTable.SetField | src/components/ProductTable.tsx:160-164 | the rows become `UpdateField` of the old rows; catalog and focus are unchanged; the total moves by the edited monthly difference |
| ProductTableState.ProductTable.FocusCell | src/components/ProductTable.tsx:144-149 | the focused (id, field) pair, and only it, tests as editing, which with distinct row ids (kept by the constructor and the handlers) is one cell of one row; the lists are unchanged (the monthly cell's click at lines 196-201 is the same handler with the other field) |
| ProductTableState.ProductTable.Blur | src/components/ProductTable.tsx:166-171 | the focus is reset to `(0, "")` and no cell tests as editing; the lists are unchanged |
| ProductTableState.FirstRender | src/components/ProductTable.tsx:68-84 | the corrected first render over the component's fixed list offers thirteen names, not "Professional Tax", and is partitioned |
| ProductTableState.AddThenDelete | src/components/ProductTable.tsx:94-115 | on the object, selecting a name offered once with a fresh id and deleting its row restores the rows and moves the name to the end of the catalog |

## Left out

- Rendering (the JSX, the component library, the currency glyph, number formatting) is presentation and is not modelled.
- Formik's `touched`/`errors` display wiring, the error messages of the schema, and submission (`handleSubmit`, the console log) are library plumbing and output; only the schema's verdict is modelled, as `SchemaValid`.
- `Date.now()`: the clock becomes the `id` parameter of the add handler; freshness of the id is a precondition of the lemmas that need it, not a property of the clock.
- JavaScript number semantics are not modelled. The component stores the raw input string and coerces it with `Number(...)`; the model keeps an `Option<int>` per cell (floating point, non-numeric strings and `Number("") == 0` are not modelled beyond `None` counting as 0).
- React batching of the two setter calls and the handlers' reads of the `deductions` of the last render are framework scheduling. Each handler is modelled as one atomic step on the current state.
- The two onChange handlers for the calculation and monthly-amount cells (lines 160-164 and 212-216) are one method, `SetField`, with the field as a parameter.
- ProductTableState.ProductTable.SetField: requires `index < |deductions|`, because the index always comes from a row being rendered. Formik's behaviour for an out-of-range path is not modelled.
- Deductions.AtMostOneCellEditing: unique per (id, field) pair only. Because the add handler's id is a parameter, two rows can share an id when it is not fresh, and both then show the same column as an input. The per-cell form is `AtMostOneRowCellEditing`, which requires distinct ids.
- Deductions.KeepOthers: its own contract states membership only. The order of the kept rows is stated by `KeepOthersAppend` and `KeepOthersAt`.
- src/components/ProductTable copy.tsx, an earlier variant of the component, is not part of this model.

## Findings

| source | as written | input that shows it | evidently intended | confidence | as-written member | corrected member |
|---|---|---|---|---|---|---|
| src/components/ProductTable.tsx:68 | the catalog starts as the whole fixed list, including "Professional Tax", while the seeded row (line 80) already uses that name | on the first render, select "Professional Tax": the table holds two "Professional Tax" rows; or delete the seeded row: the catalog then offers "Professional Tax" twice (Transitions.SeedDeleteOffersTwice) | the catalog starts without the names of the seeded rows, so that every type is either offered or used, never both | medium, not executed | Transitions.SeedStateAllowsDuplicateRow | ProductTableState.ProductTable.WithoutSeededName |
