# Stock control: the inventory table and its paginated view

This project models the data layer of a small stock-control web application,
written in Dafny. The application keeps its stock items in one SQLite table,
`inventario`. Each row has an autoincrement id, `nombre`, a unique `sku`,
`descripcion`, `cantidad`, `precio` and `categoria`. The web routes run one SQL
statement each against this table:

- INSERT a new item;
- SELECT an item by SKU;
- UPDATE an item's columns by SKU;
- DELETE an item by SKU;
- a stock report of `(nombre, cantidad)` for every row;
- a low-stock report of the rows whose `cantidad` is at most a threshold (default 5);
- a paginated view that shows 10 rows per page and computes the page count.

The table is modelled in memory (`stock.dfy`, module `Stock`):

- `Item` is one row. Class `Inventory` holds the rows as a `seq<Item>` in
  ascending id order, and `nextId`, the AUTOINCREMENT counter.
- The ghost set `issued` records every id assigned so far. It includes the ids
  of rows deleted since.
- The object invariant `Valid()` says three things:
  - SKUs are unique (the `UNIQUE` constraint);
  - ids ascend along the rows;
  - every id ever assigned is below `nextId`.
- INSERT, UPDATE and DELETE are the methods `Add`, `Edit` and `Delete`. Each one
  is specified by what it does to the old rows. `Edit` and `Delete` say this
  through the pure functions `Updated` and `Removed`.
- The read-only statements are the pure functions `Find`, `Report`, `LowStock`
  and `LowStockRequest`.

The pagination arithmetic is in `pagination.dfy`, module `Pagination`:

- `Offset` is the offset of a page.
- `Slice` is `LIMIT`/`OFFSET` over the ordered rows, and `Page` is one page.
- `TotalPages` is the ceiling-division page count.
- `View` is what the view renders: the page, its number and the page count.

The lemmas prove that pages 1 to `TotalPages` put the table back together, with
each row exactly once and in order.

Some behaviour of the code worth stating plainly:

- The routes validate nothing, so the model accepts any name, quantity and price.
- `precio` is an `INTEGER` column filled by `int(...)`, so it is an `int`.
- An UPDATE of an absent SKU is a silent no-op, not a "not found" error.
- A DELETE returns nothing.
- Integer parameters travel as 64-bit SQL INTEGERs. A quantity, price,
  threshold or page offset outside that range cannot be bound, so the
  statement fails and nothing changes. The model returns `Err(IntegerOverflow)`
  on that path.

The queries have no `ORDER BY`. The model fixes row order as ascending id.
This is a modelling choice, not a promise of the code.

## Model

| member | source | states |
|---|---|---|
| Stock.Inventory.constructor | app/app_stock.py:17-25 | the table starts empty, the invariant holds (unique SKUs, ascending ids) and the first id assigned will be 1 |
| Stock.Inventory.Add | app/app_stock.py:44-49 | a quantity or price outside the 64-bit range fails with an overflow; a SKU already in the table fails with a UNIQUE violation; on either failure the table, counter and issued ids stay as they were; otherwise exactly one row is appended with the given columns and a fresh id that exceeds every id ever assigned, even of deleted rows; afterwards a search for the SKU finds that row; the invariant is preserved |
| Stock.Inventory.Edit | app/app_stock.py:83-87 | a quantity or price outside the 64-bit range fails with an overflow and changes nothing; otherwise the rows become `Updated(old rows)`; the counter does not change; an absent SKU leaves the table unchanged; the invariant is preserved |
| Stock.Inventory.Delete | app/app_stock.py:100 | the rows become `Removed(old rows)`; a search for the SKU then finds nothing; the table shrinks by one row exactly when the SKU was present; deleting an absent SKU is not an error; the invariant is preserved |
| Stock.Find | app/app_stock.py:71-72 | the search returns nothing exactly when no row has the SKU; otherwise it returns a row of the table holding that SKU |
| Stock.FindUnique | app/app_stock.py:71-72 | under the UNIQUE constraint, searching by any row's SKU returns that very row |
| Stock.FindIsTheRow | app/app_stock.py:71-72 | under the UNIQUE constraint, the search returns a row if and only if that row is in the table and holds the SKU |
| Stock.Report | app/app_stock.py:109-110 | the report has one `(nombre, cantidad)` pair per row, in table order, so it covers every row |
| Stock.Below | app/app_stock.py:121 | the WHERE clause keeps every row with `cantidad <= limite` exactly as often as it occurs, and no other row |
| Stock.BelowAppend | app/app_stock.py:121 | the WHERE filter keeps table order: over a concatenation it is the concatenation of the two results |
| Stock.LowStock | app/app_stock.py:121-122 | every pair returned has `cantidad <= limite`; every row with `cantidad <= limite` has its pair returned; every pair returned comes from such a row; there are never more pairs than rows |
| Stock.LowStockIsReportOfBelow | app/app_stock.py:121-122 | the low-stock report is the `(nombre, cantidad)` projection of the rows the WHERE clause selects, one pair per selected row, in table order |
| Stock.LowStockAppend | app/app_stock.py:121 | the low-stock filter keeps table order: over a concatenation it is the concatenation of the two results |
| Stock.LowStockAll | app/app_stock.py:121 | when no row exceeds the threshold, the low-stock report equals the full stock report |
| Stock.LowStockNone | app/app_stock.py:121 | when every row exceeds the threshold, the low-stock report is empty |
| Stock.LowStockRequest | app/app_stock.py:116-121 | the threshold is 5 when the request submits none, and the submitted value otherwise; a submitted threshold outside the 64-bit range makes the query fail with an overflow |
| Stock.LowStockExample | app/app_stock.py:121 | rows with quantities 3, 10 and 5 and the default threshold report exactly the first and the third, in that order |
| Stock.InsertThenFind | app/app_stock.py:49 | after inserting a row whose SKU was absent, a search for that SKU returns exactly the inserted row |
| Stock.InsertOtherFind | app/app_stock.py:49 | an insertion does not change the result of a search for any other SKU |
| Stock.WithFields | app/app_stock.py:86-87 | the updated row keeps its id and SKU, and its five updatable columns are the new values |
| Stock.Updated | app/app_stock.py:86-87 | the UPDATE keeps the row count and every row's id and SKU; the row with the SKU gets the new nombre, descripcion, cantidad, precio and categoria; every other row is unchanged |
| Stock.UpdateAbsentIsNoop | app/app_stock.py:86-87 | an UPDATE of a SKU that no row holds leaves the table unchanged |
| Stock.UpdatedKeepsInvariants | app/app_stock.py:86-87 | an UPDATE preserves SKU uniqueness and ascending ids |
| Stock.UpdateThenFind | app/app_stock.py:86-87 | after an UPDATE, a search for the SKU returns the old row with the new column values |
| Stock.UpdateOtherFind | app/app_stock.py:86-87 | an UPDATE does not change the result of a search for any other SKU |
| Stock.UpdateSameFields | app/app_stock.py:86-87 | writing back the values a row already has leaves the whole table unchanged |
| Stock.Removed | app/app_stock.py:100 | after the DELETE no row has the SKU; every row with another SKU remains exactly as often as it occurred, and no row with the SKU remains |
| Stock.RemovedAppend | app/app_stock.py:100 | the DELETE keeps the surviving rows in table order: over a concatenation it is the concatenation of the two results |
| Stock.RemoveAbsentIsNoop | app/app_stock.py:100 | a DELETE of a SKU that no row holds leaves the table unchanged |
| Stock.RemoveIdempotent | app/app_stock.py:100 | deleting the same SKU twice gives the same table as deleting it once |
| Stock.RemoveCount | app/app_stock.py:100 | under the UNIQUE constraint, a DELETE removes exactly one row when the SKU is present and none otherwise |
| Stock.RemovedKeepsUnique | app/app_stock.py:100 | a DELETE preserves SKU uniqueness |
| Stock.RemovedKeepsAscending | app/app_stock.py:100 | a DELETE keeps the remaining rows in ascending id order |
| Stock.RemoveOtherFind | app/app_stock.py:100 | a DELETE does not change the result of a search for any other SKU |
| Pagination.Offset | app/inventario.py:11-12 | a page's offset is a multiple of the page size 10, and it skips exactly the `page - 1` pages before it |
| Pagination.Slice | app/inventario.py:14 | `LIMIT`/`OFFSET` returns at most `limit` rows, namely the contiguous rows from `offset`, and stops short only at the end of the table; an offset past the end gives no rows |
| Pagination.Page | app/inventario.py:12-16 | a page has at most 10 rows; its i-th row is the table's row at `offset + i`; a page that starts inside the table holds `min(10, rows left)` rows |
| Pagination.TotalPages | app/inventario.py:19-21 | the page count is 0 for an empty table, and in general `(total_pages - 1) * 10 < total_items <= total_pages * 10` (ceiling division) |
| Pagination.TotalPagesIsCeiling | app/inventario.py:21 | no other count satisfies the two ceiling bounds |
| Pagination.PagesUpToPrefix | app/inventario.py:12-14 | pages 1 to n together are the first `min(10 n, total)` rows of the table |
| Pagination.PagesCoverTable | app/inventario.py:12-21 | pages 1 to `total_pages`, concatenated, reproduce the table: every row exactly once, in order |
| Pagination.PagePastEnd | app/inventario.py:14 | a page past the last one is empty, not an error |
| Pagination.PageWithinRange | app/inventario.py:14-21 | every page from 1 to `total_pages` holds at least one row |
| Pagination.RowOnPage | app/inventario.py:12-14 | row k appears on page `page` exactly when `page == k / 10 + 1`, and there it sits at position `k % 10` |
| Pagination.View | app/inventario.py:10-23 | the page argument defaults to 1; an offset beyond the 64-bit range makes the query fail with an overflow; otherwise the view shows that page's rows and a page count bounded as in `TotalPages` |

## Left out

- Flask routing, templates, redirects, the 404 handler and the app configuration are web plumbing, so the model leaves them out.
- Opening, committing and closing SQLite connections is not modelled. Each statement is modelled as one atomic change to the table.
- Form parsing with `int(...)` and its `ValueError` paths are not modelled. Quantities, prices and thresholds arrive as integers. Their 64-bit binding failure is modelled.
- `safe_query` is imported by `app/inventario.py` but `app/app_stock.py` does not define it, so it is not part of this model. It is treated as "run this SELECT".
- The failure path of `view_inventory` is not modelled. On that path the cursor is falsy and `inventario` stays unbound.
- Page numbers below 1 are excluded by a precondition.
- `app_stock.py`'s unpaginated `view_inventory` (`SELECT *`) is not modelled separately. It returns the rows themselves. `Pagination.PagesCoverTable` relates the pages to those rows.
- The `NOT NULL` constraint on `nombre` and `sku` is not modelled. Form values are always strings, so the routes can never violate it.
- Stock.Inventory.Add: exhaustion of the AUTOINCREMENT id space at 2^63 - 1 is not modelled. Ids are unbounded naturals.
- `cantidad` is a nullable column in the schema, but every route writes an integer to it, so it is modelled as `int`. The SQL behaviour of NULL against `<=` is therefore left out.
- Row order: SQLite gives no order without `ORDER BY`. The model fixes ascending id order.
