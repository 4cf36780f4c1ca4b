/**
 * The `inventario` table of the stock application and the statements the
 * web routes run against it.  The table is modelled in memory: a sequence of
 * rows in ascending `inventario_id` order plus the AUTOINCREMENT counter.
 * Read-only queries are functions over the rows; INSERT, UPDATE and DELETE
 * are methods of the `Inventory` class, each specified by a function over
 * the rows it had before.
 */
module Stock {

  datatype Option<+T> = None | Some(value: T)

  /** One row of the table, columns in schema order (`inventario_id` is `id`). */
  datatype Item = Item(id: nat, nombre: string, sku: string, descripcion: string,
                       cantidad: int, precio: int, categoria: string)

  /** The columns an UPDATE by SKU writes: every column except the id and the SKU. */
  datatype Fields = Fields(nombre: string, descripcion: string, cantidad: int,
                           precio: int, categoria: string)

  /**
   * A statement that fails: an INSERT that breaks the UNIQUE constraint on
   * `sku`, or an integer parameter that does not fit a 64-bit SQL INTEGER and
   * so cannot be bound at all.
   */
  datatype Error = DuplicateSku(sku: string) | IntegerOverflow

  datatype Result<+T> = Ok(value: T) | Err(error: Error)

  /** Threshold the low-stock report uses when the request gives none. */
  const DefaultLimit: int := 5

  /** Bounds of a 64-bit SQL INTEGER, the only integers a statement parameter can carry. */
  const MinInt64: int := -0x8000_0000_0000_0000
  const MaxInt64: int := 0x7FFF_FFFF_FFFF_FFFF

  predicate Int64(x: int)
  {
    MinInt64 <= x <= MaxInt64
  }

  /** Both integer columns of an INSERT or UPDATE can be bound as parameters. */
  predicate Bindable(f: Fields)
  {
    Int64(f.cantidad) && Int64(f.precio)
  }

  /** The (nombre, cantidad) pair both stock reports select for a row. */
  function Line(row: Item): (string, int)
  {
    (row.nombre, row.cantidad)
  }

  function FieldsOf(row: Item): Fields
  {
    Fields(row.nombre, row.descripcion, row.cantidad, row.precio, row.categoria)
  }

  // ---------------------------------------------------------------------------
  // Table invariants

  predicate HasSku(rows: seq<Item>, sku: string)
  {
    exists i :: 0 <= i < |rows| && rows[i].sku == sku
  }

  /** The UNIQUE constraint on `sku`: no two rows share one. */
  predicate UniqueSkus(rows: seq<Item>)
  {
    forall i, j :: 0 <= i < j < |rows| ==> rows[i].sku != rows[j].sku
  }

  /** Rows are kept in strictly ascending id order (ids are a primary key). */
  predicate IdsAscending(rows: seq<Item>)
  {
    forall i, j :: 0 <= i < j < |rows| ==> rows[i].id < rows[j].id
  }

  // ---------------------------------------------------------------------------
  // SELECT * FROM inventario WHERE sku = ?   (fetchone)

  /** The first row, in table order, whose SKU is `sku`. */
  function Find(rows: seq<Item>, sku: string): (r: Option<Item>)
    ensures r.None? <==> !HasSku(rows, sku)
    ensures r.Some? ==> r.value in rows && r.value.sku == sku
  {
    if |rows| == 0 then None
    else if rows[0].sku == sku then Some(rows[0])
    else
      HasSkuCons(rows, sku);
      Find(rows[1..], sku)
  }

  /** A SKU is in a non-empty table when it is the first row's or in the rest. */
  lemma HasSkuCons(rows: seq<Item>, sku: string)
    requires |rows| > 0
    ensures HasSku(rows, sku) <==> rows[0].sku == sku || HasSku(rows[1..], sku)
  {
    if HasSku(rows, sku) && rows[0].sku != sku {
      var i :| 0 <= i < |rows| && rows[i].sku == sku;
      assert rows[1..][i - 1].sku == sku;
    }
    if HasSku(rows[1..], sku) {
      var i :| 0 <= i < |rows[1..]| && rows[1..][i].sku == sku;
      assert rows[i + 1].sku == sku;
    }
  }

  lemma UniqueSkusTail(rows: seq<Item>)
    requires |rows| > 0 && UniqueSkus(rows)
    ensures UniqueSkus(rows[1..])
    ensures !HasSku(rows[1..], rows[0].sku)
  {
    forall i, j | 0 <= i < j < |rows[1..]| ensures rows[1..][i].sku != rows[1..][j].sku {
      assert rows[1..][i] == rows[i + 1] && rows[1..][j] == rows[j + 1];
    }
    forall i | 0 <= i < |rows[1..]| ensures rows[1..][i].sku != rows[0].sku {
      assert rows[1..][i] == rows[i + 1];
    }
  }

  /** Under the UNIQUE constraint a search by a row's SKU returns that row. */
  lemma {:induction false} FindUnique(rows: seq<Item>, i: int)
    requires UniqueSkus(rows)
    requires 0 <= i < |rows|
    ensures Find(rows, rows[i].sku) == Some(rows[i])
  {
    if i > 0 {
      assert rows[0].sku != rows[i].sku;
      UniqueSkusTail(rows);
      FindUnique(rows[1..], i - 1);
    }
  }

  /** A search returns a row only when it is the one row holding that SKU. */
  lemma FindIsTheRow(rows: seq<Item>, sku: string, row: Item)
    requires UniqueSkus(rows)
    ensures Find(rows, sku) == Some(row) <==> row in rows && row.sku == sku
  {
    if row in rows && row.sku == sku {
      var i :| 0 <= i < |rows| && rows[i] == row;
      FindUnique(rows, i);
    }
  }

  // ---------------------------------------------------------------------------
  // SELECT nombre, cantidad FROM inventario

  /** The stock report: one (nombre, cantidad) pair per row, in table order. */
  function Report(rows: seq<Item>): (r: seq<(string, int)>)
    ensures |r| == |rows|
    ensures forall i :: 0 <= i < |rows| ==> r[i] == Line(rows[i])
  {
    if |rows| == 0 then [] else [Line(rows[0])] + Report(rows[1..])
  }

  // ---------------------------------------------------------------------------
  // SELECT nombre, cantidad FROM inventario WHERE cantidad <= ?

  /**
   * The rows the WHERE clause `cantidad <= limite` selects, in table order: each
   * qualifying row as often as it occurs, every other row not at all.
   */
  function Below(rows: seq<Item>, limite: int): (r: seq<Item>)
    ensures forall x {:trigger multiset(r)[x]} :: multiset(r)[x] == if x.cantidad <= limite then multiset(rows)[x] else 0
  {
    if |rows| == 0 then []
    else
      assert rows == [rows[0]] + rows[1..];
      var rest := Below(rows[1..], limite);
      if rows[0].cantidad <= limite then [rows[0]] + rest else rest
  }

  /** The selected rows keep table order: the filter distributes over concatenation. */
  lemma {:induction false} BelowAppend(a: seq<Item>, b: seq<Item>, limite: int)
    ensures Below(a + b, limite) == Below(a, limite) + Below(b, limite)
  {
    if |a| == 0 {
      assert a + b == b;
    } else {
      assert (a + b)[1..] == a[1..] + b;
      BelowAppend(a[1..], b, limite);
    }
  }

  /** The low-stock report: the pairs of the rows whose cantidad is at most `limite`. */
  function LowStock(rows: seq<Item>, limite: int): (r: seq<(string, int)>)
    ensures |r| <= |rows|
    ensures forall p :: p in r ==> p.1 <= limite
    ensures forall i :: 0 <= i < |rows| && rows[i].cantidad <= limite ==> Line(rows[i]) in r
    ensures forall p :: p in r ==>
              exists i :: 0 <= i < |rows| && rows[i].cantidad <= limite && p == Line(rows[i])
  {
    if |rows| == 0 then []
    else
      var rest := LowStock(rows[1..], limite);
      assert forall i :: 1 <= i < |rows| ==> rows[i] == rows[1..][i - 1];
      if rows[0].cantidad <= limite then [Line(rows[0])] + rest else rest
  }

  /**
   * The low-stock report is the stock report of the selected rows: one pair per
   * selected row, in table order.
   */
  lemma {:induction false} LowStockIsReportOfBelow(rows: seq<Item>, limite: int)
    ensures LowStock(rows, limite) == Report(Below(rows, limite))
  {
    if |rows| > 0 {
      LowStockIsReportOfBelow(rows[1..], limite);
      if rows[0].cantidad <= limite {
        var b := Below(rows[1..], limite);
        assert Report([rows[0]] + b) == [Line(rows[0])] + Report(b);
      }
    }
  }

  /** The low-stock filter keeps table order: it distributes over concatenation. */
  lemma {:induction false} LowStockAppend(a: seq<Item>, b: seq<Item>, limite: int)
    ensures LowStock(a + b, limite) == LowStock(a, limite) + LowStock(b, limite)
  {
    if |a| == 0 {
      assert a + b == b;
    } else {
      assert (a + b)[1..] == a[1..] + b;
      LowStockAppend(a[1..], b, limite);
    }
  }

  /** With a threshold no row exceeds, the low-stock report is the full report. */
  lemma {:induction false} LowStockAll(rows: seq<Item>, limite: int)
    requires forall i :: 0 <= i < |rows| ==> rows[i].cantidad <= limite
    ensures LowStock(rows, limite) == Report(rows)
  {
    if |rows| > 0 {
      LowStockAll(rows[1..], limite);
    }
  }

  /** With a threshold below every row, the low-stock report is empty. */
  lemma {:induction false} LowStockNone(rows: seq<Item>, limite: int)
    requires forall i :: 0 <= i < |rows| ==> rows[i].cantidad > limite
    ensures LowStock(rows, limite) == []
  {
    if |rows| > 0 {
      LowStockNone(rows[1..], limite);
    }
  }

  /**
   * The low-stock route: the threshold is the submitted `limite`, or the default
   * when the request submits none.  A submitted threshold outside the 64-bit
   * range cannot be bound, and the query fails.
   */
  function LowStockRequest(rows: seq<Item>, limite: Option<int>): (r: Result<seq<(string, int)>>)
    ensures limite.None? ==> r == Ok(LowStock(rows, DefaultLimit))
    ensures limite.Some? && Int64(limite.value) ==> r == Ok(LowStock(rows, limite.value))
    ensures limite.Some? && !Int64(limite.value) ==> r == Err(IntegerOverflow)
  {
    match limite
    case None => Ok(LowStock(rows, DefaultLimit))
    case Some(l) => if Int64(l) then Ok(LowStock(rows, l)) else Err(IntegerOverflow)
  }

  /** The three-row example of a low-stock query with the default threshold. */
  lemma LowStockExample()
    ensures LowStock([Item(1, "A", "a", "", 3, 1, ""), Item(2, "B", "b", "", 10, 1, ""),
                      Item(3, "C", "c", "", 5, 1, "")], DefaultLimit)
            == [("A", 3), ("C", 5)]
  {
    var rows := [Item(1, "A", "a", "", 3, 1, ""), Item(2, "B", "b", "", 10, 1, ""),
                 Item(3, "C", "c", "", 5, 1, "")];
    assert rows[1..][1..] == [rows[2]];
  }

  // ---------------------------------------------------------------------------
  // INSERT INTO inventario (...) VALUES (...)

  /** An inserted SKU is found afterwards, as the inserted row. */
  lemma {:induction false} InsertThenFind(rows: seq<Item>, item: Item)
    requires !HasSku(rows, item.sku)
    ensures Find(rows + [item], item.sku) == Some(item)
  {
    if |rows| > 0 {
      assert rows[0].sku != item.sku;
      assert (rows + [item])[1..] == rows[1..] + [item];
      HasSkuCons(rows, item.sku);
      InsertThenFind(rows[1..], item);
    }
  }

  /** An insertion does not change what a search for any other SKU returns. */
  lemma {:induction false} InsertOtherFind(rows: seq<Item>, item: Item, sku: string)
    requires sku != item.sku
    ensures Find(rows + [item], sku) == Find(rows, sku)
  {
    if |rows| > 0 {
      assert (rows + [item])[1..] == rows[1..] + [item];
      InsertOtherFind(rows[1..], item, sku);
    }
  }

  // ---------------------------------------------------------------------------
  // UPDATE inventario SET nombre, descripcion, cantidad, precio, categoria WHERE sku = ?

  /** A row with the updatable columns replaced. */
  function WithFields(row: Item, f: Fields): (r: Item)
    ensures r.id == row.id && r.sku == row.sku && FieldsOf(r) == f
  {
    row.(nombre := f.nombre, descripcion := f.descripcion, cantidad := f.cantidad,
         precio := f.precio, categoria := f.categoria)
  }

  /** The table after the UPDATE by SKU. */
  function Updated(rows: seq<Item>, sku: string, f: Fields): (r: seq<Item>)
    ensures |r| == |rows|
    ensures forall i :: 0 <= i < |rows| ==> r[i].id == rows[i].id && r[i].sku == rows[i].sku
    ensures forall i :: 0 <= i < |rows| && rows[i].sku == sku ==> FieldsOf(r[i]) == f
    ensures forall i :: 0 <= i < |rows| && rows[i].sku != sku ==> r[i] == rows[i]
  {
    if |rows| == 0 then []
    else
      var head := if rows[0].sku == sku then WithFields(rows[0], f) else rows[0];
      [head] + Updated(rows[1..], sku, f)
  }

  /** An UPDATE of a SKU no row holds changes nothing. */
  lemma UpdateAbsentIsNoop(rows: seq<Item>, sku: string, f: Fields)
    requires !HasSku(rows, sku)
    ensures Updated(rows, sku, f) == rows
  {
    var r := Updated(rows, sku, f);
    forall i | 0 <= i < |rows| ensures r[i] == rows[i] {
      assert rows[i].sku != sku;
    }
  }

  /** An UPDATE keeps the SKUs unique and the ids ascending. */
  lemma UpdatedKeepsInvariants(rows: seq<Item>, sku: string, f: Fields)
    requires UniqueSkus(rows) && IdsAscending(rows)
    ensures UniqueSkus(Updated(rows, sku, f)) && IdsAscending(Updated(rows, sku, f))
  {
  }

  /** After an UPDATE, a search for the SKU returns the old row with the new columns. */
  lemma UpdateThenFind(rows: seq<Item>, sku: string, f: Fields, row: Item)
    requires UniqueSkus(rows)
    requires Find(rows, sku) == Some(row)
    ensures Find(Updated(rows, sku, f), sku) == Some(WithFields(row, f))
  {
    var i :| 0 <= i < |rows| && rows[i] == row;
    var r := Updated(rows, sku, f);
    assert r[i] == WithFields(row, f);
    FindUnique(r, i);
  }

  /** An UPDATE does not change what a search for any other SKU returns. */
  lemma {:induction false} UpdateOtherFind(rows: seq<Item>, sku: string, f: Fields, other: string)
    requires other != sku
    ensures Find(Updated(rows, sku, f), other) == Find(rows, other)
  {
    if |rows| > 0 {
      UpdateOtherFind(rows[1..], sku, f, other);
    }
  }

  /** An UPDATE with the fields a row already has leaves the table as it was. */
  lemma UpdateSameFields(rows: seq<Item>, sku: string, row: Item)
    requires UniqueSkus(rows)
    requires Find(rows, sku) == Some(row)
    ensures Updated(rows, sku, FieldsOf(row)) == rows
  {
    var r := Updated(rows, sku, FieldsOf(row));
    forall i | 0 <= i < |rows| ensures r[i] == rows[i] {
      if rows[i].sku == sku {
        FindUnique(rows, i);
      }
    }
  }

  // ---------------------------------------------------------------------------
  // DELETE FROM inventario WHERE sku = ?

  /** The table after the DELETE by SKU. */
  function Removed(rows: seq<Item>, sku: string): (r: seq<Item>)
    ensures |r| <= |rows|
    ensures !HasSku(r, sku)
    ensures forall x :: x in r <==> x in rows && x.sku != sku
    ensures forall x {:trigger multiset(r)[x]} :: multiset(r)[x] == if x.sku == sku then 0 else multiset(rows)[x]
  {
    if |rows| == 0 then []
    else
      assert rows == [rows[0]] + rows[1..];
      if rows[0].sku == sku then Removed(rows[1..], sku)
      else [rows[0]] + Removed(rows[1..], sku)
  }

  /** A DELETE keeps the surviving rows in table order: it distributes over concatenation. */
  lemma {:induction false} RemovedAppend(a: seq<Item>, b: seq<Item>, sku: string)
    ensures Removed(a + b, sku) == Removed(a, sku) + Removed(b, sku)
  {
    if |a| == 0 {
      assert a + b == b;
    } else {
      assert (a + b)[1..] == a[1..] + b;
      RemovedAppend(a[1..], b, sku);
    }
  }

  /** A DELETE of a SKU no row holds changes nothing. */
  lemma {:induction false} RemoveAbsentIsNoop(rows: seq<Item>, sku: string)
    requires !HasSku(rows, sku)
    ensures Removed(rows, sku) == rows
  {
    if |rows| > 0 {
      HasSkuCons(rows, sku);
      RemoveAbsentIsNoop(rows[1..], sku);
    }
  }

  /** Deleting twice is deleting once. */
  lemma RemoveIdempotent(rows: seq<Item>, sku: string)
    ensures Removed(Removed(rows, sku), sku) == Removed(rows, sku)
  {
    RemoveAbsentIsNoop(Removed(rows, sku), sku);
  }

  /** Under the UNIQUE constraint a DELETE of a present SKU removes exactly one row. */
  lemma {:induction false} RemoveCount(rows: seq<Item>, sku: string)
    requires UniqueSkus(rows)
    ensures |Removed(rows, sku)| == if HasSku(rows, sku) then |rows| - 1 else |rows|
  {
    if |rows| == 0 {
    } else {
      UniqueSkusTail(rows);
      RemoveCount(rows[1..], sku);
      HasSkuCons(rows, sku);
    }
  }

  /** A row that survives a DELETE was in the table at some position. */
  lemma RemovedFrom(rows: seq<Item>, sku: string, x: Item) returns (k: int)
    requires x in Removed(rows, sku)
    ensures 0 <= k < |rows| && rows[k] == x
  {
    k :| 0 <= k < |rows| && rows[k] == x;
  }

  /** A DELETE keeps the SKUs unique. */
  lemma {:induction false} RemovedKeepsUnique(rows: seq<Item>, sku: string)
    requires UniqueSkus(rows)
    ensures UniqueSkus(Removed(rows, sku))
  {
    if |rows| > 0 {
      UniqueSkusTail(rows);
      RemovedKeepsUnique(rows[1..], sku);
      if rows[0].sku != sku {
        var rest := Removed(rows[1..], sku);
        assert !HasSku(rest, rows[0].sku);
        var r := [rows[0]] + rest;
        forall i, j | 0 <= i < j < |r| ensures r[i].sku != r[j].sku {
          assert r[j] == rest[j - 1];
          if i > 0 {
            assert r[i] == rest[i - 1];
          }
        }
      }
    }
  }

  /** Every row that survives a DELETE has an id above any bound all old rows exceed. */
  lemma RemovedIdsAbove(rows: seq<Item>, sku: string, bound: int)
    requires forall i :: 0 <= i < |rows| ==> bound < rows[i].id
    ensures forall j :: 0 <= j < |Removed(rows, sku)| ==> bound < Removed(rows, sku)[j].id
  {
    var r := Removed(rows, sku);
    forall j | 0 <= j < |r| ensures bound < r[j].id {
      var k := RemovedFrom(rows, sku, r[j]);
    }
  }

  /** A DELETE keeps the remaining rows in ascending id order. */
  lemma {:induction false} RemovedKeepsAscending(rows: seq<Item>, sku: string)
    requires IdsAscending(rows)
    ensures IdsAscending(Removed(rows, sku))
  {
    if |rows| > 0 {
      var tail := rows[1..];
      assert IdsAscending(tail);
      RemovedKeepsAscending(tail, sku);
      if rows[0].sku != sku {
        var rest := Removed(tail, sku);
        RemovedIdsAbove(tail, sku, rows[0].id);
        var r := [rows[0]] + rest;
        assert Removed(rows, sku) == r;
        forall i, j | 0 <= i < j < |r| ensures r[i].id < r[j].id {
          assert r[j] == rest[j - 1];
          if i > 0 {
            assert r[i] == rest[i - 1];
          }
        }
      }
    }
  }

  /** A DELETE does not change what a search for any other SKU returns. */
  lemma {:induction false} RemoveOtherFind(rows: seq<Item>, sku: string, other: string)
    requires other != sku
    ensures Find(Removed(rows, sku), other) == Find(rows, other)
  {
    if |rows| > 0 {
      RemoveOtherFind(rows[1..], sku, other);
    }
  }

  // ---------------------------------------------------------------------------
  // The stored table

  /**
   * The `inventario` table: its rows in ascending id order, and the AUTOINCREMENT
   * counter `nextId`, one past the largest id ever assigned.  `issued` records
   * every id assigned so far, including those of rows deleted since.
   */
  class Inventory {
    var rows: seq<Item>
    var nextId: nat
    ghost var issued: set<nat>

    ghost predicate Valid()
      reads this
    {
      UniqueSkus(rows) && IdsAscending(rows) &&
      (forall i :: 0 <= i < |rows| ==> rows[i].id in issued) &&
      0 < nextId && (forall id :: id in issued ==> 0 < id < nextId)
    }

    /** CREATE TABLE: the table starts empty and the first id assigned is 1. */
    constructor ()
      ensures Valid()
      ensures rows == [] && nextId == 1 && issued == {}
    {
      rows := [];
      nextId := 1;
      issued := {};
    }

    /**
     * INSERT of a new row.  A quantity or price outside the 64-bit range cannot
     * be bound, and a SKU already in the table violates the UNIQUE constraint:
     * either way the statement fails and the table and counter are untouched.
     * Otherwise the row is appended with the next id, which exceeds every id
     * ever assigned.
     */
    method Add(nombre: string, sku: string, descripcion: string,
               cantidad: int, precio: int, categoria: string) returns (r: Result<Item>)
      requires Valid()
      modifies this
      ensures Valid()
      ensures !Int64(cantidad) || !Int64(precio) ==> r == Err(IntegerOverflow)
      ensures Int64(cantidad) && Int64(precio) && HasSku(old(rows), sku) ==>
                r == Err(DuplicateSku(sku))
      ensures r.Err? ==> rows == old(rows) && nextId == old(nextId) && issued == old(issued)
      ensures Int64(cantidad) && Int64(precio) && !HasSku(old(rows), sku) ==>
                r == Ok(Item(old(nextId), nombre, sku, descripcion, cantidad, precio, categoria)) &&
                rows == old(rows) + [r.value] &&
                nextId == old(nextId) + 1 && issued == old(issued) + {r.value.id}
      ensures r.Ok? ==> r.value.id !in old(issued) &&
                        forall id :: id in old(issued) ==> id < r.value.id
      ensures r.Ok? ==> Find(rows, sku) == Some(r.value)
    {
      if !Int64(cantidad) || !Int64(precio) {
        return Err(IntegerOverflow);
      }
      match Find(rows, sku)
      case Some(_) =>
        r := Err(DuplicateSku(sku));
      case None =>
        var item := Item(nextId, nombre, sku, descripcion, cantidad, precio, categoria);
        InsertThenFind(rows, item);
        assert forall i :: 0 <= i < |rows| ==> rows[i].id < item.id && rows[i].sku != item.sku;
        rows := rows + [item];
        issued := issued + {nextId};
        nextId := nextId + 1;
        r := Ok(item);
    }

    /**
     * UPDATE by SKU of every column except the id and the SKU.  A quantity or
     * price outside the 64-bit range cannot be bound: the statement fails and
     * nothing changes.  A SKU no row holds updates nothing; it is not an error.
     */
    method Edit(sku: string, f: Fields) returns (r: Result<()>)
      requires Valid()
      modifies this
      ensures Valid()
      ensures r == (if Bindable(f) then Ok(()) else Err(IntegerOverflow))
      ensures rows == if Bindable(f) then Updated(old(rows), sku, f) else old(rows)
      ensures nextId == old(nextId) && issued == old(issued)
      ensures !HasSku(old(rows), sku) ==> rows == old(rows)
    {
      if !Bindable(f) {
        return Err(IntegerOverflow);
      }
      UpdatedKeepsInvariants(rows, sku, f);
      if !HasSku(rows, sku) {
        UpdateAbsentIsNoop(rows, sku, f);
      }
      rows := Updated(rows, sku, f);
      r := Ok(());
    }

    /** DELETE by SKU.  A SKU no row holds deletes nothing; it is not an error. */
    method Delete(sku: string)
      requires Valid()
      modifies this
      ensures Valid()
      ensures rows == Removed(old(rows), sku)
      ensures nextId == old(nextId) && issued == old(issued)
      ensures Find(rows, sku) == None
      ensures |rows| == if HasSku(old(rows), sku) then |old(rows)| - 1 else |old(rows)|
    {
      RemovedKeepsUnique(rows, sku);
      RemovedKeepsAscending(rows, sku);
      RemoveCount(rows, sku);
      var r := Removed(rows, sku);
      forall i | 0 <= i < |r| ensures r[i].id in issued {
        assert r[i] in rows;
      }
      rows := r;
    }
  }

  /**
   * A client of the class: insert, search, update to quantity 0, delete twice.
   */
  method Scenario()
  {
    var inv := new Inventory();
    var r := inv.Add("Widget", "W1", "", 10, 2, "");
    assert r.Ok?;
    var w := r.value;
    assert Find(inv.rows, "W1") == Some(w);
    var e := inv.Edit("W1", FieldsOf(w).(cantidad := 0));
    assert e == Ok(());
    UpdateThenFind([w], "W1", FieldsOf(w).(cantidad := 0), w);
    assert Find(inv.rows, "W1").value.cantidad == 0;
    var dup := inv.Add("Other", "W1", "", 1, 1, "");
    assert dup == Err(DuplicateSku("W1"));
    inv.Delete("W1");
    assert Find(inv.rows, "W1") == None;
    inv.Delete("W1");
    assert inv.rows == [];
  }
}
