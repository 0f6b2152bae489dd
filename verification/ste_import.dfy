/**
  The row loop of `import_ste_file` (the first registration in `main.py`):
  each spreadsheet row with an external id is inserted, or overwrites the
  item that already has that external id, and the endpoint reports how many
  rows it created and how many it updated.

  The `stes` table is seen through its unique `external_id` column: a map
  from external id to the columns the import writes. The session flushes
  before each query, so a row whose external id appeared earlier in the
  same file finds the item that row created and counts as an update.
 */
module SteImport {
  import opened Common
  import opened Text
  import opened Characteristics

  /** One spreadsheet row after header normalisation. The category id is
      the result of the `int(float(...))` coercion. */
  datatype ImportRow = ImportRow(
    externalId: Option<int>,
    name: Option<string>,
    imageUrl: Option<string>,
    modelName: Cell,
    countryOfOrigin: Option<string>,
    manufacturer: Option<string>,
    categoryId: Option<int>,
    categoryName: Option<string>,
    characteristics: Cell)

  /** The columns the import writes: `ste_data`. */
  datatype SteData = SteData(
    externalId: int,
    name: Option<string>,
    imageUrl: Option<string>,
    modelName: Option<string>,
    countryOfOrigin: Option<string>,
    manufacturer: Option<string>,
    categoryId: Option<int>,
    categoryName: Option<string>,
    characteristics: map<string, string>)

  /** `external_id -> columns` for the items in the table. */
  type Store = map<int, SteData>

  /** `if not ste_data["external_id"]: continue` skips `None` and 0. */
  predicate HasId(row: ImportRow) {
    row.externalId.Some? && row.externalId.value != 0
  }

  /** `str(model_val).strip()`, or `None` for an empty cell. */
  function ModelName(c: Cell): (r: Option<string>)
    ensures c.Blank? <==> r.None?
    ensures r.Some? ==> Stripped(r.value)
    ensures c.Str? ==> r == Some(Strip(c.s))
    ensures c.Num? ==> r == Some(IntToDecimal(c.n))
  {
    match c
    case Blank => None
    case Str(s) => Some(Strip(s))
    case Num(n) =>
      assert Stripped(IntToDecimal(n)) by {
        DecimalHasNoSpace(n);
      }
      Some(IntToDecimal(n))
  }

  lemma DecimalHasNoSpace(n: int)
    ensures Stripped(IntToDecimal(n))
  {
    var s := IntToDecimal(n);
    if n >= 0 {
      assert IsDigit(s[0]) && IsDigit(s[|s| - 1]);
    } else {
      assert s == "-" + NatToDecimal(-n);
      assert IsDigit(NatToDecimal(-n)[|NatToDecimal(-n)| - 1]);
    }
  }

  /** The record a row with an external id writes. */
  function ToSteData(row: ImportRow): (d: SteData)
    requires HasId(row)
    ensures d.externalId == row.externalId.value
    ensures d.characteristics == ParseCharacteristics(row.characteristics)
    ensures d.modelName == ModelName(row.modelName)
  {
    SteData(row.externalId.value, row.name, row.imageUrl, ModelName(row.modelName),
            row.countryOfOrigin, row.manufacturer, row.categoryId, row.categoryName,
            ParseCharacteristics(row.characteristics))
  }

  /** The number of rows the import does not skip. */
  function CountWithId(rows: seq<ImportRow>): (n: nat)
    ensures n <= |rows|
    decreases |rows|
  {
    if |rows| == 0 then 0
    else CountWithId(rows[..|rows| - 1]) + (if HasId(rows[|rows| - 1]) then 1 else 0)
  }

  /** The external ids the file names. */
  function IdsOf(rows: seq<ImportRow>): set<int> {
    set j | 0 <= j < |rows| && HasId(rows[j]) :: rows[j].externalId.value
  }

  /** The j-th row is the last one with its external id. */
  predicate LastWithId(rows: seq<ImportRow>, j: nat)
    requires j < |rows| && HasId(rows[j])
  {
    forall j' :: j < j' < |rows| && HasId(rows[j']) ==> rows[j'].externalId != rows[j].externalId
  }

  lemma IdsOfSnoc(rows: seq<ImportRow>, row: ImportRow)
    ensures IdsOf(rows + [row]) == IdsOf(rows) + (if HasId(row) then {row.externalId.value} else {})
  {
    var all := rows + [row];
    assert forall j :: 0 <= j < |rows| ==> all[j] == rows[j];
    assert all[|rows|] == row;
  }

  /** One iteration of the loop: skip, update or insert. */
  function Step(s: Store, created: nat, updated: nat, row: ImportRow): (out: (Store, nat, nat))
    ensures !HasId(row) ==> out == (s, created, updated)
    ensures HasId(row) ==> out.0 == s[row.externalId.value := ToSteData(row)]
    ensures HasId(row) && row.externalId.value in s ==> out.1 == created && out.2 == updated + 1
    ensures HasId(row) && row.externalId.value !in s ==> out.1 == created + 1 && out.2 == updated
  {
    if !HasId(row) then (s, created, updated)
    else
      var id := row.externalId.value;
      if id in s then (s[id := ToSteData(row)], created, updated + 1)
      else (s[id := ToSteData(row)], created + 1, updated)
  }

  /** What holds after the loop has handled `rows[..i]`. */
  predicate Handled(store: Store, rows: seq<ImportRow>, i: nat, s: Store, created: nat, updated: nat)
    requires i <= |rows|
  {
    && created + updated == CountWithId(rows[..i])
    && s.Keys == store.Keys + IdsOf(rows[..i])
    && |s.Keys| == |store.Keys| + created
    && (forall k :: k in store && k !in IdsOf(rows[..i]) ==> s[k] == store[k])
    && (forall j :: 0 <= j < i && HasId(rows[j]) && LastWithId(rows[..i], j) ==>
          s[rows[j].externalId.value] == ToSteData(rows[j]))
  }

  lemma StepCounts(store: Store, rows: seq<ImportRow>, i: nat, s: Store, created: nat, updated: nat)
    requires i < |rows|
    requires created + updated == CountWithId(rows[..i])
    ensures
      var out := Step(s, created, updated, rows[i]);
      out.1 + out.2 == CountWithId(rows[..i + 1])
  {
    var pre := rows[..i + 1];
    assert pre[..i] == rows[..i];
    assert pre[i] == rows[i];
  }

  lemma StepKeys(store: Store, rows: seq<ImportRow>, i: nat, s: Store, created: nat, updated: nat)
    requires i < |rows|
    requires s.Keys == store.Keys + IdsOf(rows[..i])
    ensures Step(s, created, updated, rows[i]).0.Keys == store.Keys + IdsOf(rows[..i + 1])
  {
    var row := rows[i];
    assert rows[..i + 1] == rows[..i] + [row];
    IdsOfSnoc(rows[..i], row);
  }

  lemma StepCreated(s: Store, created: nat, updated: nat, row: ImportRow, base: nat)
    requires created + base == |s.Keys|
    ensures Step(s, created, updated, row).1 + base == |Step(s, created, updated, row).0.Keys|
  {
    if HasId(row) {
      var id := row.externalId.value;
      var s' := Step(s, created, updated, row).0;
      if id !in s {
        assert s'.Keys == s.Keys + {id};
        assert |s.Keys + {id}| == |s.Keys| + 1;
      } else {
        assert s'.Keys == s.Keys;
      }
    }
  }

  lemma StepKeepsOthers(store: Store, rows: seq<ImportRow>, i: nat, s: Store, created: nat, updated: nat)
    requires i < |rows| && Handled(store, rows, i, s, created, updated)
    ensures
      var s' := Step(s, created, updated, rows[i]).0;
      forall k :: k in store && k !in IdsOf(rows[..i + 1]) ==> s'[k] == store[k]
  {
    assert rows[..i + 1] == rows[..i] + [rows[i]];
    IdsOfSnoc(rows[..i], rows[i]);
  }

  lemma StepLastWins(store: Store, rows: seq<ImportRow>, i: nat, s: Store, created: nat, updated: nat)
    requires i < |rows| && Handled(store, rows, i, s, created, updated)
    ensures
      var s' := Step(s, created, updated, rows[i]).0;
      forall j :: 0 <= j < i + 1 && HasId(rows[j]) && LastWithId(rows[..i + 1], j) ==>
        rows[j].externalId.value in s' && s'[rows[j].externalId.value] == ToSteData(rows[j])
  {
    var s' := Step(s, created, updated, rows[i]).0;
    forall j | 0 <= j < i + 1 && HasId(rows[j]) && LastWithId(rows[..i + 1], j)
      ensures rows[j].externalId.value in s' && s'[rows[j].externalId.value] == ToSteData(rows[j])
    {
      if j < i {
        EarlierStaysLast(rows, i, j);
      }
    }
  }

  /** A row that is the last with its id among the first `i + 1` rows,
      other than row `i`, is the last among the first `i`, and row `i`
      has another id. */
  lemma EarlierStaysLast(rows: seq<ImportRow>, i: nat, j: nat)
    requires j < i < |rows| && HasId(rows[j]) && LastWithId(rows[..i + 1], j)
    ensures LastWithId(rows[..i], j)
    ensures rows[j].externalId.value in IdsOf(rows[..i])
    ensures HasId(rows[i]) ==> rows[i].externalId != rows[j].externalId
  {
    forall j' | j < j' < i && HasId(rows[..i][j'])
      ensures rows[..i][j'].externalId != rows[..i][j].externalId
    {
      assert rows[..i][j'] == rows[..i + 1][j'];
    }
    assert rows[..i][j] == rows[j];
    assert rows[..i + 1][i] == rows[i];
  }

  /** One iteration keeps `Handled`, one row further on. */
  lemma StepHandled(store: Store, rows: seq<ImportRow>, i: nat, s: Store, created: nat, updated: nat)
    requires i < |rows| && Handled(store, rows, i, s, created, updated)
    ensures
      var out := Step(s, created, updated, rows[i]);
      Handled(store, rows, i + 1, out.0, out.1, out.2)
  {
    StepCounts(store, rows, i, s, created, updated);
    StepKeys(store, rows, i, s, created, updated);
    StepCreated(s, created, updated, rows[i], |store.Keys|);
    StepKeepsOthers(store, rows, i, s, created, updated);
    StepLastWins(store, rows, i, s, created, updated);
  }

  /** The import loop: the store afterwards and the `created` and `updated`
      counters. Every row with an id is counted exactly once; a row counts
      as created exactly when its id was new; the last row with an id
      decides what is stored under it; other items keep their data. */
  method ImportRows(store: Store, rows: seq<ImportRow>) returns (store': Store, created: nat, updated: nat)
    ensures created + updated == CountWithId(rows)
    ensures store'.Keys == store.Keys + IdsOf(rows)
    ensures |store'.Keys| == |store.Keys| + created
    ensures forall k :: k in store && k !in IdsOf(rows) ==> store'[k] == store[k]
    ensures forall j :: 0 <= j < |rows| && HasId(rows[j]) && LastWithId(rows, j) ==>
      store'[rows[j].externalId.value] == ToSteData(rows[j])
  {
    store' := store;
    created, updated := 0, 0;
    var i := 0;
    assert rows[..0] == [];
    while i < |rows|
      invariant 0 <= i <= |rows|
      invariant Handled(store, rows, i, store', created, updated)
    {
      StepHandled(store, rows, i, store', created, updated);
      var out := Step(store', created, updated, rows[i]);
      store', created, updated := out.0, out.1, out.2;
      i := i + 1;
    }
    assert rows[..i] == rows;
  }
}
