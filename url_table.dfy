/**
 * The `urls` table: one record per shortened URL, and the two read-only
 * queries of the store, `filter(column == value, is_active).first()`.
 * A query answers with the position of the row it finds, which is how the
 * handlers refer to the object the ORM hands back.
 */
module UrlTable {
  import opened Wrappers

  /** One persisted row: the schema's `target_url`, `is_active`, `clicks`
      and the two key columns the store writes. */
  datatype UrlRecord = UrlRecord(
    targetUrl: string,
    key: string,
    secretKey: string,
    isActive: bool,
    clicks: nat)

  /** A freshly inserted row. The column defaults (active, no clicks) live
      in a file that is not part of this model; they are assumed here. */
  function NewRecord(targetUrl: string, key: string, secretKey: string): (r: UrlRecord)
    ensures r.targetUrl == targetUrl && r.key == key && r.secretKey == secretKey
    ensures r.isActive && r.clicks == 0
  {
    UrlRecord(targetUrl, key, secretKey, true, 0)
  }

  /** The two columns the queries filter on. */
  datatype Column = KeyColumn | SecretKeyColumn

  function ColumnValue(r: UrlRecord, c: Column): string {
    match c
    case KeyColumn => r.key
    case SecretKeyColumn => r.secretKey
  }

  /** The row passes `filter(column == value, is_active)`. */
  predicate Selected(r: UrlRecord, c: Column, value: string) {
    ColumnValue(r, c) == value && r.isActive
  }

  /** `.first()` over the rows from position `from` on, in table order. */
  function FirstSelected(rows: seq<UrlRecord>, c: Column, value: string, from: nat): (r: Option<nat>)
    requires from <= |rows|
    ensures r.Some? ==> from <= r.value < |rows| && Selected(rows[r.value], c, value)
    ensures forall j :: from <= j < |rows| && (r.None? || j < r.value) ==> !Selected(rows[j], c, value)
    decreases |rows| - from
  {
    if from == |rows| then None
    else if Selected(rows[from], c, value) then Some(from)
    else FirstSelected(rows, c, value, from + 1)
  }

  /** get_db_url_by_key: the first active row whose key is `urlKey`. */
  function GetDbUrlByKey(rows: seq<UrlRecord>, urlKey: string): (r: Option<nat>)
    ensures r.Some? ==> r.value < |rows| && rows[r.value].key == urlKey && rows[r.value].isActive
    ensures r.Some? ==> forall j :: 0 <= j < r.value ==> !(rows[j].key == urlKey && rows[j].isActive)
    ensures r.None? <==> forall j :: 0 <= j < |rows| ==> !(rows[j].key == urlKey && rows[j].isActive)
  {
    FirstSelected(rows, KeyColumn, urlKey, 0)
  }

  /** get_db_url_by_secret_key: the first active row whose secret key is `secretKey`. */
  function GetDbUrlBySecretKey(rows: seq<UrlRecord>, secretKey: string): (r: Option<nat>)
    ensures r.Some? ==> r.value < |rows| && rows[r.value].secretKey == secretKey && rows[r.value].isActive
    ensures r.Some? ==> forall j :: 0 <= j < r.value ==> !(rows[j].secretKey == secretKey && rows[j].isActive)
    ensures r.None? <==> forall j :: 0 <= j < |rows| ==> !(rows[j].secretKey == secretKey && rows[j].isActive)
  {
    FirstSelected(rows, SecretKeyColumn, secretKey, 0)
  }

  /** A query only looks at the filtered column and the active flag: two
      tables that agree on those answer every query alike. */
  lemma QueryDependsOnFilterColumns(a: seq<UrlRecord>, b: seq<UrlRecord>, c: Column, value: string, from: nat)
    requires |a| == |b| && from <= |a|
    requires forall j :: 0 <= j < |a| ==> ColumnValue(a[j], c) == ColumnValue(b[j], c) && a[j].isActive == b[j].isActive
    ensures FirstSelected(a, c, value, from) == FirstSelected(b, c, value, from)
  {
  }

  /** Appending a row never changes an answer already found, and an
      appended active row is found when nothing before it matches. */
  lemma QueryAfterAppend(rows: seq<UrlRecord>, rec: UrlRecord, c: Column, value: string)
    ensures FirstSelected(rows, c, value, 0).Some? ==>
      FirstSelected(rows + [rec], c, value, 0) == FirstSelected(rows, c, value, 0)
    ensures FirstSelected(rows, c, value, 0).None? ==>
      FirstSelected(rows + [rec], c, value, 0) == if Selected(rec, c, value) then Some(|rows|) else None
  {
    var r, r' := FirstSelected(rows, c, value, 0), FirstSelected(rows + [rec], c, value, 0);
    if r'.Some? && r'.value < |rows| {
      assert (rows + [rec])[r'.value] == rows[r'.value];
    }
    if r.Some? {
      assert (rows + [rec])[r.value] == rows[r.value];
    }
    assert (rows + [rec])[|rows|] == rec;
    assert forall j :: 0 <= j < |rows| ==> (rows + [rec])[j] == rows[j];
  }
}
