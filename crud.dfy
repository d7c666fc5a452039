/**
 * The record store: the table as a sequence of rows held by a class, the
 * three operations that change it (insert, add a click, deactivate), the
 * invariant they keep, and the one-way lifecycle of a row.
 */
module Crud {
  import opened Wrappers
  import opened UrlTable
  import opened Keygen

  /** The secret key: the public key, an underscore, then the random suffix. */
  function SecretKeyFor(key: string, suffix: string): (secret: string)
    ensures |secret| == |key| + 1 + |suffix|
    ensures secret[..|key|] == key && secret[|key|] == '_' && secret[|key| + 1..] == suffix
  {
    key + "_" + suffix
  }

  /** `secret` has the shape `<key>_<8 alphanumeric characters>`. */
  predicate IsSecretFor(key: string, secret: string) {
    && |secret| == |key| + 1 + SuffixLength
    && secret[..|key|] == key
    && secret[|key|] == '_'
    && forall i :: |key| < i < |secret| ==> IsAlphanumeric(secret[i])
  }

  /** The secret built at insertion has the expected shape, and the public
      key is a prefix of it. */
  lemma SecretKeyShape(key: string, suffix: string)
    requires |suffix| == SuffixLength
    requires forall i :: 0 <= i < |suffix| ==> IsAlphanumeric(suffix[i])
    ensures IsSecretFor(key, SecretKeyFor(key, suffix))
    ensures key <= SecretKeyFor(key, suffix)
  {
  }

  /** A secret key names its public key: the key is everything before the
      last nine characters. */
  lemma SecretDeterminesKey(k1: string, k2: string, secret: string)
    requires IsSecretFor(k1, secret) && IsSecretFor(k2, secret)
    ensures k1 == k2
  {
  }

  /** Every row the store writes has a default-shaped key and a secret built from it. */
  predicate WellFormed(r: UrlRecord) {
    IsDefaultKey(r.key) && IsSecretFor(r.key, r.secretKey)
  }

  /** No two active rows share a key: what the generator's lookup guarantees. */
  predicate ActiveKeysUnique(rows: seq<UrlRecord>) {
    forall i, j :: 0 <= i < |rows| && 0 <= j < |rows| && i != j && rows[i].isActive && rows[j].isActive ==>
      rows[i].key != rows[j].key
  }

  predicate TableInvariant(rows: seq<UrlRecord>) {
    && (forall i :: 0 <= i < |rows| ==> WellFormed(rows[i]))
    && ActiveKeysUnique(rows)
  }

  /** Secret keys of active rows are distinct too, although no one checks
      them: they extend keys that are distinct. */
  lemma ActiveSecretsUnique(rows: seq<UrlRecord>, i: nat, j: nat)
    requires TableInvariant(rows)
    requires i < |rows| && j < |rows| && i != j && rows[i].isActive && rows[j].isActive
    ensures rows[i].secretKey != rows[j].secretKey
  {
  }

  /** What may happen to one row over time: the key columns and the target
      never change, a row never becomes active again, clicks never go down. */
  predicate Successor(before: UrlRecord, after: UrlRecord) {
    && after.targetUrl == before.targetUrl
    && after.key == before.key
    && after.secretKey == before.secretKey
    && (after.isActive ==> before.isActive)
    && before.clicks <= after.clicks
  }

  /** Rows are never removed and each existing row only moves forward. */
  predicate Evolves(before: seq<UrlRecord>, after: seq<UrlRecord>) {
    |before| <= |after| && forall i :: 0 <= i < |before| ==> Successor(before[i], after[i])
  }

  lemma EvolvesTransitive(a: seq<UrlRecord>, b: seq<UrlRecord>, c: seq<UrlRecord>)
    requires Evolves(a, b) && Evolves(b, c)
    ensures Evolves(a, c)
  {
  }

  /** The table after update_db_clicks on row `i`. */
  function Clicked(rows: seq<UrlRecord>, i: nat): (r: seq<UrlRecord>)
    requires i < |rows|
    ensures |r| == |rows|
    ensures Successor(rows[i], r[i]) && r[i].isActive == rows[i].isActive && r[i].clicks == rows[i].clicks + 1
    ensures forall j :: 0 <= j < |rows| && j != i ==> r[j] == rows[j]
  {
    rows[i := rows[i].(clicks := rows[i].clicks + 1)]
  }

  /** The table after `UPDATE ... SET is_active = false WHERE secret_key = s`:
      every row with that secret, active or not, is switched off. */
  function Deactivated(rows: seq<UrlRecord>, secretKey: string): (r: seq<UrlRecord>)
    ensures |r| == |rows|
    ensures forall j :: 0 <= j < |rows| ==>
      Successor(rows[j], r[j]) && r[j].clicks == rows[j].clicks &&
      (r[j].isActive <==> rows[j].isActive && rows[j].secretKey != secretKey)
  {
    seq(|rows|, j requires 0 <= j < |rows| =>
      if rows[j].secretKey == secretKey then rows[j].(isActive := false) else rows[j])
  }

  lemma ClickedKeepsInvariant(rows: seq<UrlRecord>, i: nat)
    requires i < |rows| && TableInvariant(rows)
    ensures TableInvariant(Clicked(rows, i)) && Evolves(rows, Clicked(rows, i))
  {
  }

  lemma DeactivatedKeepsInvariant(rows: seq<UrlRecord>, secretKey: string)
    requires TableInvariant(rows)
    ensures TableInvariant(Deactivated(rows, secretKey)) && Evolves(rows, Deactivated(rows, secretKey))
  {
  }

  /** Inserting a well-formed active row whose key no active row holds keeps the invariant. */
  lemma InsertKeepsInvariant(rows: seq<UrlRecord>, rec: UrlRecord)
    requires TableInvariant(rows) && WellFormed(rec)
    requires GetDbUrlByKey(rows, rec.key).None?
    ensures TableInvariant(rows + [rec]) && Evolves(rows, rows + [rec])
  {
  }

  /** A click leaves every query's answer as it was: a redirect is a
      self-loop on an active row. */
  lemma ClickedKeepsLookups(rows: seq<UrlRecord>, i: nat, value: string)
    requires i < |rows|
    ensures GetDbUrlByKey(Clicked(rows, i), value) == GetDbUrlByKey(rows, value)
    ensures GetDbUrlBySecretKey(Clicked(rows, i), value) == GetDbUrlBySecretKey(rows, value)
  {
  }

  /** After deactivation no query finds the secret any more, so a later
      info request or a second deactivation reports absence. */
  lemma DeactivatedHidesSecret(rows: seq<UrlRecord>, secretKey: string)
    ensures GetDbUrlBySecretKey(Deactivated(rows, secretKey), secretKey).None?
  {
  }

  /** Deactivating the row found by its secret also hides its public key:
      no other active row can hold that key. */
  lemma DeactivatedHidesKey(rows: seq<UrlRecord>, secretKey: string, i: nat)
    requires TableInvariant(rows)
    requires GetDbUrlBySecretKey(rows, secretKey) == Some(i)
    ensures GetDbUrlByKey(Deactivated(rows, secretKey), rows[i].key).None?
  {
  }

  /** The bulk update touches only the row the lookup found: every other
      row holding the same secret is inactive already. */
  lemma DeactivateTouchesOnlyFoundRow(rows: seq<UrlRecord>, secretKey: string, i: nat)
    requires TableInvariant(rows)
    requires GetDbUrlBySecretKey(rows, secretKey) == Some(i)
    ensures Deactivated(rows, secretKey) == rows[i := rows[i].(isActive := false)]
  {
  }

  /** The `urls` table, updated in place by the store's operations. */
  class UrlStore {
    var rows: seq<UrlRecord>

    ghost predicate Valid()
      reads this
    {
      TableInvariant(rows)
    }

    constructor ()
      ensures Valid() && rows == []
    {
      rows := [];
    }

    /** create_db_url: a key from the retry loop, a secret made of that key
        and eight more draws, and one new row at the end of the table. */
    method CreateDbUrl(targetUrl: string, picks: seq<nat>) returns (created: Option<nat>)
      requires Valid()
      modifies this
      ensures Valid() && Evolves(old(rows), rows)
      ensures var d := FirstFreeKey(old(rows), picks);
        created.Some? <==> d.key.Some? && SuffixLength <= |d.rest|
      ensures created.None? ==> rows == old(rows)
      ensures created.Some? ==>
        var d := FirstFreeKey(old(rows), picks);
        && created.value == |old(rows)| == |rows| - 1
        && rows == old(rows) + [rows[created.value]]
        && rows[created.value] == NewRecord(targetUrl, d.key.value,
             SecretKeyFor(d.key.value, GenerateRandomKey(SuffixLength, DefaultChars(), d.rest)))
        && GetDbUrlByKey(old(rows), rows[created.value].key).None?
    {
      var key, rest := CreateUniqueRandomKey(rows, picks);
      if key.None? || |rest| < SuffixLength {
        return None;
      }
      var suffix := GenerateRandomKey(SuffixLength, DefaultChars(), rest);
      SecretKeyShape(key.value, suffix);
      var rec := NewRecord(targetUrl, key.value, SecretKeyFor(key.value, suffix));
      InsertKeepsInvariant(rows, rec);
      rows := rows + [rec];
      created := Some(|rows| - 1);
    }

    /** update_db_clicks: one more click on row `i`, nothing else changes. */
    method UpdateDbClicks(i: nat)
      requires Valid() && i < |rows|
      modifies this
      ensures Valid() && Evolves(old(rows), rows)
      ensures rows == Clicked(old(rows), i)
    {
      ClickedKeepsInvariant(rows, i);
      rows := Clicked(rows, i);
    }

    /** deactivate_db_url_by_secret_key: when an active row holds the secret,
        switch off every row holding it and answer with the row found;
        otherwise answer absent and leave the table alone. */
    method DeactivateDbUrlBySecretKey(secretKey: string) returns (found: Option<nat>)
      requires Valid()
      modifies this
      ensures Valid() && Evolves(old(rows), rows)
      ensures found == GetDbUrlBySecretKey(old(rows), secretKey)
      ensures found.None? ==> rows == old(rows)
      ensures found.Some? ==> rows == Deactivated(old(rows), secretKey) && !rows[found.value].isActive
    {
      found := GetDbUrlBySecretKey(rows, secretKey);
      if found.Some? {
        DeactivatedKeepsInvariant(rows, secretKey);
        rows := Deactivated(rows, secretKey);
      }
    }
  }
}
