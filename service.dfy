/**
 * The request handlers: create, redirect, info and delete, each driving the
 * store and answering with a response value. An HTTP exception becomes an
 * `HttpError` response; the framework, the session and the URL validator
 * are outside the model (the validator is a predicate passed in).
 */
module Service {
  import opened Wrappers
  import opened UrlTable
  import opened Keygen
  import opened Crud

  datatype Response =
    | UrlInfo(record: UrlRecord)          // the record, as create and info return it
    | RedirectTo(targetUrl: string)       // a redirect response to the target
    | Deleted(detail: string)             // the confirmation body of delete
    | HttpError(status: nat, detail: string)
    | OutOfDraws                          // the random stream ran dry before a key was found

  const InvalidUrlMessage := "Your provider URL is not valid"

  /** raise_not_found: 404 naming the requested URL. */
  function RaiseNotFound(requestUrl: string): (r: Response)
    ensures r.HttpError? && r.status == 404
    ensures |r.detail| == |requestUrl| + 20
    ensures r.detail[5..5 + |requestUrl|] == requestUrl
  {
    HttpError(404, "URL '" + requestUrl + "' doesn't exist")
  }

  /** raise_bad_request: 400 with the given message. */
  function RaiseBadRequest(message: string): (r: Response)
    ensures r.HttpError? && r.status == 400 && r.detail == message
  {
    HttpError(400, message)
  }

  /** The confirmation of a delete; it quotes the row's target. */
  function DeletedMessage(targetUrl: string): (m: string)
    ensures |m| == |targetUrl| + 41
    ensures m[40..40 + |targetUrl|] == targetUrl
  {
    "Successfully deleted shortened URL for '" + targetUrl + "'"
  }

  /** Different targets give different confirmations. */
  lemma DeletedMessageNamesTarget(t1: string, t2: string)
    requires DeletedMessage(t1) == DeletedMessage(t2)
    ensures t1 == t2
  {
  }

  /** POST /url. An invalid target is refused before the store is touched;
      a valid one gets exactly one new active row with no clicks. */
  method CreateUrl(db: UrlStore, targetUrl: string, isUrl: string -> bool, picks: seq<nat>) returns (resp: Response)
    requires db.Valid()
    modifies db
    ensures db.Valid() && Evolves(old(db.rows), db.rows)
    ensures !isUrl(targetUrl) ==> resp == RaiseBadRequest(InvalidUrlMessage) && db.rows == old(db.rows)
    ensures isUrl(targetUrl) ==> resp.UrlInfo? || resp.OutOfDraws?
    ensures isUrl(targetUrl) ==>
      (resp.UrlInfo? <==> var d := FirstFreeKey(old(db.rows), picks); d.key.Some? && SuffixLength <= |d.rest|)
    ensures resp.UrlInfo? ==> Some(resp.record.key) == FirstFreeKey(old(db.rows), picks).key
    ensures resp.OutOfDraws? ==> db.rows == old(db.rows)
    ensures resp.UrlInfo? ==>
      && db.rows == old(db.rows) + [resp.record]
      && resp.record.targetUrl == targetUrl
      && resp.record.isActive && resp.record.clicks == 0
      && IsDefaultKey(resp.record.key)
      && IsSecretFor(resp.record.key, resp.record.secretKey)
      && GetDbUrlByKey(old(db.rows), resp.record.key).None?
  {
    if !isUrl(targetUrl) {
      return RaiseBadRequest(InvalidUrlMessage);
    }
    var created := db.CreateDbUrl(targetUrl, picks);
    if created.None? {
      return OutOfDraws;
    }
    resp := UrlInfo(db.rows[created.value]);
  }

  /** GET /{url_key}. An active row with the key gets one more click and the
      caller is sent to its target; otherwise 404 and nothing changes. */
  method ForwardToTargetUrl(db: UrlStore, urlKey: string, requestUrl: string) returns (resp: Response)
    requires db.Valid()
    modifies db
    ensures db.Valid() && Evolves(old(db.rows), db.rows)
    ensures match GetDbUrlByKey(old(db.rows), urlKey)
      case Some(i) => resp == RedirectTo(old(db.rows)[i].targetUrl) && db.rows == Clicked(old(db.rows), i)
      case None => resp == RaiseNotFound(requestUrl) && db.rows == old(db.rows)
  {
    var found := GetDbUrlByKey(db.rows, urlKey);
    if found.Some? {
      db.UpdateDbClicks(found.value);
      resp := RedirectTo(db.rows[found.value].targetUrl);
    } else {
      resp := RaiseNotFound(requestUrl);
    }
  }

  /** GET /admin/{secret_key}: the active row with that secret, or 404. The
      handler changes nothing (it has no right to). */
  method GetUrlInfo(db: UrlStore, secretKey: string, requestUrl: string) returns (resp: Response)
    ensures resp.UrlInfo? <==> GetDbUrlBySecretKey(db.rows, secretKey).Some?
    ensures resp.UrlInfo? ==>
      && resp.record.secretKey == secretKey && resp.record.isActive
      && resp.record == db.rows[GetDbUrlBySecretKey(db.rows, secretKey).value]
    ensures !resp.UrlInfo? ==> resp == RaiseNotFound(requestUrl)
  {
    var found := GetDbUrlBySecretKey(db.rows, secretKey);
    if found.Some? {
      resp := UrlInfo(db.rows[found.value]);
    } else {
      resp := RaiseNotFound(requestUrl);
    }
  }

  /** DELETE /admin/{secret_key}: deactivate and confirm with the target, or 404. */
  method DeleteUrlInfo(db: UrlStore, secretKey: string, requestUrl: string) returns (resp: Response)
    requires db.Valid()
    modifies db
    ensures db.Valid() && Evolves(old(db.rows), db.rows)
    ensures match GetDbUrlBySecretKey(old(db.rows), secretKey)
      case Some(i) =>
        && resp == Deleted(DeletedMessage(old(db.rows)[i].targetUrl))
        && db.rows == old(db.rows)[i := old(db.rows)[i].(isActive := false)]
      case None => resp == RaiseNotFound(requestUrl) && db.rows == old(db.rows)
  {
    var found := db.DeactivateDbUrlBySecretKey(secretKey);
    if found.Some? {
      DeactivateTouchesOnlyFoundRow(old(db.rows), secretKey, found.value);
      resp := Deleted(DeletedMessage(db.rows[found.value].targetUrl));
    } else {
      resp := RaiseNotFound(requestUrl);
    }
  }

  /** A client of the handlers: a valid target with enough draws is
      created, a request for its key (`urlKey`) redirects to the target at
      once, and that visit is the row's first click. */
  method CreateThenRedirect(db: UrlStore, targetUrl: string, isUrl: string -> bool, picks: seq<nat>, requestUrl: string)
    returns (created: Response, urlKey: string, redirected: Option<Response>)
    requires db.Valid()
    modifies db
    ensures db.Valid()
    ensures isUrl(targetUrl) ==>
      (created.UrlInfo? <==> var d := FirstFreeKey(old(db.rows), picks); d.key.Some? && SuffixLength <= |d.rest|)
    ensures created.UrlInfo? <==> redirected.Some?
    ensures created.UrlInfo? ==>
      && urlKey == created.record.key
      && Some(urlKey) == FirstFreeKey(old(db.rows), picks).key
      && redirected.value == RedirectTo(targetUrl)
      && |db.rows| == |old(db.rows)| + 1
      && db.rows[|old(db.rows)|].key == urlKey
      && db.rows[|old(db.rows)|].clicks == 1
  {
    created := CreateUrl(db, targetUrl, isUrl, picks);
    if !created.UrlInfo? {
      return created, [], None;
    }
    ghost var before := old(db.rows);
    QueryAfterAppend(before, created.record, KeyColumn, created.record.key);
    urlKey := created.record.key;
    var r := ForwardToTargetUrl(db, urlKey, requestUrl);
    redirected := Some(r);
  }

  /** A client of the handlers: once a delete of `secretKey` succeeds, a
      request for the deleted row's key (`urlKey`), an info request for
      `secretKey` and a second delete of `secretKey` all answer 404; the
      table keeps the row, inactive, and no active row holds either key. */
  method DeleteIsFinal(db: UrlStore, secretKey: string, requestUrl: string)
    returns (deleted: Response, urlKey: string, redirect: Response, info: Response, again: Response)
    requires db.Valid()
    modifies db
    ensures db.Valid() && Evolves(old(db.rows), db.rows)
    ensures deleted.Deleted? <==> GetDbUrlBySecretKey(old(db.rows), secretKey).Some?
    ensures deleted.Deleted? ==>
      var i := GetDbUrlBySecretKey(old(db.rows), secretKey).value;
      && urlKey == old(db.rows)[i].key
      && redirect == RaiseNotFound(requestUrl)
      && info == RaiseNotFound(requestUrl)
      && again == RaiseNotFound(requestUrl)
      && |db.rows| == |old(db.rows)| && !db.rows[i].isActive
      && GetDbUrlByKey(db.rows, urlKey).None?
      && GetDbUrlBySecretKey(db.rows, secretKey).None?
  {
    var before := db.rows;
    deleted := DeleteUrlInfo(db, secretKey, requestUrl);
    if !deleted.Deleted? {
      return deleted, [], deleted, deleted, deleted;
    }
    var i := GetDbUrlBySecretKey(before, secretKey).value;
    DeactivateTouchesOnlyFoundRow(before, secretKey, i);
    DeactivatedHidesKey(before, secretKey, i);
    DeactivatedHidesSecret(before, secretKey);
    ghost var mid := db.rows;
    urlKey := before[i].key;
    redirect := ForwardToTargetUrl(db, urlKey, requestUrl);
    info := GetUrlInfo(db, secretKey, requestUrl);
    again := DeleteUrlInfo(db, secretKey, requestUrl);
    EvolvesTransitive(before, mid, db.rows);
  }
}
