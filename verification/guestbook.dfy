/** The request handlers of the guestbook, each a pure step from a store to
    a new store, a reply and the notifications to send.

    Mail delivery is best effort in the source: a failed send is only logged,
    so a notification is modelled as an emitted `Mail` and never influences the
    reply. */
module Guestbook {
  import opened Bytes
  import opened Wrappers
  import opened Store
  import Validation

  /** The settings the handlers read: the admin address, the public base URL
      of the moderation page, the minimum wait between two submissions from
      one address, and the shared anti-spam code. */
  datatype Config = Config(adminEmail: Bytes, url: Bytes, entryWait: int, antiSpamCode: Bytes)

  /** The three mail templates: new entry (to the admin), entry approved and
      entry commented (to the author). */
  datatype MailKind = EntryAdded | EntryApproved | EntryCommented

  /** A notification: recipient, template and the URL interpolated into it. */
  datatype Mail = Mail(to: Bytes, kind: MailKind, link: Bytes)

  /** The failures a handler reports: `WrongCode`, `Invalid` and `PostLimit`
      carry the tags "code", "validation" and "postlimit" (statuses 400, 400,
      429); `NotFound` is 404, `BadRequest` is 400 and `ServerError` is 500. */
  datatype Failure = WrongCode | Invalid | PostLimit | NotFound | BadRequest | ServerError

  datatype Reply = Done | Failed(failure: Failure)

  /** What a handler leaves behind. */
  datatype Step = Step(store: Store, reply: Reply, mails: seq<Mail>)

  /** The decoded body of a submission. A client may also send an id, an
      approval state, a comment and a creation time; the handler never stores
      them. */
  datatype Submission = Submission(
    name: Bytes,
    email: Bytes,
    message: Bytes,
    code: Bytes,
    id: Bytes,
    approved: int,
    comment: Bytes,
    createdAt: int)

  /** The query parameter that carries an entry id in a moderation link. */
  const ENTRY_ID_PARAM: Bytes := FromAscii("?GgbEntryID=")

  /** The link mailed to the admin for a new entry: the base URL, then the
      query parameter, then the id. */
  function ModerationLink(cfg: Config, id: Id): (link: Bytes)
    ensures |link| == |cfg.url| + |ENTRY_ID_PARAM| + |id|
    ensures link[..|cfg.url|] == cfg.url
    ensures link[|cfg.url|..|cfg.url| + |ENTRY_ID_PARAM|] == ENTRY_ID_PARAM
    ensures link[|cfg.url| + |ENTRY_ID_PARAM|..] == id
  {
    var link := cfg.url + ENTRY_ID_PARAM + id;
    assert link[..|cfg.url|] == cfg.url;
    assert link[|cfg.url|..|cfg.url| + |ENTRY_ID_PARAM|] == ENTRY_ID_PARAM;
    link
  }

  /** The entry id a moderation link carries, if it is one: the inverse of
      `ModerationLink`. The handlers never parse a link; this states what the
      admin's link leads back to. */
  function LinkedId(cfg: Config, link: Bytes): (r: Option<Id>)
    ensures r.Some? ==> ModerationLink(cfg, r.value) == link
  {
    var prefix := cfg.url + ENTRY_ID_PARAM;
    if prefix <= link then Some(link[|prefix|..]) else None
  }

  /** Every moderation link leads back to the id it was built from. */
  lemma LinkRoundTrip(cfg: Config, id: Id)
    ensures LinkedId(cfg, ModerationLink(cfg, id)) == Some(id)
  {
    assert ModerationLink(cfg, id)[|cfg.url + ENTRY_ID_PARAM|..] == id;
  }

  /** The submitter's address: the X-Forwarded-For header when it is not
      empty, else the host part of the peer address (`None` when the peer
      address does not split into host and port). */
  function ClientAddress(forwardedFor: Bytes, remoteHost: Option<Bytes>): (r: Option<Bytes>)
    ensures r.Some? <==> forwardedFor != [] || remoteHost.Some?
    ensures forwardedFor != [] ==> r == Some(forwardedFor)
    ensures forwardedFor == [] ==> r == remoteHost
  {
    if forwardedFor != [] then Some(forwardedFor) else remoteHost
  }

  /** The conditions under which a submission is stored: the right code,
      acceptable fields, a resolvable address with no row from it younger than
      the wait, and a fresh id. */
  ghost predicate Admits(
    cfg: Config, store: Store, sub: Submission,
    forwardedFor: Bytes, remoteHost: Option<Bytes>, newId: Id, now: int)
  {
    && sub.code == cfg.antiSpamCode
    && Validation.Acceptable(sub.name, sub.email, sub.message)
    && ClientAddress(forwardedFor, remoteHost).Some?
    && !PostedWithin(store, ClientAddress(forwardedFor, remoteHost).value, now, cfg.entryWait)
    && newId !in store
  }

  /** A new submission. The checks run in a fixed order: anti-spam code,
      field validation, address resolution, post limit, then the insertion
      under the id the generator supplies (a clash with an existing id is the
      primary-key failure of the insert). `now` stamps the new row. */
  function CreateEntry(
    cfg: Config, store: Store, sub: Submission,
    forwardedFor: Bytes, remoteHost: Option<Bytes>, newId: Id, now: int): (s: Step)
    ensures s.reply == Failed(WrongCode) <==> sub.code != cfg.antiSpamCode
    ensures s.reply == Failed(Invalid) <==>
              sub.code == cfg.antiSpamCode && !Validation.Acceptable(sub.name, sub.email, sub.message)
    ensures s.reply == Failed(PostLimit) <==>
              && sub.code == cfg.antiSpamCode
              && Validation.Acceptable(sub.name, sub.email, sub.message)
              && ClientAddress(forwardedFor, remoteHost).Some?
              && PostedWithin(store, ClientAddress(forwardedFor, remoteHost).value, now, cfg.entryWait)
    ensures s.reply == Done <==> Admits(cfg, store, sub, forwardedFor, remoteHost, newId, now)
    ensures s.reply.Failed? ==> s.reply.failure in {WrongCode, Invalid, PostLimit, ServerError}
    ensures s.reply.Failed? ==> s.store == store && s.mails == []
    ensures s.reply == Done ==>
              && s.store.Keys == store.Keys + {newId}
              && (forall id | id in store :: s.store[id] == store[id])
              && s.store[newId].id == newId
              && s.store[newId].name == sub.name
              && s.store[newId].email == sub.email
              && s.store[newId].message == sub.message
              && (forwardedFor != [] ==> s.store[newId].ip == forwardedFor)
              && (forwardedFor == [] ==> Some(s.store[newId].ip) == remoteHost)
              && s.store[newId].approved == PENDING
              && s.store[newId].comment == []
              && s.store[newId].createdAt == now
    ensures s.reply == Done ==>
              && |s.mails| == 1
              && s.mails[0].to == cfg.adminEmail
              && s.mails[0].kind == EntryAdded
              && LinkedId(cfg, s.mails[0].link) == Some(newId)
    ensures Keyed(store) ==> Keyed(s.store)
  {
    if sub.code != cfg.antiSpamCode then Step(store, Failed(WrongCode), [])
    else if Validation.ValidateEntry(sub.name, sub.email, sub.message).Some? then Step(store, Failed(Invalid), [])
    else match ClientAddress(forwardedFor, remoteHost)
      case None => Step(store, Failed(ServerError), [])
      case Some(ip) =>
        if RateLimited(store, ip, now, cfg.entryWait) then Step(store, Failed(PostLimit), [])
        else if newId in store then Step(store, Failed(ServerError), [])
        else
          var entry := Entry(newId, sub.name, sub.email, sub.message, ip, PENDING, [], now);
          var link := ModerationLink(cfg, newId);
          assert link[|cfg.url + ENTRY_ID_PARAM|..] == newId;
          Step(store[newId := entry], Done, [Mail(cfg.adminEmail, EntryAdded, link)])
  }

  /** Fetches one entry for the moderation page. The serialised entry never
      includes the submitter's address. */
  function GetEntry(store: Store, id: Id): (r: Option<Entry>)
    ensures r.Some? <==> id in store
    ensures r.Some? ==> r.value.ip == []
    ensures r.Some? ==> r.value.(ip := store[id].ip) == store[id]
  {
    if id in store then Some(store[id].(ip := [])) else None
  }

  /** Approves an entry. The row is read first, so an unknown id fails as a
      server error; any prior state is overwritten with "approved"; the author
      hears about it only when the entry was pending and has an address. */
  function ApproveEntry(cfg: Config, store: Store, id: Id): (s: Step)
    ensures id !in store ==> s.reply == Failed(ServerError) && s.store == store && s.mails == []
    ensures id in store ==>
              && s.reply == Done
              && s.store.Keys == store.Keys
              && (forall k | k in store && k != id :: s.store[k] == store[k])
              && s.store[id] == store[id].(approved := APPROVED)
    ensures id in store ==> (s.mails != [] <==> store[id].approved == PENDING && store[id].email != [])
    ensures s.mails != [] ==> s.mails == [Mail(store[id].email, EntryApproved, cfg.url)]
    ensures Keyed(store) ==> Keyed(s.store)
  {
    if id !in store then Step(store, Failed(ServerError), [])
    else
      var prior := store[id];
      var mails := if prior.email != [] && prior.approved == PENDING
                   then [Mail(prior.email, EntryApproved, cfg.url)] else [];
      Step(store[id := prior.(approved := APPROVED)], Done, mails)
  }

  /** Rejects an entry: overwrites any prior state with "rejected" and never
      sends mail. An unknown id matches no row and is reported as not found. */
  function RejectEntry(store: Store, id: Id): (s: Step)
    ensures s.mails == []
    ensures id !in store ==> s.reply == Failed(NotFound) && s.store == store
    ensures id in store ==>
              && s.reply == Done
              && s.store.Keys == store.Keys
              && (forall k | k in store && k != id :: s.store[k] == store[k])
              && s.store[id] == store[id].(approved := REJECTED)
    ensures Keyed(store) ==> Keyed(s.store)
  {
    if id !in store then Step(store, Failed(NotFound), [])
    else Step(store[id := store[id].(approved := REJECTED)], Done, [])
  }

  /** Replaces the admin comment of an entry. The row is read before the
      request body is decoded, so an unknown id fails as a server error
      whatever the body; `body` is `None` when it does not decode. The author
      hears about it only when the entry had no comment and has an address. */
  function AddComment(cfg: Config, store: Store, id: Id, body: Option<Bytes>): (s: Step)
    ensures id !in store ==> s.reply == Failed(ServerError) && s.store == store && s.mails == []
    ensures id in store && body.None? ==> s.reply == Failed(BadRequest) && s.store == store && s.mails == []
    ensures id in store && body.Some? ==>
              && s.reply == Done
              && s.store.Keys == store.Keys
              && (forall k | k in store && k != id :: s.store[k] == store[k])
              && s.store[id] == store[id].(comment := body.value)
    ensures id in store && body.Some? ==>
              (s.mails != [] <==> store[id].comment == [] && store[id].email != [])
    ensures s.mails != [] ==> s.mails == [Mail(store[id].email, EntryCommented, cfg.url)]
    ensures Keyed(store) ==> Keyed(s.store)
  {
    if id !in store then Step(store, Failed(ServerError), [])
    else match body
      case None => Step(store, Failed(BadRequest), [])
      case Some(text) =>
        var prior := store[id];
        var mails := if prior.email != [] && prior.comment == []
                     then [Mail(prior.email, EntryCommented, cfg.url)] else [];
        Step(store[id := prior.(comment := text)], Done, mails)
  }
}
