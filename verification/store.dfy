/** The `entries` table as an abstract store: a map from entry id to entry,
    together with the two queries the handlers run against it beyond plain
    lookups: the newest submission time of an address and the public listing. */
module Store {
  import opened Bytes
  import opened Wrappers
  import Sets

  /** Entry ids are opaque byte strings handed out by the id generator. */
  type Id = Bytes

  /** The `approved` column: -1 rejected, 0 pending, 1 approved. */
  type Approval = x: int | -1 <= x <= 1

  const REJECTED: Approval := -1
  const PENDING: Approval := 0
  const APPROVED: Approval := 1

  /** One row of the `entries` table. `createdAt` is a point on an integer clock. */
  datatype Entry = Entry(
    id: Id,
    name: Bytes,
    email: Bytes,
    message: Bytes,
    ip: Bytes,
    approved: Approval,
    comment: Bytes,
    createdAt: int)

  type Store = map<Id, Entry>

  /** Every row is stored under its own id (the primary key). */
  ghost predicate Keyed(store: Store) {
    forall id | id in store :: store[id].id == id
  }

  /** The creation times of the rows submitted from `ip`. */
  function TimesFrom(store: Store, ip: Bytes): (times: set<int>)
    ensures forall id | id in store && store[id].ip == ip :: store[id].createdAt in times
    ensures forall t | t in times :: exists id | id in store :: store[id].ip == ip && store[id].createdAt == t
  {
    set id | id in store && store[id].ip == ip :: store[id].createdAt
  }

  /** The newest `createdAt` among the rows submitted from `ip`, or `None`
      when there is none (the query for the rate limit). */
  function LatestSubmission(store: Store, ip: Bytes): (r: Option<int>)
    ensures r.None? <==> forall id | id in store :: store[id].ip != ip
    ensures r.Some? ==> exists id | id in store :: store[id].ip == ip && store[id].createdAt == r.value
    ensures r.Some? ==> forall id | id in store && store[id].ip == ip :: store[id].createdAt <= r.value
  {
    var times := TimesFrom(store, ip);
    if times == {} then None
    else
      Sets.MaxExists(times);
      var m :| m in times && forall t | t in times :: t <= m;
      Some(m)
  }

  /** Some row from `ip` is younger than `wait` at time `now`. */
  ghost predicate PostedWithin(store: Store, ip: Bytes, now: int, wait: int) {
    exists id | id in store :: store[id].ip == ip && now - store[id].createdAt < wait
  }

  /** The post-limit rule: reject when the newest row from `ip` is younger than
      `wait`; allow when `ip` has never posted. Judging only the newest row is
      the same as asking whether any row from `ip` is that young. */
  function RateLimited(store: Store, ip: Bytes, now: int, wait: int): (limited: bool)
    ensures limited <==> PostedWithin(store, ip, now, wait)
  {
    match LatestSubmission(store, ip)
    case None => false
    case Some(t) => now - t < wait
  }

  /** Ids of the rows the public listing shows. */
  ghost function ApprovedIds(store: Store): set<Id> {
    set id | id in store && store[id].approved == APPROVED
  }

  /** The columns the listing selects (name, message, approved, comment,
      created_at); the others keep their zero value, so id, email and ip are
      empty. */
  function Listed(e: Entry): Entry {
    Entry([], e.name, [], e.message, [], e.approved, e.comment, e.createdAt)
  }

  predicate NewestFirst(rows: seq<Entry>) {
    forall i, j | 0 <= i < j < |rows| :: rows[i].createdAt >= rows[j].createdAt
  }

  /** The first position of `rows` holding a row older than `t`. */
  function InsertionPoint(rows: seq<Entry>, t: int): (p: nat)
    ensures p <= |rows|
    ensures forall i | 0 <= i < p :: rows[i].createdAt >= t
    ensures p < |rows| ==> rows[p].createdAt < t
  {
    if rows == [] || rows[0].createdAt < t then 0 else 1 + InsertionPoint(rows[1..], t)
  }

  lemma InsertKeepsNewestFirst(rows: seq<Entry>, row: Entry)
    requires NewestFirst(rows)
    ensures NewestFirst(InsertAt(rows, InsertionPoint(rows, row.createdAt), row))
  {
  }

  /** `rows` lists the rows whose ids are in `done`, each once, projected and
      newest first; `order` names the row behind each listed entry. */
  ghost predicate ListsExactly(store: Store, done: set<Id>, rows: seq<Entry>, order: seq<Id>) {
    && |order| == |rows|
    && (forall i, j | 0 <= i < j < |order| :: order[i] != order[j])
    && (forall id :: id in order <==> id in done)
    && (forall i | 0 <= i < |rows| :: order[i] in store && rows[i] == Listed(store[order[i]]))
    && NewestFirst(rows)
  }

  /** `s` with `x` inserted at position `p`. */
  function InsertAt<T>(s: seq<T>, p: nat, x: T): (r: seq<T>)
    requires p <= |s|
    ensures |r| == |s| + 1
    ensures forall k | 0 <= k < |r| :: r[k] == if k < p then s[k] else if k == p then x else s[k - 1]
  {
    s[..p] + [x] + s[p..]
  }

  lemma InsertAtMembers<T>(s: seq<T>, p: nat, x: T)
    requires p <= |s|
    ensures forall y :: y in InsertAt(s, p, x) <==> y in s || y == x
  {
  }

  lemma InsertAtDistinct<T>(s: seq<T>, p: nat, x: T)
    requires p <= |s| && x !in s
    requires forall i, j | 0 <= i < j < |s| :: s[i] != s[j]
    ensures var r := InsertAt(s, p, x); forall i, j | 0 <= i < j < |r| :: r[i] != r[j]
  {
  }

  /** Inserting one more row at its insertion point keeps the listing exact. */
  lemma InsertKeepsListing(store: Store, done: set<Id>, rows: seq<Entry>, order: seq<Id>, id: Id)
    requires ListsExactly(store, done, rows, order)
    requires id in store && id !in done
    ensures var p := InsertionPoint(rows, store[id].createdAt);
            ListsExactly(store, done + {id}, InsertAt(rows, p, Listed(store[id])), InsertAt(order, p, id))
  {
    var row := Listed(store[id]);
    var p := InsertionPoint(rows, row.createdAt);
    InsertKeepsNewestFirst(rows, row);
    InsertAtMembers(order, p, id);
    InsertAtDistinct(order, p, id);
  }

  /** The public listing: the approved rows, projected to the selected columns,
      newest first. Rows created at the same instant come in no particular
      order. The ghost `order` names the row behind each listed entry. */
  method SelectApproved(store: Store) returns (rows: seq<Entry>, ghost order: seq<Id>)
    ensures |order| == |rows|
    ensures forall i, j | 0 <= i < j < |order| :: order[i] != order[j]
    ensures forall id :: id in order <==> id in ApprovedIds(store)
    ensures forall i | 0 <= i < |rows| :: order[i] in store && rows[i] == Listed(store[order[i]])
    ensures forall i | 0 <= i < |rows| ::
              rows[i].approved == APPROVED && rows[i].id == [] && rows[i].email == [] && rows[i].ip == []
    ensures NewestFirst(rows)
  {
    var pending := set id | id in store && store[id].approved == APPROVED;
    rows := [];
    order := [];
    while pending != {}
      invariant pending <= ApprovedIds(store)
      invariant ListsExactly(store, ApprovedIds(store) - pending, rows, order)
      decreases pending
    {
      Sets.MemberOfNonEmpty(pending);
      var id :| id in pending;
      var p := InsertionPoint(rows, store[id].createdAt);
      InsertKeepsListing(store, ApprovedIds(store) - pending, rows, order, id);
      rows := InsertAt(rows, p, Listed(store[id]));
      order := InsertAt(order, p, id);
      assert ApprovedIds(store) - (pending - {id}) == (ApprovedIds(store) - pending) + {id};
      pending := pending - {id};
    }
    assert forall i | 0 <= i < |order| :: order[i] in order;
  }
}
