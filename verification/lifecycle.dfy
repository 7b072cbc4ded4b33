/** Properties of sequences of requests: the entry lifecycle from submission
    through moderation, the post limit across two submissions, and how often
    an author is notified. */
module Lifecycle {
  import opened Bytes
  import opened Wrappers
  import opened Store
  import opened Guestbook
  import Validation

  /** After an accepted submission, a second one from the same address inside
      the wait period is refused with "postlimit", however valid it is. */
  lemma SecondSubmissionWithinWaitIsLimited(
    cfg: Config, store: Store, first: Submission, second: Submission,
    forwardedFor: Bytes, remoteHost: Option<Bytes>, id1: Id, id2: Id, t1: int, t2: int)
    requires Admits(cfg, store, first, forwardedFor, remoteHost, id1, t1)
    requires second.code == cfg.antiSpamCode
    requires Validation.Acceptable(second.name, second.email, second.message)
    requires t2 - t1 < cfg.entryWait
    ensures CreateEntry(cfg, CreateEntry(cfg, store, first, forwardedFor, remoteHost, id1, t1).store,
                        second, forwardedFor, remoteHost, id2, t2).reply == Failed(PostLimit)
  {
    var s1 := CreateEntry(cfg, store, first, forwardedFor, remoteHost, id1, t1);
    var ip := ClientAddress(forwardedFor, remoteHost).value;
    assert s1.store[id1].ip == ip && t2 - s1.store[id1].createdAt < cfg.entryWait;
    assert PostedWithin(s1.store, ip, t2, cfg.entryWait);
  }

  /** After an accepted submission, a valid second one from the same address
      is stored once the wait period has passed for every row from it. */
  lemma SubmissionAfterWaitIsAccepted(
    cfg: Config, store: Store, first: Submission, second: Submission,
    forwardedFor: Bytes, remoteHost: Option<Bytes>, id1: Id, id2: Id, t1: int, t2: int)
    requires Admits(cfg, store, first, forwardedFor, remoteHost, id1, t1)
    requires Admits(cfg, store, second, forwardedFor, remoteHost, id2, t2)
    requires t2 - t1 >= cfg.entryWait
    requires id2 != id1
    ensures CreateEntry(cfg, CreateEntry(cfg, store, first, forwardedFor, remoteHost, id1, t1).store,
                        second, forwardedFor, remoteHost, id2, t2).reply == Done
  {
    var s1 := CreateEntry(cfg, store, first, forwardedFor, remoteHost, id1, t1);
    var ip := ClientAddress(forwardedFor, remoteHost).value;
    forall id | id in s1.store && s1.store[id].ip == ip
      ensures t2 - s1.store[id].createdAt >= cfg.entryWait
    {
      if id != id1 {
        assert id in store && s1.store[id] == store[id];
      }
    }
  }

  /** The link mailed to the admin leads to the new entry, which is pending,
      has no comment and does not show the submitter's address. */
  lemma ModerationLinkFindsNewEntry(
    cfg: Config, store: Store, sub: Submission,
    forwardedFor: Bytes, remoteHost: Option<Bytes>, newId: Id, now: int)
    requires Admits(cfg, store, sub, forwardedFor, remoteHost, newId, now)
    ensures var s := CreateEntry(cfg, store, sub, forwardedFor, remoteHost, newId, now);
            && LinkedId(cfg, s.mails[0].link) == Some(newId)
            && GetEntry(s.store, newId)
               == Some(Entry(newId, sub.name, sub.email, sub.message, [], PENDING, [], now))
  {
  }

  /** A new entry is not listed until it is approved; the listing of every
      other entry is as before. */
  lemma SubmissionIsNotListed(
    cfg: Config, store: Store, sub: Submission,
    forwardedFor: Bytes, remoteHost: Option<Bytes>, newId: Id, now: int)
    requires Admits(cfg, store, sub, forwardedFor, remoteHost, newId, now)
    ensures ApprovedIds(CreateEntry(cfg, store, sub, forwardedFor, remoteHost, newId, now).store)
            == ApprovedIds(store)
  {
  }

  /** Approving lists the entry and rejecting unlists it, whatever its prior
      state; no other entry's listing changes. */
  lemma ModerationDecidesListing(cfg: Config, store: Store, id: Id)
    requires id in store
    ensures ApprovedIds(ApproveEntry(cfg, store, id).store) == ApprovedIds(store) + {id}
    ensures ApprovedIds(RejectEntry(store, id).store) == ApprovedIds(store) - {id}
  {
  }

  /** Approving twice notifies the author at most once, and the second
      approval sends nothing. */
  lemma ApprovalNotifiesOnce(cfg: Config, store: Store, id: Id)
    ensures var s1 := ApproveEntry(cfg, store, id);
            var s2 := ApproveEntry(cfg, s1.store, id);
            && s2.mails == []
            && s2.store == s1.store
            && |s1.mails| + |s2.mails| <= 1
  {
  }

  /** Approval after rejection (and the other way round) overwrites the state
      and sends no mail: only a pending entry triggers the approval notice. */
  lemma DecisionsOverwriteSilently(cfg: Config, store: Store, id: Id)
    requires id in store
    ensures var s1 := RejectEntry(store, id);
            var s2 := ApproveEntry(cfg, s1.store, id);
            s2.store[id].approved == APPROVED && s2.mails == []
    ensures var s1 := ApproveEntry(cfg, store, id);
            var s2 := RejectEntry(s1.store, id);
            s2.store[id].approved == REJECTED && s2.mails == []
  {
  }

  /** A second comment sends no mail once the first comment left a non-empty
      text, whatever the second text is. */
  lemma CommentNotifiesOnce(cfg: Config, store: Store, id: Id, first: Bytes, second: Bytes)
    requires first != []
    ensures var s1 := AddComment(cfg, store, id, Some(first));
            var s2 := AddComment(cfg, s1.store, id, Some(second));
            s2.mails == [] && |s1.mails| <= 1
  {
  }

  /** An empty comment leaves the entry in its "no comment yet" state, so the
      next comment notifies the author again. */
  lemma EmptyCommentNotifiesAgain(cfg: Config, store: Store, id: Id, second: Bytes)
    requires id in store && store[id].comment == [] && store[id].email != []
    ensures var s1 := AddComment(cfg, store, id, Some([]));
            var s2 := AddComment(cfg, s1.store, id, Some(second));
            |s1.mails| == 1 && |s2.mails| == 1
  {
  }
}
