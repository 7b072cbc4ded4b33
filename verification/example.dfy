/** The walk-through of a single entry: submitted from a fresh address,
    unlisted while pending, listed and announced to its author once approved. */
module Example {
  import opened Bytes
  import opened Wrappers
  import opened Store
  import opened Guestbook
  import Email
  import Validation

  /** A submission that passes validation: "alice@example.com" splits as
      local part "alice", host "example" and top-level domain "com". */
  lemma SampleEntryIsAcceptable()
    ensures Validation.Acceptable(FromAscii("Alice Smith"), FromAscii("alice@example.com"),
                                  FromAscii("Hello there, this is my message."))
  {
    var email := FromAscii("alice@example.com");
    assert email[..5] == FromAscii("alice");
    assert email[6..13] == FromAscii("example");
    assert email[14..] == FromAscii("com");
    assert Email.PatternSplit(email, 5, 13);
    Email.MatchesPatternIffWellFormed(email);
  }

  function Sample(cfg: Config): Submission {
    Submission(FromAscii("Alice Smith"), FromAscii("alice@example.com"),
               FromAscii("Hello there, this is my message."), cfg.antiSpamCode, [], 0, [], 0)
  }

  lemma SampleLifecycle(cfg: Config, remoteHost: Bytes, id: Id, now: int)
    ensures var s1 := CreateEntry(cfg, map[], Sample(cfg), [], Some(remoteHost), id, now);
            && s1.reply == Done
            && s1.store[id].ip == remoteHost
            && id !in ApprovedIds(s1.store)
            && var s2 := ApproveEntry(cfg, s1.store, id);
               && id in ApprovedIds(s2.store)
               && s2.mails == [Mail(Sample(cfg).email, EntryApproved, cfg.url)]
  {
    var empty: Store := map[];
    var sub := Sample(cfg);
    SampleEntryIsAcceptable();
    assert !PostedWithin(empty, remoteHost, now, cfg.entryWait);
    var s1 := CreateEntry(cfg, empty, sub, [], Some(remoteHost), id, now);
    assert s1.reply == Done;
    assert s1.store[id].approved == PENDING;
    var s2 := ApproveEntry(cfg, s1.store, id);
    assert s2.store[id].approved == APPROVED;
  }
}
