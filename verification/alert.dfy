/** One run of the job: load the seen ids, filter the fetched entries, and
    when something matched, mail the digest and only then record the ids. */
module Alert {
  import opened Wrappers
  import opened Papers
  import opened Relevance
  import opened Newsletter
  import opened SeenStore
  import Query

  const Subject: string := "\U{1F195} Custom arXiv Newsletter"

  /** What the mail transport reports for one message. */
  datatype Delivery = Delivered | DeliveryFailed

  /** How a run ends: nothing to send, sent with the number of papers, or the
      send failed (the script stops with the transport's exception). */
  datatype Report = NoNewPapers | Sent(count: nat) | SendFailed

  /** The end of a run: its report, the message handed to the transport if
      any, and the seen-id store afterwards. */
  datatype RunResult = RunResult(report: Report, message: Option<(string, string)>, store: Store)

  /** `main`, with the fetch result, the clock and the transport passed in. */
  function Run(store: Store, entries: seq<Entry>, p: Policy, now: Timestamp,
               send: (string, string) -> Delivery): (r: RunResult)
    ensures var sel := Filter(entries, Load(store), p, now);
            && (sel.entries == [] ==> r.report == NoNewPapers && r.message == None && r.store == store)
            && (sel.entries != [] ==> r.message == Some((Subject, Digest(sel.entries))))
            && (r.report.NoNewPapers? <==> sel.entries == [])
            && (r.report.Sent? <==> sel.entries != [] && send(Subject, Digest(sel.entries)) == Delivered)
            && (r.report.SendFailed? <==> sel.entries != [] && send(Subject, Digest(sel.entries)) == DeliveryFailed)
            && (r.report.Sent? ==> r.report.count == |sel.entries| && r.store == Save(store, sel.ids))
            && (!r.report.Sent? ==> r.store == store)
  {
    var seen := Load(store);
    var sel := Filter(entries, seen, p, now);
    if sel.entries == [] then
      RunResult(NoNewPapers, None, store)
    else
      var body := Digest(sel.entries);
      match send(Subject, body)
      case DeliveryFailed => RunResult(SendFailed, Some((Subject, body)), store)
      case Delivered => RunResult(Sent(|sel.entries|), Some((Subject, body)), Save(store, sel.ids))
  }

  /** Every id a run would write can be stored and read back unchanged. */
  ghost predicate StorableSelection(store: Store, entries: seq<Entry>, p: Policy, now: Timestamp) {
    forall id :: id in Filter(entries, Load(store), p, now).ids ==> Storable(id)
  }

  /** A run keeps the store in the shape the script writes it. */
  lemma RunKeepsStoreWellFormed(store: Store, entries: seq<Entry>, p: Policy, now: Timestamp,
                                send: (string, string) -> Delivery)
    requires WellFormed(store)
    ensures WellFormed(Run(store, entries, p, now, send).store)
  {
  }

  /** The seen set grows by exactly the ids of the mailed papers, and only
      after a successful send; every other outcome leaves it as it was. */
  lemma {:induction false} RunSeenIds(store: Store, entries: seq<Entry>, p: Policy, now: Timestamp,
                                     send: (string, string) -> Delivery)
    requires WellFormed(store) && StorableSelection(store, entries, p, now)
    ensures var r := Run(store, entries, p, now, send);
            var sel := Filter(entries, Load(store), p, now);
            Load(r.store) == Load(store) + (if r.report.Sent? then set id | id in sel.ids else {})
  {
    var r := Run(store, entries, p, now, send);
    var sel := Filter(entries, Load(store), p, now);
    if r.report.Sent? {
      LoadAfterSave(store, sel.ids);
    }
  }

  /** The ids a successful run adds were not seen before, so the seen set
      grows by the number of distinct ids mailed. */
  lemma {:induction false} RunGrowth(store: Store, entries: seq<Entry>, p: Policy, now: Timestamp,
                                    send: (string, string) -> Delivery)
    requires WellFormed(store) && StorableSelection(store, entries, p, now)
    requires Run(store, entries, p, now, send).report.Sent?
    ensures var sel := Filter(entries, Load(store), p, now);
            |Load(Run(store, entries, p, now, send).store)| == |Load(store)| + |set id | id in sel.ids|
  {
    var sel := Filter(entries, Load(store), p, now);
    var added := set id | id in sel.ids;
    RunSeenIds(store, entries, p, now, send);
    FilterMembers(entries, Load(store), p, now);
    forall id | id in added
      ensures id !in Load(store)
    {
      var i :| 0 <= i < |sel.ids| && sel.ids[i] == id;
      assert sel.entries[i] in sel.entries;
    }
    assert Load(store) !! added;
  }

  /** After a successful run, running again on the same fetch, now or at any
      later clock reading, sends nothing and leaves the store alone, whatever
      the transport would do. */
  lemma {:induction false} NoDuplicateMail(store: Store, entries: seq<Entry>, p: Policy, now: Timestamp,
                                          later: Timestamp, send: (string, string) -> Delivery,
                                          send': (string, string) -> Delivery)
    requires WellFormed(store) && StorableSelection(store, entries, p, now)
    requires Run(store, entries, p, now, send).report.Sent?
    requires now <= later
    ensures var r := Run(store, entries, p, now, send);
            Run(r.store, entries, p, later, send') == RunResult(NoNewPapers, None, r.store)
  {
    var r := Run(store, entries, p, now, send);
    RunSeenIds(store, entries, p, now, send);
    NoRenotification(entries, Load(store), p, now);
    FilterLaterClock(entries, Load(r.store), p, now, later);
  }

  /** A paper mailed by a successful run is never selected again, whatever is
      fetched later and whenever the clock is read. */
  lemma {:induction false} NeverMailedTwice(store: Store, entries: seq<Entry>, p: Policy, now: Timestamp,
                                           send: (string, string) -> Delivery,
                                           entries': seq<Entry>, now': Timestamp)
    requires WellFormed(store) && StorableSelection(store, entries, p, now)
    requires Run(store, entries, p, now, send).report.Sent?
    ensures var r := Run(store, entries, p, now, send);
            forall e :: e in Filter(entries', Load(r.store), p, now').entries
                        ==> e.id !in Filter(entries, Load(store), p, now).ids
  {
    var r := Run(store, entries, p, now, send);
    RunSeenIds(store, entries, p, now, send);
    FilterMembers(entries', Load(r.store), p, now');
  }

  /** After a failed send the store is unchanged, so a retry over the same
      fetch at a later clock reading offers the digest of the earlier
      selection minus the papers that aged out in between; at the same clock
      reading it is the very same message. */
  lemma {:induction false} RetryAfterFailure(store: Store, entries: seq<Entry>, p: Policy, now: Timestamp,
                                            later: Timestamp, send: (string, string) -> Delivery,
                                            send': (string, string) -> Delivery)
    requires Run(store, entries, p, now, send).report.SendFailed?
    requires now <= later
    ensures var r := Run(store, entries, p, now, send);
            var kept := Filter(Filter(entries, Load(store), p, now).entries, Load(store), p, later);
            && r.store == store
            && Run(r.store, entries, p, later, send').message
               == (if kept.entries == [] then None else Some((Subject, Digest(kept.entries))))
            && (later == now ==> Run(r.store, entries, p, later, send').message == r.message)
  {
    FilterLaterClock(entries, Load(store), p, now, later);
    FilterIdempotent(entries, Load(store), p, now);
  }

  /** The query the script sends names exactly its three categories, in
      order. */
  lemma ShippedQueryReadsBack()
    ensures Query.ParseQuery(Query.BuildQuery(DefaultPolicy.categories)) == Some(DefaultPolicy.categories)
  {
    Query.ParseBuildQuery(DefaultPolicy.categories);
  }
}
