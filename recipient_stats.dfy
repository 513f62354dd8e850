/**
 * The delivery counters of inc_stat, without SQLite: a table from receiver
 * email to (sent_count, fail_count, last_sent_at).
 */
module RecipientStats {
  import opened Wrappers

  /** The text of datetime.now(timezone.utc).isoformat(); the caller supplies it. */
  type Timestamp = string

  /** One row of the recipients_stats table. */
  datatype Row = Row(sentCount: nat, failCount: nat, lastSentAt: Option<Timestamp>)

  /** One delivery attempt as the request handler reports it. */
  datatype Outcome = Outcome(email: string, success: bool, at: Timestamp)

  /** The row the INSERT ... ON CONFLICT DO NOTHING creates for an unknown email. */
  const FreshRow: Row := Row(0, 0, None)

  /** The row after the UPDATE for one attempt: exactly one counter moves. */
  function Bump(row: Row, success: bool, now: Timestamp): (r: Row)
    ensures r.sentCount + r.failCount == row.sentCount + row.failCount + 1
    ensures success ==> r.sentCount == row.sentCount + 1 && r.failCount == row.failCount && r.lastSentAt == Some(now)
    ensures !success ==> r.sentCount == row.sentCount && r.failCount == row.failCount + 1 && r.lastSentAt == row.lastSentAt
  {
    if success then row.(sentCount := row.sentCount + 1, lastSentAt := Some(now))
    else row.(failCount := row.failCount + 1)
  }

  /** The table after one attempt; the specification of StatsTable.IncStat. */
  function Record(rows: map<string, Row>, o: Outcome): (m: map<string, Row>)
    ensures m.Keys == rows.Keys + {o.email}
    ensures forall e :: e in rows && e != o.email ==> m[e] == rows[e]
    ensures o.email !in rows ==> m[o.email] == Bump(FreshRow, o.success, o.at)
    ensures o.email in rows ==> m[o.email] == Bump(rows[o.email], o.success, o.at)
  {
    var row := if o.email in rows then rows[o.email] else FreshRow;
    rows[o.email := Bump(row, o.success, o.at)]
  }

  /** The table built from an empty one by a sequence of attempts, oldest first. */
  function Replay(os: seq<Outcome>): map<string, Row>
  {
    if os == [] then map[] else Record(Replay(os[..|os| - 1]), os[|os| - 1])
  }

  /** The number of attempts for email e that had the given outcome. */
  function Count(os: seq<Outcome>, e: string, success: bool): nat
  {
    if os == [] then 0
    else (if os[0].email == e && os[0].success == success then 1 else 0) + Count(os[1..], e, success)
  }

  lemma {:induction false} CountSnoc(os: seq<Outcome>, o: Outcome, e: string, success: bool)
    ensures Count(os + [o], e, success) == Count(os, e, success) + (if o.email == e && o.success == success then 1 else 0)
  {
    if os == [] {
      assert os + [o] == [o];
    } else {
      assert (os + [o])[0] == os[0];
      assert (os + [o])[1..] == os[1..] + [o];
      CountSnoc(os[1..], o, e, success);
    }
  }

  lemma {:induction false} CountWithoutAttempts(os: seq<Outcome>, e: string, success: bool)
    requires forall i :: 0 <= i < |os| ==> os[i].email != e
    ensures Count(os, e, success) == 0
  {
    if os != [] {
      assert forall i :: 0 <= i < |os[1..]| ==> os[1..][i] == os[i + 1];
      CountWithoutAttempts(os[1..], e, success);
    }
  }

  /** The latest entry of os that is a successful attempt for e, if any. */
  ghost predicate LatestSuccess(os: seq<Outcome>, e: string, i: int)
  {
    && 0 <= i < |os| && os[i].email == e && os[i].success
    && forall j :: i < j < |os| && os[j].email == e ==> !os[j].success
  }

  /**
   * Replaying attempts in order: a row exists exactly for the emails that had an
   * attempt; its counters are the numbers of successful and failed attempts; and
   * last_sent_at is the time of the latest successful attempt, or absent if there was none.
   */
  lemma {:induction false} ReplayCounts(os: seq<Outcome>, e: string)
    ensures e in Replay(os) <==> exists i :: 0 <= i < |os| && os[i].email == e
    ensures e in Replay(os) ==>
      && Replay(os)[e].sentCount == Count(os, e, true)
      && Replay(os)[e].failCount == Count(os, e, false)
    ensures e in Replay(os) ==>
      (Replay(os)[e].lastSentAt.None? <==> forall i :: 0 <= i < |os| && os[i].email == e ==> !os[i].success)
    ensures e in Replay(os) && Replay(os)[e].lastSentAt.Some? ==>
      exists i :: LatestSuccess(os, e, i) && os[i].at == Replay(os)[e].lastSentAt.value
  {
    ReplayCounters(os, e);
    ReplayLastSent(os, e);
  }

  lemma {:induction false} ReplayCounters(os: seq<Outcome>, e: string)
    ensures e in Replay(os) <==> exists i :: 0 <= i < |os| && os[i].email == e
    ensures e in Replay(os) ==>
      && Replay(os)[e].sentCount == Count(os, e, true)
      && Replay(os)[e].failCount == Count(os, e, false)
  {
    if os != [] {
      var n := |os| - 1;
      var prefix, o := os[..n], os[n];
      assert os == prefix + [o];
      assert Replay(os) == Record(Replay(prefix), o);
      assert forall i :: 0 <= i < n ==> os[i] == prefix[i];
      ReplayCounters(prefix, e);
      CountSnoc(prefix, o, e, true);
      CountSnoc(prefix, o, e, false);
      if o.email == e && e !in Replay(prefix) {
        CountWithoutAttempts(prefix, e, true);
        CountWithoutAttempts(prefix, e, false);
      }
    }
  }

  lemma {:induction false} ReplayLastSent(os: seq<Outcome>, e: string)
    ensures e in Replay(os) ==>
      (Replay(os)[e].lastSentAt.None? <==> forall i :: 0 <= i < |os| && os[i].email == e ==> !os[i].success)
    ensures e in Replay(os) && Replay(os)[e].lastSentAt.Some? ==>
      exists i :: LatestSuccess(os, e, i) && os[i].at == Replay(os)[e].lastSentAt.value
  {
    if os != [] {
      var n := |os| - 1;
      var prefix, o := os[..n], os[n];
      assert Replay(os) == Record(Replay(prefix), o);
      assert forall i :: 0 <= i < n ==> os[i] == prefix[i];
      ReplayLastSent(prefix, e);
      if o.email == e && o.success {
        assert LatestSuccess(os, e, n);
      } else if e in Replay(prefix) && Replay(prefix)[e].lastSentAt.Some? {
        var i :| LatestSuccess(prefix, e, i) && prefix[i].at == Replay(prefix)[e].lastSentAt.value;
        assert LatestSuccess(os, e, i);
      } else if o.email == e {
        ReplayCounters(prefix, e);
      }
    }
  }

  /** The recipients_stats table, updated in place by inc_stat. */
  class StatsTable {
    var rows: map<string, Row>

    /** The table init_db creates: empty. */
    constructor ()
      ensures rows == map[]
    {
      rows := map[];
    }

    /** inc_stat(email, success), with now the time of the call. */
    method IncStat(email: string, success: bool, now: Timestamp)
      modifies this
      ensures rows == Record(old(rows), Outcome(email, success, now))
      ensures email in rows && rows.Keys == old(rows).Keys + {email}
      ensures forall e :: e in old(rows) && e != email ==> rows[e] == old(rows)[e]
      ensures old(email !in rows) ==> rows[email] == Bump(FreshRow, success, now)
      ensures old(email in rows) ==> rows[email] == Bump(old(rows)[email], success, now)
    {
      // A new email first gets a row at 0/0 with no timestamp.
      if email !in rows {
        rows := rows[email := FreshRow];
      }
      var row := rows[email];
      if success {
        rows := rows[email := row.(sentCount := row.sentCount + 1, lastSentAt := Some(now))];
      } else {
        rows := rows[email := row.(failCount := row.failCount + 1)];
      }
    }
  }
}
