/** LedgerStorage: the Transactions and Summary sheets of the ledger
    workbook, held as sequences and updated in place. Every mutation ends
    with a rebuild of the Summary sheet from the Transactions sheet. */
module Storage {
  import opened LedgerSpec
  import opened LedgerLaws

  /** One user's running sums while the summary is rebuilt. */
  datatype Sums = Sums(deposit: int, withdraw: int)

  /** One record added to its user's running sums: the record's kind gains
      its amount and the other kind is unchanged. */
  function Credit(sums: Sums, tx: Tx): (r: Sums)
    ensures r.deposit == sums.deposit + Contribution(tx, tx.userId, Deposit)
    ensures r.withdraw == sums.withdraw + Contribution(tx, tx.userId, Withdraw)
  {
    if tx.kind == Deposit then sums.(deposit := sums.deposit + tx.amount)
    else sums.(withdraw := sums.withdraw + tx.amount)
  }

  /** Sums that are right for a prefix of the log, with the next record
      credited, are right for the longer prefix. */
  lemma SumsStep(prefix: seq<Tx>, tx: Tx, before: map<int, Sums>, after: map<int, Sums>)
    requires 0 !in before
    requires forall u :: u in before ==>
      before[u] == Sums(Total(prefix, u, Deposit), Total(prefix, u, Withdraw))
    requires tx.userId == 0 ==> after == before
    requires tx.userId != 0 ==>
      after == before[tx.userId := Credit(
        Sums(Total(prefix, tx.userId, Deposit), Total(prefix, tx.userId, Withdraw)), tx)]
    ensures forall u :: u in after ==>
      after[u] == Sums(Total(prefix + [tx], u, Deposit), Total(prefix + [tx], u, Withdraw))
  {
    forall u | u in after
      ensures after[u] == Sums(Total(prefix + [tx], u, Deposit), Total(prefix + [tx], u, Withdraw))
    {
      TotalAppend(prefix, tx, u, Deposit);
      TotalAppend(prefix, tx, u, Withdraw);
    }
  }

  class LedgerStorage {
    /** The Transactions sheet below its header row, oldest record first. */
    var log: seq<Tx>
    /** The Summary sheet below its header row. */
    var summary: seq<SummaryRow>

    /** The Summary sheet is the rebuild of the Transactions sheet at the
        time it was written. */
    ghost predicate Valid()
      reads this
    {
      summary == Rebuild(log, WrittenAt(summary))
    }

    /** A new workbook: both sheets hold only their header rows. */
    constructor ()
      ensures log == [] && summary == []
      ensures Valid()
    {
      log := [];
      summary := [];
    }

    /** A workbook that already exists is used as it is found. */
    constructor Open(transactions: seq<Tx>, rows: seq<SummaryRow>)
      ensures log == transactions && summary == rows
    {
      log := transactions;
      summary := rows;
    }

    /** add_transaction: one record at the end of the log, stamped with
        timestamp; then the summary is rebuilt at time now. */
    method AddTransaction(userId: int, kind: Kind, amount: int, timestamp: Timestamp, now: Timestamp)
      modifies this
      ensures log == old(log) + [Tx(userId, kind, amount, timestamp)]
      ensures summary == Rebuild(log, now)
      ensures Valid()
    {
      log := log + [Tx(userId, kind, amount, timestamp)];
      RebuildSummary(now);
    }

    /** reset_user: the kept records are collected in order, the sheet is
        refilled with them and the summary is rebuilt at time now. Records
        with the falsy id 0 are not passed over here. */
    method ResetUser(userId: int, now: Timestamp)
      modifies this
      ensures log == Without(old(log), userId)
      ensures summary == Rebuild(log, now)
      ensures Valid()
    {
      var kept: seq<Tx> := [];
      var i := 0;
      while i < |log|
        invariant 0 <= i <= |log|
        invariant log == old(log)
        invariant kept == Without(log[..i], userId)
      {
        assert log[..i + 1][..i] == log[..i];
        WithoutStep(log[..i + 1], userId);
        if log[i].userId != userId {
          kept := kept + [log[i]];
        }
        i := i + 1;
      }
      assert log[..|log|] == log;
      log := kept;
      RebuildSummary(now);
    }

    /** _rebuild_summary: the summary rows are dropped, the amounts are
        summed per user, and one row per user is written in ascending user
        id, all stamped with now. */
    method RebuildSummary(now: Timestamp)
      modifies this
      ensures log == old(log)
      ensures summary == Rebuild(log, now)
      ensures Valid()
    {
      summary := [];
      var totals, seen := SumByUser();
      var ids := SortedList(seen);
      IncreasingUnique(ids, SortedIds(log));
      var j := 0;
      while j < |ids|
        invariant 0 <= j <= |ids|
        invariant log == old(log)
        invariant |summary| == j
        invariant forall k :: 0 <= k < j ==> summary[k] == RowFor(log, ids[k], now)
      {
        var u := ids[j];
        var sums := totals[u];
        var deposits, withdrawals := sums.deposit, sums.withdraw;
        summary := summary + [SummaryRow(u, deposits, withdrawals, deposits - withdrawals,
                                         Roi(deposits, withdrawals), now)];
        j := j + 1;
      }
      assert summary == RowsFor(ids, log, now);
      RebuildStamp(log, now);
    }

    /** The user_stats dictionary of _rebuild_summary: deposits and
        withdrawals summed per user id, records with the falsy id 0 passed
        over; seen lists its keys in the order they were first met. */
    method SumByUser() returns (totals: map<int, Sums>, seen: seq<int>)
      ensures forall u :: u in totals <==> u in Ids(log)
      ensures forall u :: u in seen <==> u in totals
      ensures forall u :: u in totals ==>
        totals[u] == Sums(Total(log, u, Deposit), Total(log, u, Withdraw))
    {
      totals, seen := map[], [];
      var i := 0;
      while i < |log|
        invariant 0 <= i <= |log|
        invariant forall u :: u in totals <==> u in Ids(log[..i])
        invariant forall u :: u in seen <==> u in totals
        invariant forall u :: u in totals ==>
          totals[u] == Sums(Total(log[..i], u, Deposit), Total(log[..i], u, Withdraw))
      {
        var tx := log[i];
        ghost var prefix := log[..i];
        assert log[..i + 1] == prefix + [tx];
        IdsAppend(prefix, tx);
        ghost var before := totals;
        if tx.userId != 0 {
          if tx.userId !in totals {
            TotalAbsent(prefix, tx.userId, Deposit);
            TotalAbsent(prefix, tx.userId, Withdraw);
            totals := totals[tx.userId := Sums(0, 0)];
            seen := seen + [tx.userId];
          }
          totals := totals[tx.userId := Credit(totals[tx.userId], tx)];
        }
        SumsStep(prefix, tx, before, totals);
        i := i + 1;
      }
      assert log[..|log|] == log;
    }

    /** get_user_stats: the figures of the first summary row for userId,
        zeros when there is none. On a rebuilt summary these are the user's
        sums from the log. */
    method GetUserStats(userId: int) returns (s: Stats)
      ensures s == Lookup(summary, userId)
      ensures userId == 0 ==> s == NoStats
      ensures Valid() && userId != 0 ==> s == StatsOf(log, userId)
      ensures Valid() && userId !in Ids(log) ==> s == NoStats
    {
      if Valid() && userId != 0 {
        LookupRebuild(log, WrittenAt(summary), userId);
      }
      var i := 0;
      while i < |summary|
        invariant 0 <= i <= |summary|
        invariant Lookup(summary[i..], userId) == Lookup(summary, userId)
      {
        var row := summary[i];
        if row.userId != 0 && row.userId == userId {
          return RowStats(row);
        }
        assert summary[i..][1..] == summary[i + 1..];
        i := i + 1;
      }
      return NoStats;
    }

    /** get_user_history: userId's entries are collected in log order, the
        last limit of them are taken as rows[-limit:] does, most recent
        first. */
    method GetUserHistory(userId: int, limit: int) returns (h: seq<HistoryEntry>)
      ensures h == History(log, userId, limit)
      ensures limit >= 1 ==> |h| == Min(limit, |Entries(log, userId)|)
      ensures limit == 0 ==> |h| == |Entries(log, userId)|
      ensures forall k :: 0 <= k < |h| ==>
        h[k] == Entries(log, userId)[|Entries(log, userId)| - 1 - k]
    {
      var rows: seq<HistoryEntry> := [];
      var i := 0;
      while i < |log|
        invariant 0 <= i <= |log|
        invariant rows == Entries(log[..i], userId)
      {
        assert log[..i + 1] == log[..i] + [log[i]];
        EntriesAppend(log[..i], log[i], userId);
        if log[i].userId != 0 && log[i].userId == userId {
          rows := rows + [Entry(log[i])];
        }
        i := i + 1;
      }
      assert log[..|log|] == log;
      h := Reverse(rows[SliceStart(|rows|, -limit)..]);
    }
  }
}
