/** The ledger's records and a reference definition of everything the ledger
    derives from its transaction log: the per-user totals, the Summary sheet,
    the stats lookup and the history view. Amounts are integer cents. */
module LedgerSpec {
  import opened Rounding

  /** A formatted wall-clock reading; the ledger only stores and returns it. */
  type Timestamp = string

  datatype Kind = Deposit | Withdraw

  /** One row of the Transactions sheet. */
  datatype Tx = Tx(userId: int, kind: Kind, amount: int, timestamp: Timestamp)

  /** One row of the Summary sheet; roi is in hundredths of a percent. */
  datatype SummaryRow = SummaryRow(
    userId: int, deposits: int, withdrawals: int, balance: int, roi: int, updatedAt: Timestamp)

  /** What get_user_stats returns: deposits, withdrawals, balance and roi. */
  datatype Stats = Stats(deposits: int, withdrawals: int, balance: int, roi: int)

  /** One entry of get_user_history: kind, amount and timestamp. */
  datatype HistoryEntry = HistoryEntry(kind: Kind, amount: int, timestamp: Timestamp)

  const NoStats := Stats(0, 0, 0, 0)

  function Min(a: int, b: int): int
  {
    if a <= b then a else b
  }

  function Max(a: int, b: int): int
  {
    if a >= b then a else b
  }

  // ---- Totals ----

  /** What one record adds to u's total of kind k. */
  function Contribution(tx: Tx, u: int, k: Kind): int
  {
    if tx.userId == u && tx.kind == k then tx.amount else 0
  }

  /** The sum of u's amounts of kind k, in log order: zero when u has no
      record of that kind, and never negative when no amount is. */
  function Total(log: seq<Tx>, u: int, k: Kind): (t: int)
    ensures (forall i :: 0 <= i < |log| ==> log[i].userId != u || log[i].kind != k) ==> t == 0
    ensures (forall i :: 0 <= i < |log| ==> log[i].amount >= 0) ==> t >= 0
  {
    if log == [] then 0
    else
      var init := log[..|log| - 1];
      assert forall i :: 0 <= i < |init| ==> init[i] == log[i];
      Total(init, u, k) + Contribution(log[|log| - 1], u, k)
  }

  /** The users the rebuild groups by: every user id of the log except 0,
      which the rebuild passes over as a falsy id. */
  function Ids(log: seq<Tx>): (ids: set<int>)
    ensures forall u :: u in ids <==> u != 0 && exists i :: 0 <= i < |log| && log[i].userId == u
  {
    if log == [] then {}
    else
      var init := log[..|log| - 1];
      assert forall i :: 0 <= i < |init| ==> init[i] == log[i];
      Ids(init) + (if log[|log| - 1].userId != 0 then {log[|log| - 1].userId} else {})
  }

  // ---- The Summary sheet ----

  predicate Increasing(s: seq<int>)
  {
    forall i, j :: 0 <= i < j < |s| ==> s[i] < s[j]
  }

  /** x put into its place in an increasing sequence, unless already there. */
  function Insert(s: seq<int>, x: int): (r: seq<int>)
    requires Increasing(s)
    ensures Increasing(r)
    ensures forall y :: y in r <==> y in s || y == x
  {
    if s == [] then [x]
    else if x < s[0] then [x] + s
    else if x == s[0] then s
    else
      var rest := Insert(s[1..], x);
      InsertBehind(s, x, rest);
      [s[0]] + rest
  }

  /** The head of s stays in front when x goes behind it. */
  lemma InsertBehind(s: seq<int>, x: int, rest: seq<int>)
    requires Increasing(s) && s != [] && s[0] < x
    requires Increasing(rest)
    requires forall y :: y in rest <==> y in s[1..] || y == x
    ensures Increasing([s[0]] + rest)
    ensures forall y :: y in [s[0]] + rest <==> y in s || y == x
  {
    assert s == [s[0]] + s[1..];
    forall i | 0 <= i < |rest|
      ensures s[0] < rest[i]
    {
      assert rest[i] in rest;
      if rest[i] != x {
        var j :| 0 <= j < |s[1..]| && s[1..][j] == rest[i];
        assert s[j + 1] == rest[i];
      }
    }
    var r := [s[0]] + rest;
    forall i, j | 0 <= i < j < |r|
      ensures r[i] < r[j]
    {
      assert r[j] == rest[j - 1];
      if i > 0 {
        assert r[i] == rest[i - 1];
      }
    }
  }

  /** The users of the log in ascending order, each once. */
  function SortedIds(log: seq<Tx>): (ids: seq<int>)
    ensures Increasing(ids)
    ensures forall u :: u in ids <==> u in Ids(log)
  {
    if log == [] then []
    else if log[|log| - 1].userId == 0 then SortedIds(log[..|log| - 1])
    else Insert(SortedIds(log[..|log| - 1]), log[|log| - 1].userId)
  }

  /** Python's sorted() of a list of ids, without repeats. */
  function SortedList(s: seq<int>): (r: seq<int>)
    ensures Increasing(r)
    ensures forall x :: x in r <==> x in s
  {
    if s == [] then []
    else
      assert s == s[..|s| - 1] + [s[|s| - 1]];
      Insert(SortedList(s[..|s| - 1]), s[|s| - 1])
  }

  /** The return on investment in hundredths of a percent: (withdrawals -
      deposits) / deposits * 100 rounded half to even to two places, and 0
      unless deposits are positive. */
  function Roi(deposits: int, withdrawals: int): (roi: int)
    ensures deposits <= 0 ==> roi == 0
    ensures deposits > 0 ==> 2 * Abs(10000 * (withdrawals - deposits) - roi * deposits) <= deposits
    ensures deposits > 0 && 2 * Abs(10000 * (withdrawals - deposits) - roi * deposits) == deposits
            ==> roi % 2 == 0
  {
    if deposits > 0 then RoundHalfEven(10000 * (withdrawals - deposits), deposits) else 0
  }

  /** u's figures as the summary derives them from the log: the two totals,
      their difference as the balance, and the ROI of the two; all zeros for
      a user without records. */
  function StatsOf(log: seq<Tx>, u: int): (s: Stats)
    ensures s.deposits == Total(log, u, Deposit) && s.withdrawals == Total(log, u, Withdraw)
    ensures s.balance == s.deposits - s.withdrawals
    ensures s.roi == Roi(s.deposits, s.withdrawals)
    ensures (forall i :: 0 <= i < |log| ==> log[i].userId != u) ==> s == NoStats
  {
    var d := Total(log, u, Deposit);
    var w := Total(log, u, Withdraw);
    Stats(d, w, d - w, Roi(d, w))
  }

  /** The Summary row of u: u's figures, stamped with the time of the rebuild. */
  function RowFor(log: seq<Tx>, u: int, now: Timestamp): (row: SummaryRow)
    ensures row.userId == u && row.updatedAt == now
    ensures RowStats(row) == StatsOf(log, u)
  {
    var d := Total(log, u, Deposit);
    var w := Total(log, u, Withdraw);
    SummaryRow(u, d, w, d - w, Roi(d, w), now)
  }

  function RowsFor(ids: seq<int>, log: seq<Tx>, now: Timestamp): (rows: seq<SummaryRow>)
    ensures |rows| == |ids|
    ensures forall i :: 0 <= i < |ids| ==> rows[i] == RowFor(log, ids[i], now)
  {
    if ids == [] then [] else [RowFor(log, ids[0], now)] + RowsFor(ids[1..], log, now)
  }

  /** The Summary sheet rebuilt from the log at time now: one row per user,
      in strictly ascending user id, holding that user's sums, the balance
      and the ROI. */
  function Rebuild(log: seq<Tx>, now: Timestamp): (rows: seq<SummaryRow>)
    ensures forall i, j :: 0 <= i < j < |rows| ==> rows[i].userId < rows[j].userId
    ensures forall u :: u in Ids(log) <==> exists i :: 0 <= i < |rows| && rows[i].userId == u
    ensures forall i :: 0 <= i < |rows| ==>
      && rows[i].deposits == Total(log, rows[i].userId, Deposit)
      && rows[i].withdrawals == Total(log, rows[i].userId, Withdraw)
      && rows[i].balance == rows[i].deposits - rows[i].withdrawals
      && rows[i].roi == Roi(rows[i].deposits, rows[i].withdrawals)
      && rows[i].updatedAt == now
  {
    var ids := SortedIds(log);
    var rows := RowsFor(ids, log, now);
    assert forall u :: u in ids <==> exists i :: 0 <= i < |ids| && ids[i] == u;
    rows
  }

  /** The time a Summary sheet was written, read off its first row. */
  function WrittenAt(rows: seq<SummaryRow>): Timestamp
  {
    if rows == [] then "" else rows[0].updatedAt
  }

  // ---- Stats lookup ----

  function RowStats(row: SummaryRow): Stats
  {
    Stats(row.deposits, row.withdrawals, row.balance, row.roi)
  }

  /** The figures of the first row for u, as get_user_stats scans the Summary
      sheet, and zeros when there is none; a falsy id 0 never matches. */
  function Lookup(rows: seq<SummaryRow>, u: int): (s: Stats)
    ensures (u == 0 || forall i :: 0 <= i < |rows| ==> rows[i].userId != u) ==> s == NoStats
    ensures forall i ::
      (0 <= i < |rows| && u != 0 && rows[i].userId == u && forall j :: 0 <= j < i ==> rows[j].userId != u)
      ==> s == RowStats(rows[i])
  {
    if rows == [] then NoStats
    else if rows[0].userId != 0 && rows[0].userId == u then RowStats(rows[0])
    else
      var rest := rows[1..];
      assert forall i :: 0 < i < |rows| ==> rows[i] == rest[i - 1];
      Lookup(rest, u)
  }

  // ---- Reset ----

  /** The log with every record of u removed, the others kept in order. */
  function Without(log: seq<Tx>, u: int): (kept: seq<Tx>)
    ensures |kept| <= |log|
    ensures forall tx :: tx in kept <==> tx in log && tx.userId != u
  {
    if log == [] then []
    else
      var init := log[..|log| - 1];
      assert log == init + [log[|log| - 1]];
      Without(init, u) + (if log[|log| - 1].userId != u then [log[|log| - 1]] else [])
  }

  // ---- History ----

  function Entry(tx: Tx): HistoryEntry
  {
    HistoryEntry(tx.kind, tx.amount, tx.timestamp)
  }

  /** The entries of u's records in log order; a falsy id 0 has none. */
  function Entries(log: seq<Tx>, u: int): (es: seq<HistoryEntry>)
    ensures |es| <= |log|
    ensures u == 0 ==> es == []
    ensures u != 0 ==> forall e :: e in es <==>
      exists i :: 0 <= i < |log| && log[i].userId == u && Entry(log[i]) == e
  {
    if log == [] then []
    else
      var init := log[..|log| - 1];
      assert forall i :: 0 <= i < |init| ==> init[i] == log[i];
      Entries(init, u)
      + (if u != 0 && log[|log| - 1].userId == u then [Entry(log[|log| - 1])] else [])
  }

  /** The index where a Python slice s[start:] of a length-n list begins:
      a negative start counts from the end, and both are clamped to 0..n. */
  function SliceStart(n: nat, start: int): (k: nat)
    ensures k <= n
    ensures start >= 0 ==> k == Min(start, n)
    ensures start < 0 ==> k == Max(0, n + start)
  {
    if start < 0 then (if n + start < 0 then 0 else n + start)
    else if start > n then n
    else start
  }

  function Reverse<T>(s: seq<T>): (r: seq<T>)
    ensures |r| == |s|
    ensures forall i :: 0 <= i < |s| ==> r[i] == s[|s| - 1 - i]
  {
    if s == [] then [] else [s[|s| - 1]] + Reverse(s[..|s| - 1])
  }

  /** get_user_history(u, limit): the last limit entries of u, most recent
      first. A limit of 0 takes every entry and a negative limit drops that
      many from the front, as rows[-limit:] does. */
  function History(log: seq<Tx>, u: int, limit: int): (h: seq<HistoryEntry>)
    ensures limit >= 1 ==> |h| == Min(limit, |Entries(log, u)|)
    ensures limit == 0 ==> |h| == |Entries(log, u)|
    ensures limit < 0 ==> |h| == Max(0, |Entries(log, u)| + limit)
    ensures forall i :: 0 <= i < |h| ==>
      h[i] == Entries(log, u)[|Entries(log, u)| - 1 - i]
  {
    var es := Entries(log, u);
    Reverse(es[SliceStart(|es|, -limit)..])
  }
}
