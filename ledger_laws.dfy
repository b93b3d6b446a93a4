/** What the reference definitions promise about the ledger's operations:
    the effect of an append, the effect of a reset, and the stats lookup on a
    rebuilt summary. */
module LedgerLaws {
  import opened Rounding
  import opened LedgerSpec

  // ---- Append ----

  lemma TotalAppend(log: seq<Tx>, tx: Tx, u: int, k: Kind)
    ensures Total(log + [tx], u, k) == Total(log, u, k) + Contribution(tx, u, k)
  {
    assert (log + [tx])[..|log|] == log;
  }

  lemma IdsAppend(log: seq<Tx>, tx: Tx)
    ensures Ids(log + [tx]) == Ids(log) + (if tx.userId != 0 then {tx.userId} else {})
  {
    assert (log + [tx])[..|log|] == log;
  }

  lemma EntriesAppend(log: seq<Tx>, tx: Tx, u: int)
    ensures Entries(log + [tx], u)
      == Entries(log, u) + (if u != 0 && tx.userId == u then [Entry(tx)] else [])
  {
    assert (log + [tx])[..|log|] == log;
  }

  /** A deposit raises the depositor's deposits and balance by its amount, a
      withdrawal raises the withdrawals and lowers the balance by it, and
      nobody else's figures move. */
  lemma StatsAfterAppend(log: seq<Tx>, tx: Tx, u: int)
    ensures tx.userId != u ==> StatsOf(log + [tx], u) == StatsOf(log, u)
    ensures tx.userId == u && tx.kind == Deposit ==>
      && StatsOf(log + [tx], u).deposits == StatsOf(log, u).deposits + tx.amount
      && StatsOf(log + [tx], u).withdrawals == StatsOf(log, u).withdrawals
      && StatsOf(log + [tx], u).balance == StatsOf(log, u).balance + tx.amount
    ensures tx.userId == u && tx.kind == Withdraw ==>
      && StatsOf(log + [tx], u).deposits == StatsOf(log, u).deposits
      && StatsOf(log + [tx], u).withdrawals == StatsOf(log, u).withdrawals + tx.amount
      && StatsOf(log + [tx], u).balance == StatsOf(log, u).balance - tx.amount
  {
    TotalAppend(log, tx, u, Deposit);
    TotalAppend(log, tx, u, Withdraw);
  }

  /** The appended record is the first entry of its user's history. */
  lemma HistoryNewestFirst(log: seq<Tx>, tx: Tx, limit: int)
    requires tx.userId != 0 && limit >= 1
    ensures |History(log + [tx], tx.userId, limit)| == Min(limit, |Entries(log, tx.userId)| + 1)
    ensures History(log + [tx], tx.userId, limit)[0] == Entry(tx)
  {
    EntriesAppend(log, tx, tx.userId);
  }

  // ---- Reset ----

  /** Filtering out u commutes with concatenation, so the kept records keep
      their relative order. */
  lemma {:induction false} WithoutConcat(a: seq<Tx>, b: seq<Tx>, u: int)
    ensures Without(a + b, u) == Without(a, u) + Without(b, u)
  {
    if b == [] {
      assert a + b == a;
    } else {
      var init := b[..|b| - 1];
      assert (a + b)[..|a + b| - 1] == a + init;
      WithoutConcat(a, init, u);
    }
  }

  /** A log without u's records is left as it is. */
  lemma {:induction false} WithoutAbsent(log: seq<Tx>, u: int)
    requires forall i :: 0 <= i < |log| ==> log[i].userId != u
    ensures Without(log, u) == log
  {
    if log != [] {
      var init := log[..|log| - 1];
      assert forall i :: 0 <= i < |init| ==> init[i] == log[i];
      WithoutAbsent(init, u);
      WithoutStep(log, u);
      assert init + [log[|log| - 1]] == log;
    }
  }

  /** Resetting a user twice leaves the log of the first reset. */
  lemma WithoutIdempotent(log: seq<Tx>, u: int)
    ensures Without(Without(log, u), u) == Without(log, u)
  {
    var kept := Without(log, u);
    assert forall i :: 0 <= i < |kept| ==> kept[i] in kept;
    WithoutAbsent(kept, u);
  }

  lemma WithoutStep(log: seq<Tx>, u: int)
    requires log != []
    ensures log[|log| - 1].userId != u ==>
      Without(log, u) == Without(log[..|log| - 1], u) + [log[|log| - 1]]
    ensures log[|log| - 1].userId == u ==> Without(log, u) == Without(log[..|log| - 1], u)
  {
    var w := Without(log[..|log| - 1], u);
    assert w + [] == w;
  }

  /** After a reset of u, u's totals are zero and everyone else's are untouched. */
  lemma {:induction false} TotalWithout(log: seq<Tx>, u: int, v: int, k: Kind)
    ensures Total(Without(log, u), v, k) == if v == u then 0 else Total(log, v, k)
  {
    if log != [] {
      var init, last := log[..|log| - 1], log[|log| - 1];
      TotalWithout(init, u, v, k);
      WithoutStep(log, u);
      if last.userId != u {
        TotalAppend(Without(init, u), last, v, k);
      }
    }
  }

  /** After a reset of u, u has no entries and everyone else's are untouched. */
  lemma {:induction false} EntriesWithout(log: seq<Tx>, u: int, v: int)
    ensures Entries(Without(log, u), v) == if v == u then [] else Entries(log, v)
  {
    if log != [] {
      var init, last := log[..|log| - 1], log[|log| - 1];
      EntriesWithout(init, u, v);
      WithoutStep(log, u);
      if last.userId != u {
        EntriesAppend(Without(init, u), last, v);
      }
    }
  }

  /** After a reset of u the summary has no row for u. */
  lemma ResetDropsRow(log: seq<Tx>, u: int, now: Timestamp)
    ensures forall i :: 0 <= i < |Rebuild(Without(log, u), now)| ==>
      Rebuild(Without(log, u), now)[i].userId != u
  {
    var kept := Without(log, u);
    assert forall i :: 0 <= i < |kept| ==> kept[i] in kept;
    assert u !in Ids(kept);
  }

  /** After a reset of u, the stats of u are zeros and its history is empty,
      whatever the limit. */
  lemma ResetClearsUser(log: seq<Tx>, u: int, limit: int, now: Timestamp)
    ensures Lookup(Rebuild(Without(log, u), now), u) == NoStats
    ensures StatsOf(Without(log, u), u) == NoStats
    ensures History(Without(log, u), u, limit) == []
  {
    ResetDropsRow(log, u, now);
    TotalWithout(log, u, u, Deposit);
    TotalWithout(log, u, u, Withdraw);
    EntriesWithout(log, u, u);
  }

  /** A reset of u changes neither the stats nor the history of another user. */
  lemma ResetKeepsOthers(log: seq<Tx>, u: int, v: int, limit: int)
    requires v != u
    ensures StatsOf(Without(log, u), v) == StatsOf(log, v)
    ensures History(Without(log, u), v, limit) == History(log, v, limit)
  {
    TotalWithout(log, u, v, Deposit);
    TotalWithout(log, u, v, Withdraw);
    EntriesWithout(log, u, v);
  }

  // ---- Stats on a rebuilt summary ----

  /** A user without records has zero totals. */
  lemma {:induction false} TotalAbsent(log: seq<Tx>, u: int, k: Kind)
    requires u != 0 && u !in Ids(log)
    ensures Total(log, u, k) == 0
  {
    if log != [] {
      var init := log[..|log| - 1];
      assert forall i :: 0 <= i < |init| ==> init[i] == log[i];
      TotalAbsent(init, u, k);
    }
  }

  /** get_user_stats on a rebuilt summary gives the user's figures from the
      log: the row's values when the user has records, zeros otherwise. */
  lemma LookupRebuild(log: seq<Tx>, now: Timestamp, u: int)
    requires u != 0
    ensures Lookup(Rebuild(log, now), u) == StatsOf(log, u)
    ensures u !in Ids(log) ==> Lookup(Rebuild(log, now), u) == NoStats
  {
    if u in Ids(log) {
      LookupPresent(log, now, u);
    } else {
      TotalAbsent(log, u, Deposit);
      TotalAbsent(log, u, Withdraw);
    }
  }

  lemma LookupPresent(log: seq<Tx>, now: Timestamp, u: int)
    requires u != 0 && u in Ids(log)
    ensures Lookup(Rebuild(log, now), u) == StatsOf(log, u)
  {
    var rows := Rebuild(log, now);
    var i :| 0 <= i < |rows| && rows[i].userId == u;
    assert forall j :: 0 <= j < i ==> rows[j].userId < rows[i].userId;
    assert RowStats(rows[i]) == StatsOf(log, u);
  }

  /** The rebuild's rows do not depend on the stamp when there are none, so
      the stamp read off a rebuilt sheet rebuilds the same sheet. */
  lemma RebuildStamp(log: seq<Tx>, now: Timestamp)
    ensures Rebuild(log, WrittenAt(Rebuild(log, now))) == Rebuild(log, now)
  {
  }

  // ---- The order of the summary rows ----

  /** Two increasing sequences with the same elements are equal. */
  lemma {:induction false} IncreasingUnique(a: seq<int>, b: seq<int>)
    requires Increasing(a) && Increasing(b)
    requires forall x :: x in a <==> x in b
    ensures a == b
  {
    if a != [] && b != [] {
      assert a[0] in b && b[0] in a;
      assert a[0] == b[0];
      forall x
        ensures x in a[1..] <==> x in b[1..]
      {
        if x in a[1..] {
          assert x in a && x != a[0];
        }
        if x in b[1..] {
          assert x in b && x != b[0];
        }
      }
      IncreasingUnique(a[1..], b[1..]);
      assert a == [a[0]] + a[1..] && b == [b[0]] + b[1..];
    } else {
      SameElementsNonEmpty(a, b);
      SameElementsNonEmpty(b, a);
    }
  }

  lemma SameElementsNonEmpty(a: seq<int>, b: seq<int>)
    requires forall x :: x in a <==> x in b
    ensures a != [] ==> b != []
  {
    if a != [] {
      var x := a[0];
      assert x in a;
      assert x in b;
    }
  }

  // ---- A worked example ----

  lemma ExampleRoi()
    ensures Roi(100000, 30000) == -7000
  {
    assert 10000 * (30000 - 100000) == -7000 * 100000;
    RoundHalfEvenExact(-7000, 100000);
  }

  /** A deposit of 1000.00 then a withdrawal of 300.00 by user 42. */
  function ExampleLog(t1: Timestamp, t2: Timestamp): seq<Tx>
  {
    [Tx(42, Deposit, 100000, t1), Tx(42, Withdraw, 30000, t2)]
  }

  /** After the example session user 42 has a balance of 700.00 and an ROI
      of -70.00 %, and user 99 has nothing. */
  lemma ExampleStats(t1: Timestamp, t2: Timestamp, now: Timestamp)
    ensures Lookup(Rebuild(ExampleLog(t1, t2), now), 42) == Stats(100000, 30000, 70000, -7000)
    ensures Lookup(Rebuild(ExampleLog(t1, t2), now), 99) == NoStats
  {
    ExampleTotals(t1, t2);
    ExampleRoi();
    LookupRebuild(ExampleLog(t1, t2), now, 42);
    LookupRebuild(ExampleLog(t1, t2), now, 99);
  }

  lemma ExampleTotals(t1: Timestamp, t2: Timestamp)
    ensures Total(ExampleLog(t1, t2), 42, Deposit) == 100000
    ensures Total(ExampleLog(t1, t2), 42, Withdraw) == 30000
    ensures Total(ExampleLog(t1, t2), 99, Deposit) == 0
    ensures Total(ExampleLog(t1, t2), 99, Withdraw) == 0
  {
    var first, second := Tx(42, Deposit, 100000, t1), Tx(42, Withdraw, 30000, t2);
    TotalPair(first, second, 42, Deposit);
    TotalPair(first, second, 42, Withdraw);
    TotalPair(first, second, 99, Deposit);
    TotalPair(first, second, 99, Withdraw);
  }

  lemma TotalPair(a: Tx, b: Tx, u: int, k: Kind)
    ensures Total([a, b], u, k) == Contribution(a, u, k) + Contribution(b, u, k)
  {
    TotalAppend([], a, u, k);
    TotalAppend([a], b, u, k);
    assert [] + [a] == [a] && [a] + [b] == [a, b];
  }

  lemma EntriesPair(a: Tx, b: Tx, u: int)
    ensures Entries([a, b], u)
      == (if u != 0 && a.userId == u then [Entry(a)] else [])
       + (if u != 0 && b.userId == u then [Entry(b)] else [])
  {
    EntriesAppend([], a, u);
    EntriesAppend([a], b, u);
    assert [] + [a] == [a] && [a] + [b] == [a, b];
  }

  /** The example session's history lists the withdrawal first. */
  lemma ExampleHistory(t1: Timestamp, t2: Timestamp)
    ensures History(ExampleLog(t1, t2), 42, 10)
      == [HistoryEntry(Withdraw, 30000, t2), HistoryEntry(Deposit, 100000, t1)]
    ensures History(ExampleLog(t1, t2), 42, 1) == [HistoryEntry(Withdraw, 30000, t2)]
    ensures History(ExampleLog(t1, t2), 99, 10) == []
  {
    var first, second := Tx(42, Deposit, 100000, t1), Tx(42, Withdraw, 30000, t2);
    EntriesPair(first, second, 42);
    EntriesPair(first, second, 99);
  }
}
