/**
 * `revenue_calc`: derives the search columns of every hit, sorts the hits
 * by `(ip, date_time)`, scans them carrying the most recent search engine
 * domain and keyword forward, emits one attribution record per purchase,
 * then groups the records by `(domain, keyword)`, sums their revenue and
 * orders the groups by descending revenue.
 */
module Attribution {
  import opened Wrappers
  import opened Text
  import opened UrlParse

  /** One hit of the batch, restricted to the columns the attribution reads; `None` is NaN. */
  datatype HitRow = HitRow(
    ip: string,
    dateTime: string,
    referrer: Option<string>,
    eventList: Option<int>,
    totalRevenue: Option<int>)

  /** A hit with its derived `search_engine_domain` and `search_keyword` columns. */
  datatype Session = Session(
    ip: string,
    dateTime: string,
    engineDomain: string,
    keyword: Option<string>,
    eventList: Option<int>,
    revenue: Option<int>)

  /** A row of `output_df`, and also a row of the grouped result: a revenue for a (domain, keyword). */
  datatype Record = Record(domain: string, keyword: string, revenue: int)

  /* ---------------- derived columns ---------------- */

  /** The derived columns of one hit whose referrer is `referrer`. */
  function DeriveRow(h: HitRow, referrer: string): Session
  {
    var (domainName, params) := UrlParseRow(referrer);
    Session(h.ip, h.dateTime, SearchEngineDomain(domainName),
      SearchKeyword(SearchCompoundString(params)), h.eventList, h.totalRevenue)
  }

  /**
   * Deriving keeps the hit's ip, date_time, event_list and revenue, and the
   * keyword is null exactly when no query parameter names a search.
   */
  lemma DeriveRowFacts(h: HitRow, referrer: string)
    ensures var s := DeriveRow(h, referrer);
      && s.ip == h.ip && s.dateTime == h.dateTime
      && s.eventList == h.eventList && s.revenue == h.totalRevenue
      && (s.keyword.None? <==>
          forall i :: 0 <= i < |UrlParseRow(referrer).1| ==> !IsSearchParam(UrlParseRow(referrer).1[i]))
  {
  }

  /**
   * The derived columns of every hit, in order; `None` when some referrer is
   * null, because `urlparse` raises on NaN and the whole computation fails.
   */
  function DeriveColumns(rows: seq<HitRow>): (r: Option<seq<Session>>)
    ensures r.Some? <==> forall i :: 0 <= i < |rows| ==> rows[i].referrer.Some?
    ensures r.Some? ==> |r.value| == |rows|
    ensures r.Some? ==> forall i :: 0 <= i < |rows| ==> r.value[i] == DeriveRow(rows[i], rows[i].referrer.value)
  {
    if forall i :: 0 <= i < |rows| ==> rows[i].referrer.Some? then
      Some(seq(|rows|, i requires 0 <= i < |rows| && rows[i].referrer.Some? =>
        DeriveRow(rows[i], rows[i].referrer.value)))
    else None
  }

  /* ---------------- sort by (ip, date_time) ---------------- */

  /** Ascending order on `(ip, date_time)`, both compared as Python strings. */
  predicate RowLe(a: Session, b: Session)
  {
    LexLe(a.ip, b.ip) && (a.ip == b.ip ==> LexLe(a.dateTime, b.dateTime))
  }

  lemma RowLeTotal(a: Session, b: Session)
    ensures RowLe(a, b) || RowLe(b, a)
  {
    LexLeTotal(a.ip, b.ip);
    LexLeTotal(a.dateTime, b.dateTime);
  }

  lemma RowLeTrans(a: Session, b: Session, c: Session)
    requires RowLe(a, b) && RowLe(b, c)
    ensures RowLe(a, c)
  {
    LexLeTrans(a.ip, b.ip, c.ip);
    if a.ip == c.ip {
      LexLeAntisym(a.ip, b.ip);
      LexLeTrans(a.dateTime, b.dateTime, c.dateTime);
    }
  }

  predicate SortedRows(s: seq<Session>)
  {
    forall i, j :: 0 <= i < j < |s| ==> RowLe(s[i], s[j])
  }

  /** Puts `x` into `s` after every row that is not greater than it. */
  function InsertRow(x: Session, s: seq<Session>): (r: seq<Session>)
    ensures |r| == |s| + 1
  {
    if |s| == 0 || !RowLe(s[0], x) then [x] + s
    else [s[0]] + InsertRow(x, s[1..])
  }

  /**
   * `sort_values(by=['ip', 'date_time'])`, as a stable insertion sort:
   * rows with the same ip and date_time keep their input order, as they do
   * under pandas' sort on several keys, which is stable.
   */
  function SortRows(rows: seq<Session>): (r: seq<Session>)
    ensures |r| == |rows|
  {
    if |rows| == 0 then []
    else InsertRow(rows[|rows| - 1], SortRows(rows[..|rows| - 1]))
  }

  /** Inserting keeps every row and adds `x`. */
  lemma {:induction false} InsertRowElements(x: Session, s: seq<Session>)
    ensures multiset(InsertRow(x, s)) == multiset(s) + multiset{x}
  {
    if |s| > 0 && RowLe(s[0], x) {
      InsertRowElements(x, s[1..]);
      assert s == [s[0]] + s[1..];
    }
  }

  /** A row below `x` and below every row of `s` is below every row after the insertion. */
  lemma {:induction false} InsertRowBound(x: Session, s: seq<Session>, b: Session)
    requires RowLe(b, x) && forall j :: 0 <= j < |s| ==> RowLe(b, s[j])
    ensures forall j :: 0 <= j < |s| + 1 ==> RowLe(b, InsertRow(x, s)[j])
  {
    if |s| > 0 && RowLe(s[0], x) {
      InsertRowBound(x, s[1..], b);
    }
  }

  lemma {:induction false} InsertRowSorted(x: Session, s: seq<Session>)
    requires SortedRows(s)
    ensures SortedRows(InsertRow(x, s))
  {
    if |s| > 0 {
      if !RowLe(s[0], x) {
        RowLeTotal(s[0], x);
        forall j | 0 < j < |s| ensures RowLe(x, s[j]) {
          RowLeTrans(x, s[0], s[j]);
        }
      } else {
        InsertRowSorted(x, s[1..]);
        InsertRowBound(x, s[1..], s[0]);
      }
    }
  }

  /** The sort returns its rows in ascending `(ip, date_time)` order, and exactly the rows it was given. */
  lemma {:induction false} SortRowsCorrect(rows: seq<Session>)
    ensures SortedRows(SortRows(rows))
    ensures multiset(SortRows(rows)) == multiset(rows)
  {
    if |rows| > 0 {
      var front := rows[..|rows| - 1];
      SortRowsCorrect(front);
      InsertRowSorted(rows[|rows| - 1], SortRows(front));
      InsertRowElements(rows[|rows| - 1], SortRows(front));
      assert rows == front + [rows[|rows| - 1]];
    }
  }

  /** Rows already in order come back unchanged. */
  lemma {:induction false} SortRowsSortedInput(rows: seq<Session>)
    requires SortedRows(rows)
    ensures SortRows(rows) == rows
  {
    if |rows| > 0 {
      var front := rows[..|rows| - 1];
      assert SortedRows(front);
      SortRowsSortedInput(front);
      InsertRowAtEnd(rows[|rows| - 1], front);
    }
  }

  lemma {:induction false} InsertRowAtEnd(x: Session, s: seq<Session>)
    requires forall j :: 0 <= j < |s| ==> RowLe(s[j], x)
    ensures InsertRow(x, s) == s + [x]
  {
    if |s| > 0 {
      InsertRowAtEnd(x, s[1..]);
      assert s == [s[0]] + s[1..];
    }
  }

  /* ---------------- the carry-forward scan ---------------- */

  /**
   * `(current_domain_name, current_search_keyword)` after the scan has seen
   * `rows`: the values of the last row with a keyword, `("", "")` before any.
   */
  function Carry(rows: seq<Session>): (carried: (string, string))
    ensures || carried == ("", "")
            || exists j :: (0 <= j < |rows| && rows[j].keyword.Some?
                            && carried == (rows[j].engineDomain, rows[j].keyword.value))
  {
    if |rows| == 0 then ("", "")
    else
      var last := rows[|rows| - 1];
      if last.keyword.Some? then (last.engineDomain, last.keyword.value)
      else
        var carried := Carry(rows[..|rows| - 1]);
        assert forall j :: 0 <= j < |rows| - 1 ==> rows[..|rows| - 1][j] == rows[j];
        carried
  }

  /** A purchase: revenue present and `event_list == 1`. */
  predicate Qualifies(row: Session)
  {
    row.revenue.Some? && row.eventList == Some(1)
  }

  /** The records the scan appends to `output_df` while it reads `rows`. */
  function Emitted(rows: seq<Session>): (out: seq<Record>)
    ensures |out| <= |rows|
  {
    if |rows| == 0 then []
    else
      var last := rows[|rows| - 1];
      var (domain, keyword) := Carry(rows);
      Emitted(rows[..|rows| - 1]) + if Qualifies(last) then [Record(domain, keyword, last.revenue.value)] else []
  }

  /** The loop of `revenue_calc` over the sorted rows. */
  method ScanRows(rows: seq<Session>) returns (output: seq<Record>)
    ensures output == Emitted(rows)
  {
    var currentDomain, currentKeyword := "", "";
    output := [];
    for i := 0 to |rows|
      invariant (currentDomain, currentKeyword) == Carry(rows[..i])
      invariant output == Emitted(rows[..i])
    {
      var row := rows[i];
      if row.keyword.Some? {
        currentDomain := row.engineDomain;
        currentKeyword := row.keyword.value;
      }
      if row.revenue.Some? && row.eventList == Some(1) {
        output := output + [Record(currentDomain, currentKeyword, row.revenue.value)];
      }
      assert rows[..i + 1][..i] == rows[..i];
    }
    assert rows[..|rows|] == rows;
  }

  /** The carried values are those of the most recent row with a keyword, the current row included. */
  lemma {:induction false} CarryMostRecent(rows: seq<Session>, j: nat)
    requires j < |rows| && rows[j].keyword.Some?
    requires forall k :: j < k < |rows| ==> rows[k].keyword.None?
    ensures Carry(rows) == (rows[j].engineDomain, rows[j].keyword.value)
  {
    if j < |rows| - 1 {
      CarryMostRecent(rows[..|rows| - 1], j);
    }
  }

  /** With no keyword row yet, the carried values are the initial empty strings. */
  lemma {:induction false} CarryInitial(rows: seq<Session>)
    requires forall k :: 0 <= k < |rows| ==> rows[k].keyword.None?
    ensures Carry(rows) == ("", "")
  {
    if |rows| > 0 {
      CarryInitial(rows[..|rows| - 1]);
    }
  }

  /** The scan only appends: the records of a prefix of the rows start the records of all of them. */
  lemma {:induction false} EmittedPrefix(rows: seq<Session>, n: nat)
    requires n <= |rows|
    ensures Emitted(rows[..n]) <= Emitted(rows)
    decreases |rows| - n
  {
    if n < |rows| {
      EmittedPrefix(rows, n + 1);
      assert rows[..n + 1][..n] == rows[..n];
    } else {
      assert rows[..n] == rows;
    }
  }

  /**
   * Each purchase row `i` has its own record, right after those of the rows
   * before it, carrying the domain and keyword in force at that row.
   */
  lemma EmittedAt(rows: seq<Session>, i: nat)
    requires i < |rows| && Qualifies(rows[i])
    ensures |Emitted(rows[..i])| < |Emitted(rows)|
    ensures Emitted(rows)[|Emitted(rows[..i])|]
      == Record(Carry(rows[..i + 1]).0, Carry(rows[..i + 1]).1, rows[i].revenue.value)
  {
    EmittedPrefix(rows, i + 1);
    assert rows[..i + 1][..i] == rows[..i];
  }

  /** The revenues of the purchase rows, in row order. */
  function PurchaseRevenues(rows: seq<Session>): (r: seq<int>)
    ensures |r| <= |rows|
  {
    if |rows| == 0 then []
    else (if Qualifies(rows[0]) then [rows[0].revenue.value] else []) + PurchaseRevenues(rows[1..])
  }

  function Revenues(records: seq<Record>): (r: seq<int>)
    ensures |r| == |records|
    ensures forall i :: 0 <= i < |records| ==> r[i] == records[i].revenue
  {
    seq(|records|, i requires 0 <= i < |records| => records[i].revenue)
  }

  lemma {:induction false} PurchaseRevenuesSnoc(rows: seq<Session>, x: Session)
    ensures PurchaseRevenues(rows + [x]) == PurchaseRevenues(rows) + (if Qualifies(x) then [x.revenue.value] else [])
  {
    if |rows| > 0 {
      PurchaseRevenuesSnoc(rows[1..], x);
      assert (rows + [x])[1..] == rows[1..] + [x];
    }
  }

  /** Exactly one record per purchase row, in scan order, carrying that row's revenue. */
  lemma {:induction false} EmittedRevenues(rows: seq<Session>)
    ensures Revenues(Emitted(rows)) == PurchaseRevenues(rows)
  {
    if |rows| > 0 {
      var front := rows[..|rows| - 1];
      EmittedRevenues(front);
      PurchaseRevenuesSnoc(front, rows[|rows| - 1]);
      assert rows == front + [rows[|rows| - 1]];
    }
  }

  /* ---------------- group by (domain, keyword), sum, sort descending ---------------- */

  function KeyOf(r: Record): (string, string)
  {
    (r.domain, r.keyword)
  }

  /** The keys of `s`, in order. */
  function Keys(s: seq<Record>): (keys: seq<(string, string)>)
    ensures |keys| == |s|
    ensures forall i :: 0 <= i < |s| ==> keys[i] == KeyOf(s[i])
  {
    if |s| == 0 then [] else [KeyOf(s[0])] + Keys(s[1..])
  }

  /** No key occurs twice: one entry per (domain, keyword). */
  predicate DistinctKeys(s: seq<Record>)
  {
    forall i, j :: 0 <= i < j < |s| ==> KeyOf(s[i]) != KeyOf(s[j])
  }

  /** A head whose key is not in a distinct-keyed tail gives a distinct-keyed list. */
  lemma DistinctConsIntro(h: Record, t: seq<Record>)
    requires KeyOf(h) !in Keys(t) && DistinctKeys(t)
    ensures DistinctKeys([h] + t)
  {
    var s := [h] + t;
    forall i, j | 0 <= i < j < |s| ensures KeyOf(s[i]) != KeyOf(s[j]) {
      assert s[j] == t[j - 1];
      if i > 0 {
        assert s[i] == t[i - 1];
      } else {
        assert Keys(t)[j - 1] == KeyOf(s[j]);
      }
    }
  }

  /** In a distinct-keyed list, the head's key is not in the tail, and the tail is distinct-keyed. */
  lemma DistinctConsElim(h: Record, t: seq<Record>)
    requires DistinctKeys([h] + t)
    ensures KeyOf(h) !in Keys(t) && DistinctKeys(t)
  {
    var s := [h] + t;
    forall i, j | 0 <= i < j < |t| ensures KeyOf(t[i]) != KeyOf(t[j]) {
      assert s[i + 1] == t[i] && s[j + 1] == t[j];
    }
    forall j | 0 <= j < |t| ensures Keys(t)[j] != KeyOf(h) {
      assert s[0] == h && s[j + 1] == t[j];
      assert KeyOf(s[0]) != KeyOf(s[j + 1]);
    }
  }

  /** A list has distinct keys exactly when its head's key is not in its tail and its tail has distinct keys. */
  lemma DistinctCons(h: Record, t: seq<Record>)
    ensures DistinctKeys([h] + t) <==> KeyOf(h) !in Keys(t) && DistinctKeys(t)
  {
    if KeyOf(h) !in Keys(t) && DistinctKeys(t) {
      DistinctConsIntro(h, t);
    }
    if DistinctKeys([h] + t) {
      DistinctConsElim(h, t);
    }
  }

  /** The summed revenue of the records with key `k`. */
  function SumFor(s: seq<Record>, k: (string, string)): int
  {
    if |s| == 0 then 0
    else (if KeyOf(s[0]) == k then s[0].revenue else 0) + SumFor(s[1..], k)
  }

  /** The summed revenue of all records. */
  function SumAll(s: seq<Record>): int
  {
    if |s| == 0 then 0 else s[0].revenue + SumAll(s[1..])
  }

  /** Adds one record to the group totals: onto its key's entry, or as a new entry at the end. */
  function AddRecord(entries: seq<Record>, r: Record): (e: seq<Record>)
    ensures |entries| <= |e| <= |entries| + 1
  {
    if |entries| == 0 then [r]
    else if KeyOf(entries[0]) == KeyOf(r) then [entries[0].(revenue := entries[0].revenue + r.revenue)] + entries[1..]
    else [entries[0]] + AddRecord(entries[1..], r)
  }

  /**
   * `groupby(['search_engine_domain', 'search_keyword'])['revenue'].sum()`.
   * pandas orders the groups by key; the model keeps them in order of first
   * appearance, which only matters for ties in the descending sort.
   */
  function GroupSum(records: seq<Record>): (entries: seq<Record>)
    ensures |entries| <= |records|
  {
    if |records| == 0 then []
    else AddRecord(GroupSum(records[..|records| - 1]), records[|records| - 1])
  }

  lemma {:induction false} SumForAppend(a: seq<Record>, b: seq<Record>, k: (string, string))
    ensures SumFor(a + b, k) == SumFor(a, k) + SumFor(b, k)
  {
    if |a| > 0 {
      SumForAppend(a[1..], b, k);
      assert (a + b)[0] == a[0] && (a + b)[1..] == a[1..] + b;
    } else {
      assert a + b == b;
    }
  }

  lemma {:induction false} SumAllAppend(a: seq<Record>, b: seq<Record>)
    ensures SumAll(a + b) == SumAll(a) + SumAll(b)
  {
    if |a| > 0 {
      SumAllAppend(a[1..], b);
      assert (a + b)[0] == a[0] && (a + b)[1..] == a[1..] + b;
    } else {
      assert a + b == b;
    }
  }

  lemma {:induction false} SumForAbsent(s: seq<Record>, k: (string, string))
    requires k !in Keys(s)
    ensures SumFor(s, k) == 0
  {
    if |s| > 0 {
      SumForAbsent(s[1..], k);
    }
  }

  /** In a list with distinct keys, an entry's revenue is its key's whole sum. */
  lemma {:induction false} DistinctSumFor(s: seq<Record>, i: nat)
    requires DistinctKeys(s) && i < |s|
    ensures SumFor(s, KeyOf(s[i])) == s[i].revenue
  {
    if i == 0 {
      SumForAbsent(s[1..], KeyOf(s[0]));
    } else {
      DistinctSumFor(s[1..], i - 1);
    }
  }

  lemma {:induction false} AddRecordSums(entries: seq<Record>, r: Record)
    ensures forall k :: SumFor(AddRecord(entries, r), k) == SumFor(entries, k) + (if KeyOf(r) == k then r.revenue else 0)
    ensures SumAll(AddRecord(entries, r)) == SumAll(entries) + r.revenue
  {
    if |entries| > 0 && KeyOf(entries[0]) != KeyOf(r) {
      AddRecordSums(entries[1..], r);
    }
  }

  lemma {:induction false} AddRecordKeys(entries: seq<Record>, r: Record)
    ensures forall k :: k in Keys(AddRecord(entries, r)) <==> k in Keys(entries) || k == KeyOf(r)
  {
    if |entries| > 0 && KeyOf(entries[0]) != KeyOf(r) {
      AddRecordKeys(entries[1..], r);
      assert Keys(entries) == [KeyOf(entries[0])] + Keys(entries[1..]);
    }
  }

  lemma {:induction false} AddRecordDistinct(entries: seq<Record>, r: Record)
    requires DistinctKeys(entries)
    ensures DistinctKeys(AddRecord(entries, r))
  {
    if |entries| > 0 {
      var h, rest := entries[0], entries[1..];
      assert entries == [h] + rest;
      DistinctCons(h, rest);
      if KeyOf(h) == KeyOf(r) {
        DistinctCons(h.(revenue := h.revenue + r.revenue), rest);
      } else {
        AddRecordDistinct(rest, r);
        AddRecordKeys(rest, r);
        DistinctCons(h, AddRecord(rest, r));
      }
    }
  }

  /** The grouped result has one entry per key of the records. */
  lemma {:induction false} GroupSumKeys(records: seq<Record>)
    ensures DistinctKeys(GroupSum(records))
    ensures forall k :: k in Keys(GroupSum(records)) <==> k in Keys(records)
  {
    if |records| > 0 {
      var front, last := records[..|records| - 1], records[|records| - 1];
      GroupSumKeys(front);
      AddRecordKeys(GroupSum(front), last);
      AddRecordDistinct(GroupSum(front), last);
      assert records == front + [last];
      assert Keys(records) == Keys(front) + [KeyOf(last)];
    }
  }

  /** Each key's sum, and the grand total, are those of the records. */
  lemma {:induction false} GroupSumSums(records: seq<Record>)
    ensures forall k :: SumFor(GroupSum(records), k) == SumFor(records, k)
    ensures SumAll(GroupSum(records)) == SumAll(records)
  {
    if |records| > 0 {
      var front, last := records[..|records| - 1], records[|records| - 1];
      GroupSumSums(front);
      AddRecordSums(GroupSum(front), last);
      assert records == front + [last];
      forall k ensures SumFor(records, k) == SumFor(front, k) + (if KeyOf(last) == k then last.revenue else 0) {
        SumForAppend(front, [last], k);
      }
      SumAllAppend(front, [last]);
    }
  }

  /** Entries ordered by non-increasing revenue. */
  predicate Descending(s: seq<Record>)
  {
    forall i, j :: 0 <= i < j < |s| ==> s[i].revenue >= s[j].revenue
  }

  /** Puts `x` before the first entry with a smaller revenue. */
  function InsertDesc(x: Record, s: seq<Record>): (r: seq<Record>)
    ensures |r| == |s| + 1
  {
    if |s| == 0 || s[0].revenue < x.revenue then [x] + s
    else [s[0]] + InsertDesc(x, s[1..])
  }

  /** `sort_values(ascending=False)`, as an insertion sort. */
  function SortDesc(s: seq<Record>): (r: seq<Record>)
    ensures |r| == |s|
  {
    if |s| == 0 then [] else InsertDesc(s[0], SortDesc(s[1..]))
  }

  lemma {:induction false} InsertDescElements(x: Record, s: seq<Record>)
    ensures multiset(InsertDesc(x, s)) == multiset(s) + multiset{x}
  {
    if |s| > 0 && s[0].revenue >= x.revenue {
      InsertDescElements(x, s[1..]);
      assert s == [s[0]] + s[1..];
    }
  }

  /** A revenue at least `x`'s and every entry's of `s` is at least every entry's after the insertion. */
  lemma {:induction false} InsertDescBound(x: Record, s: seq<Record>, b: int)
    requires b >= x.revenue && forall j :: 0 <= j < |s| ==> b >= s[j].revenue
    ensures forall j :: 0 <= j < |s| + 1 ==> b >= InsertDesc(x, s)[j].revenue
  {
    if |s| > 0 && s[0].revenue >= x.revenue {
      InsertDescBound(x, s[1..], b);
    }
  }

  lemma {:induction false} InsertDescOrder(x: Record, s: seq<Record>)
    requires Descending(s)
    ensures Descending(InsertDesc(x, s))
  {
    if |s| > 0 && s[0].revenue >= x.revenue {
      InsertDescOrder(x, s[1..]);
      InsertDescBound(x, s[1..], s[0].revenue);
    }
  }

  lemma {:induction false} InsertDescSums(x: Record, s: seq<Record>)
    ensures forall k :: SumFor(InsertDesc(x, s), k) == SumFor(s, k) + (if KeyOf(x) == k then x.revenue else 0)
    ensures SumAll(InsertDesc(x, s)) == SumAll(s) + x.revenue
  {
    if |s| > 0 && s[0].revenue >= x.revenue {
      InsertDescSums(x, s[1..]);
    }
  }

  lemma {:induction false} InsertDescKeys(x: Record, s: seq<Record>)
    ensures forall k :: k in Keys(InsertDesc(x, s)) <==> k in Keys(s) || k == KeyOf(x)
  {
    if |s| > 0 && s[0].revenue >= x.revenue {
      InsertDescKeys(x, s[1..]);
      assert Keys(s) == [KeyOf(s[0])] + Keys(s[1..]);
    }
  }

  lemma {:induction false} InsertDescDistinct(x: Record, s: seq<Record>)
    requires DistinctKeys(s) && KeyOf(x) !in Keys(s)
    ensures DistinctKeys(InsertDesc(x, s))
  {
    if |s| == 0 || s[0].revenue < x.revenue {
      DistinctCons(x, s);
    } else {
      var h, rest := s[0], s[1..];
      assert s == [h] + rest;
      DistinctCons(h, rest);
      assert Keys(s) == [KeyOf(h)] + Keys(rest);
      InsertDescDistinct(x, rest);
      InsertDescKeys(x, rest);
      DistinctCons(h, InsertDesc(x, rest));
    }
  }

  /** The sort orders the entries by non-increasing revenue and keeps exactly the entries it was given. */
  lemma {:induction false} SortDescOrder(s: seq<Record>)
    ensures Descending(SortDesc(s))
    ensures multiset(SortDesc(s)) == multiset(s)
  {
    if |s| > 0 {
      SortDescOrder(s[1..]);
      InsertDescOrder(s[0], SortDesc(s[1..]));
      InsertDescElements(s[0], SortDesc(s[1..]));
      assert s == [s[0]] + s[1..];
    }
  }

  /** Sorting keeps the key set, the per-key sums and the grand total. */
  lemma {:induction false} SortDescSums(s: seq<Record>)
    ensures forall k :: k in Keys(SortDesc(s)) <==> k in Keys(s)
    ensures forall k :: SumFor(SortDesc(s), k) == SumFor(s, k)
    ensures SumAll(SortDesc(s)) == SumAll(s)
  {
    if |s| > 0 {
      SortDescSums(s[1..]);
      InsertDescSums(s[0], SortDesc(s[1..]));
      InsertDescKeys(s[0], SortDesc(s[1..]));
      assert Keys(s) == [KeyOf(s[0])] + Keys(s[1..]);
    }
  }

  /** Sorting keeps the keys distinct. */
  lemma {:induction false} SortDescDistinct(s: seq<Record>)
    requires DistinctKeys(s)
    ensures DistinctKeys(SortDesc(s))
  {
    if |s| > 0 {
      assert s == [s[0]] + s[1..];
      DistinctCons(s[0], s[1..]);
      SortDescDistinct(s[1..]);
      SortDescSums(s[1..]);
      InsertDescDistinct(s[0], SortDesc(s[1..]));
    }
  }

  /** The final series: the records grouped by key, summed, and sorted by descending revenue. */
  function Report(records: seq<Record>): (report: seq<Record>)
  {
    SortDesc(GroupSum(records))
  }

  /**
   * The report has one entry per (domain, keyword) the records carry, each
   * entry's revenue is the sum of that key's records, the entries come by
   * non-increasing revenue, and the grand total is that of the records.
   */
  lemma ReportCorrect(records: seq<Record>)
    ensures DistinctKeys(Report(records))
    ensures forall k :: k in Keys(Report(records)) <==> k in Keys(records)
    ensures forall i :: 0 <= i < |Report(records)| ==>
      Report(records)[i].revenue == SumFor(records, KeyOf(Report(records)[i]))
    ensures Descending(Report(records))
    ensures SumAll(Report(records)) == SumAll(records)
  {
    var groups := GroupSum(records);
    GroupSumKeys(records);
    GroupSumSums(records);
    SortDescOrder(groups);
    SortDescSums(groups);
    SortDescDistinct(groups);
    var report := SortDesc(groups);
    forall i | 0 <= i < |report| ensures report[i].revenue == SumFor(records, KeyOf(report[i])) {
      DistinctSumFor(report, i);
    }
  }

  /* ---------------- revenue_calc ---------------- */

  /**
   * What `revenue_calc` returns: `None` when it logs an exception and
   * returns nothing, which happens on a null referrer; otherwise the report
   * over the records the scan emits from the sorted rows. An empty frame is
   * not an error: pandas applies `url_parse` to an empty frame without
   * raising, the unpacking of `zip` then goes over the column labels and
   * succeeds, and no row is a purchase, so the report is empty.
   */
  function RevenueReport(rows: seq<HitRow>): (report: Option<seq<Record>>)
    ensures report.None? <==> exists i :: 0 <= i < |rows| && rows[i].referrer.None?
    ensures |rows| == 0 ==> report == Some([])
  {
    match DeriveColumns(rows)
    case None => None
    case Some(sessions) => Some(Report(Emitted(SortRows(sessions))))
  }

  /** `revenue_calc`: derive, sort, scan, then group, sum and sort. */
  method RevenueCalc(rows: seq<HitRow>) returns (report: Option<seq<Record>>)
    ensures report == RevenueReport(rows)
  {
    var derived := DeriveColumns(rows);
    if derived.None? {
      return None;
    }
    var sorted := SortRows(derived.value);
    var output := ScanRows(sorted);
    report := Some(Report(output));
  }

  /** The example's first three hits: a search for "shoes", then purchases of 10 and 5. */
  lemma ScanExampleStart(rows: seq<Session>, ip: string, d: string)
    requires |rows| >= 3
    requires rows[0] == Session(ip, "06:01", d, Some("shoes"), Some(2), None)
    requires rows[1] == Session(ip, "06:02", d, None, Some(1), Some(10))
    requires rows[2] == Session(ip, "06:03", d, None, Some(1), Some(5))
    ensures Carry(rows[..3]) == (d, "shoes")
    ensures Emitted(rows[..3]) == [Record(d, "shoes", 10), Record(d, "shoes", 5)]
  {
    assert rows[..1][..0] == [];
    assert rows[..2][..1] == rows[..1];
    assert rows[..3][..2] == rows[..2];
    assert Carry(rows[..1]) == (d, "shoes");
    assert Carry(rows[..2]) == (d, "shoes");
    assert Emitted(rows[..2]) == [Record(d, "shoes", 10)];
  }

  /**
   * One visitor's hits in time order: a search for "shoes", purchases of 10
   * and 5, a search for "boots", a purchase of 20. The scan credits the first
   * two purchases to "shoes" and the last to "boots".
   */
  lemma ScanExample(rows: seq<Session>, ip: string, d: string)
    requires rows == [
      Session(ip, "06:01", d, Some("shoes"), Some(2), None),
      Session(ip, "06:02", d, None, Some(1), Some(10)),
      Session(ip, "06:03", d, None, Some(1), Some(5)),
      Session(ip, "06:04", d, Some("boots"), Some(2), None),
      Session(ip, "06:05", d, None, Some(1), Some(20))]
    ensures Emitted(rows) == [Record(d, "shoes", 10), Record(d, "shoes", 5), Record(d, "boots", 20)]
  {
    ScanExampleStart(rows, ip, d);
    assert rows[..4][..3] == rows[..3];
    assert rows[..5][..4] == rows[..4];
    assert rows[..5] == rows;
    assert Emitted(rows[..4]) == Emitted(rows[..3]);
    assert Carry(rows) == (d, "boots");
  }

  /** Those three records report "boots" with 20 first, then "shoes" with 15. */
  lemma ReportExample(records: seq<Record>, d: string)
    requires records == [Record(d, "shoes", 10), Record(d, "shoes", 5), Record(d, "boots", 20)]
    ensures Report(records) == [Record(d, "boots", 20), Record(d, "shoes", 15)]
  {
    var shoes, boots := records[0], records[2];
    assert "shoes"[0] != "boots"[0];
    assert KeyOf(shoes) != KeyOf(boots);
    assert records[..1][..0] == [];
    assert records[..2][..1] == records[..1];
    assert records[..3][..2] == records[..2];
    assert records[..3] == records;
    assert GroupSum(records[..1]) == [shoes];
    assert GroupSum(records[..2]) == [shoes.(revenue := 15)];
    assert AddRecord([], boots) == [boots];
    var groups := [shoes.(revenue := 15), boots];
    assert GroupSum(records) == groups;
    assert SortDesc(groups[1..]) == [boots];
    assert InsertDesc(groups[0], [boots]) == [boots, groups[0]];
  }

  /** The whole example: the report gives "boots" 20 and "shoes" 15. */
  lemma AttributionExample(rows: seq<Session>, ip: string, d: string)
    requires rows == [
      Session(ip, "06:01", d, Some("shoes"), Some(2), None),
      Session(ip, "06:02", d, None, Some(1), Some(10)),
      Session(ip, "06:03", d, None, Some(1), Some(5)),
      Session(ip, "06:04", d, Some("boots"), Some(2), None),
      Session(ip, "06:05", d, None, Some(1), Some(20))]
    ensures Report(Emitted(rows)) == [Record(d, "boots", 20), Record(d, "shoes", 15)]
  {
    ScanExample(rows, ip, d);
    ReportExample(Emitted(rows), d);
  }
}
