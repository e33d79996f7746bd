/**
 The two-stage selection and the result file: `FilterOrders` (district and
 closed time interval) and the pure part of `SaveFilteredOrders` (the
 30-minute window anchored at the earliest selected delivery, and the CSV
 lines written).
 */
module Filtering {
  import opened Seqs
  import opened Text
  import opened Calendar
  import opened Orders

  /** The broad stage's test: district equal up to letter case and time within [start, end]. */
  predicate InBroad<W>(o: Order<W>, district: string, start: ValidDateTime, end: ValidDateTime) {
    EqualsIgnoreCase(o.district, district) && Instant(start) <= Instant(o.time) <= Instant(end)
  }

  /**
   `FilterOrders`: exactly the orders that pass the broad test, each as often as
   in the input, in input order.
   */
  function FilterOrders<W(!new)>(orders: seq<Order<W>>, district: string, start: ValidDateTime, end: ValidDateTime)
    : (r: seq<Order<W>>)
    ensures IsSubsequence(r, orders)
    ensures forall o :: o in r <==> o in orders && InBroad(o, district, start, end)
    ensures forall o :: multiset(r)[o] == if InBroad(o, district, start, end) then multiset(orders)[o] else 0
    ensures Instant(end) < Instant(start) ==> r == []
  {
    Filter(orders, o => InBroad(o, district, start, end))
  }

  /** The earliest delivery instant among the orders (`OrderBy(o => o.DeliveryTime).First()`). */
  function EarliestInstant<W>(orders: seq<Order<W>>): (m: int)
    requires |orders| > 0
    ensures forall i :: 0 <= i < |orders| ==> m <= Instant(orders[i].time)
    ensures exists i :: 0 <= i < |orders| && Instant(orders[i].time) == m
  {
    var instants := seq(|orders|, i requires 0 <= i < |orders| => Instant(orders[i].time));
    assert forall i :: 0 <= i < |orders| ==> instants[i] == Instant(orders[i].time);
    Min(instants)
  }

  /** Thirty minutes, the width of the delivery window. */
  const WindowSeconds: int := 30 * 60

  /**
   `firstOrderTime.Value.AddMinutes(30)` throws when the sum passes
   `DateTime.MaxValue`; the exception leaves the file with its header only.
   */
  predicate WindowEndOverflows(earliest: int) {
    earliest + WindowSeconds > MaxInstant
  }

  /** The orders delivered no later than `bound`, in their original order. */
  function NoLaterThan<W(!new)>(orders: seq<Order<W>>, bound: int): (r: seq<Order<W>>)
    ensures IsSubsequence(r, orders)
    ensures forall o :: o in r <==> o in orders && Instant(o.time) <= bound
    ensures forall o :: multiset(r)[o] == if Instant(o.time) <= bound then multiset(orders)[o] else 0
  {
    Filter(orders, (o: Order<W>) => Instant(o.time) <= bound)
  }

  /**
   The orders `SaveFilteredOrders` writes after the header: nothing for an empty
   selection or when the window end overflows; otherwise those delivered no later
   than 30 minutes after the earliest one, in selection order.
   */
  function WindowOrders<W(!new)>(broad: seq<Order<W>>): seq<Order<W>> {
    if |broad| == 0 || WindowEndOverflows(EarliestInstant(broad)) then []
    else NoLaterThan(broad, EarliestInstant(broad) + WindowSeconds)
  }

  /** The written orders are a selection of the broad result, in its order; none when nothing matched or the window end overflows. */
  lemma WindowIsSelection<W(!new)>(broad: seq<Order<W>>)
    ensures IsSubsequence(WindowOrders(broad), broad)
    ensures |broad| == 0 ==> WindowOrders(broad) == []
    ensures |broad| > 0 && WindowEndOverflows(EarliestInstant(broad)) ==> WindowOrders(broad) == []
  {
    if |broad| == 0 || WindowEndOverflows(EarliestInstant(broad)) {
      EmptyIsSubsequence(broad);
    }
  }

  /**
   Without overflow, an order of the broad result is written exactly when it is
   delivered no later than 30 minutes after the earliest one, as often as it
   occurs there; the earliest is always written and every written order lies in
   [earliest, earliest + 30 min].
   */
  lemma WindowContents<W(!new)>(broad: seq<Order<W>>)
    requires |broad| > 0 && !WindowEndOverflows(EarliestInstant(broad))
    ensures var m := EarliestInstant(broad); var r := WindowOrders(broad);
      && (forall o :: o in r <==> o in broad && Instant(o.time) <= m + WindowSeconds)
      && (forall o :: multiset(r)[o] == if Instant(o.time) <= m + WindowSeconds then multiset(broad)[o] else 0)
    ensures var m := EarliestInstant(broad); var r := WindowOrders(broad);
      && (exists i :: 0 <= i < |r| && Instant(r[i].time) == m)
      && (forall i :: 0 <= i < |r| ==> m <= Instant(r[i].time) <= m + WindowSeconds)
  {
    var m := EarliestInstant(broad);
    var r := WindowOrders(broad);
    var k :| 0 <= k < |broad| && Instant(broad[k].time) == m;
    assert broad[k] in r;
    forall i | 0 <= i < |r| ensures m <= Instant(r[i].time) {
      assert r[i] in broad;
    }
  }

  /** Any two of the orders are delivered at most 30 minutes apart. */
  predicate WithinOneWindow<W>(r: seq<Order<W>>) {
    forall i, j :: 0 <= i < |r| && 0 <= j < |r| ==> Instant(r[i].time) <= Instant(r[j].time) + WindowSeconds
  }

  /** Every written order comes from the selection, and any two written orders are at most 30 minutes apart. */
  lemma WindowSpan<W(!new)>(broad: seq<Order<W>>)
    ensures forall o :: o in WindowOrders(broad) ==> o in broad
    ensures WithinOneWindow(WindowOrders(broad))
  {
    if |broad| > 0 && !WindowEndOverflows(EarliestInstant(broad)) {
      WindowContents(broad);
    }
  }

  /** The lines of a result file holding `rows`: the header, then one rendered row per order. */
  function RenderFile<W>(rows: seq<Order<W>>, wc: WeightCodec<W>): seq<string> {
    [Header] + seq(|rows|, i requires 0 <= i < |rows| => RenderRow(rows[i], wc))
  }

  /**
   Reading a result file back with the loader gives the orders it was written
   from, in order, with no line rejected.
   */
  lemma FileReloads<W(!new)>(rows: seq<Order<W>>, wc: WeightCodec<W>)
    requires RoundTrips(wc)
    requires forall i :: 0 <= i < |rows| ==> WellFormed(rows[i])
    ensures LoadOrders(RenderFile(rows, wc), wc) == Loaded(rows, [])
  {
    var lines := RenderFile(rows, wc);
    var body := lines[1..];
    forall i | 0 <= i < |rows|
      ensures ParseOrder(body[i], wc) == Parsed(rows[i])
    {
      RowRoundTrip(rows[i], wc);
    }
    FilterAll(body, l => Accepted(l, wc));
    FilterPartition(body, l => Accepted(l, wc), l => !Accepted(l, wc));
    var loaded := LoadOrders(lines, wc);
    assert loaded.orders == rows;
  }

  /** The lines `SaveFilteredOrders` writes for the broad selection `broad`. */
  function ResultLines<W(!new)>(broad: seq<Order<W>>, wc: WeightCodec<W>): seq<string> {
    RenderFile(WindowOrders(broad), wc)
  }

  /**
   The result file for well-formed orders reads back as exactly the window's
   orders: the header is skipped and every row is accepted.
   */
  lemma ResultFileReloads<W(!new)>(broad: seq<Order<W>>, wc: WeightCodec<W>)
    requires RoundTrips(wc)
    requires forall i :: 0 <= i < |broad| ==> WellFormed(broad[i])
    ensures LoadOrders(ResultLines(broad, wc), wc) == Loaded(WindowOrders(broad), [])
  {
    var window := WindowOrders(broad);
    if |broad| > 0 && !WindowEndOverflows(EarliestInstant(broad)) {
      WindowContents(broad);
    }
    forall i | 0 <= i < |window| ensures WellFormed(window[i]) {
      assert window[i] in broad;
    }
    FileReloads(window, wc);
  }

  /** Unless the window end overflows, a non-empty selection puts at least one row under the header. */
  lemma SomethingWritten<W(!new)>(broad: seq<Order<W>>, wc: WeightCodec<W>)
    requires |broad| > 0 && !WindowEndOverflows(EarliestInstant(broad))
    ensures |ResultLines(broad, wc)| > 1
  {
    WindowContents(broad);
  }

  /**
   What the result file holds, read back: orders of the selection only, any two
   of them at most 30 minutes apart, and no rejected line.
   */
  lemma ResultFileContents<W(!new)>(broad: seq<Order<W>>, wc: WeightCodec<W>)
    requires RoundTrips(wc)
    requires forall i :: 0 <= i < |broad| ==> WellFormed(broad[i])
    ensures var written := LoadOrders(ResultLines(broad, wc), wc);
      && written.failed == []
      && (forall o :: o in written.orders ==> o in broad)
      && WithinOneWindow(written.orders)
  {
    var written := LoadOrders(ResultLines(broad, wc), wc);
    ResultFileReloads(broad, wc);
    var window := WindowOrders(broad);
    assert written.orders == window;
    WindowSpan(broad);
  }
}
