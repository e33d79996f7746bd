/**
 The data path of `Main` with the prompts taken as inputs: load the order file,
 select by district and interval, and write the result file.
 */
module Pipeline {
  import opened Text
  import opened Calendar
  import opened Orders
  import opened Filtering

  /** The lines of the result file for the given order file and user choices. */
  function Run<W(!new)>(fileLines: seq<string>, district: string, start: ValidDateTime, end: ValidDateTime,
                        wc: WeightCodec<W>): seq<string>
  {
    var loaded := LoadOrders(fileLines, wc);
    ResultLines(FilterOrders(loaded.orders, district, start, end), wc)
  }

  /**
   Whatever the result file holds is, read back, a list of orders that were
   loaded from the order file, match the district up to letter case, lie in
   [start, end], and lie within 30 minutes of one another; the result file
   has no line the loader would reject.
   */
  lemma RunWritesSelectedOrders<W(!new)>(fileLines: seq<string>, district: string,
                                         start: ValidDateTime, end: ValidDateTime, wc: WeightCodec<W>)
    requires RoundTrips(wc)
    ensures var written := LoadOrders(Run(fileLines, district, start, end, wc), wc);
      && written.failed == []
      && (forall o :: o in written.orders ==> o in LoadOrders(fileLines, wc).orders && InBroad(o, district, start, end))
      && WithinOneWindow(written.orders)
  {
    var orders := LoadOrders(fileLines, wc).orders;
    var broad := FilterOrders(orders, district, start, end);
    forall i | 0 <= i < |broad| ensures WellFormed(broad[i]) {
      assert broad[i] in orders;
    }
    assert Run(fileLines, district, start, end, wc) == ResultLines(broad, wc);
    ResultFileContents(broad, wc);
  }

  /**
   When some loaded order matches the district and interval, the selection is
   not empty, and the result file holds more than its header unless the window
   end passes `DateTime.MaxValue`.
   */
  lemma RunWritesSomethingWhenSomethingMatches<W(!new)>(fileLines: seq<string>, district: string,
                                                       start: ValidDateTime, end: ValidDateTime, wc: WeightCodec<W>)
    requires exists o :: o in LoadOrders(fileLines, wc).orders && InBroad(o, district, start, end)
    ensures var broad := FilterOrders(LoadOrders(fileLines, wc).orders, district, start, end);
      && |broad| > 0
      && (|Run(fileLines, district, start, end, wc)| > 1 || WindowEndOverflows(EarliestInstant(broad)))
  {
    var orders := LoadOrders(fileLines, wc).orders;
    var broad := FilterOrders(orders, district, start, end);
    var o :| o in orders && InBroad(o, district, start, end);
    assert o in broad;
    if !WindowEndOverflows(EarliestInstant(broad)) {
      SomethingWritten(broad, wc);
    }
  }
}
