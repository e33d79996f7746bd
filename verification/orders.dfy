/**
 Delivery orders and the CSV side of the program: reading one line into an
 order (`TryParseOrder`), loading a whole file body (`LoadOrders`), and the row
 a filtered order is written back as (`SaveFilteredOrders`).
 */
module Orders {
  import opened Options
  import opened Seqs
  import opened Text
  import opened Numbers
  import opened Calendar

  /** One delivery record. The weight is an opaque value of type `W` (a `double` in the program). */
  datatype Order<W> = Order(id: int, weight: W, district: string, time: ValidDateTime)

  /**
   How weights are read and written: `double.TryParse`, `double.ToString()`, and
   the 0 that a failed `double.TryParse` (or the variable's initialiser) leaves behind.
   */
  datatype WeightCodec<!W> = WeightCodec(parse: string -> Option<W>, render: W -> string, zero: W)

  /** The weight codec reads back what it writes and never writes a comma. */
  ghost predicate RoundTrips<W(!new)>(c: WeightCodec<W>) {
    forall w :: c.parse(c.render(w)) == Some(w) && ',' !in c.render(w)
  }

  /** What every order the parser produces looks like. */
  ghost predicate WellFormed<W>(o: Order<W>) {
    && IsInt32(o.id)
    && ',' !in o.district
    && Trim(o.district) == o.district
  }

  /** The outcome of `TryParseOrder`, with its two logged failure kinds kept apart. */
  datatype ParseOutcome<W> = Parsed(order: Order<W>) | WrongFieldCount | Unparsable

  /** The CSV header the program writes; the loader skips the first line without looking at it. */
  const Header: string := "OrderId,Weight,District,DeliveryTime"

  /**
   `TryParseOrder`: split on `,` and insist on exactly four fields; try id,
   weight and a seconds-precision timestamp together (`&&` short-circuits, so a
   bad id means the weight is never read); failing that, try a minute-precision
   timestamp and keep whatever id and weight the first attempt produced.
   */
  function ParseOrder<W(!new)>(line: string, wc: WeightCodec<W>): (r: ParseOutcome<W>)
    ensures r.WrongFieldCount? <==> Occurrences(line, ',') != 3
    ensures r.Parsed? ==> WellFormed(r.order) && r.order.district == Trim(Split(line, ',')[2])
    ensures r.Parsed? ==>
      ParseWithSeconds(Split(line, ',')[3]) == Some(r.order.time)
      || ParseWithMinutes(Split(line, ',')[3]) == Some(r.order.time)
    ensures
      var f := Split(line, ',');
      |f| == 4 && ParseInt32(f[0]).Some? && wc.parse(f[1]).Some? && ParseWithSeconds(f[3]).Some?
      ==> r == Parsed(Order(ParseInt32(f[0]).value, wc.parse(f[1]).value, Trim(f[2]), ParseWithSeconds(f[3]).value))
    ensures
      var f := Split(line, ',');
      |f| == 4 && !(ParseInt32(f[0]).Some? && wc.parse(f[1]).Some? && ParseWithSeconds(f[3]).Some?)
      ==> (r.Parsed? <==> ParseWithMinutes(f[3]).Some?)
          && (r.Parsed? ==> r.order.id == ParseInt32(f[0]).GetOr(0) && r.order.time == ParseWithMinutes(f[3]).value)
          && (r.Parsed? ==> r.order.weight == if ParseInt32(f[0]).Some? then wc.parse(f[1]).GetOr(wc.zero) else wc.zero)
  {
    var f := Split(line, ',');
    if |f| != 4 then WrongFieldCount
    else
      var district := Trim(f[2]);
      assert ',' !in district by {
        assert ',' !in f[2];
      }
      TrimIdempotent(f[2]);
      var id := ParseInt32(f[0]);
      var weight := if id.Some? then wc.parse(f[1]) else None;
      var time := if weight.Some? then ParseWithSeconds(f[3]) else None;
      if id.Some? && weight.Some? && time.Some? then
        Parsed(Order(id.value, weight.value, district, time.value))
      else
        match ParseWithMinutes(f[3])
        case Some(t) => Parsed(Order(id.GetOr(0), weight.GetOr(wc.zero), district, t))
        case None => Unparsable
  }

  /**
   An unreadable id does not lose the line when the time has minute precision:
   the order is kept with id 0 and the zero weight, whatever the weight field says.
   */
  lemma UnreadableIdFallsBackToZero<W(!new)>(id: string, weight: string, district: string, time: string, wc: WeightCodec<W>)
    requires ',' !in id && ',' !in weight && ',' !in district && ',' !in time
    requires ParseInt32(id).None? && ParseWithMinutes(time).Some?
    ensures ParseOrder(Join([id, weight, district, time], ','), wc)
         == Parsed(Order(0, wc.zero, Trim(district), ParseWithMinutes(time).value))
  {
    var fields := [id, weight, district, time];
    assert forall k :: 0 <= k < |fields| ==> ',' !in fields[k];
    SplitJoin(fields, ',');
  }

  /**
   An unreadable id loses the line when the time has second precision: the
   first attempt stops at the id and the minute format refuses the time.
   */
  lemma UnreadableIdWithSecondsIsRejected<W(!new)>(id: string, weight: string, district: string, time: string, wc: WeightCodec<W>)
    requires ',' !in id && ',' !in weight && ',' !in district && ',' !in time
    requires ParseInt32(id).None? && ParseWithSeconds(time).Some?
    ensures ParseOrder(Join([id, weight, district, time], ','), wc) == Unparsable
  {
    var fields := [id, weight, district, time];
    assert forall k :: 0 <= k < |fields| ==> ',' !in fields[k];
    SplitJoin(fields, ',');
  }

  /** The line is turned into an order. */
  predicate Accepted<W(!new)>(line: string, wc: WeightCodec<W>) {
    ParseOrder(line, wc).Parsed?
  }

  /** What `LoadOrders` returns (the orders) and remembers for its log (the failed lines). */
  datatype Loaded<W> = Loaded(orders: seq<Order<W>>, failed: seq<string>)

  /** The `foreach` of `LoadOrders` over the lines after the header. */
  function LoadBody<W(!new)>(lines: seq<string>, wc: WeightCodec<W>): (r: Loaded<W>)
    ensures r.failed == Filter(lines, l => !Accepted(l, wc))
    ensures |r.orders| == |Filter(lines, l => Accepted(l, wc))|
    ensures forall i :: 0 <= i < |r.orders| ==>
      ParseOrder(Filter(lines, l => Accepted(l, wc))[i], wc) == Parsed(r.orders[i])
    decreases |lines|
  {
    if |lines| == 0 then Loaded([], [])
    else
      var init := lines[..|lines| - 1];
      var line := lines[|lines| - 1];
      assert lines == init + [line];
      FilterSnoc(init, line, l => Accepted(l, wc));
      FilterSnoc(init, line, l => !Accepted(l, wc));
      var prev := LoadBody(init, wc);
      if Accepted(line, wc) then
        var r := Loaded(prev.orders + [ParseOrder(line, wc).order], prev.failed);
        assert Filter(lines, l => Accepted(l, wc)) == Filter(init, l => Accepted(l, wc)) + [line];
        r
      else
        Loaded(prev.orders, prev.failed + [line])
  }

  /**
   `LoadOrders` on the lines of a readable file: the first line is skipped, every
   other line lands in exactly one of the two lists, and both lists keep file order.
   */
  function LoadOrders<W(!new)>(fileLines: seq<string>, wc: WeightCodec<W>): (r: Loaded<W>)
    ensures var body := if |fileLines| == 0 then [] else fileLines[1..];
      && r.failed == Filter(body, l => !Accepted(l, wc))
      && |r.orders| == |Filter(body, l => Accepted(l, wc))|
      && (forall i :: 0 <= i < |r.orders| ==> ParseOrder(Filter(body, l => Accepted(l, wc))[i], wc) == Parsed(r.orders[i]))
      && |r.orders| + |r.failed| == |body|
    ensures forall i :: 0 <= i < |r.orders| ==> WellFormed(r.orders[i])
  {
    var body := if |fileLines| == 0 then [] else fileLines[1..];
    var r := LoadBody(body, wc);
    FilterPartition(body, l => Accepted(l, wc), l => !Accepted(l, wc));
    r
  }

  /** The row `SaveFilteredOrders` writes for an order. */
  function RenderRow<W>(o: Order<W>, wc: WeightCodec<W>): string
  {
    Join([Int32ToString(o.id), wc.render(o.weight), o.district, FormatWithSeconds(o.time)], ',')
  }

  /** A row splits back into the four fields it was joined from. */
  lemma RowFields<W(!new)>(o: Order<W>, wc: WeightCodec<W>)
    requires RoundTrips(wc)
    requires WellFormed(o)
    ensures Split(RenderRow(o, wc), ',') == [Int32ToString(o.id), wc.render(o.weight), o.district, FormatWithSeconds(o.time)]
  {
    var fields := [Int32ToString(o.id), wc.render(o.weight), o.district, FormatWithSeconds(o.time)];
    assert ',' !in fields[0] by {
      ParseInt32RoundTrip(o.id);
    }
    assert ',' !in fields[3] by {
      FormatThenParse(o.time);
    }
    assert ',' !in fields[1];
    assert forall k :: 0 <= k < |fields| ==> ',' !in fields[k];
    SplitJoin(fields, ',');
  }

  /**
   Every written row is read back by the order parser, through its first
   (seconds-precision) branch, as the very order it was written from.
   */
  lemma RowRoundTrip<W(!new)>(o: Order<W>, wc: WeightCodec<W>)
    requires RoundTrips(wc)
    requires WellFormed(o)
    ensures ParseOrder(RenderRow(o, wc), wc) == Parsed(o)
  {
    RowFields(o, wc);
    ParseInt32RoundTrip(o.id);
    FormatThenParse(o.time);
    assert wc.parse(wc.render(o.weight)) == Some(o.weight);
  }

  /** Any order the parser produced survives being written and read again. */
  lemma ParsedOrderRoundTrip<W(!new)>(line: string, wc: WeightCodec<W>)
    requires RoundTrips(wc)
    requires ParseOrder(line, wc).Parsed?
    ensures ParseOrder(RenderRow(ParseOrder(line, wc).order, wc), wc) == ParseOrder(line, wc)
  {
    RowRoundTrip(ParseOrder(line, wc).order, wc);
  }
}
