/**
 The list of valid districts (`ExtractUniqueDistricts`) and the
 case-insensitive membership test the district prompt applies to it
 (`IsValidDistrict`).
 */
module Districts {
  import opened Seqs
  import opened Text
  import opened Orders

  /** Position of the first occurrence of `x` in `s`. */
  function FirstIndex<T(==)>(s: seq<T>, x: T): (i: nat)
    requires x in s
    ensures i < |s| && s[i] == x && x !in s[..i]
    decreases |s|
  {
    var init := s[..|s| - 1];
    if x in init then
      var i := FirstIndex(init, x);
      assert s[..i] == init[..i];
      i
    else
      assert s[..|s| - 1] == init;
      |s| - 1
  }

  /** LINQ `Distinct()`: each value once, at the place it first occurs. */
  function Distinct<T(==,!new)>(s: seq<T>): (r: seq<T>)
    ensures NoDuplicates(r)
    ensures forall x :: x in r <==> x in s
    ensures forall i, j :: 0 <= i < j < |r| ==> FirstIndex(s, r[i]) < FirstIndex(s, r[j])
    decreases |s|
  {
    if |s| == 0 then []
    else
      var init := s[..|s| - 1];
      var last := s[|s| - 1];
      assert s == init + [last];
      var d := Distinct(init);
      assert forall x :: x in init ==> FirstIndex(s, x) == FirstIndex(init, x) by {
        forall x | x in init ensures FirstIndex(s, x) == FirstIndex(init, x) {
          assert s[..|s| - 1] == init;
        }
      }
      if last in d then d
      else
        var r := d + [last];
        assert FirstIndex(s, last) == |s| - 1;
        assert forall i :: 0 <= i < |d| ==> FirstIndex(init, d[i]) < |init|;
        r
  }

  /** The districts of the orders, in order (LINQ `Select(o => o.District)`). */
  function DistrictsOf<W>(orders: seq<Order<W>>): seq<string> {
    seq(|orders|, i requires 0 <= i < |orders| => orders[i].district)
  }

  /**
   `ExtractUniqueDistricts`: every district of the orders exactly once
   (ordinal, case-sensitive comparison), listed in order of first appearance.
   */
  function ExtractUniqueDistricts<W>(orders: seq<Order<W>>): (r: seq<string>)
    ensures NoDuplicates(r)
    ensures forall d :: d in r <==> exists i :: 0 <= i < |orders| && orders[i].district == d
    ensures forall d :: d in r <==> d in DistrictsOf(orders)
    ensures forall i, j :: 0 <= i < j < |r| ==>
      FirstIndex(DistrictsOf(orders), r[i]) < FirstIndex(DistrictsOf(orders), r[j])
  {
    var ds := DistrictsOf(orders);
    assert forall d :: d in ds <==> exists i :: 0 <= i < |orders| && orders[i].district == d by {
      forall d | d in ds ensures exists i :: 0 <= i < |orders| && orders[i].district == d {
        var i :| 0 <= i < |ds| && ds[i] == d;
        assert orders[i].district == d;
      }
      forall i | 0 <= i < |orders| ensures orders[i].district in ds {
        assert ds[i] == orders[i].district;
      }
    }
    Distinct(ds)
  }

  /**
   `IsValidDistrict`: `validDistricts.Contains(district, StringComparer.OrdinalIgnoreCase)`.
   */
  function IsValidDistrict(valid: seq<string>, district: string): (b: bool)
    ensures b <==> exists i :: 0 <= i < |valid| && EqualsIgnoreCase(valid[i], district)
  {
    if |valid| == 0 then false
    else
      var b := EqualsIgnoreCase(valid[0], district) || IsValidDistrict(valid[1..], district);
      assert forall i :: 1 <= i < |valid| ==> valid[i] == valid[1..][i - 1];
      b
  }

  /**
   The district prompt accepts a name exactly when some loaded order carries that
   district up to letter case.
   */
  lemma ValidDistrictMeansSomeOrder<W>(orders: seq<Order<W>>, district: string)
    ensures IsValidDistrict(ExtractUniqueDistricts(orders), district)
      <==> exists i :: 0 <= i < |orders| && EqualsIgnoreCase(orders[i].district, district)
  {
    var valid := ExtractUniqueDistricts(orders);
    if IsValidDistrict(valid, district) {
      var k :| 0 <= k < |valid| && EqualsIgnoreCase(valid[k], district);
      assert valid[k] in valid;
    }
    if i :| 0 <= i < |orders| && EqualsIgnoreCase(orders[i].district, district) {
      var d := orders[i].district;
      assert d in valid;
      var k :| 0 <= k < |valid| && valid[k] == d;
    }
  }
}
