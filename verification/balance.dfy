// How unevenly servers are loaded: check_hbase_table_region_balance.py,
// check_hadoop_hdfs_balance.py and check_hadoop_datanodes_block_balance.py. Percentages
// are exact; the two decimals they are printed with are not modelled.
module Balance {
  import opened Sums
  import opened Text

  type Counts = map<string, int>

  datatype Failure = NoRegions | MissingServer | NoDatanodes | NotAnInteger | MaxBelowMin

  // ------------------------------------------------------------- minimum, maximum

  ghost predicate IsMin(m: Counts, x: int) {
    (exists k :: k in m && m[k] == x) && forall k :: k in m ==> x <= m[k]
  }

  ghost predicate IsMax(m: Counts, x: int) {
    (exists k :: k in m && m[k] == x) && forall k :: k in m ==> m[k] <= x
  }

  ghost predicate AllEqual(m: Counts) {
    forall k, l :: k in m && l in m ==> m[k] == m[l]
  }

  // Relative to the larger of the maximum and 1
  function BelowMax(lo: int, hi: int): real {
    (hi - lo) as real / Max(hi, 1) as real * 100.0
  }

  // Relative to the larger of the minimum and 1
  function AboveMin(lo: int, hi: int): real {
    (hi - lo) as real / Max(lo, 1) as real * 100.0
  }

  // ------------------------------------------------------ regions of HBase tables

  datatype Region = Region(server: Option<string>)

  function CountOne(c: Counts, server: string): Counts {
    c[server := Counter(c)(server) + 1]
  }

  function CountRegions(c: Counts, regions: seq<Region>): Counts {
    if regions == [] then c else
    var front := CountRegions(c, regions[..|regions| - 1]);
    match regions[|regions| - 1].server
    case None => front
    case Some(server) => CountOne(front, server)
  }

  // The number of regions a server holds, of a table and of several tables
  function RegionsOn(regions: seq<Region>, server: string): nat {
    if regions == [] then 0 else
    RegionsOn(regions[..|regions| - 1], server) + if regions[|regions| - 1].server == Some(server) then 1 else 0
  }

  function RegionsOnAll(tables: seq<seq<Region>>, server: string): nat {
    if tables == [] then 0
    else RegionsOnAll(tables[..|tables| - 1], server) + RegionsOn(tables[|tables| - 1], server)
  }

  // Every region is counted for the server it names.
  lemma {:induction false} RegionsCounted(c: Counts, regions: seq<Region>, server: string)
    ensures Counter(CountRegions(c, regions))(server) == Counter(c)(server) + RegionsOn(regions, server)
    ensures server in CountRegions(c, regions) <==> server in c || RegionsOn(regions, server) > 0
  {
    if regions != [] {
      RegionsCounted(c, regions[..|regions| - 1], server);
    }
  }

  lemma {:induction false} AllRegionsCounted(c: Counts, tables: seq<seq<Region>>, server: string)
    ensures Counter(CountTables(c, tables))(server) == Counter(c)(server) + RegionsOnAll(tables, server)
    ensures server in CountTables(c, tables) <==> server in c || RegionsOnAll(tables, server) > 0
  {
    hide CountRegions, RegionsOn;
    if tables != [] {
      AllRegionsCounted(c, tables[..|tables| - 1], server);
      RegionsCounted(CountTables(c, tables[..|tables| - 1]), tables[|tables| - 1], server);
    }
  }

  predicate Complete(regions: seq<Region>) {
    forall i :: 0 <= i < |regions| ==> regions[i].server.Some?
  }

  predicate AllTablesComplete(tables: seq<seq<Region>>) {
    forall i :: 0 <= i < |tables| ==> tables[i] != [] && Complete(tables[i])
  }

  function CountTables(c: Counts, tables: seq<seq<Region>>): Counts {
    if tables == [] then c else CountRegions(CountTables(c, tables[..|tables| - 1]), tables[|tables| - 1])
  }

  function TotalRegions(tables: seq<seq<Region>>): nat {
    if tables == [] then 0 else TotalRegions(tables[..|tables| - 1]) + |tables[|tables| - 1]|
  }

  class CheckHBaseTableRegionBalance {
    var serverRegionCounts: Counts
    var serverMinRegions: (Option<string>, int)
    var serverMaxRegions: (Option<string>, int)

    constructor ()
      ensures serverRegionCounts == map[] && serverMinRegions == (None, 0) && serverMaxRegions == (None, 0)
    {
      serverRegionCounts, serverMinRegions, serverMaxRegions := map[], (None, 0), (None, 0);
    }

    method ProcessTable(regions: seq<Region>) returns (failure: Option<Failure>)
      modifies `serverRegionCounts
      ensures failure.None? <==> regions != [] && Complete(regions)
      ensures failure.None? ==> serverRegionCounts == CountRegions(old(serverRegionCounts), regions)
      ensures failure.None? ==>
                forall s ::
                  Counter(serverRegionCounts)(s) == Counter(old(serverRegionCounts))(s) + RegionsOn(regions, s)
    {
      if |regions| < 1 {
        return Some(NoRegions);
      }
      for i := 0 to |regions|
        invariant Complete(regions[..i])
        invariant serverRegionCounts == CountRegions(old(serverRegionCounts), regions[..i])
      {
        assert regions[..i + 1][..i] == regions[..i] && regions[..i + 1][i] == regions[i];
        match regions[i].server {
          case None =>
            return Some(MissingServer);
          case Some(server) =>
            serverRegionCounts :=
                serverRegionCounts[server := if server in serverRegionCounts then serverRegionCounts[server] else 0];
            serverRegionCounts := serverRegionCounts[server := serverRegionCounts[server] + 1];
        }
      }
      assert regions[..|regions|] == regions;
      forall s ensures Counter(serverRegionCounts)(s) == Counter(old(serverRegionCounts))(s) + RegionsOn(regions, s) {
        RegionsCounted(old(serverRegionCounts), regions, s);
      }
      return None;
    }

    method ProcessTables(tables: seq<seq<Region>>) returns (failure: Option<Failure>)
      modifies `serverRegionCounts
      ensures failure.None? <==> AllTablesComplete(tables)
      ensures failure.None? ==> serverRegionCounts == CountTables(old(serverRegionCounts), tables)
      ensures failure.None? ==>
                forall s ::
                  Counter(serverRegionCounts)(s) == Counter(old(serverRegionCounts))(s) + RegionsOnAll(tables, s)
    {
      for i := 0 to |tables|
        invariant AllTablesComplete(tables[..i])
        invariant serverRegionCounts == CountTables(old(serverRegionCounts), tables[..i])
      {
        assert tables[..i + 1][..i] == tables[..i] && tables[..i + 1][i] == tables[i];
        failure := ProcessTable(tables[i]);
        if failure.Some? {
          return;
        }
      }
      assert tables[..|tables|] == tables;
      forall s ensures Counter(serverRegionCounts)(s) == Counter(old(serverRegionCounts))(s) + RegionsOnAll(tables, s) {
        AllRegionsCounted(old(serverRegionCounts), tables, s);
      }
      return None;
    }

    // Whatever order the servers come in, the scan finds the smallest and the largest
    // count.
    method CalculateImbalance() returns (imbalance: real)
      requires serverMinRegions == (None, 0) && serverMaxRegions == (None, 0)
      modifies `serverMinRegions, `serverMaxRegions
      ensures imbalance == BelowMax(serverMinRegions.1, serverMaxRegions.1)
      ensures serverRegionCounts == map[] ==> imbalance == 0.0
      ensures serverRegionCounts != map[] ==>
                && IsMin(serverRegionCounts, serverMinRegions.1) && IsMax(serverRegionCounts, serverMaxRegions.1)
                && Holds(serverRegionCounts, serverMinRegions) && Holds(serverRegionCounts, serverMaxRegions)
    {
      hide BelowMax, IsMin, IsMax;
      var counts := serverRegionCounts;
      var rest := counts.Keys;
      while rest != {}
        invariant rest <= counts.Keys && serverRegionCounts == counts
        invariant rest == counts.Keys ==> serverMinRegions == serverMaxRegions == (None, 0)
        invariant rest != counts.Keys ==> Holds(counts, serverMinRegions) && Holds(counts, serverMaxRegions)
        invariant forall k :: k in counts && k !in rest ==> serverMinRegions.1 <= counts[k] <= serverMaxRegions.1
        decreases |rest|
      {
        var server :| server in rest;
        rest := rest - {server};
        var numRegions := counts[server];
        if serverMaxRegions.0 == None || numRegions > serverMaxRegions.1 {
          serverMaxRegions := (Some(server), numRegions);
        }
        if serverMinRegions.0 == None || numRegions < serverMinRegions.1 {
          serverMinRegions := (Some(server), numRegions);
        }
      }
      imbalance := BelowMax(serverMinRegions.1, serverMaxRegions.1);
      NoImbalance();
      if counts != map[] {
        ScanEnds(counts, serverMinRegions, serverMaxRegions);
      }
    }
  }

  lemma NoImbalance()
    ensures BelowMax(0, 0) == 0.0
  {
  }

  lemma ScanEnds(m: Counts, least: (Option<string>, int), most: (Option<string>, int))
    requires Holds(m, least) && Holds(m, most)
    requires forall k :: k in m ==> least.1 <= m[k] <= most.1
    ensures IsMin(m, least.1) && IsMax(m, most.1)
  {
  }

  // A named server with its count
  predicate Holds(m: Counts, entry: (Option<string>, int)) {
    entry.0.Some? && entry.0.value in m && m[entry.0.value] == entry.1
  }

  // ------------------------------------------------------------- conservation

  lemma {:induction false} CountsSum(c: Counts, regions: seq<Region>)
    requires Complete(regions)
    ensures var c' := CountRegions(c, regions); Sum(c'.Keys, Counter(c')) == Sum(c.Keys, Counter(c)) + |regions|
  {
    hide Sum;
    if regions != [] {
      CountsSum(c, regions[..|regions| - 1]);
      SumIncrement(CountRegions(c, regions[..|regions| - 1]), regions[|regions| - 1].server.value);
    }
  }

  predicate Positive(c: Counts) {
    forall k :: k in c ==> c[k] >= 1
  }

  lemma {:induction false} CountsPositive(c: Counts, regions: seq<Region>)
    requires Positive(c)
    ensures Positive(CountRegions(c, regions))
  {
    if regions != [] {
      CountsPositive(c, regions[..|regions| - 1]);
    }
  }

  // The counts of all servers add up to the regions of all tables, and every server
  // listed has at least one.
  lemma {:induction false} RegionsConserved(tables: seq<seq<Region>>)
    requires AllTablesComplete(tables)
    ensures var c := CountTables(map[], tables);
            && Sum(c.Keys, Counter(c)) == TotalRegions(tables)
            && Positive(c)
  {
    hide Sum;
    if tables == [] {
      var none: Counts := map[];
      assert none.Keys == {};
      SumZero({}, Counter(none));
    } else {
      var front := tables[..|tables| - 1];
      RegionsConserved(front);
      CountsSum(CountTables(map[], front), tables[|tables| - 1]);
      CountsPositive(CountTables(map[], front), tables[|tables| - 1]);
    }
  }

  // ----------------------------------------------------------- the percentages

  lemma Quotient(n: int, d: int)
    requires d > 0
    ensures n >= 0 <==> n as real / d as real >= 0.0
    ensures n == 0 <==> n as real / d as real == 0.0
    ensures n <= d <==> n as real / d as real <= 1.0
    ensures n < d <==> n as real / d as real < 1.0
  {
    var q := n as real / d as real;
    assert q * d as real == n as real;
    SignOf(q, d as real);
    SignOf(q - 1.0, d as real);
    assert (q - 1.0) * d as real == (n - d) as real;
  }

  lemma SignOf(x: real, d: real)
    requires d > 0.0
    ensures x * d >= 0.0 <==> x >= 0.0
    ensures x * d == 0.0 <==> x == 0.0
  {
  }

  // Region imbalance: from 0, when all servers are equal, to less than 100.
  lemma RegionImbalance(m: Counts, lo: int, hi: int)
    requires IsMin(m, lo) && IsMax(m, hi)
    requires Positive(m)
    ensures 0.0 <= BelowMax(lo, hi) < 100.0
    ensures BelowMax(lo, hi) == 0.0 <==> AllEqual(m)
  {
  }

  // The counts of a set of servers, those without a region included
  function AllCounts(m: Counts, servers: set<string>): Counts {
    map s | s in servers :: Counter(m)(s)
  }

  // Servers without a region are not counted. Over all servers the imbalance is the one
  // reported exactly when every server holds a region; otherwise it is 100.
  lemma IdleServers(m: Counts, servers: set<string>, lo: int, hi: int, lo': int, hi': int)
    requires IsMin(m, lo) && IsMax(m, hi) && Positive(m) && m.Keys <= servers
    requires IsMin(AllCounts(m, servers), lo') && IsMax(AllCounts(m, servers), hi')
    ensures BelowMax(lo', hi') == BelowMax(lo, hi) <==> servers == m.Keys
    ensures servers != m.Keys ==> BelowMax(lo', hi') == 100.0
  {
    hide BelowMax;
    var all := AllCounts(m, servers);
    var top :| top in m && m[top] == hi;
    assert all[top] == hi && hi' == hi;
    if servers == m.Keys {
      assert all == m;
    } else {
      assert servers - m.Keys != {} by { assert servers == m.Keys + (servers - m.Keys); }
      var idle :| idle in servers - m.Keys;
      assert all[idle] == 0 && lo' == 0;
      Whole(hi);
      RegionImbalance(m, lo, hi);
    }
  }

  lemma Whole(hi: int)
    requires hi >= 1
    ensures BelowMax(0, hi) == 100.0
  {
    assert hi as real / hi as real == 1.0;
  }

  // What the percentages are: the difference in hundredths of the larger figure, or of 1
  // when that is not positive, and likewise of the smaller one.
  lemma PercentageOf(lo: int, hi: int)
    ensures hi >= 1 ==> BelowMax(lo, hi) * hi as real == 100.0 * (hi - lo) as real
    ensures hi < 1 ==> BelowMax(lo, hi) == 100.0 * (hi - lo) as real
    ensures lo >= 1 ==> AboveMin(lo, hi) * lo as real == 100.0 * (hi - lo) as real
    ensures lo < 1 ==> AboveMin(lo, hi) == 100.0 * (hi - lo) as real
  {
    if hi >= 1 { Whole100((hi - lo) as real, hi as real); }
    if lo >= 1 { Whole100((hi - lo) as real, lo as real); }
  }

  lemma Whole100(x: real, d: real)
    requires d > 0.0
    ensures x / d * 100.0 * d == 100.0 * x
  {
    assert x / d * d == x;
  }

  lemma MinIsMax(m: Counts, lo: int, hi: int)
    requires IsMin(m, lo) && IsMax(m, hi)
    ensures lo <= hi
    ensures lo == hi <==> AllEqual(m)
  {
  }

  // -------------------------------------------------------- datanodes of HDFS

  // The figures by datanode; None where the value is not an integer.
  type Figures = map<string, Option<int>>

  predicate AllIntegers(f: Figures) {
    forall k :: k in f ==> f[k].Some?
  }

  function Values(f: Figures): Counts
    requires AllIntegers(f)
  {
    map k | k in f :: f[k].value
  }

  datatype Balanced = Balanced(lo: int, hi: int, imbalance: real)

  // parse_json of the space check: the maximum starts at 0.
  method SpaceImbalance(used: Figures) returns (r: Result<Balanced, Failure>)
    ensures r.Err? ==>
              && (r.error == NoDatanodes <==> used == map[])
              && (r.error == NotAnInteger <==> used != map[] && !AllIntegers(used))
    ensures r.Ok? <==> used != map[] && AllIntegers(used)
    ensures r.Ok? ==>
              && IsMin(Values(used), r.value.lo) && r.value.lo <= r.value.hi
              && (exists x :: IsMax(Values(used), x) && r.value.hi == Max(x, 0))
              && r.value.imbalance == BelowMax(r.value.lo, r.value.hi)
  {
    if |used| < 1 {
      return Err(NoDatanodes);
    }
    var minSpace: Option<int> := None;
    var maxSpace := 0;
    var rest := used.Keys;
    while rest != {}
      invariant rest <= used.Keys
      invariant forall k :: k in used && k !in rest ==> used[k].Some?
      invariant minSpace.None? <==> rest == used.Keys
      invariant minSpace.None? ==> maxSpace == 0
      invariant minSpace.Some? ==> exists k :: k in used && k !in rest && used[k] == minSpace
      invariant minSpace.Some? ==> forall k :: k in used && k !in rest ==> minSpace.value <= used[k].value <= maxSpace
      invariant maxSpace >= 0
      invariant maxSpace == 0 || exists k :: k in used && k !in rest && used[k] == Some(maxSpace)
      decreases |rest|
    {
      var datanode :| datanode in rest;
      rest := rest - {datanode};
      if used[datanode].None? {
        return Err(NotAnInteger);
      }
      var usedSpace := used[datanode].value;
      if minSpace.None? || usedSpace < minSpace.value {
        minSpace := Some(usedSpace);
      }
      if usedSpace > maxSpace {
        maxSpace := usedSpace;
      }
    }
    var divisor := maxSpace;
    if divisor < 1 {
      divisor := 1;
    }
    if maxSpace < minSpace.value {
      return Err(MaxBelowMin);
    }
    ScannedMin(used, minSpace.value);
    ScannedMax(used, maxSpace);
    return Ok(Balanced(minSpace.value, maxSpace, (maxSpace - minSpace.value) as real / divisor as real * 100.0));
  }

  // parse_json of the block check: relative to the minimum.
  method BlockImbalance(blocks: Figures) returns (r: Result<Balanced, Failure>)
    ensures r.Err? ==>
              && (r.error == NoDatanodes <==> blocks == map[])
              && (r.error == NotAnInteger <==> blocks != map[] && !AllIntegers(blocks))
    ensures r.Ok? <==> blocks != map[] && AllIntegers(blocks)
    ensures r.Ok? ==>
              && IsMin(Values(blocks), r.value.lo) && r.value.lo <= r.value.hi
              && (exists x :: IsMax(Values(blocks), x) && r.value.hi == Max(x, 0))
              && r.value.imbalance == AboveMin(r.value.lo, r.value.hi)
  {
    if |blocks| < 1 {
      return Err(NoDatanodes);
    }
    var maxBlocks := 0;
    var minBlocks: Option<int> := None;
    var rest := blocks.Keys;
    while rest != {}
      invariant rest <= blocks.Keys
      invariant forall k :: k in blocks && k !in rest ==> blocks[k].Some?
      invariant minBlocks.None? <==> rest == blocks.Keys
      invariant minBlocks.None? ==> maxBlocks == 0
      invariant minBlocks.Some? ==> exists k :: k in blocks && k !in rest && blocks[k] == minBlocks
      invariant minBlocks.Some? ==> forall k :: k in blocks && k !in rest ==>
          minBlocks.value <= blocks[k].value <= maxBlocks
      invariant maxBlocks >= 0
      invariant maxBlocks == 0 || exists k :: k in blocks && k !in rest && blocks[k] == Some(maxBlocks)
      decreases |rest|
    {
      var datanode :| datanode in rest;
      rest := rest - {datanode};
      if blocks[datanode].None? {
        return Err(NotAnInteger);
      }
      var count := blocks[datanode].value;
      if count > maxBlocks {
        maxBlocks := count;
      }
      if minBlocks.None? || count < minBlocks.value {
        minBlocks := Some(count);
      }
    }
    var divisor := minBlocks.value;
    if minBlocks.value < 1 {
      divisor := 1;
    }
    ScannedMin(blocks, minBlocks.value);
    ScannedMax(blocks, maxBlocks);
    return Ok(Balanced(minBlocks.value, maxBlocks, (maxBlocks - minBlocks.value) as real / divisor as real * 100.0));
  }

  lemma ScannedMin(f: Figures, lo: int)
    requires AllIntegers(f)
    requires exists k :: k in f && f[k] == Some(lo)
    requires forall k :: k in f ==> lo <= f[k].value
    ensures IsMin(Values(f), lo)
  {
    var k :| k in f && f[k] == Some(lo);
    assert k in Values(f) && Values(f)[k] == lo;
  }

  // What a scan that starts at 0 ends with
  lemma ScannedMax(f: Figures, hi: int)
    requires AllIntegers(f) && f != map[] && hi >= 0
    requires forall k :: k in f ==> f[k].value <= hi
    requires hi == 0 || exists k :: k in f && f[k] == Some(hi)
    ensures exists x :: IsMax(Values(f), x) && hi == Max(x, 0)
  {
    var x := MaxExists(f, f.Keys);
    var l :| l in f && f[l].value == x;
    assert l in Values(f) && Values(f)[l] == x;
    assert IsMax(Values(f), x);
    if hi != 0 {
      var k :| k in f && f[k] == Some(hi);
    }
  }

  lemma {:induction false} MaxExists(f: Figures, ks: set<string>) returns (x: int)
    requires AllIntegers(f) && ks <= f.Keys && ks != {}
    ensures (exists k :: k in ks && f[k].value == x) && forall k :: k in ks ==> f[k].value <= x
  {
    var k :| k in ks;
    x := f[k].value;
    if ks != {k} {
      var y := MaxExists(f, ks - {k});
      if y > x {
        x := y;
      }
    }
  }

  // Space imbalance relative to the maximum: never negative, 0 exactly when all
  // datanodes use the same space and it is not negative, and at most 100 unless a
  // negative space is reported.
  lemma SpaceImbalanceBounds(m: Counts, lo: int, hi: int)
    requires IsMin(m, lo)
    requires exists x :: IsMax(m, x) && hi == Max(x, 0)
    ensures BelowMax(lo, hi) >= 0.0
    ensures BelowMax(lo, hi) == 0.0 <==> AllEqual(m) && lo >= 0
    ensures BelowMax(lo, hi) <= 100.0 <==> lo >= 0 || (hi == 0 && lo == -1)
  {
    var x :| IsMax(m, x) && hi == Max(x, 0);
    MinIsMax(m, lo, x);
    Quotient(hi - lo, Max(hi, 1));
  }

  // With at least one block everywhere the two measures describe the same ratio.
  lemma MeasuresAgree(lo: int, hi: int)
    requires 1 <= lo <= hi
    ensures (1.0 + AboveMin(lo, hi) / 100.0) * (1.0 - BelowMax(lo, hi) / 100.0) == 1.0
  {
    var a, b := lo as real, hi as real;
    var p, q := (hi - lo) as real / a, (hi - lo) as real / b;
    assert p * a == b - a && q * b == b - a;
    assert AboveMin(lo, hi) / 100.0 == p && BelowMax(lo, hi) / 100.0 == q;
    Ratio(a, b, p, q);
  }

  lemma Ratio(a: real, b: real, p: real, q: real)
    requires a > 0.0 && b > 0.0 && p * a == b - a && q * b == b - a
    ensures (1.0 + p) * (1.0 - q) == 1.0
  {
    assert (1.0 + p) * a == b;
    assert (1.0 - q) * b == a;
    Cancel(1.0 + p, 1.0 - q, a, b);
  }

  lemma Cancel(x: real, y: real, a: real, b: real)
    requires a > 0.0 && x * a == b && y * b == a
    ensures x * y == 1.0
  {
  }
}
