// check_hbase_write_spray.py with the parts of check_hbase_write.py and
// check_hbase_cell.py it inherits: one cell is written, read back and deleted for every
// column family and region of a table.
module HBaseProbe {
  import opened Text
  import opened HostOrder

  datatype Cell = Cell(row: string, column: string)

  type Contents = map<Cell, string>

  // --------------------------------------------------------- what the server does

  // A put or delete that returns has been applied; one that raises an error may have
  // been applied all the same.
  datatype Call = Done(ms: real) | Raised(applied: bool)

  datatype Reply = Returned(cells: seq<string>, ms: real) | NotAList | ReadRaised

  // The server's behaviour towards one probe: any outcome of the three calls, and any
  // cells in the reply
  datatype Attempt = Attempt(put: Call, read: Reply, delete: Call)

  // The probe of the j-th region in a family
  type Server = (string, nat) -> Attempt

  // ------------------------------------------------------------------ outcomes

  // Errors raised by the client library end in CRITICAL as well.
  datatype Outcome = Success | Critical | Unknown

  function ReadOutcome(regex: Option<string -> bool>, reply: Reply, expected: string): Outcome {
    match reply
    case ReadRaised => Critical
    case NotAList => Unknown
    case Returned(cells, _) =>
      if |cells| < 1 then Critical
      else if |cells| > 1 then Unknown
      else if regex.Some? && !regex.value(cells[0]) then Critical
      else if expected != "" && cells[0] != expected then Critical
      else Success
  }

  // A reply is UNKNOWN exactly when it is no list or has several cells, and a success
  // exactly when it is one cell that the pattern, if any, and the expected value, if any,
  // accept. Everything else is CRITICAL.
  lemma ReadOutcomeIs(regex: Option<string -> bool>, reply: Reply, expected: string)
    ensures ReadOutcome(regex, reply, expected) == Unknown <==>
              reply.NotAList? || (reply.Returned? && |reply.cells| > 1)
    ensures ReadOutcome(regex, reply, expected) == Success <==>
              && reply.Returned? && |reply.cells| == 1
              && (match regex case None => true case Some(test) => test(reply.cells[0]))
              && (expected == "" || reply.cells[0] == expected)
  {
  }

  // A probe succeeds exactly when all three calls do. Otherwise it is UNKNOWN exactly when
  // the put succeeded and the reply to the read is.
  lemma AttemptOutcomeIs(regex: Option<string -> bool>, a: Attempt, value: string)
    ensures AttemptOutcome(regex, a, value) == Success <==>
              a.put.Done? && ReadOutcome(regex, a.read, value) == Success && a.delete.Done?
    ensures AttemptOutcome(regex, a, value) == Unknown <==>
              a.put.Done? && ReadOutcome(regex, a.read, value) == Unknown
  {
    hide ReadOutcome;
  }

  function AttemptOutcome(regex: Option<string -> bool>, a: Attempt, value: string): Outcome {
    if a.put.Raised? then Critical
    else if ReadOutcome(regex, a.read, value) != Success then ReadOutcome(regex, a.read, value)
    else if a.delete.Raised? then Critical
    else Success
  }

  predicate Applied(call: Call) {
    call.Done? || call.applied
  }

  // Whether the probe cell is left behind by an attempt that ends early
  predicate LeftBehind(regex: Option<string -> bool>, a: Attempt, value: string) {
    Applied(a.put) &&
    (a.put.Raised? || ReadOutcome(regex, a.read, value) != Success || !Applied(a.delete))
  }

  // The content of the table after an attempt that ends early
  function Leaves(regex: Option<string -> bool>, a: Attempt, value: string, before: Contents, cell: Cell): Contents {
    if LeftBehind(regex, a, value) then before[cell := value]
    else if Applied(a.put) then before - {cell}
    else before
  }

  // ------------------------------------------------------------------- timings

  datatype Action = Write | Read | Delete

  type Timings = map<string, map<Action, real>>

  function Longer(a: real, b: real): real {
    if a >= b then a else b
  }

  function Lookup(t: Timings, column: string, action: Action): Option<real> {
    if column in t && action in t[column] then Some(t[column][action]) else None
  }

  function LookupOr0(t: Timings, column: string, action: Action): real {
    match Lookup(t, column, action) { case None => 0.0 case Some(ms) => ms }
  }

  // timings[column][action] raised to ms, starting from 0
  function Bump(t: Timings, column: string, action: Action, ms: real): Timings {
    var inner := if column in t then t[column] else map[];
    t[column := inner[action := Longer(if action in inner then inner[action] else 0.0, ms)]]
  }

  predicate Complete(t: Timings) {
    forall column, action :: column in t ==> action in t[column]
  }

  // Duration of an action in an attempt that succeeded
  function Duration(a: Attempt, action: Action): real {
    match action
    case Write => if a.put.Done? then a.put.ms else 0.0
    case Read => if a.read.Returned? then a.read.ms else 0.0
    case Delete => if a.delete.Done? then a.delete.ms else 0.0
  }

  // The largest duration over the first n regions, and 0
  function Peak(server: Server, family: string, n: nat, action: Action, start: real): real {
    if n == 0 then start
    else Longer(Peak(server, family, n - 1, action, start), Duration(server(family, n - 1), action))
  }

  // Peak is the maximum: no duration exceeds it, and it is one of them or the start.
  lemma {:induction false} PeakIsMaximum(server: Server, family: string, n: nat, action: Action, start: real)
    ensures var p := Peak(server, family, n, action, start);
            && p >= start
            && (forall j :: 0 <= j < n ==> Duration(server(family, j), action) <= p)
            && (p == start || exists j :: 0 <= j < n && Duration(server(family, j), action) == p)
  {
    if n > 0 {
      PeakIsMaximum(server, family, n - 1, action, start);
    }
  }

  // ------------------------------------------------------------------ probe cells

  function ColumnName(family: string, qualifier: string): string {
    family + [':'] + qualifier
  }

  function ProbeCell(family: string, startKey: string, row: string, qualifier: string): Cell {
    Cell(startKey + row, ColumnName(family, qualifier))
  }

  function ProbesOf(family: string, regions: seq<string>, row: string, qualifier: string): set<Cell> {
    set r | r in regions :: ProbeCell(family, r, row, qualifier)
  }

  function Probes(families: set<string>, regions: seq<string>, row: string, qualifier: string): set<Cell> {
    set f, r | f in families && r in regions :: ProbeCell(f, r, row, qualifier)
  }

  predicate EndsWith(s: string, t: string) {
    |t| <= |s| && s[|s| - |t|..] == t
  }

  // A cell of the family whose row stands in the region: it begins with the start key, so
  // it is not before it, and ends in the probe's own row.
  predicate InRegion(cell: Cell, family: string, startKey: string, row: string, qualifier: string) {
    && StartsWith(cell.row, startKey) && EndsWith(cell.row, row) && Leq(startKey, cell.row)
    && |cell.row| == |startKey| + |row|
    && StartsWith(cell.column, family + [':']) && EndsWith(cell.column, [':'] + qualifier)
    && |cell.column| == |family| + 1 + |qualifier|
  }

  lemma ProbeInRegion(family: string, startKey: string, row: string, qualifier: string)
    ensures InRegion(ProbeCell(family, startKey, row, qualifier), family, startKey, row, qualifier)
  {
    LeqIs(startKey, startKey + row);
    assert startKey <= startKey + row;
  }

  // Every region of every family has a probe cell of its own, and there are no others.
  lemma ProbesReach(families: set<string>, regions: seq<string>, row: string, qualifier: string)
    ensures forall f, r :: f in families && r in regions ==>
              exists c :: c in Probes(families, regions, row, qualifier) && InRegion(c, f, r, row, qualifier)
    ensures forall c :: c in Probes(families, regions, row, qualifier) ==>
              exists f, r :: f in families && r in regions && InRegion(c, f, r, row, qualifier)
  {
    hide InRegion, ProbeCell;
    forall f, r | f in families && r in regions
      ensures ProbeCell(f, r, row, qualifier) in Probes(families, regions, row, qualifier)
      ensures InRegion(ProbeCell(f, r, row, qualifier), f, r, row, qualifier)
    {
      ProbeInRegion(f, r, row, qualifier);
    }
  }

  // The cell held the value at some time from a point of the trace on.
  ghost predicate Written(cell: Cell, value: string, start: nat, trace: seq<Contents>) {
    exists k :: start <= k < |trace| && cell in trace[k] && trace[k][cell] == value
  }

  ghost predicate AllWritten(cells: set<Cell>, value: string, start: nat, trace: seq<Contents>) {
    forall c :: c in cells ==> Written(c, value, start, trace)
  }

  // ------------------------------------------------------------ safety of a state

  predicate SubMap(a: Contents, b: Contents) {
    forall c :: c in a ==> c in b && a[c] == b[c]
  }

  // At most the one probe cell was added, and nothing but probe cells was taken away.
  predicate AtMostOne(start: Contents, probes: set<Cell>, now: Contents, c: Cell) {
    c in probes && SubMap(now - {c}, start) && SubMap(start - probes, now)
  }

  predicate Safe(start: Contents, probes: set<Cell>, now: Contents) {
    exists c :: c in probes && AtMostOne(start, probes, now, c)
  }

  // With the probe cells absent at first, a safe state is the first one but for a
  // single probe cell.
  lemma SafeWhenAbsent(start: Contents, probes: set<Cell>, now: Contents)
    requires start.Keys !! probes
    ensures Safe(start, probes, now) <==> exists c :: c in probes && now - {c} == start
  {
  }

  // ------------------------------------------------------------------ the table

  class Table {
    var cells: Contents
    // Every content the table has had, the present one last
    ghost var trace: seq<Contents>

    constructor (cells: Contents)
      ensures this.cells == cells && trace == [cells]
    {
      this.cells, trace := cells, [cells];
    }

    method Put(cell: Cell, value: string, call: Call)
      modifies this
      ensures cells == if Applied(call) then old(cells)[cell := value] else old(cells)
      ensures trace == old(trace) + [cells]
    {
      if Applied(call) {
        cells := cells[cell := value];
      }
      trace := trace + [cells];
    }

    method Delete(cell: Cell, call: Call)
      modifies this
      ensures cells == if Applied(call) then old(cells) - {cell} else old(cells)
      ensures trace == old(trace) + [cells]
    {
      if Applied(call) {
        cells := cells - {cell};
      }
      trace := trace + [cells];
    }
  }

  // ------------------------------------------------------------------- the check

  class CheckHBaseWriteSpray {
    const row: string
    const columnQualifier: string
    const regex: Option<string -> bool>
    var value: string
    var timings: Timings
    var numRegions: nat
    var numColumnFamilies: nat

    // The value is built with a '#' in it, so it is never empty.
    ghost predicate Valid()
      reads this
    {
      value != ""
    }

    constructor (row: string, columnQualifier: string, now: string, random: string)
      ensures Valid() && timings == map[]
      ensures this.row == row && this.columnQualifier == columnQualifier && regex == None
    {
      this.row, this.columnQualifier, regex := row, columnQualifier, None;
      value := now + ['#'] + random;
      timings, numRegions, numColumnFamilies := map[], 0, 0;
    }

    method CheckWrite(table: Table, cell: Cell, call: Call) returns (outcome: Outcome)
      modifies `timings, table
      ensures outcome == if call.Done? then Success else Critical
      ensures table.cells == if Applied(call) then old(table.cells)[cell := value] else old(table.cells)
      ensures table.trace == old(table.trace) + [table.cells]
      ensures timings == if call.Done? then Bump(old(timings), cell.column, Write, call.ms) else old(timings)
    {
      table.Put(cell, value, call);
      if call.Raised? {
        return Critical;
      }
      var inner := if cell.column in timings then timings[cell.column] else map[];
      timings := timings[cell.column := inner];
      timings := timings[cell.column := inner[Write := Longer(if Write in inner then inner[Write] else 0.0, call.ms)]];
      return Success;
    }

    method CheckRead(cell: Cell, reply: Reply, expected: string) returns (outcome: Outcome)
      modifies `timings, `value
      ensures outcome == ReadOutcome(regex, reply, expected)
      ensures outcome == Success ==>
          value == reply.cells[0] && timings == Bump(old(timings), cell.column, Read, reply.ms)
      ensures outcome != Success ==> value == old(value) && timings == old(timings)
    {
      match reply {
        case ReadRaised => return Critical;
        case NotAList => return Unknown;
        case Returned(cells, ms) =>
          if |cells| < 1 {
            return Critical;
          } else if |cells| > 1 {
            return Unknown;
          }
          var found := cells[0];
          if regex.Some? {
            if !regex.value(found) {
              return Critical;
            }
          }
          if expected != "" {
            if found != expected {
              return Critical;
            }
          }
          var inner := if cell.column in timings then timings[cell.column] else map[];
          timings := timings[cell.column := inner];
          timings := timings[cell.column := inner[Read := Longer(if Read in inner then inner[Read] else 0.0, ms)]];
          value := found;
          return Success;
      }
    }

    method CheckDelete(table: Table, cell: Cell, call: Call) returns (outcome: Outcome)
      modifies `timings, table
      ensures outcome == if call.Done? then Success else Critical
      ensures table.cells == if Applied(call) then old(table.cells) - {cell} else old(table.cells)
      ensures table.trace == old(table.trace) + [table.cells]
      ensures timings == if call.Done? then Bump(old(timings), cell.column, Delete, call.ms) else old(timings)
    {
      table.Delete(cell, call);
      if call.Raised? {
        return Critical;
      }
      var inner := if cell.column in timings then timings[cell.column] else map[];
      timings := timings[cell.column := inner];
      timings := timings[cell.column :=
                           inner[Delete := Longer(if Delete in inner then inner[Delete] else 0.0, call.ms)]];
      return Success;
    }

    // One probe. It leaves its cell behind exactly when it ends early after the put was
    // applied, and the value it writes is never changed by what it reads.
    method CheckRegion(table: Table, family: string, startKey: string, a: Attempt) returns (outcome: Outcome)
      requires Valid()
      modifies `timings, `value, table
      ensures Valid() && value == old(value)
      ensures outcome == AttemptOutcome(regex, a, value)
      ensures var cell := ProbeCell(family, startKey, row, columnQualifier);
              && (outcome == Success ==> table.cells == old(table.cells) - {cell})
              && (outcome != Success ==> table.cells == Leaves(regex, a, value, old(table.cells), cell))
              && |old(table.trace)| <= |table.trace| && table.trace[..|old(table.trace)|] == old(table.trace)
              && (forall k :: |old(table.trace)| <= k < |table.trace| ==>
                   table.trace[k] - {cell} == old(table.cells) - {cell})
              && InRegion(cell, family, startKey, row, columnQualifier)
              && (outcome == Success ==> Written(cell, value, |old(table.trace)|, table.trace))
      ensures outcome == Success ==> timings == Probed(old(timings), ColumnName(family, columnQualifier), a)
    {
      var column := ColumnName(family, columnQualifier);
      var cell := Cell(startKey + row, column);
      ProbeInRegion(family, startKey, row, columnQualifier);
      hide InRegion;
      ghost var start := |table.trace|;
      outcome := CheckWrite(table, cell, a.put);
      if outcome != Success {
        return;
      }
      outcome := CheckRead(cell, a.read, value);
      if outcome != Success {
        return;
      }
      outcome := CheckDelete(table, cell, a.delete);
      assert cell in table.trace[start] && table.trace[start][cell] == value;
    }

    // All regions of a family; j counts the probes that have succeeded.
    method CheckFamily(table: Table, family: string, regions: seq<string>, server: Server)
        returns (outcome: Outcome, ghost j: nat)
      requires Valid()
      modifies `timings, `value, table
      ensures Valid() && value == old(value) && j <= |regions|
      ensures outcome == Success <==> j == |regions|
      ensures outcome != Success ==> outcome == AttemptOutcome(regex, server(family, j), value)
      ensures forall k :: 0 <= k < j ==> AttemptOutcome(regex, server(family, k), value) == Success
      ensures outcome == Success ==> table.cells == old(table.cells) - ProbesOf(family, regions, row, columnQualifier)
      ensures outcome == Success ==>
                timings == FamilyTimings(old(timings), ColumnName(family, columnQualifier), server, family, |regions|)
      ensures outcome != Success ==>
                EndsEarly(old(table.cells) - ProbesOf(family, regions[..j], row, columnQualifier), table.cells,
                          family, regions[j], server(family, j), outcome)
      ensures Extends(old(table.cells), ProbesOf(family, regions, row, columnQualifier), old(table.trace), table.trace)
      ensures outcome == Success ==>
                AllWritten(ProbesOf(family, regions, row, columnQualifier), value, |old(table.trace)|, table.trace)
    {
      hide AttemptOutcome, Leaves, Probed, ProbeCell, InRegion, Written, AllWritten;
      WrittenNone(value, |table.trace|, table.trace);
      assert ProbesOf(family, [], row, columnQualifier) == {};
      j := 0;
      outcome := Success;
      ghost var start, trace := table.cells, table.trace;
      ghost var probes := ProbesOf(family, regions, row, columnQualifier);
      assert regions[..0] == [];
      for i := 0 to |regions|
        invariant j == i && Valid() && value == old(value) && outcome == Success
        invariant forall k :: 0 <= k < j ==> AttemptOutcome(regex, server(family, k), value) == Success
        invariant table.cells == start - ProbesOf(family, regions[..i], row, columnQualifier)
        invariant timings == FamilyTimings(old(timings), ColumnName(family, columnQualifier), server, family, i)
        invariant Extends(start, probes, trace, table.trace)
        invariant AllWritten(ProbesOf(family, regions[..i], row, columnQualifier), value, |trace|, table.trace)
      {
        ghost var before, beforeTrace := table.cells, table.trace;
        ghost var cell := ProbeCell(family, regions[i], row, columnQualifier);
        outcome := CheckRegion(table, family, regions[i], server(family, i));
        ProbesStep(family, regions, i, row, columnQualifier);
        assert before - {cell} == start - ProbesOf(family, regions[..i + 1], row, columnQualifier);
        ExtendsStep(start, probes, trace, beforeTrace, table.trace, before, cell);
        if outcome != Success {
          return;
        }
        WrittenOne(ProbesOf(family, regions[..i], row, columnQualifier), cell, value, |trace|, beforeTrace,
            table.trace);
        j := j + 1;
      }
      assert regions[..|regions|] == regions;
    }

    // What one failed probe leaves: the earlier content, with the cell in flight
    // present or absent.
    ghost predicate EndsEarly(before: Contents, after: Contents, family: string, startKey: string, a: Attempt,
        outcome: Outcome)
      reads this
    {
      && outcome == AttemptOutcome(regex, a, value) != Success
      && after == Leaves(regex, a, value, before, ProbeCell(family, startKey, row, columnQualifier))
    }

    // The whole spray, whatever the calls to the server give. Every content the table passes
    // through is safe, completed or not; a completed spray leaves the table as it was
    // but for probe cells it held before.
    method CheckTable(table: Table, enabled: bool, families: set<string>, regions: seq<string>, server: Server)
        returns (outcome: Outcome, ghost family: string, ghost j: nat, ghost earlier: set<Cell>)
      requires Valid()
      modifies this, table
      ensures Valid() && value == old(value)
      ensures outcome == Success <==> enabled && AllSucceed(server, families, |regions|)
      ensures Extends(old(table.cells), Probes(families, regions, row, columnQualifier), old(table.trace), table.trace)
      ensures outcome == Success ==>
                && table.cells == old(table.cells) - Probes(families, regions, row, columnQualifier)
                && numColumnFamilies == |families| && numRegions == |regions|
                && AllPeaks(old(timings), timings, server, families, columnQualifier, |regions|)
                && (old(timings) == map[] ==> Complete(timings))
                && AllWritten(Probes(families, regions, row, columnQualifier), value, |old(table.trace)|, table.trace)
      ensures outcome != Success && enabled ==>
                && family in families && j < |regions| && earlier <= Probes(families, regions, row, columnQualifier)
                && EndsEarly(old(table.cells) - earlier, table.cells, family, regions[j], server(family, j), outcome)
      ensures !enabled ==> outcome == Critical && table.cells == old(table.cells)
    {
      hide AttemptOutcome, ProbeCell, FamilyTimings, EndsEarly, Extends, AllPeaks, Complete, Probes, ProbesOf,
           AllWritten, Leq, Before, Sorted, Written, Safe;
      WrittenNone(value, |table.trace|, table.trace);
      family, j, earlier := "", 0, {};
      ghost var start, trace := table.cells, table.trace;
      ghost var probes := Probes(families, regions, row, columnQualifier);
      ExtendsNone(start, probes, trace);
      if !enabled {
        return Critical, family, j, earlier;
      }
      numColumnFamilies := |families|;
      numRegions := |regions|;
      var sorted := SortedKeys(families);
      ghost var t0 := timings;
      assert sorted[..0] == [];
      ProbesNone(regions, row, columnQualifier);
      assert Elements(sorted[..0]) == {};
      outcome := Success;
      for i := 0 to |sorted|
        invariant Valid() && value == old(value) && outcome == Success
        invariant numColumnFamilies == |families| && numRegions == |regions|
        invariant AllSucceed(server, Elements(sorted[..i]), |regions|)
        invariant table.cells == start - earlier
        invariant earlier == Probes(Elements(sorted[..i]), regions, row, columnQualifier)
        invariant timings == SprayTimings(t0, sorted[..i], columnQualifier, server, |regions|)
        invariant Extends(start, probes, trace, table.trace)
        invariant AllWritten(earlier, value, |trace|, table.trace)
      {
        var columnFamily := sorted[i];
        family := columnFamily;
        ghost var before, beforeTrace := table.cells, table.trace;
        outcome, j := CheckFamily(table, columnFamily, regions, server);
        assert sorted[..i + 1] == sorted[..i] + [family] && sorted[..i + 1][..i] == sorted[..i];
        ProbesMore(families, family, Elements(sorted[..i]), regions, row, columnQualifier);
        ExtendsMore(start, probes, trace, beforeTrace, table.trace, earlier,
            ProbesOf(family, regions, row, columnQualifier));
        if outcome != Success {
          earlier := earlier + ProbesOf(family, regions[..j], row, columnQualifier);
          assert start - earlier == before - ProbesOf(family, regions[..j], row, columnQualifier);
          return;
        }
        WrittenMore(earlier, ProbesOf(family, regions, row, columnQualifier), value, start, probes, before,
            trace, beforeTrace, table.trace);
        earlier := earlier + ProbesOf(family, regions, row, columnQualifier);
        assert Elements(sorted[..i + 1]) == Elements(sorted[..i]) + {family};
      }
      assert sorted[..|sorted|] == sorted && Elements(sorted) == families;
      SprayPeaks(t0, sorted, columnQualifier, server, |regions|);
      if t0 == map[] {
        SprayComplete(sorted, columnQualifier, server, |regions|);
      }
    }

    // Every probe of the first n regions in the families succeeds.
    ghost predicate AllSucceed(server: Server, families: set<string>, n: nat)
      reads this
    {
      forall f, k :: f in families && 0 <= k < n ==> AttemptOutcome(regex, server(f, k), value) == Success
    }

    // check_hbase_write.py probes the one row of its own: a single region whose start
    // key is empty.
    method CheckTableWrite(table: Table, enabled: bool, families: set<string>, server: Server)
        returns (outcome: Outcome, ghost family: string, ghost earlier: set<Cell>)
      requires Valid()
      modifies this, table
      ensures Valid() && value == old(value)
      ensures outcome == Success <==> enabled && AllSucceed(server, families, 1)
      ensures Extends(old(table.cells), Probes(families, [""], row, columnQualifier), old(table.trace), table.trace)
      ensures outcome == Success ==>
                && table.cells == old(table.cells) - Probes(families, [""], row, columnQualifier)
                && AllPeaks(old(timings), timings, server, families, columnQualifier, 1)
                && (old(timings) == map[] ==> Complete(timings))
                && AllWritten(Probes(families, [""], row, columnQualifier), value, |old(table.trace)|, table.trace)
      ensures outcome != Success && enabled ==>
                && family in families && earlier <= Probes(families, [""], row, columnQualifier)
                && EndsEarly(old(table.cells) - earlier, table.cells, family, "", server(family, 0), outcome)
      ensures !enabled ==> outcome == Critical && table.cells == old(table.cells)
    {
      ghost var j;
      outcome, family, j, earlier := CheckTable(table, enabled, families, [""], server);
    }

    // The reads of timings in output: none is missing when the timings are complete.
    method Output() returns (report: map<(string, Action), real>)
      requires Complete(timings)
      ensures forall column, action :: (column, action) in report <==> column in timings
      ensures forall column, action :: column in timings ==> report[(column, action)] == timings[column][action]
    {
      report := map[];
      var rest := timings.Keys;
      while rest != {}
        invariant rest <= timings.Keys
        invariant forall column, action :: (column, action) in report <==> column in timings && column !in rest
        invariant forall column, action :: (column, action) in report ==>
            report[(column, action)] == timings[column][action]
        decreases |rest|
      {
        var column :| column in rest;
        rest := rest - {column};
        var times := timings[column];
        report := report[(column, Write) := times[Write]];
        report := report[(column, Read) := times[Read]];
        report := report[(column, Delete) := times[Delete]];
        forall action ensures (column, action) in report && report[(column, action)] == times[action] {
          match action case Write => case Read => case Delete =>
        }
      }
    }
  }

  // -------------------------------------------------------------- laws of the trace

  lemma WrittenNone(value: string, start: nat, trace: seq<Contents>)
    ensures AllWritten({}, value, start, trace)
  {
  }

  lemma WrittenLater(cells: set<Cell>, value: string, start: nat, middle: seq<Contents>, after: seq<Contents>)
    requires AllWritten(cells, value, start, middle)
    requires |middle| <= |after| && after[..|middle|] == middle
    ensures AllWritten(cells, value, start, after)
  {
    forall c | c in cells ensures Written(c, value, start, after) {
      assert Written(c, value, start, middle);
      var k :| start <= k < |middle| && c in middle[k] && middle[k][c] == value;
      assert after[k] == middle[k];
    }
  }

  lemma WrittenOne(cells: set<Cell>, cell: Cell, value: string, start: nat, middle: seq<Contents>, after: seq<Contents>)
    requires AllWritten(cells, value, start, middle)
    requires start <= |middle| <= |after| && after[..|middle|] == middle
    requires Written(cell, value, |middle|, after)
    ensures AllWritten(cells + {cell}, value, start, after)
  {
    WrittenLater(cells, value, start, middle, after);
    var k :| |middle| <= k < |after| && cell in after[k] && after[k][cell] == value;
    assert Written(cell, value, start, after);
  }

  lemma WrittenMore(cells: set<Cell>, more: set<Cell>, value: string, first: Contents, probes: set<Cell>,
                    now: Contents, trace: seq<Contents>, middle: seq<Contents>, after: seq<Contents>)
    requires AllWritten(cells, value, |trace|, middle)
    requires Extends(first, probes, trace, middle) && Extends(now, more, middle, after)
    requires AllWritten(more, value, |middle|, after)
    ensures AllWritten(cells + more, value, |trace|, after)
  {
    hide Safe;
    WrittenLater(cells, value, |trace|, middle, after);
    forall c | c in more ensures Written(c, value, |trace|, after) {
      assert Written(c, value, |middle|, after);
      var k :| |middle| <= k < |after| && c in after[k] && after[k][c] == value;
      assert |trace| <= k < |after| && c in after[k] && after[k][c] == value;
    }
  }

  // The trace goes on, through safe contents only.
  ghost predicate Extends(start: Contents, probes: set<Cell>, before: seq<Contents>, after: seq<Contents>) {
    && |before| <= |after| && after[..|before|] == before
    && forall k :: |before| <= k < |after| ==> Safe(start, probes, after[k])
  }

  function Elements(xs: seq<string>): set<string> {
    set x | x in xs
  }

  lemma ProbesStep(family: string, regions: seq<string>, i: nat, row: string, qualifier: string)
    requires i < |regions|
    ensures ProbesOf(family, regions[..i + 1], row, qualifier)
         == ProbesOf(family, regions[..i], row, qualifier) + {ProbeCell(family, regions[i], row, qualifier)}
    ensures ProbesOf(family, regions[..i + 1], row, qualifier) <= ProbesOf(family, regions, row, qualifier)
  {
  }

  lemma ProbesNone(regions: seq<string>, row: string, qualifier: string)
    ensures Probes({}, regions, row, qualifier) == {}
  {
  }

  lemma ExtendsNone(start: Contents, probes: set<Cell>, trace: seq<Contents>)
    ensures Extends(start, probes, trace, trace)
  {
  }

  lemma ProbesMore(families: set<string>, family: string, some: set<string>, regions: seq<string>, row: string,
      qualifier: string)
    requires family in families && some <= families
    ensures Probes(some + {family}, regions, row, qualifier)
         == Probes(some, regions, row, qualifier) + ProbesOf(family, regions, row, qualifier)
    ensures Probes(some, regions, row, qualifier) + ProbesOf(family, regions, row, qualifier)
         <= Probes(families, regions, row, qualifier)
    ensures forall j :: 0 <= j <= |regions| ==>
        ProbesOf(family, regions[..j], row, qualifier) <= ProbesOf(family, regions, row, qualifier)
  {
  }

  lemma ExtendsStep(start: Contents, probes: set<Cell>, trace: seq<Contents>, middle: seq<Contents>,
                    after: seq<Contents>, before: Contents, cell: Cell)
    requires Extends(start, probes, trace, middle)
    requires |middle| <= |after| && after[..|middle|] == middle
    requires cell in probes && SubMap(before, start) && SubMap(start - probes, before)
    requires forall k :: |middle| <= k < |after| ==> after[k] - {cell} == before - {cell}
    ensures Extends(start, probes, trace, after)
  {
    forall k | |trace| <= k < |after| ensures Safe(start, probes, after[k]) {
      if k < |middle| {
        assert after[k] == middle[k];
      } else {
        SafeStep(start, probes, before, after[k], cell);
      }
    }
  }

  lemma SafeStep(start: Contents, probes: set<Cell>, before: Contents, now: Contents, cell: Cell)
    requires cell in probes && SubMap(before, start) && SubMap(start - probes, before)
    requires now - {cell} == before - {cell}
    ensures Safe(start, probes, now)
  {
    assert forall c :: c != cell ==> (c in now <==> c in now - {cell}) && (c in before <==> c in before - {cell});
    forall c | c in now - {cell} ensures c in start && (now - {cell})[c] == start[c] {
      assert (before - {cell})[c] == before[c];
    }
    forall c | c in start - probes ensures c in now && now[c] == (start - probes)[c] {
      assert c in before && before[c] == (start - probes)[c];
      assert (now - {cell})[c] == now[c] && (before - {cell})[c] == before[c];
    }
    assert AtMostOne(start, probes, now, cell);
  }

  // A spray of one family seen from the whole spray
  lemma ExtendsMore(start: Contents, probes: set<Cell>, trace: seq<Contents>, middle: seq<Contents>,
                    after: seq<Contents>,
                    earlier: set<Cell>, more: set<Cell>)
    requires Extends(start, probes, trace, middle)
    requires Extends(start - earlier, more, middle, after)
    requires earlier <= probes && more <= probes
    ensures Extends(start, probes, trace, after)
  {
  }

  // ------------------------------------------------------------- laws of the timings

  function Probed(t: Timings, column: string, a: Attempt): Timings {
    Bump(Bump(Bump(t, column, Write, Duration(a, Write)), column, Read, Duration(a, Read)), column, Delete,
        Duration(a, Delete))
  }

  function FamilyTimings(t: Timings, column: string, server: Server, family: string, n: nat): Timings {
    if n == 0 then t else Probed(FamilyTimings(t, column, server, family, n - 1), column, server(family, n - 1))
  }

  function SprayTimings(t: Timings, families: seq<string>, qualifier: string, server: Server, n: nat): Timings {
    if families == [] then t else
    var f := families[|families| - 1];
    FamilyTimings(SprayTimings(t, families[..|families| - 1], qualifier, server, n), ColumnName(f, qualifier), server,
        f, n)
  }

  lemma BumpLookup(t: Timings, column: string, action: Action, ms: real, column': string, action': Action)
    ensures Lookup(Bump(t, column, action, ms), column', action')
         == if column' == column && action' == action then Some(Longer(LookupOr0(t, column, action), ms))
            else Lookup(t, column', action')
  {
  }

  lemma ProbedLookup(t: Timings, column: string, a: Attempt, column': string, action: Action)
    ensures Lookup(Probed(t, column, a), column', action)
         == if column' == column then Some(Longer(LookupOr0(t, column, action), Duration(a, action)))
            else Lookup(t, column', action)
  {
    hide Bump, Lookup;
    var t1 := Bump(t, column, Write, Duration(a, Write));
    var t2 := Bump(t1, column, Read, Duration(a, Read));
    BumpLookup(t, column, Write, Duration(a, Write), column', action);
    BumpLookup(t, column, Write, Duration(a, Write), column, Read);
    BumpLookup(t, column, Write, Duration(a, Write), column, Delete);
    BumpLookup(t1, column, Read, Duration(a, Read), column', action);
    BumpLookup(t1, column, Read, Duration(a, Read), column, Delete);
    BumpLookup(t2, column, Delete, Duration(a, Delete), column', action);
  }

  lemma {:induction false} FamilyLookup(t: Timings, column: string, server: Server, family: string, n: nat,
      column': string, action: Action)
    ensures Lookup(FamilyTimings(t, column, server, family, n), column', action)
         == if column' == column && n > 0 then Some(Peak(server, family, n, action, LookupOr0(t, column, action)))
            else Lookup(t, column', action)
  {
    hide Probed, Lookup;
    if n > 0 {
      FamilyLookup(t, column, server, family, n - 1, column', action);
      FamilyLookup(t, column, server, family, n - 1, column, action);
      ProbedLookup(FamilyTimings(t, column, server, family, n - 1), column, server(family, n - 1), column', action);
    }
  }

  lemma ColumnNameInjective(f: string, g: string, qualifier: string)
    requires ColumnName(f, qualifier) == ColumnName(g, qualifier)
    ensures f == g
  {
    assert |f| == |g|;
    assert ColumnName(f, qualifier)[..|f|] == f && ColumnName(g, qualifier)[..|g|] == g;
  }

  lemma {:induction false} SprayLookup(t: Timings, families: seq<string>, qualifier: string, server: Server, n: nat,
      f: string, action: Action)
    requires NoDups(families)
    ensures Lookup(SprayTimings(t, families, qualifier, server, n), ColumnName(f, qualifier), action)
         == if f in families && n > 0
            then Some(Peak(server, f, n, action, LookupOr0(t, ColumnName(f, qualifier), action)))
            else Lookup(t, ColumnName(f, qualifier), action)
  {
    hide FamilyTimings, Lookup, Peak, ColumnName;
    if families != [] {
      var front, last := families[..|families| - 1], families[|families| - 1];
      assert families == front + [last];
      SprayLookup(t, front, qualifier, server, n, f, action);
      if ColumnName(f, qualifier) == ColumnName(last, qualifier) {
        ColumnNameInjective(f, last, qualifier);
      }
      FamilyLookup(SprayTimings(t, front, qualifier, server, n), ColumnName(last, qualifier), server, last, n,
          ColumnName(f, qualifier), action);
    }
  }

  // Every stored time is the largest duration of its action over all regions.
  ghost predicate AllPeaks(before: Timings, after: Timings, server: Server, families: set<string>, qualifier: string,
      n: nat) {
    forall f, action :: f in families && n > 0 ==>
      Lookup(after, ColumnName(f, qualifier), action)
      == Some(Peak(server, f, n, action, LookupOr0(before, ColumnName(f, qualifier), action)))
  }

  lemma SprayPeaks(t: Timings, families: seq<string>, qualifier: string, server: Server, n: nat)
    requires NoDups(families)
    ensures AllPeaks(t, SprayTimings(t, families, qualifier, server, n), server, Elements(families), qualifier, n)
  {
    hide SprayTimings, Lookup, Peak, ColumnName, LookupOr0;
    forall f, action | f in families && n > 0
      ensures Lookup(SprayTimings(t, families, qualifier, server, n), ColumnName(f, qualifier), action)
           == Some(Peak(server, f, n, action, LookupOr0(t, ColumnName(f, qualifier), action)))
    {
      SprayLookup(t, families, qualifier, server, n, f, action);
    }
  }

  lemma {:induction false} FamilyComplete(t: Timings, column: string, server: Server, family: string, n: nat)
    requires Complete(t)
    ensures Complete(FamilyTimings(t, column, server, family, n))
  {
    if n > 0 {
      FamilyComplete(t, column, server, family, n - 1);
      var t' := FamilyTimings(t, column, server, family, n);
      forall action ensures action in t'[column] {
        match action case Write => case Read => case Delete =>
      }
    }
  }

  // After a spray from scratch every column has all three times.
  lemma {:induction false} SprayComplete(families: seq<string>, qualifier: string, server: Server, n: nat)
    ensures Complete(SprayTimings(map[], families, qualifier, server, n))
  {
    if families != [] {
      var f := families[|families| - 1];
      SprayComplete(families[..|families| - 1], qualifier, server, n);
      FamilyComplete(SprayTimings(map[], families[..|families| - 1], qualifier, server, n), ColumnName(f, qualifier),
          server, f, n);
    }
  }

  // -------------------------------------------------------------- counting the cells

  lemma ProbeCellInjective(f: string, r: string, g: string, s: string, row: string, qualifier: string)
    ensures ProbeCell(f, r, row, qualifier) == ProbeCell(g, s, row, qualifier) <==> f == g && r == s
  {
    if ProbeCell(f, r, row, qualifier) == ProbeCell(g, s, row, qualifier) {
      ColumnNameInjective(f, g, qualifier);
      assert |r| == |s|;
      assert (r + row)[..|r|] == r && (s + row)[..|s|] == s;
    }
  }

  lemma {:induction false} ProbesOfSize(family: string, regions: seq<string>, row: string, qualifier: string)
    ensures |ProbesOf(family, regions, row, qualifier)| <= |regions|
    ensures |ProbesOf(family, regions, row, qualifier)| == |regions| <==> NoDups(regions)
  {
    hide ProbeCell, ProbesOf, NoDups;
    if regions == [] {
      NoProbes(family, row, qualifier);
    } else {
      var front, last := regions[..|regions| - 1], regions[|regions| - 1];
      assert regions == front + [last];
      ProbesOfSize(family, front, row, qualifier);
      ProbesLast(family, front, last, row, qualifier);
      NoDupsLast(front, last);
    }
  }

  lemma NoProbes(family: string, row: string, qualifier: string)
    ensures ProbesOf(family, [], row, qualifier) == {} && NoDups<string>([])
  {
  }

  lemma ProbesLast(family: string, front: seq<string>, last: string, row: string, qualifier: string)
    ensures var cell := ProbeCell(family, last, row, qualifier);
            && ProbesOf(family, front + [last], row, qualifier) == ProbesOf(family, front, row, qualifier) + {cell}
            && (cell in ProbesOf(family, front, row, qualifier) <==> last in front)
  {
    hide ProbeCell;
    forall r ensures ProbeCell(family, r, row, qualifier) == ProbeCell(family, last, row, qualifier) <==> r == last {
      ProbeCellInjective(family, r, family, last, row, qualifier);
    }
    assert forall r :: r in front + [last] <==> r in front || r == last;
  }

  lemma NoDupsLast(front: seq<string>, last: string)
    ensures NoDups(front + [last]) <==> NoDups(front) && last !in front
  {
    var all := front + [last];
    if NoDups(all) {
      forall i | 0 <= i < |front| ensures front[i] != last {
        assert all[i] != all[|front|];
      }
      forall i, j | 0 <= i < j < |front| ensures front[i] != front[j] {
        assert all[i] == front[i] && all[j] == front[j];
      }
    }
  }

  // The spray probes one cell for every family and region exactly when the start keys
  // of the regions are distinct (or there is no family).
  lemma {:induction false} ProbeCount(families: set<string>, regions: seq<string>, row: string, qualifier: string)
    ensures |Probes(families, regions, row, qualifier)| <= |families| * |regions|
    ensures |Probes(families, regions, row, qualifier)| == |families| * |regions| <==> NoDups(regions) || families == {}
  {
    hide ProbeCell;
    if families == {} {
      assert Probes(families, regions, row, qualifier) == {};
    } else {
      var f :| f in families;
      var others := families - {f};
      ProbeCount(others, regions, row, qualifier);
      ProbesOfSize(f, regions, row, qualifier);
      var a, b := Probes(others, regions, row, qualifier), ProbesOf(f, regions, row, qualifier);
      assert Probes(families, regions, row, qualifier) == a + b;
      forall c | c in a ensures c !in b {
        var g, s :| g in others && s in regions && c == ProbeCell(g, s, row, qualifier);
        forall r | r in regions ensures c != ProbeCell(f, r, row, qualifier) {
          ProbeCellInjective(g, s, f, r, row, qualifier);
        }
      }
      assert |a + b| == |a| + |b|;
      assert |families| * |regions| == |others| * |regions| + |regions| by {
        assert |families| == |others| + 1;
        OneMore(|others|, |regions|);
      }
    }
  }
}
