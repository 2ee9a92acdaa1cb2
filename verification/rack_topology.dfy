// check_hadoop_hdfs_rack_resilience.py reads the racks from the printed topology,
// check_ambari_cluster_hdfs_rack_resilience.py from a list of hosts. Both keep a
// dictionary from rack to hosts.
module RackTopology {
  import opened Sums
  import opened Text

  datatype Host = Host(name: string, rack: string)

  type Racks = map<string, seq<string>>

  const DEFAULT_RACK := "/default-rack"

  // ------------------------------------------------------- grouping a list of hosts

  function Add(racks: Racks, h: Host): Racks {
    racks[h.rack := (if h.rack in racks then racks[h.rack] else []) + [h.name]]
  }

  function Grouped(hosts: seq<Host>): Racks {
    if hosts == [] then map[] else Add(Grouped(hosts[..|hosts| - 1]), hosts[|hosts| - 1])
  }

  // parse_json of the Ambari check
  method GroupHosts(hosts: seq<Host>) returns (racks: Racks)
    ensures racks == Grouped(hosts)
  {
    racks := map[];
    for i := 0 to |hosts|
      invariant racks == Grouped(hosts[..i])
    {
      var h := hosts[i];
      if h.rack !in racks {
        racks := racks[h.rack := []];
      }
      racks := racks[h.rack := racks[h.rack] + [h.name]];
      assert hosts[..i + 1][..i] == hosts[..i];
    }
    assert hosts[..|hosts|] == hosts;
  }

  // The hosts of a rack, in the order of the list
  function HostsOn(hosts: seq<Host>, rack: string): seq<string> {
    if hosts == [] then [] else
    HostsOn(hosts[..|hosts| - 1], rack) +
    if hosts[|hosts| - 1].rack == rack then [hosts[|hosts| - 1].name] else []
  }

  // Grouping lists under every rack exactly its hosts; a rack without hosts is missing.
  lemma {:induction false} GroupedIs(hosts: seq<Host>, rack: string)
    ensures rack in Grouped(hosts) <==> HostsOn(hosts, rack) != []
    ensures rack in Grouped(hosts) ==> Grouped(hosts)[rack] == HostsOn(hosts, rack)
  {
    if hosts != [] {
      GroupedIs(hosts[..|hosts| - 1], rack);
    }
  }

  lemma {:induction false} HostsOnCount(hosts: seq<Host>, rack: string, name: string)
    ensures multiset(HostsOn(hosts, rack))[name] == multiset(hosts)[Host(name, rack)]
  {
    if hosts != [] {
      var front, last := hosts[..|hosts| - 1], hosts[|hosts| - 1];
      HostsOnCount(front, rack, name);
      assert hosts == front + [last];
    }
  }

  // ------------------------------------------------------------ what is reported

  datatype Report = Report(warning: bool, numRacks: nat, inDefaultRack: nat)

  // What the report says about the hosts the racks were grouped from
  ghost predicate Tells(report: Report, hosts: seq<Host>) {
    && (report.warning <==> !TwoRacks(hosts) || exists h :: h in hosts && h.rack == DEFAULT_RACK)
    && report.numRacks == |RacksOf(hosts)|
    && report.inDefaultRack == |HostsOn(hosts, DEFAULT_RACK)|
  }

  ghost predicate TwoRacks(hosts: seq<Host>) {
    exists g, h :: g in hosts && h in hosts && g.rack != h.rack
  }

  function RacksOf(hosts: seq<Host>): set<string> {
    set h | h in hosts :: h.rack
  }

  // run, and the end of parse_json: a warning unless there are hosts on two racks, and
  // for hosts left in the default rack
  method Summarize(racks: Racks) returns (report: Report)
    ensures report == Reported(racks)
    ensures forall hosts :: racks == Grouped(hosts) ==> Tells(report, hosts)
  {
    hide Tells, Grouped;
    var numRacks, warning, left := |racks|, false, 0;
    if numRacks < 2 {
      warning := true;
    }
    if DEFAULT_RACK in racks {
      warning := true;
      left := |racks[DEFAULT_RACK]|;
    }
    report := Report(warning, numRacks, left);
    forall hosts | racks == Grouped(hosts) ensures Tells(report, hosts) {
      ReportTells(hosts);
    }
  }

  function Reported(racks: Racks): Report {
    Report(|racks| < 2 || DEFAULT_RACK in racks, |racks|, if DEFAULT_RACK in racks then |racks[DEFAULT_RACK]| else 0)
  }

  lemma ReportTells(hosts: seq<Host>)
    ensures Tells(Reported(Grouped(hosts)), hosts)
  {
    hide Grouped, HostsOn;
    forall r ensures (r in Grouped(hosts) <==> r in RacksOf(hosts)) {
      GroupedIs(hosts, r);
      HostsOnSome(hosts, r);
    }
    GroupedIs(hosts, DEFAULT_RACK);
    HostsOnSome(hosts, DEFAULT_RACK);
    assert Grouped(hosts).Keys == RacksOf(hosts);
    TwoOrFewer(hosts);
  }

  lemma {:induction false} HostsOnSome(hosts: seq<Host>, rack: string)
    ensures HostsOn(hosts, rack) != [] <==> exists h :: h in hosts && h.rack == rack
  {
    if hosts != [] {
      var front, last := hosts[..|hosts| - 1], hosts[|hosts| - 1];
      HostsOnSome(front, rack);
      assert hosts == front + [last];
    }
  }

  lemma TwoOrFewer(hosts: seq<Host>)
    ensures |RacksOf(hosts)| >= 2 <==> TwoRacks(hosts)
  {
    var racks := RacksOf(hosts);
    if TwoRacks(hosts) {
      var g, h :| g in hosts && h in hosts && g.rack != h.rack;
      assert |{g.rack, h.rack}| == 2 && racks == {g.rack, h.rack} + (racks - {g.rack, h.rack});
    } else if racks != {} {
      var r :| r in racks;
      assert racks == {r};
    }
  }

  // The same racks with the same hosts, in whatever order they are listed
  ghost predicate SameRacks(a: Racks, b: Racks) {
    a.Keys == b.Keys && forall r :: r in a ==> multiset(a[r]) == multiset(b[r])
  }

  // The order in which hosts are listed does not matter.
  lemma GroupedAnyOrder(xs: seq<Host>, ys: seq<Host>)
    requires multiset(xs) == multiset(ys)
    ensures SameRacks(Grouped(xs), Grouped(ys))
    ensures Reported(Grouped(xs)) == Reported(Grouped(ys))
  {
    var a, b := Grouped(xs), Grouped(ys);
    forall r ensures (r in a <==> r in b) && (r in a ==> multiset(a[r]) == multiset(b[r]) && |a[r]| == |b[r]|) {
      GroupedIs(xs, r);
      GroupedIs(ys, r);
      SameHostsOn(xs, ys, r);
    }
    assert a.Keys == b.Keys;
    assert |a| == |a.Keys| && |b| == |b.Keys|;
  }

  lemma SameHostsOn(xs: seq<Host>, ys: seq<Host>, rack: string)
    requires multiset(xs) == multiset(ys)
    ensures multiset(HostsOn(xs, rack)) == multiset(HostsOn(ys, rack))
    ensures |HostsOn(xs, rack)| == |HostsOn(ys, rack)|
  {
    var a, b := HostsOn(xs, rack), HostsOn(ys, rack);
    forall n ensures multiset(a)[n] == multiset(b)[n] {
      HostsOnCount(xs, rack, n);
      HostsOnCount(ys, rack, n);
    }
    assert multiset(a) == multiset(b);
    SameElements(a, b);
  }

  function RackSize(racks: Racks): string -> int {
    r => if r in racks then |racks[r]| else 0
  }

  // No host is lost or counted twice.
  lemma {:induction false} TotalHosts(hosts: seq<Host>)
    ensures Sum(Grouped(hosts).Keys, RackSize(Grouped(hosts))) == |hosts|
  {
    if hosts != [] {
      var front, last := hosts[..|hosts| - 1], hosts[|hosts| - 1];
      TotalHosts(front);
      AddSize(Grouped(front), last);
    }
  }

  lemma AddSize(racks: Racks, h: Host)
    ensures Sum(Add(racks, h).Keys, RackSize(Add(racks, h))) == Sum(racks.Keys, RackSize(racks)) + 1
  {
    hide Sum;
    var more := Add(racks, h);
    if h.rack in racks {
      assert more.Keys == racks.Keys;
      SumChange(racks.Keys, RackSize(racks), RackSize(more), h.rack);
    } else {
      assert more.Keys == racks.Keys + {h.rack};
      SumMore(racks.Keys, RackSize(more), h.rack);
      SumAgree(racks.Keys, RackSize(racks), RackSize(more));
    }
  }

  // -------------------------------------------------------- reading the topology

  // ^Rack:\s+(.+?)\s*$ on one line. When only white space follows, the group is the
  // last white-space character, provided there is another one before it.
  function RackLine(line: string): Option<string> {
    if !StartsWith(line, "Rack:") then None else
    var rest := line[5..];
    if rest == "" || !IsSpace(rest[0]) then None
    else if Trim(rest) != "" then Some(Trim(rest))
    else if |rest| >= 2 then Some([rest[|rest| - 1]])
    else None
  }

  // A way to match the pattern: white space up to a, the group up to b, white space
  predicate Matches(line: string, a: nat, b: nat) {
    && StartsWith(line, "Rack:") && 5 < a < b <= |line|
    && (forall i :: 5 <= i < a ==> IsSpace(line[i]))
    && (forall i :: b <= i < |line| ==> IsSpace(line[i]))
  }

  // No match takes more white space first, or else as much and a shorter group.
  ghost predicate Preferred(line: string, a: nat, b: nat) {
    && Matches(line, a, b)
    && forall x: nat, y: nat :: Matches(line, x, y) ==> x < a || (x == a && b <= y)
  }

  // RackLine finds a group exactly when the pattern matches, and it is the group of the
  // match a backtracking search prefers.
  lemma RackLineIsPreferred(line: string)
    ensures RackLine(line).Some? ==>
        exists a: nat, b: nat :: Preferred(line, a, b) && RackLine(line).value == line[a..b]
    ensures RackLine(line).None? ==> forall x: nat, y: nat :: !Matches(line, x, y)
  {
    if StartsWith(line, "Rack:") && |line| > 5 && IsSpace(line[5..][0]) {
      assert forall i :: 5 <= i < |line| ==> line[i] == line[5..][i - 5];
      if Trim(line[5..]) == "" {
        BlankRack(line);
      } else {
        NamedRack(line);
      }
    }
  }

  lemma BlankRack(line: string)
    requires StartsWith(line, "Rack:") && |line| > 5 && Trim(line[5..]) == ""
    requires forall i :: 5 <= i < |line| ==> line[i] == line[5..][i - 5]
    ensures |line| > 6 ==> Preferred(line, |line| - 1, |line|) && [line[|line| - 1]] == line[|line| - 1..|line|]
    ensures |line| == 6 ==> forall x: nat, y: nat :: !Matches(line, x, y)
  {
  }

  lemma NamedRack(line: string)
    requires StartsWith(line, "Rack:") && |line| > 5 && Trim(line[5..]) != "" && IsSpace(line[5])
    requires forall i :: 5 <= i < |line| ==> line[i] == line[5..][i - 5]
    ensures exists a: nat, b: nat :: Preferred(line, a, b) && Trim(line[5..]) == line[a..b]
  {
    var rest := line[5..];
    var a, b := TrimPlace(rest);
    assert line[5 + a..5 + b] == rest[a..b];
    assert line[5 + a] == rest[a] && line[5 + b - 1] == rest[b - 1];
    assert Matches(line, 5 + a, 5 + b);
    forall x: nat, y: nat | Matches(line, x, y) ensures x < 5 + a || (x == 5 + a && 5 + b <= y) {
    }
    assert Preferred(line, 5 + a, 5 + b);
  }

  // Where the trimmed text stands
  lemma TrimPlace(s: string) returns (a: nat, b: nat)
    requires Trim(s) != ""
    ensures a < b <= |s| && Trim(s) == s[a..b] && !IsSpace(s[a]) && !IsSpace(s[b - 1])
    ensures forall i :: 0 <= i < a ==> IsSpace(s[i])
    ensures forall i :: b <= i < |s| ==> IsSpace(s[i])
  {
    hide IsSpace, SkipSpace, DropTrailingSpace;
    var t, r := SkipSpace(s), Trim(s);
    assert r == DropTrailingSpace(t);
    a := |s| - |t|;
    b := a + |r|;
    assert s[a..] == t && t[..|r|] == r;
    SliceOfSlice(s, a, |r|);
    assert s[a] == t[0] && s[b - 1] == r[|r| - 1];
    forall i | b <= i < |s| ensures IsSpace(s[i]) {
      assert s[i] == t[i - a];
    }
  }

  lemma SliceOfSlice(s: string, a: nat, n: nat)
    requires a + n <= |s|
    ensures s[a..][..n] == s[a..a + n]
  {
  }

  // ------------------------------------------------------------------- node lines

  // The patterns for an address and a host name, as tests on a text. Neither accepts
  // white space.
  datatype Patterns = Patterns(ip: string -> bool, host: string -> bool)

  ghost predicate Spaceless(p: Patterns) {
    && (forall s :: p.ip(s) ==> IsWord(s))
    && (forall s :: p.host(s) ==> NoSpace(s))
  }

  // The parts of a line that ^\s+(ip)(?::\d+)?\s+\((host)\)\s*$ matches
  datatype Node = Node(lead: string, ip: string, port: string, gap: string, name: string, trail: string)

  predicate Blank(s: string) {
    forall i :: 0 <= i < |s| ==> IsSpace(s[i])
  }

  predicate IsPort(s: string) {
    s == "" || (|s| > 1 && s[0] == ':' && AllDigits(s[1..]))
  }

  predicate Legal(n: Node, p: Patterns) {
    && n.lead != "" && Blank(n.lead) && p.ip(n.ip) && IsPort(n.port)
    && n.gap != "" && Blank(n.gap) && p.host(n.name) && Blank(n.trail)
  }

  function NodeText(n: Node): string {
    n.lead + (n.ip + n.port) + n.gap + (['('] + n.name + [')']) + n.trail
  }

  // An address with or without a port
  predicate Addressed(w: string, p: Patterns) {
    exists k :: 0 <= k <= |w| && p.ip(w[..k]) && IsPort(w[k..])
  }

  // The host found on a line, if the pattern matches
  function NodeName(line: string, p: Patterns): Option<string> {
    if line == "" || !IsSpace(line[0]) then None else
    var words := Fields(line);
    if |words| == 2 && Addressed(words[0], p) && InBrackets(words[1]) && p.host(words[1][1..|words[1]| - 1])
    then Some(words[1][1..|words[1]| - 1])
    else None
  }

  predicate InBrackets(w: string) {
    |w| >= 2 && w[0] == '(' && w[|w| - 1] == ')'
  }

  lemma {:induction false} SkipBlank(space: string, s: string)
    requires Blank(space)
    ensures Fields(space + s) == Fields(s)
  {
    if space == "" {
      assert space + s == s;
    } else {
      FieldsSkip(space[0], space[1..] + s);
      assert space + s == [space[0]] + (space[1..] + s);
      SkipBlank(space[1..], s);
    }
  }

  lemma BlankFields(space: string)
    requires Blank(space)
    ensures Fields(space) == []
  {
    SkipBlank(space, "");
    assert space + "" == space;
  }

  lemma NodeFields(n: Node, p: Patterns)
    requires Spaceless(p) && Legal(n, p)
    ensures Fields(NodeText(n)) == [n.ip + n.port, ['('] + n.name + [')']]
  {
    hide Fields;
    var w, v := n.ip + n.port, ['('] + n.name + [')'];
    PortIsWord(n.port);
    assert IsWord(w) && IsWord(v);
    assert NodeText(n) == n.lead + (w + (n.gap + (v + n.trail)));
    SkipBlank(n.lead, w + (n.gap + (v + n.trail)));
    FieldsCons(w, n.gap + (v + n.trail));
    SkipBlank(n.gap, v + n.trail);
    FieldsCons(v, n.trail);
    BlankFields(n.trail);
  }

  lemma PortIsWord(port: string)
    requires IsPort(port)
    ensures NoSpace(port)
  {
    if port != "" {
      assert forall i :: 1 <= i < |port| ==> port[i] == port[1..][i - 1];
    }
  }

  // A line that the pattern matches gives its host.
  lemma NodeNameReads(n: Node, p: Patterns)
    requires Spaceless(p) && Legal(n, p)
    ensures NodeName(NodeText(n), p) == Some(n.name)
  {
    NodeFields(n, p);
    hide Fields, Spaceless;
    var line, w, v := NodeText(n), n.ip + n.port, ['('] + n.name + [')'];
    assert line[0] == n.lead[0];
    assert w[..|n.ip|] == n.ip && w[|n.ip|..] == n.port;
    assert v[1..|v| - 1] == n.name;
  }

  // Only such a line gives a host.
  lemma NodeNameOnly(line: string, p: Patterns) returns (n: Node)
    requires NodeName(line, p).Some?
    ensures Legal(n, p) && NodeText(n) == line && NodeName(line, p) == Some(n.name)
  {
    hide IsSpace, IsPort;
    var words := Fields(line);
    var lead, gap, trail := TwoFields(line);
    var w, v := words[0], words[1];
    var k :| 0 <= k <= |w| && p.ip(w[..k]) && IsPort(w[k..]);
    n := Node(lead, w[..k], w[k..], gap, v[1..|v| - 1], trail);
    assert w == w[..k] + w[k..] && v == ['('] + v[1..|v| - 1] + [')'];
    assert lead != "";
  }

  // Where the words of a line of two words stand
  lemma TwoFields(line: string) returns (lead: string, gap: string, trail: string)
    requires |Fields(line)| == 2
    ensures Blank(lead) && Blank(gap) && Blank(trail) && gap != ""
    ensures line == lead + Fields(line)[0] + gap + Fields(line)[1] + trail
    ensures IsWord(Fields(line)[0]) && (line != "" && IsSpace(line[0]) ==> lead != "")
  {
    hide Fields, Blank, IsSpace;
    var rest, last;
    lead, rest := NextField(line);
    gap, last := NextField(rest);
    trail := last;
    BlankWithoutFields(trail);
    FieldsWords(line, 0);
    assert line == lead + Fields(line)[0] + (gap + Fields(rest)[0] + trail);
  }

  lemma {:induction false} NextField(line: string) returns (lead: string, rest: string)
    requires Fields(line) != []
    ensures Blank(lead) && line == lead + Fields(line)[0] + rest && Fields(rest) == Fields(line)[1..]
    ensures rest != "" ==> IsSpace(rest[0])
    ensures IsSpace(line[0]) ==> lead != ""
    decreases |line|
  {
    if IsSpace(line[0]) {
      lead, rest := NextField(line[1..]);
      lead := [line[0]] + lead;
    } else {
      lead, rest := "", line[WordLength(line)..];
    }
  }

  lemma BlankWithoutFields(line: string)
    requires Fields(line) == []
    ensures Blank(line)
  {
    NoFields(line);
  }

  // A node line is never a rack line.
  lemma NodeIsNoRack(n: Node, p: Patterns)
    requires Legal(n, p)
    ensures RackLine(NodeText(n)) == None
  {
    assert NodeText(n)[0] == n.lead[0];
    assert "Rack:"[0] == 'R';
    assert |NodeText(n)| >= 5 ==> NodeText(n)[..5][0] == NodeText(n)[0];
  }

  // ------------------------------------------------------------------- the parser

  // How far a scan has come: the rack last seen and the hosts found
  datatype Scan = Failed | Scanned(rack: Option<string>, hosts: seq<Host>)

  function ScanLine(s: Scan, line: string, p: Patterns): Scan {
    if s.Failed? then Failed
    else if RackLine(line).Some? then Scanned(RackLine(line), s.hosts)
    else if s.rack.None? then s
    else match NodeName(line, p)
         case Some(host) => Scanned(s.rack, s.hosts + [Host(host, s.rack.value)])
         case None => if line == "" then s else Failed
  }

  function ScanLines(lines: seq<string>, p: Patterns): Scan {
    if lines == [] then Scanned(None, [])
    else ScanLine(ScanLines(lines[..|lines| - 1], p), lines[|lines| - 1], p)
  }

  datatype RackError = CommandFailed | ParseError | NoRacks

  function RackInfo(returncode: int, stdout: string, p: Patterns): Result<Racks, RackError> {
    if returncode != 0 || Contains(stdout, "Error") then Err(CommandFailed) else
    match ScanLines(Split(stdout, '\n'), p)
    case Failed => Err(ParseError)
    case Scanned(rack, hosts) => if rack.None? then Err(NoRacks) else Ok(Grouped(hosts))
  }

  predicate RackBefore(lines: seq<string>, i: nat)
    requires i <= |lines|
  {
    exists k :: 0 <= k < i && RackLine(lines[k]).Some?
  }

  // A line that is neither empty nor a node line, after a rack line
  predicate Unreadable(lines: seq<string>, i: nat, p: Patterns)
    requires i < |lines|
  {
    RackLine(lines[i]).None? && NodeName(lines[i], p).None? && lines[i] != "" && RackBefore(lines, i)
  }

  predicate SomeUnreadable(lines: seq<string>, p: Patterns) {
    exists i :: 0 <= i < |lines| && Unreadable(lines, i, p)
  }

  lemma {:induction false} ScanFails(lines: seq<string>, p: Patterns)
    ensures ScanLines(lines, p).Failed? <==> SomeUnreadable(lines, p)
    ensures ScanLines(lines, p).Scanned? ==> (ScanLines(lines, p).rack.Some? <==> RackBefore(lines, |lines|))
    ensures SomeUnreadable(lines, p) ==> RackBefore(lines, |lines|)
  {
    hide RackLine, NodeName;
    if lines != [] {
      var front, last := lines[..|lines| - 1], lines[|lines| - 1];
      ScanFails(front, p);
      assert lines == front + [last];
      OneMoreLine(front, last, p);
    }
  }

  lemma OneMoreLine(front: seq<string>, last: string, p: Patterns)
    ensures var lines := front + [last];
            && (RackBefore(lines, |lines|) <==> RackBefore(front, |front|) || RackLine(last).Some?)
            && (SomeUnreadable(lines, p) <==>
                 || SomeUnreadable(front, p)
                 || (RackLine(last).None? && NodeName(last, p).None? && last != "" && RackBefore(front, |front|)))
  {
    hide RackLine, NodeName;
    var lines, n := front + [last], |front|;
    assert lines[n] == last;
    forall i | 0 <= i < n
      ensures RackBefore(lines, i) <==> RackBefore(front, i)
      ensures Unreadable(lines, i, p) <==> Unreadable(front, i, p)
    {
      assert forall k :: 0 <= k <= i ==> front[k] == lines[k];
    }
    assert forall k :: 0 <= k < n ==> front[k] == lines[k];
    assert RackBefore(lines, n) <==> RackBefore(front, n);
    assert Unreadable(lines, n, p) <==>
             RackLine(last).None? && NodeName(last, p).None? && last != "" && RackBefore(front, n);
    if RackLine(last).Some? {
      assert RackLine(lines[n]).Some?;
    }
    if SomeUnreadable(front, p) {
      var i :| 0 <= i < n && Unreadable(front, i, p);
      assert Unreadable(lines, i, p);
    }
  }

  // Which error is raised: for a failed command, an unreadable line, no rack line at all
  lemma ErrorsAre(returncode: int, stdout: string, p: Patterns)
    ensures var r, lines := RackInfo(returncode, stdout, p), Split(stdout, '\n');
            var failed := returncode != 0 || Contains(stdout, "Error");
            && (r == Err(CommandFailed) <==> failed)
            && (r == Err(ParseError) <==> !failed && SomeUnreadable(lines, p))
            && (r == Err(NoRacks) <==> !failed && !RackBefore(lines, |lines|))
  {
    hide RackLine, NodeName, Contains, ScanLines, Grouped, SomeUnreadable, RackBefore;
    ScanFails(Split(stdout, '\n'), p);
  }

  // get_rack_info gives the grouping of the hosts tagged with the rack above them.
  method GetRackInfo(returncode: int, stdout: string, p: Patterns) returns (r: Result<Racks, RackError>)
    ensures r == RackInfo(returncode, stdout, p)
  {
    hide RackLine, Contains, ScanLines, Grouped;
    NothingYet(p);
    if returncode != 0 || Contains(stdout, "Error") {
      return Err(CommandFailed);
    }
    var lines := Split(stdout, '\n');
    var racks: Racks := map[];
    var rack: Option<string> := None;
    ghost var hosts: seq<Host> := [];
    assert lines[..0] == [];
    for i := 0 to |lines|
      invariant ScanLines(lines[..i], p) == Scanned(rack, hosts)
      invariant racks == Grouped(hosts)
    {
      var line := lines[i];
      ScanNext(lines, i, p);
      var found := RackLine(line);
      if found.Some? {
        rack := found;
        continue;
      }
      if rack.None? {
        continue;
      }
      var host := NodeName(line, p);
      if host.Some? {
        if rack.value !in racks {
          racks := racks[rack.value := []];
        }
        racks := racks[rack.value := racks[rack.value] + [host.value]];
        GroupedMore(hosts, Host(host.value, rack.value));
        hosts := hosts + [Host(host.value, rack.value)];
      } else if line == "" {
        continue;
      } else {
        FailedStays(lines, i + 1, p);
        return Err(ParseError);
      }
    }
    assert lines[..|lines|] == lines;
    if rack.None? {
      return Err(NoRacks);
    }
    return Ok(racks);
  }

  lemma NothingYet(p: Patterns)
    ensures ScanLines([], p) == Scanned(None, []) && Grouped([]) == map[]
  {
  }

  lemma ScanNext(lines: seq<string>, i: nat, p: Patterns)
    requires i < |lines|
    ensures ScanLines(lines[..i + 1], p) == ScanLine(ScanLines(lines[..i], p), lines[i], p)
  {
    hide ScanLine;
    assert lines[..i + 1][..i] == lines[..i];
  }

  lemma GroupedMore(hosts: seq<Host>, h: Host)
    ensures Grouped(hosts + [h]) == Add(Grouped(hosts), h)
  {
  }

  lemma {:induction false} FailedStays(lines: seq<string>, i: nat, p: Patterns)
    requires i <= |lines| && ScanLines(lines[..i], p).Failed?
    ensures ScanLines(lines, p).Failed?
    decreases |lines|
  {
    if i == |lines| {
      assert lines[..i] == lines;
    } else {
      assert lines[..|lines| - 1][..i] == lines[..i];
      FailedStays(lines[..|lines| - 1], i, p);
    }
  }

  // ----------------------------------------------------------- a printed topology

  datatype Section = Section(rack: string, nodes: seq<Node>)

  function NodeLines(nodes: seq<Node>): (lines: seq<string>)
    ensures |lines| == |nodes|
    ensures forall i :: 0 <= i < |nodes| ==> lines[i] == NodeText(nodes[i])
  {
    if nodes == [] then [] else NodeLines(nodes[..|nodes| - 1]) + [NodeText(nodes[|nodes| - 1])]
  }

  function SectionLines(s: Section): seq<string> {
    ["Rack: " + s.rack] + NodeLines(s.nodes) + [""]
  }

  function Lines(noise: seq<string>, sections: seq<Section>): seq<string> {
    if sections == [] then noise
    else Lines(noise, sections[..|sections| - 1]) + SectionLines(sections[|sections| - 1])
  }

  function Tagged(nodes: seq<Node>, rack: string): (hosts: seq<Host>)
    ensures |hosts| == |nodes|
  {
    if nodes == [] then [] else Tagged(nodes[..|nodes| - 1], rack) + [Host(nodes[|nodes| - 1].name, rack)]
  }

  function Flat(sections: seq<Section>): seq<Host> {
    if sections == [] then [] else
    Flat(sections[..|sections| - 1]) + Tagged(sections[|sections| - 1].nodes, sections[|sections| - 1].rack)
  }

  predicate Printable(s: Section, p: Patterns) {
    && s.rack != "" && '\n' !in s.rack && !IsSpace(s.rack[0]) && !IsSpace(s.rack[|s.rack| - 1])
    && forall i :: 0 <= i < |s.nodes| ==> Legal(s.nodes[i], p) && '\n' !in NodeText(s.nodes[i])
  }

  lemma RackLineReads(rack: string)
    requires rack != "" && !IsSpace(rack[0]) && !IsSpace(rack[|rack| - 1])
    ensures RackLine("Rack: " + rack) == Some(rack)
  {
  }

  lemma {:induction false} ScanNodes(s: Scan, before: seq<string>, nodes: seq<Node>, rack: string, p: Patterns)
    requires s.Scanned? && s.rack == Some(rack) && ScanLines(before, p) == s
    requires Spaceless(p) && forall i :: 0 <= i < |nodes| ==> Legal(nodes[i], p)
    ensures ScanLines(before + NodeLines(nodes), p) == Scanned(Some(rack), s.hosts + Tagged(nodes, rack))
  {
    hide RackLine, NodeName, Legal, Spaceless, NodeText;
    if nodes == [] {
      assert before + NodeLines(nodes) == before;
    } else {
      var front, last := nodes[..|nodes| - 1], nodes[|nodes| - 1];
      hide ScanLines;
      ScanNodes(s, before, front, rack, p);
      ScanMore(before + NodeLines(front), NodeText(last), p);
      NodeNameReads(last, p);
      NodeIsNoRack(last, p);
      assert before + NodeLines(nodes) == before + NodeLines(front) + [NodeText(last)];
      assert s.hosts + Tagged(nodes, rack) == s.hosts + Tagged(front, rack) + [Host(last.name, rack)];
    }
  }

  lemma ScanMore(lines: seq<string>, line: string, p: Patterns)
    ensures ScanLines(lines + [line], p) == ScanLine(ScanLines(lines, p), line, p)
  {
  }

  lemma ScanSection(s: Scan, before: seq<string>, section: Section, p: Patterns)
    requires s.Scanned? && ScanLines(before, p) == s
    requires Spaceless(p) && Printable(section, p)
    ensures ScanLines(before + SectionLines(section), p)
         == Scanned(Some(section.rack), s.hosts + Tagged(section.nodes, section.rack))
  {
    hide ScanLines, RackLine, Legal, Spaceless, NodeText;
    var headed := before + ["Rack: " + section.rack];
    RackLineReads(section.rack);
    ScanMore(before, "Rack: " + section.rack, p);
    ScanNodes(Scanned(Some(section.rack), s.hosts), headed, section.nodes, section.rack, p);
    ScanMore(headed + NodeLines(section.nodes), "", p);
    EmptyLine(p);
    assert before + SectionLines(section) == headed + NodeLines(section.nodes) + [""];
  }

  lemma EmptyLine(p: Patterns)
    ensures RackLine("") == None && NodeName("", p) == None
  {
  }

  lemma {:induction false} ScanNoise(noise: seq<string>, p: Patterns)
    requires forall i :: 0 <= i < |noise| ==> RackLine(noise[i]) == None
    ensures ScanLines(noise, p) == Scanned(None, [])
  {
    hide RackLine, NodeName;
    if noise != [] {
      ScanNoise(noise[..|noise| - 1], p);
    }
  }

  lemma {:induction false} ScanTopology(noise: seq<string>, sections: seq<Section>, p: Patterns)
    requires Spaceless(p)
    requires forall i :: 0 <= i < |noise| ==> RackLine(noise[i]) == None
    requires forall i :: 0 <= i < |sections| ==> Printable(sections[i], p)
    ensures ScanLines(Lines(noise, sections), p)
         == Scanned(if sections == [] then None else Some(sections[|sections| - 1].rack), Flat(sections))
  {
    hide RackLine, Printable, NodeName, Spaceless;
    if sections == [] {
      ScanNoise(noise, p);
    } else {
      var front, last := sections[..|sections| - 1], sections[|sections| - 1];
      ScanTopology(noise, front, p);
      ScanSection(ScanLines(Lines(noise, front), p), Lines(noise, front), last, p);
    }
  }

  lemma {:induction false} LinesPlain(noise: seq<string>, sections: seq<Section>, p: Patterns)
    requires forall i :: 0 <= i < |noise| ==> '\n' !in noise[i]
    requires forall i :: 0 <= i < |sections| ==> Printable(sections[i], p)
    ensures forall i :: 0 <= i < |Lines(noise, sections)| ==> '\n' !in Lines(noise, sections)[i]
  {
    hide NodeText, Legal;
    if sections != [] {
      var front, last := sections[..|sections| - 1], sections[|sections| - 1];
      LinesPlain(noise, front, p);
      var lines := SectionLines(last);
      assert '\n' !in "Rack: " + last.rack;
      assert forall i :: 0 <= i < |lines| ==> '\n' !in lines[i];
    }
  }

  // Both checks agree: for any noise, any sections (the same rack may come twice) and
  // the same hosts listed in any order, they find the same racks and report the same.
  lemma ParserAgreesWithGrouping(noise: seq<string>, sections: seq<Section>, hosts: seq<Host>, p: Patterns)
    requires sections != [] && Spaceless(p)
    requires forall i :: 0 <= i < |noise| ==> '\n' !in noise[i] && RackLine(noise[i]) == None
    requires forall i :: 0 <= i < |sections| ==> Printable(sections[i], p)
    requires multiset(hosts) == multiset(Flat(sections))
    requires !Contains(Join(Lines(noise, sections), '\n'), "Error")
    ensures var r := RackInfo(0, Join(Lines(noise, sections), '\n'), p);
            && r == Ok(Grouped(Flat(sections)))
            && SameRacks(r.value, Grouped(hosts))
            && Reported(r.value) == Reported(Grouped(hosts))
            && Sum(r.value.Keys, RackSize(r.value)) == |hosts|
  {
    hide RackLine, Printable, Contains, Sum, Grouped, SameRacks, Reported, Spaceless, NodeName;
    var lines := Lines(noise, sections);
    LinesPlain(noise, sections, p);
    LinesNotEmpty(noise, sections);
    SplitOfJoin(lines, '\n');
    ScanTopology(noise, sections, p);
    GroupedAnyOrder(Flat(sections), hosts);
    TotalHosts(Flat(sections));
    SameElements(Flat(sections), hosts);
  }

  lemma LinesNotEmpty(noise: seq<string>, sections: seq<Section>)
    requires sections != []
    ensures Lines(noise, sections) != []
  {
  }
}
