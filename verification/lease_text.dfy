// The lease file parser of check_dhcpd_leases.py, and the file format it reads: what a
// rendered file means, and that parsing recovers exactly that.
module LeaseText {
  import opened Text
  import opened HostOrder

  const UNKNOWN := "UNKNOWN"
  const ACTIVE := "binding state active;"

  // ------------------------------------------------------------------- patterns

  // RE_BINDING_STATE_ACTIVE.search; the leading white space of the pattern is optional.
  predicate IsActive(text: string) {
    Contains(text, ACTIVE)
  }

  predicate HasLease(line: string) {
    Contains(line, "lease")
  }

  predicate HasHostname(line: string) {
    Contains(line, "client-hostname")
  }

  // RE_MAC.search: "hardware", one white-space character, "ethernet"
  predicate HasMac(line: string) {
    exists i :: 0 <= i <= |line| && EthernetAt(line, i)
  }

  predicate EthernetAt(line: string, i: nat) {
    i + 9 <= |line| && At(line, "hardware", i) && IsSpace(line[i + 8]) && At(line, "ethernet", i + 9)
  }

  // RE_IP_ADDRESS.match: three times one to three digits and any one character, then a
  // digit. The pattern is not anchored at the end and its dots match anything.
  predicate MatchesIp(s: string) {
    Octets(s, 3)
  }

  predicate Octets(s: string, more: nat) {
    if more == 0 then s != "" && IsDigit(s[0])
    else exists n :: 1 <= n <= 3 && OctetOf(s, n) && Octets(s[n + 1..], more - 1)
  }

  predicate OctetOf(s: string, n: nat) {
    n < |s| && s[n] != '\n' && forall i :: 0 <= i < n ==> IsDigit(s[i])
  }

  lemma IpStartsWithDigit(s: string)
    requires MatchesIp(s)
    ensures s != "" && IsDigit(s[0]) && s != UNKNOWN
  {
  }

  // -------------------------------------------------- what one block tells us

  function LastMatch(lines: seq<string>, hit: string -> bool): Option<string> {
    if lines == [] then None
    else if hit(lines[|lines| - 1]) then Some(lines[|lines| - 1])
    else LastMatch(lines[..|lines| - 1], hit)
  }

  function IpInLine(line: string): string {
    var words := Fields(line);
    if |words| == 3 then words[1] else UNKNOWN
  }

  function HostnameInLine(line: string): string {
    var words := Fields(line);
    if |words| == 2 then Strip(RStrip(words[1], {';'}), {'"'}) else UNKNOWN
  }

  function MacInLine(line: string): string {
    var words := Fields(line);
    if |words| == 3 then RStrip(words[2], {';'}) else UNKNOWN
  }

  function ValueIn(lines: seq<string>, hit: string -> bool, read: string -> string): string {
    match LastMatch(lines, hit)
    case None => ""
    case Some(line) => read(line)
  }

  function IpOf(lines: seq<string>): string {
    var ip := ValueIn(lines, HasLease, IpInLine);
    if MatchesIp(ip) then ip else UNKNOWN
  }

  function HostnameOf(lines: seq<string>): string {
    var hostname := ValueIn(lines, HasHostname, HostnameInLine);
    if hostname == "" then UNKNOWN else hostname
  }

  function MacOf(lines: seq<string>): string {
    var mac := ValueIn(lines, HasMac, MacInLine);
    if mac == "" then UNKNOWN else mac
  }

  // The pieces between closing braces; what follows the last one is dropped.
  function Blocks(text: string): seq<string> {
    var parts := Split(text, '}');
    parts[..|parts| - 1]
  }

  // The dictionary after one more block.
  function Record(d: Addresses, block: string, names: bool, macs: bool): Addresses {
    if !IsActive(block) then d else
    var lines := Split(block, '\n');
    var ip := IpOf(lines);
    if ip == UNKNOWN then d else
    d[ip := Lease(if names then HostnameOf(lines) else "Unknown Hostname",
                  if macs then MacOf(lines) else "Unknown Mac")]
  }

  function RecordAll(blocks: seq<string>, names: bool, macs: bool): Addresses {
    if blocks == [] then map[]
    else Record(RecordAll(blocks[..|blocks| - 1], names, macs), blocks[|blocks| - 1], names, macs)
  }

  // ------------------------------------------------- the format and its meaning

  datatype BodyLine =
    | State(state: string)
    | Transition(when: string, state: string)
    | Ethernet(mac: string)
    | Hostname(name: string)
    | Other(text: string)

  // A lease declaration; a transition is "next binding state ...;" or
  // "rewind binding state ...;". The declaration is preceded by any
  // lines (the comment header, empty lines).
  datatype Entry = Entry(gap: seq<string>, ip: string, body: seq<BodyLine>)

  function LineText(b: BodyLine): string {
    match b
    case State(state) => Statement(["binding", "state", state + ";"])
    case Transition(when, state) => Statement([when, "binding", "state", state + ";"])
    case Ethernet(mac) => Statement(["hardware", "ethernet", mac + ";"])
    case Hostname(name) => Statement(["client-hostname", Quoted(name)])
    case Other(text) => text
  }

  function Quoted(name: string): string {
    ['"'] + name + ['"', ';']
  }

  // An indented line of words
  function Statement(words: seq<string>): string {
    "  " + Join(words, ' ')
  }

  function LineTexts(body: seq<BodyLine>): (texts: seq<string>)
    ensures |texts| == |body|
    ensures forall i :: 0 <= i < |body| ==> texts[i] == LineText(body[i])
  {
    if body == [] then [] else LineTexts(body[..|body| - 1]) + [LineText(body[|body| - 1])]
  }

  function OpeningLine(ip: string): string {
    Join(["lease", ip, "{"], ' ')
  }

  function EntryLines(e: Entry): seq<string> {
    e.gap + [OpeningLine(e.ip)] + LineTexts(e.body) + [""]
  }

  function EntryText(e: Entry): string {
    Join(EntryLines(e), '\n')
  }

  function FileText(es: seq<Entry>, tail: string): string {
    if es == [] then tail else EntryText(es[0]) + ['}'] + FileText(es[1..], tail)
  }

  predicate CleanLine(line: string) {
    '\n' !in line && '}' !in line && !HasHostname(line) && !HasMac(line) && !IsActive(line)
  }

  // Reads as the opening line of a lease.
  predicate OpensLease(line: string) {
    HasLease(line) && MatchesIp(IpInLine(line))
  }

  predicate WellFormedLine(b: BodyLine) {
    match b
    case State(state) => IsWord(state) && ';' !in state && '}' !in state && !HasHostname(LineText(b))
    case Transition(when, state) =>
      IsWord(when) && '}' !in when && IsWord(state) && ';' !in state && '}' !in state && !HasHostname(LineText(b))
    case Ethernet(mac) => IsWord(mac) && mac[|mac| - 1] != ';' && '}' !in mac && !HasHostname(LineText(b))
    case Hostname(name) => '\n' !in name && '}' !in name && !HasMac(LineText(b)) && !IsActive(LineText(b))
    case Other(text) => CleanLine(text) && !OpensLease(text)
  }

  predicate WellFormed(e: Entry) {
    && (forall i :: 0 <= i < |e.gap| ==> CleanLine(e.gap[i]))
    && IsWord(e.ip) && MatchesIp(e.ip) && '}' !in e.ip && !HasHostname(OpeningLine(e.ip))
    && (forall i :: 0 <= i < |e.body| ==> WellFormedLine(e.body[i]))
  }

  predicate SaysActive(b: BodyLine) {
    (b.State? || b.Transition?) && b.state == "active"
  }

  // What the search for the active marker finds: the state itself, or the state the
  // lease will have next or can be rewound to
  predicate ReadAsActive(e: Entry) {
    exists i :: 0 <= i < |e.body| && SaysActive(e.body[i])
  }

  // Some line inside the braces contains the word "lease": a host name such as
  // "release1", or "next binding state released;".
  predicate Hidden(e: Entry) {
    exists i :: 0 <= i < |e.body| && HasLease(LineText(e.body[i]))
  }

  // What is read of a client's name: names of several words are not understood, and
  // quotes at the ends of a name are lost.
  function NameRead(name: string): string {
    if NoSpace(name) && Strip(name, {'"'}) != "" then Strip(name, {'"'}) else UNKNOWN
  }

  function LastName(body: seq<BodyLine>): string {
    if body == [] then UNKNOWN
    else if body[|body| - 1].Hostname? then NameRead(body[|body| - 1].name)
    else LastName(body[..|body| - 1])
  }

  function LastMac(body: seq<BodyLine>): string {
    if body == [] then UNKNOWN
    else if body[|body| - 1].Ethernet? then body[|body| - 1].mac
    else LastMac(body[..|body| - 1])
  }

  // The lease recorded for a declaration
  function LeaseRead(e: Entry, names: bool, macs: bool): Lease {
    Lease(if names then LastName(e.body) else "Unknown Hostname", if macs then LastMac(e.body) else "Unknown Mac")
  }

  // The last declaration of an address that is visible and read as active wins.
  function Latest(es: seq<Entry>, names: bool, macs: bool): Addresses {
    if es == [] then map[] else
    var front, e := Latest(es[..|es| - 1], names, macs), es[|es| - 1];
    if ReadAsActive(e) && !Hidden(e) then front[e.ip := LeaseRead(e, names, macs)] else front
  }

  // ----------------------------------------------------- lines and their words

  lemma {:induction false} LastMatchConcat(xs: seq<string>, ys: seq<string>, hit: string -> bool)
    ensures LastMatch(xs + ys, hit)
         == if LastMatch(ys, hit).Some? then LastMatch(ys, hit) else LastMatch(xs, hit)
  {
    if ys == [] {
      assert xs + ys == xs;
    } else {
      assert (xs + ys)[..|xs + ys| - 1] == xs + ys[..|ys| - 1];
      LastMatchConcat(xs, ys[..|ys| - 1], hit);
    }
  }

  lemma {:induction false} LastMatchNone(lines: seq<string>, hit: string -> bool)
    requires forall i :: 0 <= i < |lines| ==> !hit(lines[i])
    ensures LastMatch(lines, hit) == None
  {
    if lines != [] {
      LastMatchNone(lines[..|lines| - 1], hit);
    }
  }

  // The last match is a line that matches, and no later line does.
  lemma {:induction false} LastMatchSome(lines: seq<string>, hit: string -> bool, i: nat) returns (k: nat)
    requires i < |lines| && hit(lines[i])
    ensures i <= k < |lines| && hit(lines[k]) && LastMatch(lines, hit) == Some(lines[k])
    ensures forall j :: k < j < |lines| ==> !hit(lines[j])
  {
    k := |lines| - 1;
    if !hit(lines[k]) {
      k := LastMatchSome(lines[..k], hit, i);
    }
  }

  lemma StatementWords(words: seq<string>)
    requires forall i :: 0 <= i < |words| ==> IsWord(words[i])
    ensures Fields(Statement(words)) == words
  {
    var s := Join(words, ' ');
    FieldsOfJoin(words);
    FieldsSkip(' ', s);
    FieldsSkip(' ', [' '] + s);
    assert [' '] + ([' '] + s) == "  " + s;
  }

  lemma Join2(a: string, b: string)
    ensures Join([a, b], ' ') == a + [' '] + b
  {
  }

  lemma Join3(a: string, b: string, c: string)
    ensures Join([a, b, c], ' ') == a + [' '] + b + [' '] + c
  {
    Join2(b, c);
    assert [a, b, c][1..] == [b, c];
  }

  // ------------------------------------------------ which line shows which marker

  // White space in a rendered line stands at the fixed places only.
  predicate SpacesAt(line: string, places: set<int>) {
    forall i :: 0 <= i < |line| && i !in places ==> !IsSpace(line[i])
  }

  lemma ActiveNeedsSpaces(line: string, places: set<int>) returns (i: nat)
    requires SpacesAt(line, places) && IsActive(line)
    ensures i + 21 <= |line| && At(line, ACTIVE, i)
    ensures i + 7 in places && i + 13 in places
  {
    i :| 0 <= i <= |line| && At(line, ACTIVE, i);
    assert line[i + 7] == ACTIVE[7] == ' ';
    assert line[i + 13] == ACTIVE[13] == ' ';
  }

  lemma SpacesIn3(a: string, b: string, c: string)
    requires NoSpace(a) && NoSpace(b) && NoSpace(c)
    ensures SpacesAt(Join([a, b, c], ' '), {|a|, |a| + 1 + |b|})
    ensures SpacesAt(Statement([a, b, c]), {0, 1, |a| + 2, |a| + |b| + 3})
  {
    Join3(a, b, c);
    var line := Join([a, b, c], ' ');
    assert forall i :: 0 <= i < |a| ==> line[i] == a[i];
    assert forall i :: |a| < i < |a| + 1 + |b| ==> line[i] == b[i - |a| - 1];
    assert forall i :: |a| + |b| + 1 < i < |line| ==> line[i] == c[i - |a| - |b| - 2];
    assert forall i :: 2 <= i < |Statement([a, b, c])| ==> Statement([a, b, c])[i] == line[i - 2];
  }

  lemma SpacesIn2(a: string, b: string)
    requires NoSpace(a) && NoSpace(b)
    ensures SpacesAt(Statement([a, b]), {0, 1, |a| + 2})
  {
    Join2(a, b);
    var line := Statement([a, b]);
    assert forall i :: 2 <= i < |a| + 2 ==> line[i] == a[i - 2];
    assert forall i :: |a| + 2 < i < |line| ==> line[i] == b[i - |a| - 3];
  }

  // The words of a statement stand in its text one after the other.
  lemma StatementAt(a: string, b: string, c: string)
    ensures At(Statement([a, b, c]), a, 2)
    ensures At(Statement([a, b, c]), b, |a| + 3)
    ensures At(Statement([a, b, c]), c, |a| + |b| + 4)
    ensures |Statement([a, b, c])| == |a| + |b| + |c| + 4
    ensures Statement([a, b, c])[0] == Statement([a, b, c])[1] == ' '
    ensures Statement([a, b, c])[|a| + 2] == Statement([a, b, c])[|a| + |b| + 3] == ' '
  {
    Join3(a, b, c);
  }

  lemma StateMarkers(state: string)
    requires IsWord(state) && ';' !in state
    ensures IsActive(LineText(State(state))) <==> state == "active"
  {
    var line := LineText(State(state));
    SpacesIn3("binding", "state", state + ";");
    StatementAt("binding", "state", state + ";");
    if IsActive(line) {
      var _ := ActiveNeedsSpaces(line, {0, 1, 9, 15});
      ActiveState(line, state);
    }
    if state == "active" {
      ActiveLine();
    }
  }

  lemma SpacesIn4(a: string, b: string, c: string, d: string)
    requires NoSpace(a) && NoSpace(b) && NoSpace(c) && NoSpace(d)
    ensures SpacesAt(Statement([a, b, c, d]), {0, 1, |a| + 2, |a| + |b| + 3, |a| + |b| + |c| + 4})
    ensures Statement([a, b, c, d]) == "  " + a + [' '] + b + [' '] + c + [' '] + d
  {
    SpacesIn3(b, c, d);
    Join3(b, c, d);
    assert [a, b, c, d][1..] == [b, c, d];
    var line := Statement([a, b, c, d]);
    assert line == "  " + (a + [' '] + Join([b, c, d], ' '));
    assert forall i :: 2 <= i < |a| + 2 ==> line[i] == a[i - 2];
    assert forall i :: |a| + 2 < i < |line| ==> line[i] == Join([b, c, d], ' ')[i - |a| - 3];
  }

  // A transition line is its first word and then a state line.
  lemma TransitionText(when: string, state: string)
    requires NoSpace(when) && NoSpace(state)
    ensures var line, n := LineText(Transition(when, state)), |when|;
            && |line| == |LineText(State(state))| + n + 1 >= n + 3
            && (forall i :: n + 2 < i < |line| ==> line[i] == LineText(State(state))[i - n - 1])
            && SpacesAt(line, {0, 1, n + 2, n + 10, n + 16})
            && line[n + 2] == ' ' && line[n + 3] == 'b' && line[n + 8] == 'n'
  {
    SpacesIn4(when, "binding", "state", state + ";");
    Join3("binding", "state", state + ";");
    assert LineText(State(state)) == "  " + ("binding" + [' '] + "state" + [' '] + (state + ";"));
  }

  lemma TransitionMarkers(when: string, state: string)
    requires IsWord(when) && IsWord(state) && ';' !in state
    ensures IsActive(LineText(Transition(when, state))) <==> state == "active"
    ensures !HasMac(LineText(Transition(when, state)))
  {
    hide LineText, IsSpace, IsActive, Contains, HasMac, At;
    TransitionText(when, state);
    var line, shorter, n := LineText(Transition(when, state)), LineText(State(state)), |when|;
    ShiftedAt(line, shorter, n + 1, ACTIVE, 2);
    ActiveAt(state);
    ActivePlace(line, n);
    NoMac(line, {0, 1, n + 2, n + 10, n + 16});
  }

  lemma ActiveAt(state: string)
    requires IsWord(state) && ';' !in state
    ensures At(LineText(State(state)), ACTIVE, 2) <==> state == "active"
  {
    StatementAt("binding", "state", state + ";");
    if state == "active" {
      ActiveLine();
    } else if At(LineText(State(state)), ACTIVE, 2) {
      ActiveState(LineText(State(state)), state);
    }
  }

  // In a transition line the marker can only stand after the first word.
  lemma ActivePlace(line: string, n: nat)
    requires SpacesAt(line, {0, 1, n + 2, n + 10, n + 16}) && n + 3 <= |line|
    ensures IsActive(line) <==> At(line, ACTIVE, n + 3)
  {
    hide At, SpacesAt;
    if IsActive(line) {
      var i := ActiveNeedsSpaces(line, {0, 1, n + 2, n + 10, n + 16});
      assert i == n + 3;
    }
  }

  // The same text further on
  lemma ShiftedAt(line: string, shorter: string, n: nat, p: string, i: nat)
    requires |line| == |shorter| + n && i <= |shorter|
    requires forall k :: n + i <= k < |line| ==> line[k] == shorter[k - n]
    ensures At(line, p, n + i) <==> At(shorter, p, i)
  {
    if At(line, p, n + i) {
      forall j | i <= j < i + |p| ensures shorter[j] == p[j - i] {
        assert line[n + j] == shorter[j];
      }
    }
  }

  lemma TransitionLine(when: string, state: string)
    requires IsWord(when) && '}' !in when && IsWord(state) && '}' !in state
    ensures !OpensLease(LineText(Transition(when, state)))
    ensures '\n' !in LineText(Transition(when, state)) && '}' !in LineText(Transition(when, state))
  {
    var words := [when, "binding", "state", state + ";"];
    StatementWords(words);
    JoinAvoids(words, ' ', '}');
    JoinAvoids(words, ' ', '\n');
    assert IpInLine(LineText(Transition(when, state))) == UNKNOWN;
    NotAnIp(UNKNOWN);
  }

  lemma StateNoMac(state: string)
    requires IsWord(state)
    ensures !HasMac(LineText(State(state)))
  {
    SpacesIn3("binding", "state", state + ";");
    StatementAt("binding", "state", state + ";");
    NoMac(LineText(State(state)), {0, 1, 9, 15});
  }

  lemma ActiveLine()
    ensures At(LineText(State("active")), ACTIVE, 2)
  {
    var line := LineText(State("active"));
    StatementAt("binding", "state", "active" + ";");
    assert ACTIVE == "binding" + [' '] + "state" + [' '] + ("active" + ";");
  }

  lemma NoMac(line: string, places: set<int>)
    requires SpacesAt(line, places)
    requires forall i :: i in places && 8 <= i < |line| - 8 ==>
        line[i - 8] != 'h' || line[i - 7] != 'a' || line[i + 1] != 'e'
    ensures !HasMac(line)
  {
  }

  lemma ActiveState(line: string, state: string)
    requires At(line, ACTIVE, 2) && |line| == 17 + |state| && ';' !in state
    requires At(line, state + ";", 16)
    ensures state == "active"
  {
    assert forall j :: 16 <= j < 16 + |state| ==>
        line[j] == (state + ";")[j - 16] == state[j - 16] && state[j - 16] in state;
    assert line[22] == ';';
    assert line[16] == 'a' && line[17] == 'c' && line[18] == 't' && line[19] == 'i' && line[20] == 'v'
        && line[21] == 'e';
  }

  lemma EthernetMarkers(mac: string)
    requires IsWord(mac)
    ensures HasMac(LineText(Ethernet(mac))) && !IsActive(LineText(Ethernet(mac)))
  {
    var line := LineText(Ethernet(mac));
    SpacesIn3("hardware", "ethernet", mac + ";");
    StatementAt("hardware", "ethernet", mac + ";");
    assert EthernetAt(line, 2);
    if IsActive(line) {
      var _ := ActiveNeedsSpaces(line, {0, 1, 10, 19});
    }
  }

  lemma HostnameMarker(name: string)
    ensures HasHostname(LineText(Hostname(name)))
  {
    Join2("client-hostname", Quoted(name));
    assert At(LineText(Hostname(name)), "client-hostname", 2);
  }

  // Any single word can be a client's name.
  lemma WordName(name: string)
    requires IsWord(name) && '}' !in name
    ensures WellFormedLine(Hostname(name))
  {
    var line, quoted := LineText(Hostname(name)), Quoted(name);
    SpacesIn2("client-hostname", quoted);
    Join2("client-hostname", quoted);
    assert At(line, "client-hostname", 2);
    if IsActive(line) {
      var _ := ActiveNeedsSpaces(line, {0, 1, 17});
    }
    assert line[10] == "client-hostname"[8];
    NoMac(line, {0, 1, 17});
    assert '\n' !in name by {
      assert IsSpace('\n');
    }
  }

  lemma OpeningMarkers(ip: string)
    requires IsWord(ip)
    ensures HasLease(OpeningLine(ip)) && !HasMac(OpeningLine(ip)) && !IsActive(OpeningLine(ip))
  {
    var line := OpeningLine(ip);
    Join3("lease", ip, "{");
    SpacesIn3("lease", ip, "{");
    assert At(line, "lease", 0);
    if IsActive(line) {
      var _ := ActiveNeedsSpaces(line, {5, |ip| + 6});
    }
    NoMac(line, {5, |ip| + 6});
  }

  // ------------------------------------------------------------ reading one entry

  lemma StateLine(state: string)
    requires IsWord(state) && '}' !in state
    ensures !OpensLease(LineText(State(state)))
    ensures '\n' !in LineText(State(state)) && '}' !in LineText(State(state))
  {
    StatementWords(["binding", "state", state + ";"]);
    JoinAvoids(["binding", "state", state + ";"], ' ', '}');
    JoinAvoids(["binding", "state", state + ";"], ' ', '\n');
    assert IpInLine(LineText(State(state))) == "state";
    NotAnIp("state");
  }

  lemma EthernetLine(mac: string)
    requires IsWord(mac) && mac[|mac| - 1] != ';' && '}' !in mac
    ensures !OpensLease(LineText(Ethernet(mac)))
    ensures MacInLine(LineText(Ethernet(mac))) == mac
    ensures '\n' !in LineText(Ethernet(mac)) && '}' !in LineText(Ethernet(mac))
  {
    StatementWords(["hardware", "ethernet", mac + ";"]);
    JoinAvoids(["hardware", "ethernet", mac + ";"], ' ', '}');
    JoinAvoids(["hardware", "ethernet", mac + ";"], ' ', '\n');
    assert IpInLine(LineText(Ethernet(mac))) == "ethernet";
    NotAnIp("ethernet");
    RStripOf(mac, ";", {';'});
  }

  lemma HostnameLine(name: string)
    requires '\n' !in name && '}' !in name
    ensures !OpensLease(LineText(Hostname(name)))
    ensures HostnameInLine(LineText(Hostname(name))) == if NoSpace(name) then Strip(name, {'"'}) else UNKNOWN
    ensures '\n' !in LineText(Hostname(name)) && '}' !in LineText(Hostname(name))
  {
    hide Strip, RStrip, LStrip, Fields;
    Join2("client-hostname", Quoted(name));
    HostnameFields(name);
    QuotedFields(name);
    NotAnIp(Fields(Quoted(name))[0]);
    NotAnIp(UNKNOWN);
    UnquotedName(name);
  }

  lemma HostnameFields(name: string)
    ensures Fields(LineText(Hostname(name))) == ["client-hostname"] + Fields(Quoted(name))
  {
    hide Fields;
    var quoted := Quoted(name);
    Join2("client-hostname", quoted);
    var line := "client-hostname" + ([' '] + quoted);
    assert LineText(Hostname(name)) == [' '] + ([' '] + line);
    FieldsSkip(' ', [' '] + line);
    FieldsSkip(' ', line);
    FieldsStep("client-hostname", quoted);
  }

  // A quoted name is one word exactly when it holds no white space.
  lemma QuotedFields(name: string)
    ensures Fields(Quoted(name)) != [] && Fields(Quoted(name))[0] != "" && Fields(Quoted(name))[0][0] == '"'
    ensures NoSpace(name) ==> Fields(Quoted(name)) == [Quoted(name)]
    ensures !NoSpace(name) ==> |Fields(Quoted(name))| >= 2
  {
    var quoted := Quoted(name);
    FirstField(quoted);
    if NoSpace(name) {
      FieldsOfWord(quoted);
    } else {
      var i :| 0 <= i < |name| && IsSpace(name[i]);
      var a, b := ['"'] + name[..i], name[i + 1..] + ['"', ';'];
      assert quoted == a + [name[i]] + b;
      FieldsConcat(a, name[i], b);
      FirstField(a);
      assert Fields(b) != [] by {
        assert b[|b| - 1] == ';';
        if Fields(b) == [] {
          NoFields(b);
        }
      }
    }
  }

  lemma FirstField(s: string)
    requires s != "" && !IsSpace(s[0])
    ensures Fields(s) != [] && Fields(s)[0] != "" && Fields(s)[0][0] == s[0]
  {
  }

  lemma NotAnIp(s: string)
    requires s == "" || !IsDigit(s[0])
    ensures !MatchesIp(s)
  {
  }

  lemma UnquotedName(name: string)
    ensures Strip(RStrip(Quoted(name), {';'}), {'"'}) == Strip(name, {'"'})
  {
    hide Strip;
    RStripOf(['"'] + name + ['"'], [';'], {';'});
    assert Quoted(name) == ['"'] + name + ['"'] + [';'];
    StripPair(name, '"');
  }

  // A client's name is recorded as it is exactly when it is one word without a quote at
  // its ends.
  lemma NameKept(name: string)
    ensures NameRead(name) == name <==> IsWord(name) && name[0] != '"' && name[|name| - 1] != '"'
  {
    hide Strip;
  }

  lemma LineMarkers(b: BodyLine)
    requires WellFormedLine(b)
    ensures '\n' !in LineText(b) && '}' !in LineText(b)
    ensures IsActive(LineText(b)) <==> SaysActive(b)
    ensures HasHostname(LineText(b)) <==> b.Hostname?
    ensures HasMac(LineText(b)) <==> b.Ethernet?
    ensures !OpensLease(LineText(b))
  {
    hide LineText, OpensLease, Contains, HasMac, UpperChar, HasHostname, IsActive;
    match b
    case State(state) => StateMarkers(state); StateNoMac(state); StateLine(state);
    case Transition(when, state) => TransitionMarkers(when, state); TransitionLine(when, state);
    case Ethernet(mac) => EthernetMarkers(mac); EthernetLine(mac);
    case Hostname(name) => HostnameMarker(name); HostnameLine(name);
    case Other(text) => OtherText(text);
  }

  lemma OtherText(text: string)
    ensures LineText(Other(text)) == text
  {
  }

  lemma EntryFree(e: Entry)
    requires WellFormed(e)
    ensures forall i :: 0 <= i < |EntryLines(e)| ==> '\n' !in EntryLines(e)[i] && '}' !in EntryLines(e)[i]
  {
    forall i | 0 <= i < |e.body| ensures '\n' !in LineText(e.body[i]) && '}' !in LineText(e.body[i]) {
      LineMarkers(e.body[i]);
    }
    Join3("lease", e.ip, "{");
    assert '\n' !in OpeningLine(e.ip) && '}' !in OpeningLine(e.ip);
  }

  lemma EntrySplit(e: Entry)
    requires WellFormed(e)
    ensures Split(EntryText(e), '\n') == EntryLines(e)
    ensures '}' !in EntryText(e)
  {
    EntryFree(e);
    SplitOfJoin(EntryLines(e), '\n');
    JoinAvoids(EntryLines(e), '\n', '}');
  }

  lemma EntryActive(e: Entry)
    requires WellFormed(e)
    ensures IsActive(EntryText(e)) <==> ReadAsActive(e)
  {
    hide Contains, EntryText, WellFormedLine;
    EntrySplit(e);
    ContainsInPiece(EntryText(e), '\n', ACTIVE);
    OpeningMarkers(e.ip);
    BodyActive(e.body);
    var upper := e.gap + [OpeningLine(e.ip)];
    NoneContains(upper, ACTIVE);
    AnyContainsConcat(upper, LineTexts(e.body), ACTIVE);
    AnyContainsConcat(upper + LineTexts(e.body), [""], ACTIVE);
    EmptyContains(ACTIVE);
  }

  lemma {:induction false} BodyActive(body: seq<BodyLine>)
    requires forall i :: 0 <= i < |body| ==> WellFormedLine(body[i])
    ensures AnyContains(LineTexts(body), ACTIVE) <==> exists i :: 0 <= i < |body| && SaysActive(body[i])
  {
    hide Contains, WellFormedLine, LineText;
    var texts := LineTexts(body);
    forall i | 0 <= i < |body| ensures Contains(texts[i], ACTIVE) <==> SaysActive(body[i]) {
      LineMarkers(body[i]);
    }
    if AnyContains(texts, ACTIVE) {
      var i :| 0 <= i < |texts| && Contains(texts[i], ACTIVE);
      assert SaysActive(body[i]);
    }
    if exists i :: 0 <= i < |body| && SaysActive(body[i]) {
      var i :| 0 <= i < |body| && SaysActive(body[i]);
      assert Contains(texts[i], ACTIVE);
    }
  }

  lemma NoneContains(lines: seq<string>, p: string)
    requires forall i :: 0 <= i < |lines| ==> !Contains(lines[i], p)
    ensures !AnyContains(lines, p)
  {
  }

  lemma EmptyContains(p: string)
    requires p != ""
    ensures !AnyContains([""], p)
  {
  }

  lemma AnyContainsConcat(xs: seq<string>, ys: seq<string>, p: string)
    ensures AnyContains(xs + ys, p) <==> AnyContains(xs, p) || AnyContains(ys, p)
  {
    hide Contains;
    if AnyContains(xs, p) {
      var i :| 0 <= i < |xs| && Contains(xs[i], p);
      assert Contains((xs + ys)[i], p);
    }
    if AnyContains(ys, p) {
      var i :| 0 <= i < |ys| && Contains(ys[i], p);
      assert Contains((xs + ys)[|xs| + i], p);
    }
  }

  // The last match in a block: from the body if any line there matches.
  lemma EntryLastMatch(e: Entry, hit: string -> bool)
    requires !hit("")
    ensures LastMatch(EntryLines(e), hit)
         == if LastMatch(LineTexts(e.body), hit).Some? then LastMatch(LineTexts(e.body), hit)
            else if hit(OpeningLine(e.ip)) then Some(OpeningLine(e.ip))
            else LastMatch(e.gap, hit)
  {
    var upper := e.gap + [OpeningLine(e.ip)];
    LastMatchConcat(upper, LineTexts(e.body), hit);
    LastMatchConcat(upper + LineTexts(e.body), [""], hit);
    assert upper[..|upper| - 1] == e.gap;
  }

  lemma EntryIp(e: Entry)
    requires WellFormed(e)
    ensures IpOf(EntryLines(e)) == if Hidden(e) then UNKNOWN else e.ip
  {
    var texts := LineTexts(e.body);
    EntryLastMatch(e, HasLease);
    OpeningMarkers(e.ip);
    FieldsOfJoin(["lease", e.ip, "{"]);
    if Hidden(e) {
      var i :| 0 <= i < |e.body| && HasLease(LineText(e.body[i]));
      var k := LastMatchSome(texts, HasLease, i);
      LineMarkers(e.body[k]);
    } else {
      LastMatchNone(texts, HasLease);
    }
  }

  lemma {:induction false} BodyName(body: seq<BodyLine>)
    requires forall i :: 0 <= i < |body| ==> WellFormedLine(body[i])
    ensures var name := ValueIn(LineTexts(body), HasHostname, HostnameInLine);
            LastName(body) == if name == "" then UNKNOWN else name
  {
    hide LineText, HasHostname, HasMac, HostnameInLine, MacInLine;
    if body != [] {
      var front, b := body[..|body| - 1], body[|body| - 1];
      BodyName(front);
      LineMarkers(b);
      assert LineTexts(body)[..|body| - 1] == LineTexts(front);
      if b.Hostname? {
        HostnameLine(b.name);
      }
    }
  }

  lemma {:induction false} BodyMac(body: seq<BodyLine>)
    requires forall i :: 0 <= i < |body| ==> WellFormedLine(body[i])
    ensures LastMatch(LineTexts(body), HasMac).Some? ==>
              LastMac(body) != "" && LastMac(body) == ValueIn(LineTexts(body), HasMac, MacInLine)
    ensures LastMatch(LineTexts(body), HasMac).None? ==> LastMac(body) == UNKNOWN
  {
    hide LineText, HasHostname, HasMac, HostnameInLine, MacInLine;
    if body != [] {
      var front, b := body[..|body| - 1], body[|body| - 1];
      BodyMac(front);
      LineMarkers(b);
      assert LineTexts(body)[..|body| - 1] == LineTexts(front);
      if b.Ethernet? {
        EthernetLine(b.mac);
      }
    }
  }

  lemma EntryNames(e: Entry)
    requires WellFormed(e)
    ensures HostnameOf(EntryLines(e)) == LastName(e.body)
    ensures MacOf(EntryLines(e)) == LastMac(e.body)
  {
    OpeningMarkers(e.ip);
    EntryLastMatch(e, HasHostname);
    EntryLastMatch(e, HasMac);
    LastMatchNone(e.gap, HasHostname);
    LastMatchNone(e.gap, HasMac);
    BodyName(e.body);
    BodyMac(e.body);
  }

  lemma IpKnown(e: Entry)
    requires WellFormed(e)
    ensures e.ip != UNKNOWN
  {
    hide MatchesIp, LineText, HasHostname, HasMac;
    IpStartsWithDigit(e.ip);
  }

  // What one rendered declaration adds to the dictionary. It is left out, although it
  // is active, exactly when a line inside its braces contains "lease".
  lemma RecordOfEntry(d: Addresses, e: Entry, names: bool, macs: bool)
    requires WellFormed(e)
    ensures Record(d, EntryText(e), names, macs)
         == if ReadAsActive(e) && !Hidden(e) then d[e.ip := LeaseRead(e, names, macs)] else d
  {
    hide WellFormed, IsActive, ReadAsActive, Hidden, EntryText, EntryLines, IpOf, HostnameOf, MacOf, Split,
         LastName, LastMac;
    IpKnown(e);
    EntrySplit(e);
    EntryActive(e);
    EntryIp(e);
    EntryNames(e);
  }

  // ------------------------------------------------------------ reading the file

  function EntryTexts(es: seq<Entry>): (texts: seq<string>)
    ensures |texts| == |es|
    ensures forall i :: 0 <= i < |es| ==> texts[i] == EntryText(es[i])
  {
    if es == [] then [] else [EntryText(es[0])] + EntryTexts(es[1..])
  }

  lemma {:induction false} SplitFile(es: seq<Entry>, tail: string)
    requires forall i :: 0 <= i < |es| ==> WellFormed(es[i])
    requires '}' !in tail
    ensures Split(FileText(es, tail), '}') == EntryTexts(es) + [tail]
  {
    if es != [] {
      SplitFile(es[1..], tail);
      EntrySplit(es[0]);
      SplitCons(EntryText(es[0]), '}', FileText(es[1..], tail));
    }
  }

  lemma {:induction false} RecordEntries(es: seq<Entry>, names: bool, macs: bool)
    requires forall i :: 0 <= i < |es| ==> WellFormed(es[i])
    ensures RecordAll(EntryTexts(es), names, macs) == Latest(es, names, macs)
  {
    if es != [] {
      var front, e := es[..|es| - 1], es[|es| - 1];
      hide Record, EntryText, WellFormed;
      RecordEntries(front, names, macs);
      assert EntryTexts(es)[..|es| - 1] == EntryTexts(front);
      RecordOfEntry(RecordAll(EntryTexts(front), names, macs), e, names, macs);
    }
  }

  // Rendering any list of declarations and parsing the text gives, for every address,
  // the last declaration that is visible and read as active.
  lemma RoundTrip(es: seq<Entry>, tail: string, names: bool, macs: bool)
    requires forall i :: 0 <= i < |es| ==> WellFormed(es[i])
    requires '}' !in tail
    ensures RecordAll(Blocks(FileText(es, tail)), names, macs) == Latest(es, names, macs)
  {
    SplitFile(es, tail);
    assert Blocks(FileText(es, tail)) == EntryTexts(es);
    RecordEntries(es, names, macs);
  }

  // ------------------------------------------------------------- lines by example

  // Where a text stands in a line
  lemma FirstLetters(line: string, p: string) returns (i: nat)
    requires |p| >= 2 && Contains(line, p)
    ensures i + 1 < |line| && line[i] == p[0] && line[i + 1] == p[1]
  {
    i :| 0 <= i <= |line| && At(line, p, i);
  }

  // A state without a dash is no name line, and one without the letter l no lease line.
  lemma StateWithoutMarkers(state: string)
    requires IsWord(state) && '-' !in state
    ensures !HasHostname(LineText(State(state)))
    ensures 'l' !in state ==> !HasLease(LineText(State(state)))
  {
    var line := LineText(State(state));
    Join3("binding", "state", state + ";");
    assert 'l' !in "  " && 'l' !in "binding" && 'l' !in "state" && 'l' !in ";";
    assert '-' !in "  " && '-' !in "binding" && '-' !in "state" && '-' !in ";";
    assert line == "  " + ("binding" + [' '] + "state" + [' '] + (state + ";"));
    assert "client-hostname"[6] == '-' && "lease"[0] == 'l';
    assert forall i :: 0 <= i < |line| ==> line[i] != '-';
    assert 'l' !in state ==> forall i :: 0 <= i < |line| ==> line[i] != 'l';
    if HasHostname(line) {
      var _ := DashInName(line);
    }
    if 'l' !in state && HasLease(line) {
      var _ := FirstLetters(line, "lease");
    }
  }

  lemma DashInName(line: string) returns (i: nat)
    requires HasHostname(line)
    ensures i < |line| && line[i] == '-'
  {
    i :| 0 <= i <= |line| && At(line, "client-hostname", i);
    assert |"client-hostname"| == 15 && "client-hostname"[6] == '-';
    assert line[i + 6] == '-';
    i := i + 6;
  }

  // A name line contains "lease" exactly when the name does.
  lemma HostnameHides(name: string)
    ensures HasLease(LineText(Hostname(name))) <==> Contains(name, "lease")
  {
    hide Contains;
    Join2("client-hostname", Quoted(name));
    var before, after := "  client-hostname ", name + ['"'] + ";";
    assert LineText(Hostname(name)) == before + ['"'] + after;
    assert '"' !in "lease" by { LeaseLetters(); }
    ContainsAcross(before, '"', after, "lease");
    ContainsAcross(name, '"', ";", "lease");
    NoLeaseInPrefix();
  }

  lemma LeaseLetters()
    ensures forall x :: x in "lease" ==> x == 'l' || x == 'e' || x == 'a' || x == 's'
  {
  }

  lemma NoLeaseInPrefix()
    ensures !Contains("  client-hostname ", "lease") && !Contains(";", "lease")
  {
    var s := "  client-hostname ";
    assert "lease"[0] == 'l' && "lease"[1] == 'e' && s[4] == 'i';
    assert forall i :: 0 <= i < |s| && s[i] == 'l' ==> i == 3;
    if Contains(s, "lease") {
      var _ := FirstLetters(s, "lease");
    }
  }

  lemma ExampleIp(rest: string)
    requires NoSpace(rest) && 'l' !in rest && '}' !in rest
    ensures var ip := "10.0.0.9" + rest; IsWord(ip) && MatchesIp(ip) && '}' !in ip && !HasHostname(OpeningLine(ip))
  {
    var ip, last := "10.0.0.9" + rest, "9" + rest;
    FourOctets("10", "0", "0", last);
    assert ip == "10" + ['.'] + ("0" + ['.'] + ("0" + ['.'] + last));
    OpeningWithoutName("10.0.0.9" + rest);
  }

  lemma FourOctets(a: string, b: string, c: string, last: string)
    requires 1 <= |a| <= 3 && AllDigits(a) && 1 <= |b| <= 3 && AllDigits(b) && 1 <= |c| <= 3 && AllDigits(c)
    requires last != "" && IsDigit(last[0])
    ensures MatchesIp(a + ['.'] + (b + ['.'] + (c + ['.'] + last)))
  {
    assert Octets(last, 0);
    hide Octets;
    OneOctet(c, last, 0);
    OneOctet(b, c + ['.'] + last, 1);
    OneOctet(a, b + ['.'] + (c + ['.'] + last), 2);
  }

  // What the address pattern accepts: three times one to three digits and any character
  // but a line break, and then a digit.
  lemma AddressParts(s: string) returns (a: string, x: char, b: string, y: char, c: string, z: char, rest: string)
    requires MatchesIp(s)
    ensures 1 <= |a| <= 3 && AllDigits(a) && 1 <= |b| <= 3 && AllDigits(b) && 1 <= |c| <= 3 && AllDigits(c)
    ensures x != '\n' && y != '\n' && z != '\n' && rest != "" && IsDigit(rest[0])
    ensures s == a + [x] + (b + [y] + (c + [z] + rest))
  {
    hide AllDigits, IsDigit;
    a, x, rest := OctetPart(s, 2);
    b, y, rest := OctetPart(rest, 1);
    c, z, rest := OctetPart(rest, 0);
  }

  lemma OctetPart(s: string, more: nat) returns (digits: string, x: char, rest: string)
    requires Octets(s, more + 1)
    ensures 1 <= |digits| <= 3 && AllDigits(digits) && x != '\n' && Octets(rest, more)
    ensures s == digits + [x] + rest
  {
    var n :| 1 <= n <= 3 && OctetOf(s, n) && Octets(s[n + 1..], more);
    digits, x, rest := s[..n], s[n], s[n + 1..];
  }

  lemma OneOctet(digits: string, rest: string, more: nat)
    requires 1 <= |digits| <= 3 && AllDigits(digits) && Octets(rest, more)
    ensures Octets(digits + ['.'] + rest, more + 1)
  {
    var s := digits + ['.'] + rest;
    assert OctetOf(s, |digits|) && s[|digits| + 1..] == rest;
  }

  lemma OpeningWithoutName(ip: string)
    requires 'l' !in ip
    ensures !HasHostname(OpeningLine(ip))
  {
    var line := OpeningLine(ip);
    Join3("lease", ip, "{");
    assert "client-hostname"[1] == 'l';
    assert forall i :: 0 < i < |line| ==> line[i] != 'l';
    if HasHostname(line) {
      var _ := FirstLetters(line, "client-hostname");
    }
  }
}
