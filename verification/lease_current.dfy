// The leases that are current according to a lease file, and how far the leases that
// check_dhcpd_leases.py reads from it are those.
module LeaseCurrent {
  import opened Text
  import opened HostOrder
  import opened LeaseText

  // ----------------------------------------------------------- what a file declares

  // The last state line counts.
  predicate SaidActive(body: seq<BodyLine>) {
    body != [] &&
    if body[|body| - 1].State? then body[|body| - 1].state == "active" else SaidActive(body[..|body| - 1])
  }

  // The declared state of the lease is active.
  predicate Active(e: Entry) {
    SaidActive(e.body)
  }

  function GivenName(body: seq<BodyLine>): string {
    if body == [] then UNKNOWN
    else if body[|body| - 1].Hostname? then body[|body| - 1].name
    else GivenName(body[..|body| - 1])
  }

  // The lease as declared, with the client's name as given
  function Given(e: Entry, names: bool, macs: bool): Lease {
    Lease(if names then GivenName(e.body) else "Unknown Hostname", if macs then LastMac(e.body) else "Unknown Mac")
  }

  // dhcpd appends a declaration whenever a lease changes, so the last declaration of an
  // address is the current one, whatever the parser makes of it.
  function Current(es: seq<Entry>, names: bool, macs: bool): Addresses {
    if es == [] then map[] else
    var front, e := Current(es[..|es| - 1], names, macs), es[|es| - 1];
    if Active(e) then front[e.ip := Given(e, names, macs)] else front - {e.ip}
  }

  // The place of the last declaration of an address
  function LastOf(es: seq<Entry>, ip: string): (k: Option<nat>)
    ensures k.Some? ==> k.value < |es| && es[k.value].ip == ip && forall j :: k.value < j < |es| ==> es[j].ip != ip
    ensures k.None? ==> forall j :: 0 <= j < |es| ==> es[j].ip != ip
  {
    if es == [] then None
    else if es[|es| - 1].ip == ip then Some(|es| - 1)
    else LastOf(es[..|es| - 1], ip)
  }

  predicate IsRead(e: Entry) {
    ReadAsActive(e) && !Hidden(e)
  }

  // The place of the last declaration of an address that the parser records
  function LastRead(es: seq<Entry>, ip: string): (i: Option<nat>)
    ensures i.Some? ==> i.value < |es|
  {
    if es == [] then None
    else if es[|es| - 1].ip == ip && IsRead(es[|es| - 1]) then Some(|es| - 1)
    else LastRead(es[..|es| - 1], ip)
  }

  lemma {:induction false} LastReadIs(es: seq<Entry>, ip: string)
    ensures match LastRead(es, ip)
            case Some(i) =>
              es[i].ip == ip && IsRead(es[i]) && forall j :: i < j < |es| ==> es[j].ip != ip || !IsRead(es[j])
            case None =>
              forall j :: 0 <= j < |es| ==> es[j].ip != ip || !IsRead(es[j])
  {
    hide IsRead;
    if es != [] {
      LastReadIs(es[..|es| - 1], ip);
    }
  }

  // -------------------------------------------------------------- three differences

  // A declaration was recorded, and the last one is not active.
  predicate Stale(es: seq<Entry>, ip: string) {
    LastRead(es, ip).Some? && LastOf(es, ip).Some? && !Active(es[LastOf(es, ip).value])
  }

  // The last declaration is active, and none was recorded.
  predicate Missed(es: seq<Entry>, ip: string) {
    LastRead(es, ip).None? && LastOf(es, ip).Some? && Active(es[LastOf(es, ip).value])
  }

  // The last declaration is active, and the one recorded reads otherwise.
  predicate Misread(es: seq<Entry>, ip: string, names: bool, macs: bool) {
    && LastRead(es, ip).Some? && LastOf(es, ip).Some? && Active(es[LastOf(es, ip).value])
    && LeaseRead(es[LastRead(es, ip).value], names, macs) != Given(es[LastOf(es, ip).value], names, macs)
  }

  // ------------------------------------------------------------------ the theorem

  lemma {:induction false} LatestAt(es: seq<Entry>, names: bool, macs: bool, ip: string)
    ensures ip in Latest(es, names, macs) <==> LastRead(es, ip).Some?
    ensures ip in Latest(es, names, macs) ==>
              Latest(es, names, macs)[ip] == LeaseRead(es[LastRead(es, ip).value], names, macs)
  {
    hide Hidden, ReadAsActive, LeaseRead;
    if es != [] {
      LatestAt(es[..|es| - 1], names, macs, ip);
    }
  }

  lemma {:induction false} CurrentAt(es: seq<Entry>, names: bool, macs: bool, ip: string)
    ensures ip in Current(es, names, macs) <==> LastOf(es, ip).Some? && Active(es[LastOf(es, ip).value])
    ensures ip in Current(es, names, macs) ==>
              Current(es, names, macs)[ip] == Given(es[LastOf(es, ip).value], names, macs)
  {
    hide Active, Given;
    if es != [] {
      CurrentAt(es[..|es| - 1], names, macs, ip);
    }
  }

  // Address by address: what is read and what is current
  lemma ReadOrCurrent(es: seq<Entry>, names: bool, macs: bool, ip: string)
    ensures var read, current := Latest(es, names, macs), Current(es, names, macs);
            && (ip in read && ip !in current <==> Stale(es, ip))
            && (ip in current && ip !in read <==> Missed(es, ip))
            && (ip in read && ip in current && read[ip] != current[ip] <==> Misread(es, ip, names, macs))
  {
    hide Active, Given, LeaseRead, Latest, Current;
    LatestAt(es, names, macs, ip);
    CurrentAt(es, names, macs, ip);
    ReadIsDeclared(es, ip);
  }

  lemma ReadIsDeclared(es: seq<Entry>, ip: string)
    ensures LastRead(es, ip).Some? ==> LastOf(es, ip).Some? && LastRead(es, ip).value <= LastOf(es, ip).value
  {
    hide IsRead, LastRead, LastOf;
    LastReadIs(es, ip);
  }

  // Parsing a rendered file: the addresses recorded without being current are the stale
  // ones, those current without being recorded the missed ones; and the current leases
  // are read exactly when none is stale, missed or misread.
  lemma ParsedIsCurrent(es: seq<Entry>, tail: string, names: bool, macs: bool)
    requires forall i :: 0 <= i < |es| ==> WellFormed(es[i])
    requires '}' !in tail
    ensures var read, current := RecordAll(Blocks(FileText(es, tail)), names, macs), Current(es, names, macs);
            && (forall ip :: ip in read.Keys - current.Keys <==> Stale(es, ip))
            && (forall ip :: ip in current.Keys - read.Keys <==> Missed(es, ip))
            && (read.Keys == current.Keys <==> forall ip :: !Stale(es, ip) && !Missed(es, ip))
            && (read == current <==> forall ip :: !Stale(es, ip) && !Missed(es, ip) && !Misread(es, ip, names, macs))
  {
    hide RecordAll, Blocks, FileText, Stale, Missed, Misread, Current, Latest, WellFormed;
    RoundTrip(es, tail, names, macs);
    var read, current := Latest(es, names, macs), Current(es, names, macs);
    forall ip
      ensures ip in read && ip !in current <==> Stale(es, ip)
      ensures ip in current && ip !in read <==> Missed(es, ip)
      ensures ip in read && ip in current && read[ip] != current[ip] <==> Misread(es, ip, names, macs)
    {
      ReadOrCurrent(es, names, macs, ip);
    }
    assert read.Keys == current.Keys <==> forall ip :: ip in read <==> ip in current;
  }

  lemma {:induction false} ActiveIsRead(body: seq<BodyLine>)
    requires SaidActive(body)
    ensures exists i :: 0 <= i < |body| && SaysActive(body[i])
  {
    if body[|body| - 1].State? {
      assert SaysActive(body[|body| - 1]);
    } else {
      ActiveIsRead(body[..|body| - 1]);
    }
  }

  lemma {:induction false} NameReadIs(body: seq<BodyLine>)
    ensures LastName(body) == NameRead(GivenName(body))
  {
    if body != [] {
      NameReadIs(body[..|body| - 1]);
    } else {
      NameKept(UNKNOWN);
    }
  }

  // A current lease is misread in two ways. When its declaration is visible, it is the
  // one recorded, and the client's name is not one plain word. When it is hidden, an
  // older declaration supplies another name or MAC.
  lemma MisreadIs(es: seq<Entry>, ip: string, names: bool, macs: bool)
    requires LastOf(es, ip).Some? && Active(es[LastOf(es, ip).value]) && LastRead(es, ip).Some?
    ensures var e, name := es[LastOf(es, ip).value], GivenName(es[LastOf(es, ip).value].body);
            && (Hidden(e) ==> LastRead(es, ip).value < LastOf(es, ip).value)
            && (!Hidden(e) ==>
                 && LastRead(es, ip) == LastOf(es, ip)
                 && (Misread(es, ip, names, macs) <==>
                      names && !(IsWord(name) && name[0] != '"' && name[|name| - 1] != '"')))
  {
    hide LastOf, LastRead, Hidden, NameRead, IsWord;
    var e := es[LastOf(es, ip).value];
    ReadIsDeclared(es, ip);
    LastReadIs(es, ip);
    ActiveIsRead(e.body);
    NameReadIs(e.body);
    NameKept(GivenName(e.body));
  }

  // ---------------------------------------------------------------------- failures

  predicate GoodIp(ip: string) {
    IsWord(ip) && MatchesIp(ip) && '}' !in ip && !HasHostname(OpeningLine(ip))
  }

  // A lease that is active and then in another state, such as free or released, stays
  // recorded.
  lemma EndedLease(ip: string, state: string) returns (es: seq<Entry>)
    requires GoodIp(ip) && WellFormedLine(State(state)) && state != "active"
    ensures es == [Entry([], ip, [State("active")]), Entry([], ip, [State(state)])]
    ensures forall i :: 0 <= i < |es| ==> WellFormed(es[i])
    ensures Stale(es, ip)
    ensures ip in RecordAll(Blocks(FileText(es, "")), true, true) && ip !in Current(es, true, true)
  {
    hide MatchesIp, HasHostname, HasLease, LineText, RecordAll, Blocks, FileText, Current;
    StateWithoutMarkers("active");
    es := [Entry([], ip, [State("active")]), Entry([], ip, [State(state)])];
    assert es[0].body[0] == State("active") && SaysActive(es[0].body[0]);
    assert IsRead(es[0]) && !ReadAsActive(es[1]) && !Active(es[1]);
    assert es[..1] == [es[0]];
    assert LastRead([es[0]], ip) == Some(0);
    ParsedIsCurrent(es, "", true, true);
  }

  lemma FreeAndReleased()
    ensures WellFormedLine(State("free")) && WellFormedLine(State("released"))
  {
    StateWithoutMarkers("free");
    StateWithoutMarkers("released");
    assert IsWord("free") && IsWord("released");
  }

  // An active lease with a name and nothing else is recorded exactly when its name is
  // free of the word "lease".
  lemma NamedLease(ip: string, name: string) returns (e: Entry)
    requires GoodIp(ip) && WellFormedLine(Hostname(name))
    ensures e == Entry([], ip, [State("active"), Hostname(name)]) && WellFormed(e) && Active(e)
    ensures IsRead(e) <==> !Contains(name, "lease")
    ensures RecordAll(Blocks(FileText([e], "")), true, true) == map[] <==> Contains(name, "lease")
    ensures Missed([e], ip) <==> Contains(name, "lease")
  {
    hide MatchesIp, HasHostname, HasLease, LineText, RecordAll, Blocks, FileText, Contains;
    StateWithoutMarkers("active");
    HostnameHides(name);
    e := Entry([], ip, [State("active"), Hostname(name)]);
    assert e.body[0] == State("active") && e.body[1] == Hostname(name) && SaysActive(e.body[0]);
    assert e.body[..1] == [State("active")] && SaidActive([State("active")]);
    RoundTrip([e], "", true, true);
    assert [e][..0] == [];
    assert Hidden(e) <==> HasLease(LineText(e.body[0])) || HasLease(LineText(e.body[1]));
    assert IsRead(e) ==> e.ip in Latest([e], true, true);
  }

  // An active lease whose client is called "release1" is not recorded.
  lemma LeaseInHostname() returns (e: Entry)
    ensures e.ip == "10.0.0.9" && WellFormed(e) && Active(e)
    ensures RecordAll(Blocks(FileText([e], "")), true, true) == map[]
  {
    hide MatchesIp, HasHostname, LineText, RecordAll, Blocks, FileText, OpeningLine, WellFormedLine;
    ExampleIp("");
    assert "10.0.0.9" + "" == "10.0.0.9";
    assert At("release1", "lease", 2);
    WordName("release1");
    e := NamedLease("10.0.0.9", "release1");
  }

  // A client that changes its name to one with the word "lease" is still recorded under
  // the old name.
  lemma OldNameKept(ip: string, old': string, name: string) returns (es: seq<Entry>)
    requires GoodIp(ip) && WellFormedLine(Hostname(old')) && WellFormedLine(Hostname(name))
    requires !Contains(old', "lease") && Contains(name, "lease") && NameRead(old') == old'
    ensures es == [Entry([], ip, [State("active"), Hostname(old')]), Entry([], ip, [State("active"), Hostname(name)])]
    ensures forall i :: 0 <= i < |es| ==> WellFormed(es[i])
    ensures Misread(es, ip, true, true)
    ensures var read := RecordAll(Blocks(FileText(es, "")), true, true); ip in read && read[ip].host == old'
    ensures var current := Current(es, true, true); ip in current && current[ip].host == name
  {
    hide GoodIp, WellFormedLine, RecordAll, Blocks, FileText, Contains, NameRead, WellFormed, Active, IsRead;
    var e := NamedLease(ip, old');
    var e' := NamedLease(ip, name);
    es := [e, e'];
    assert es[..1] == [e] && [e][..0] == [];
    assert LastRead([e], ip) == Some(0) && LastRead(es, ip) == Some(0) && LastOf(es, ip) == Some(1);
    RoundTrip(es, "", true, true);
    LatestAt(es, true, true, ip);
    CurrentAt(es, true, true, ip);
    assert LastName(e.body) == NameRead(old') && GivenName(e'.body) == name;
    assert old' != name;
  }
}
