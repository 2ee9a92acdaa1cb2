// The two listings of check_dhcpd_leases.py as text, and how they relate.
module LeaseListing {
  import opened Text
  import opened HostOrder
  import opened LeasePolicy
  import LeaseText

  const SEPARATOR := ", "

  // One lease as listed
  function ListedAs(show: Display, ip: string, host: string, mac: string): string {
    (if show.noName then ip else host + " = " + ip) + (if show.showMac then " (" + mac + ")" else "")
  }

  // Hosts come from named, addresses from d: the unauthorised listing takes the host
  // from its own dictionary and the MAC from the full one.
  function Entries(show: Display, keys: seq<string>, named: Addresses, d: Addresses): seq<string>
    requires forall k :: k in keys ==> k in named && k in d
  {
    if keys == [] then [] else
    var front, ip := keys[..|keys| - 1], keys[|keys| - 1];
    assert forall k :: k in front ==> k in keys;
    Entries(show, front, named, d) + [ListedAs(show, ip, named[ip].host, d[ip].mac)]
  }

  lemma EntriesStep(show: Display, keys: seq<string>, i: nat, named: Addresses, d: Addresses)
    requires i < |keys|
    requires forall k :: k in keys ==> k in named && k in d
    ensures Entries(show, keys[..i + 1], named, d)
         == Entries(show, keys[..i], named, d) + [ListedAs(show, keys[i], named[keys[i]].host, d[keys[i]].mac)]
  {
    hide ListedAs;
    assert keys[..i + 1][..i] == keys[..i];
  }

  // What the loop appends: every entry followed by the separator
  function Terminated(entries: seq<string>): string {
    if entries == [] then "" else Terminated(entries[..|entries| - 1]) + entries[|entries| - 1] + SEPARATOR
  }

  lemma TerminatedNone(start: string)
    ensures start + Terminated([]) == start
  {
  }

  lemma TerminatedStep(start: string, entries: seq<string>, e: string)
    ensures start + Terminated(entries + [e]) == start + Terminated(entries) + e + SEPARATOR
  {
    assert (entries + [e])[..|entries|] == entries;
  }

  function Separated(entries: seq<string>): string {
    if entries == [] then ""
    else if |entries| == 1 then entries[0]
    else Separated(entries[..|entries| - 1]) + SEPARATOR + entries[|entries| - 1]
  }

  function Summary(show: Display, n: nat): string {
    if show.noSummary then "" else
    Decimal(n) + (if n == 1 then " lease" else " leases") + (if show.compact then "" else " - ")
  }

  // format_leases
  function LeaseMessage(show: Display, n: nat, entries: seq<string>): string {
    if n == 0 then "No dhcp leases recorded" else
    (if show.compact then Summary(show, n) else RStrip(Summary(show, n) + Terminated(entries), {',', ' '}))
    + " | 'DHCP Leases'=" + Decimal(n)
  }

  // format_unauthorized_leases
  function UnauthorizedMessage(n: nat, entries: seq<string>): string {
    if n == 0 then "" else
    RStrip(Decimal(n) + (if n == 1 then " Unauthorized Host! " else " Unauthorized Hosts! ") + Terminated(entries),
        {',', ' '})
  }

  // One lease as listed, with and without names and MACs
  lemma EntriesAre(ip: string, host: string, mac: string, compact: bool, sortByIp: bool, noSummary: bool)
    ensures ListedAs(Display(false, false, compact, sortByIp, noSummary), ip, host, mac) == host + " = " + ip
    ensures ListedAs(Display(false, true, compact, sortByIp, noSummary), ip, host, mac)
         == host + " = " + ip + (" (" + mac + ")")
    ensures ListedAs(Display(true, false, compact, sortByIp, noSummary), ip, host, mac) == ip
    ensures ListedAs(Display(true, true, compact, sortByIp, noSummary), ip, host, mac) == ip + (" (" + mac + ")")
  {
    assert host + " = " + ip + "" == host + " = " + ip && ip + "" == ip;
  }

  predicate EndsPlain(e: string) {
    e != "" && e[|e| - 1] !in {',', ' '}
  }

  // The message for two leases
  lemma TwoLeases(noName: bool, showMac: bool, sortByIp: bool, e: string, e': string)
    requires EndsPlain(e')
    ensures LeaseMessage(Display(noName, showMac, false, sortByIp, false), 2, [e, e'])
         == "2 leases - " + e + ", " + e' + " | 'DHCP Leases'=2"
    ensures LeaseMessage(Display(noName, showMac, true, sortByIp, false), 2, [e, e'])
         == "2 leases" + " | 'DHCP Leases'=2"
    ensures UnauthorizedMessage(2, [e, e']) == "2 Unauthorized Hosts! " + e + ", " + e'
  {
    hide RStrip, Decimal, Terminated;
    assert Decimal(2) == "2" by { DigitText(2); }
    assert "2" + " leases" + " - " == "2 leases - " && "2" + " leases" + "" == "2 leases";
    assert "2" + " Unauthorized Hosts! " == "2 Unauthorized Hosts! ";
    assert " | 'DHCP Leases'=" + "2" == " | 'DHCP Leases'=2";
    TwoStripped("2 leases - ", e, e');
    TwoStripped("2 Unauthorized Hosts! ", e, e');
    assert "2 leases - " + e + ", " + e' + " | 'DHCP Leases'=" + "2"
        == "2 leases - " + e + ", " + e' + " | 'DHCP Leases'=2";
    assert "2 leases" + " | 'DHCP Leases'=" + "2" == "2 leases" + " | 'DHCP Leases'=2";
  }

  // The message for one lease
  lemma OneLease(noName: bool, showMac: bool, sortByIp: bool, e: string)
    requires EndsPlain(e)
    ensures LeaseMessage(Display(noName, showMac, false, sortByIp, true), 1, [e]) == e + " | 'DHCP Leases'=1"
    ensures LeaseMessage(Display(noName, showMac, false, sortByIp, false), 1, [e])
         == "1 lease - " + e + " | 'DHCP Leases'=1"
  {
    hide RStrip, Decimal, Terminated;
    assert Decimal(1) == "1" by { DigitText(1); }
    assert "1" + " lease" + " - " == "1 lease - ";
    assert " | 'DHCP Leases'=" + "1" == " | 'DHCP Leases'=1";
    OneStripped("1 lease - ", e);
    OneStripped("", e);
    assert "" + e == e;
    assert e + " | 'DHCP Leases'=" + "1" == e + " | 'DHCP Leases'=1";
    assert "1 lease - " + e + " | 'DHCP Leases'=" + "1" == "1 lease - " + e + " | 'DHCP Leases'=1";
  }

  lemma OneOrNone(show: Display, e: string)
    requires EndsPlain(e)
    ensures UnauthorizedMessage(1, [e]) == "1 Unauthorized Host! " + e
    ensures LeaseMessage(show, 0, []) == "No dhcp leases recorded" && UnauthorizedMessage(0, []) == ""
  {
    hide RStrip, Decimal, Terminated;
    assert Decimal(1) == "1" by { DigitText(1); }
    assert "1" + " Unauthorized Host! " == "1 Unauthorized Host! ";
    OneStripped("1 Unauthorized Host! ", e);
  }

  lemma DigitText(n: nat)
    requires n < 10
    ensures Decimal(n) == ['0' + n as char]
  {
  }

  lemma OneStripped(prefix: string, e: string)
    requires e != "" && e[|e| - 1] !in {',', ' '}
    ensures RStrip(prefix + Terminated([e]), {',', ' '}) == prefix + e
  {
    hide RStrip;
    assert [e][..0] == [];
    assert prefix + Terminated([e]) == prefix + e + SEPARATOR;
    RStripOf(prefix + e, SEPARATOR, {',', ' '});
  }

  lemma TwoStripped(prefix: string, e: string, e': string)
    requires e' != "" && e'[|e'| - 1] !in {',', ' '}
    ensures RStrip(prefix + Terminated([e, e']), {',', ' '}) == prefix + e + ", " + e'
  {
    hide RStrip;
    assert [e, e'][..1] == [e] && [e][..0] == [];
    assert Terminated([e]) == e + SEPARATOR;
    assert Terminated([e, e']) == e + SEPARATOR + e' + SEPARATOR;
    assert prefix + Terminated([e, e']) == prefix + e + ", " + e' + SEPARATOR;
    RStripOf(prefix + e + ", " + e', SEPARATOR, {',', ' '});
  }

  // The function the keys are ordered by: sort_by_ip is switched on by no_name.
  function OrderedBy(show: Display, d: Addresses): string -> string {
    if show.noName || show.sortByIp then NoHost() else HostOf(d)
  }

  // Listed by address, addresses ascend; otherwise hosts do, and addresses within a host.
  lemma ListingAscends(show: Display, d: Addresses, keys: seq<string>)
    requires IsOrder(OrderedBy(show, d), keys, d.Keys)
    ensures show.noName || show.sortByIp ==> forall i, j :: 0 <= i < j < |keys| ==> Leq(keys[i], keys[j])
    ensures !show.noName && !show.sortByIp ==>
              forall i, j :: 0 <= i < j < |keys| ==>
                && Leq(d[keys[i]].host, d[keys[j]].host)
                && (d[keys[i]].host == d[keys[j]].host ==> Leq(keys[i], keys[j]))
  {
    hide Leq;
    if show.noName || show.sortByIp {
      assert forall i, j :: 0 <= i < j < |keys| ==> Before(NoHost(), keys[i], keys[j]);
      forall i, j | 0 <= i < j < |keys| ensures Leq(keys[i], keys[j]) {
        assert Before(NoHost(), keys[i], keys[j]);
        NotBeforeItself("");
      }
    } else {
      OrderReads(d, keys);
    }
  }

  lemma NotBeforeItself(a: string)
    ensures !Less(a, a)
  {
  }

  ghost predicate IsLeaseMessage(show: Display, d: Addresses, msg: string) {
    exists keys :: IsOrder(OrderedBy(show, d), keys, d.Keys)
                && msg == LeaseMessage(show, |keys|, Entries(show, keys, d, d))
  }

  ghost predicate IsUnauthorizedMessage(show: Display, u: Addresses, d: Addresses, msg: string)
    requires u.Keys <= d.Keys
  {
    exists keys :: IsOrder(OrderedBy(show, u), keys, u.Keys)
                && msg == UnauthorizedMessage(|keys|, Entries(show, keys, u, d))
  }

  // The listing, preceded by the unauthorised leases when there are any
  ghost predicate IsOutput(show: Display, u: Addresses, d: Addresses, alert: bool, output: string)
    requires u.Keys <= d.Keys
  {
    exists listing :: IsLeaseMessage(show, d, listing) &&
      if alert then IsAlert(show, u, d, output, listing) else output == listing
  }

  ghost predicate IsAlert(show: Display, u: Addresses, d: Addresses, output: string, listing: string)
    requires u.Keys <= d.Keys
  {
    exists offenders :: IsUnauthorizedMessage(show, u, d, offenders) && output == offenders + " || " + listing
  }

  lemma ListingIsOutput(show: Display, u: Addresses, d: Addresses, listing: string)
    requires u.Keys <= d.Keys && IsLeaseMessage(show, d, listing)
    ensures IsOutput(show, u, d, false, listing)
  {
  }

  lemma AlertIsOutput(show: Display, u: Addresses, d: Addresses, offenders: string, listing: string)
    requires u.Keys <= d.Keys && IsLeaseMessage(show, d, listing) && IsUnauthorizedMessage(show, u, d, offenders)
    ensures IsOutput(show, u, d, true, offenders + " || " + listing)
  {
  }

  // ------------------------------------------------------------------------ laws

  lemma {:induction false} TerminatedIsSeparated(entries: seq<string>)
    requires entries != []
    ensures Terminated(entries) == Separated(entries) + SEPARATOR
  {
    if |entries| == 1 {
      assert entries[..0] == [];
      assert "" + entries[0] == entries[0];
    } else {
      TerminatedIsSeparated(entries[..|entries| - 1]);
    }
  }

  lemma SeparatedEnd(entries: seq<string>)
    requires entries != [] && entries[|entries| - 1] != ""
    ensures var last := entries[|entries| - 1];
            Separated(entries) != "" && Separated(entries)[|Separated(entries)| - 1] == last[|last| - 1]
  {
  }

  // Stripping the trailing separator leaves the separated list exactly when the last
  // entry does not itself end in a comma or a space.
  lemma StrippedIsSeparated(prefix: string, entries: seq<string>)
    requires entries != [] && entries[|entries| - 1] != ""
    ensures var last := entries[|entries| - 1];
            RStrip(prefix + Terminated(entries), {',', ' '}) == prefix + Separated(entries)
            <==> last[|last| - 1] != ',' && last[|last| - 1] != ' '
  {
    hide Terminated, Separated;
    var listing := prefix + Separated(entries);
    TerminatedIsSeparated(entries);
    SeparatedEnd(entries);
    assert prefix + Terminated(entries) == listing + SEPARATOR;
    assert listing[|listing| - 1] == Separated(entries)[|Separated(entries)| - 1];
    if listing[|listing| - 1] !in {',', ' '} {
      RStripOf(listing, SEPARATOR, {',', ' '});
    }
  }

  // Every recorded address is a word of its file.
  lemma {:induction false} RecordedWords(blocks: seq<string>, names: bool, macs: bool)
    ensures forall ip :: ip in LeaseText.RecordAll(blocks, names, macs) ==> IsWord(ip)
  {
    hide LeaseText.IpOf, LeaseText.IsActive, LeaseText.HostnameOf, LeaseText.MacOf, IsWord;
    if blocks != [] {
      RecordedWords(blocks[..|blocks| - 1], names, macs);
      IpIsWord(Split(blocks[|blocks| - 1], '\n'));
    }
  }

  lemma IpIsWord(lines: seq<string>)
    ensures IsWord(LeaseText.IpOf(lines))
  {
    var last := LeaseText.LastMatch(lines, LeaseText.HasLease);
    if last.Some? && |Fields(last.value)| == 3 {
      FieldsWords(last.value, 1);
    }
    if LeaseText.MatchesIp("") {
      LeaseText.IpStartsWithDigit("");
    }
  }

  // The listing of recorded leases is the list of their entries, separated by commas,
  // exactly when MACs are shown or the last address listed does not end in a comma.
  lemma ListingIsSeparated(show: Display, prefix: string, keys: seq<string>, named: Addresses,
                           blocks: seq<string>, names: bool, macs: bool)
    requires keys != [] && forall k :: k in keys ==> k in named && k in LeaseText.RecordAll(blocks, names, macs)
    ensures IsWord(keys[|keys| - 1])
    ensures var entries := Entries(show, keys, named, LeaseText.RecordAll(blocks, names, macs));
            var last := keys[|keys| - 1];
            RStrip(prefix + Terminated(entries), {',', ' '}) == prefix + Separated(entries)
            <==> show.showMac || last[|last| - 1] != ','
  {
    hide Terminated, Separated, RStrip, LeaseText.RecordAll;
    var d, ip := LeaseText.RecordAll(blocks, names, macs), keys[|keys| - 1];
    RecordedWords(blocks, names, macs);
    assert ip in keys && IsWord(ip);
    var entry := ListedAs(show, ip, named[ip].host, d[ip].mac);
    EntriesStep(show, keys, |keys| - 1, named, d);
    assert keys[..|keys|] == keys;
    assert entry[|entry| - 1] == if show.showMac then ')' else ip[|ip| - 1];
    StrippedIsSeparated(prefix, Entries(show, keys, named, d));
  }

  // The address pattern is not anchored at its end, so a comma can end an address. The
  // lease of 10.0.0.9, is then listed without its comma.
  lemma CommaLost(show: Display, prefix: string) returns (e: LeaseText.Entry)
    requires !show.showMac
    ensures e.ip == "10.0.0.9," && LeaseText.WellFormed(e)
    ensures var d := LeaseText.RecordAll(LeaseText.Blocks(LeaseText.FileText([e], "")), true, true);
            && d.Keys == {e.ip}
            && RStrip(prefix + Terminated(Entries(show, [e.ip], d, d)), {',', ' '})
               != prefix + Separated(Entries(show, [e.ip], d, d))
  {
    hide Terminated, Separated, RStrip, LeaseText.RecordAll, LeaseText.Blocks, LeaseText.FileText, LeaseText.MatchesIp,
         LeaseText.HasHostname, LeaseText.HasLease, LeaseText.LineText, LeaseText.OpeningLine, Entries;
    assert "10.0.0.9" + "," == "10.0.0.9,";
    LeaseText.ExampleIp(",");
    LeaseText.StateWithoutMarkers("active");
    e := LeaseText.Entry([], "10.0.0.9,", [LeaseText.State("active")]);
    assert e.body[0] == LeaseText.State("active") && LeaseText.SaysActive(e.body[0]);
    LeaseText.RoundTrip([e], "", true, true);
    assert [e][..0] == [];
    assert LeaseText.Latest([e], true, true).Keys == {e.ip};
    ListingIsSeparated(show, prefix, [e.ip], LeaseText.Latest([e], true, true),
        LeaseText.Blocks(LeaseText.FileText([e], "")), true, true);
  }

  // The unauthorised keys are the listed keys without those that are authorised, in the
  // same order.
  lemma UnauthorizedKeys(show: Display, r: Rules, d: Addresses, cs: seq<Check>, listed: seq<string>,
      flagged: seq<string>)
    requires IsOrder(OrderedBy(show, d), listed, d.Keys)
    requires var u := RunChecks(r, cs, d, map[]); IsOrder(OrderedBy(show, u), flagged, u.Keys)
    ensures flagged == Filter(listed, RunChecks(r, cs, d, map[]).Keys)
  {
    var u := RunChecks(r, cs, d, map[]);
    RunChecksHosts(r, cs, d);
    FilterOrder(OrderedBy(show, d), listed, d.Keys, u.Keys);
    assert d.Keys * u.Keys == u.Keys;
    OrderAgree(OrderedBy(show, u), OrderedBy(show, d), flagged, u.Keys);
    OrderUnique(OrderedBy(show, d), flagged, Filter(listed, u.Keys), u.Keys);
  }

  // Every unauthorised entry reads like the entry of the full listing.
  lemma {:induction false} UnauthorizedEntries(show: Display, keys: seq<string>, u: Addresses, d: Addresses)
    requires forall k :: k in keys ==> k in u && k in d && u[k].host == d[k].host
    ensures Entries(show, keys, u, d) == Entries(show, keys, d, d)
  {
    if keys != [] {
      assert forall k :: k in keys[..|keys| - 1] ==> k in keys;
      UnauthorizedEntries(show, keys[..|keys| - 1], u, d);
    }
  }
}
