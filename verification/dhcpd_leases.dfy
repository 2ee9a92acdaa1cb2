// DhcpdLeaseTester of check_dhcpd_leases.py: its fields and the methods that update them.
module DhcpdLeases {
  import opened Text
  import opened HostOrder
  import opened LeaseText
  import opened LeasePolicy
  import opened LeaseListing

  // OK, CRITICAL and UNKNOWN exit codes
  datatype Status = OK | Critical | Unknown

  class DhcpdLeaseTester {
    var addressDict: Addresses
    var unauthorized: bool
    var unauthorizedDict: Addresses
    var leases: seq<string>
    var lease: seq<string>
    var hostWhitelist: string
    var hostBlacklist: string
    var macWhitelistText: string
    var macBlacklistText: string
    var macWhitelist: seq<string>
    var macBlacklist: seq<string>
    var noName: bool
    var showMac: bool
    var compactOutput: bool
    var noSummary: bool
    var sortByIp: bool

    constructor (r: Rules, show: Display)
      ensures addressDict == map[] && unauthorizedDict == map[] && !unauthorized
      ensures TheRules() == r && TheDisplay() == show
    {
      addressDict, unauthorizedDict, unauthorized := map[], map[], false;
      leases, lease := [], [];
      hostWhitelist, hostBlacklist := r.hostWhite, r.hostBlack;
      macWhitelistText, macBlacklistText := r.macWhite, r.macBlack;
      macWhitelist, macBlacklist := [], [];
      noName, showMac, compactOutput := show.noName, show.showMac, show.compact;
      noSummary, sortByIp := show.noSummary, show.sortByIp;
    }

    function TheRules(): Rules
      reads this
    {
      Rules(hostWhitelist, hostBlacklist, macWhitelistText, macBlacklistText)
    }

    function TheDisplay(): Display
      reads this
    {
      Display(noName, showMac, compactOutput, sortByIp, noSummary)
    }

    // The MAC lists have been checked and normalised.
    ghost predicate Normalized()
      reads this
    {
      macWhitelist == MacList(macWhitelistText) && macBlacklist == MacList(macBlacklistText)
    }

    // ------------------------------------------------------- validating the lists

    // macs is the list as the code leaves it; not ok stands for the exit with UNKNOWN.
    static method ValidateNormalizeMacs(text: string) returns (ok: bool, macs: seq<string>)
      ensures ok <==> ValidMacs(MacList(text))
      ensures macs == MacList(text)
    {
      hide Normal, ValidMac;
      var words := ListWords(text);
      macs := [];
      for i := 0 to |words|
        invariant macs == Normals(words[..i])
      {
        macs := macs + [Normal(words[i])];
        assert words[..i + 1][..i] == words[..i];
      }
      assert words[..|words|] == words;
      ok := true;
      for i := 0 to |macs|
        invariant ok <==> forall j :: 0 <= j < i ==> ValidMac(macs[j])
      {
        if !ValidMac(macs[i]) {
          ok := false;
        }
      }
    }

    method ValidateVariables() returns (ok: bool)
      modifies `macWhitelist, `macBlacklist
      ensures ok <==> ValidMacs(MacList(macWhitelistText)) && ValidMacs(MacList(macBlacklistText))
      ensures ok ==> Normalized()
    {
      ok, macWhitelist := ValidateNormalizeMacs(macWhitelistText);
      if ok {
        ok, macBlacklist := ValidateNormalizeMacs(macBlacklistText);
      }
    }

    // ---------------------------------------------------------- reading one block

    method GetIp() returns (ip: string)
      ensures ip == IpOf(lease)
    {
      hide MatchesIp, HasLease;
      ip := "";
      for i := 0 to |lease|
        invariant ip == ValueIn(lease[..i], HasLease, IpInLine)
      {
        if HasLease(lease[i]) {
          var words := Fields(lease[i]);
          if |words| == 3 { ip := words[1]; } else { ip := UNKNOWN; }
        }
        assert lease[..i + 1][..i] == lease[..i];
      }
      assert lease[..|lease|] == lease;
      if !MatchesIp(ip) {
        ip := UNKNOWN;
      }
    }

    method GetHostname() returns (hostname: string)
      ensures hostname == HostnameOf(lease)
    {
      hide HasHostname, Strip, RStrip;
      hostname := "";
      for i := 0 to |lease|
        invariant hostname == ValueIn(lease[..i], HasHostname, HostnameInLine)
      {
        if HasHostname(lease[i]) {
          var words := Fields(lease[i]);
          if |words| == 2 {
            hostname := words[1];
            hostname := RStrip(hostname, {';'});
            hostname := Strip(hostname, {'"'});
          } else {
            hostname := UNKNOWN;
          }
        }
        assert lease[..i + 1][..i] == lease[..i];
      }
      assert lease[..|lease|] == lease;
      if hostname == "" {
        hostname := UNKNOWN;
      }
    }

    method GetMac() returns (mac: string)
      ensures mac == MacOf(lease)
    {
      hide HasMac, RStrip;
      mac := "";
      for i := 0 to |lease|
        invariant mac == ValueIn(lease[..i], HasMac, MacInLine)
      {
        if HasMac(lease[i]) {
          var words := Fields(lease[i]);
          if |words| == 3 {
            mac := words[2];
            mac := RStrip(mac, {';'});
          } else {
            mac := UNKNOWN;
          }
        }
        assert lease[..i + 1][..i] == lease[..i];
      }
      assert lease[..|lease|] == lease;
      if mac == "" {
        mac := UNKNOWN;
      }
    }

    // ---------------------------------------------------------- reading the file

    // One turn of the loop over the blocks of the file
    method ReadBlock(block: string, securityChecksOn: bool)
      modifies `lease, `addressDict
      ensures addressDict == Record(old(addressDict), block, !noName || securityChecksOn, showMac || securityChecksOn)
    {
      hide IpOf, HostnameOf, MacOf, IsActive, Split;
      if IsActive(block) {
        lease := Split(block, '\n');
        var ip := GetIp();
        if ip != UNKNOWN {
          addressDict := addressDict[ip := Lease("Unknown Hostname", "Unknown Mac")];
          if !noName || securityChecksOn {
            var hostname := GetHostname();
            addressDict := addressDict[ip := addressDict[ip].(host := hostname)];
          }
          if showMac || securityChecksOn {
            var mac := GetMac();
            addressDict := addressDict[ip := addressDict[ip].(mac := mac)];
          }
        }
      }
    }

    // The text is the content of the lease file, already recognised as one.
    method ParseLeases(text: string) returns (msg: string)
      requires Normalized() && addressDict == map[]
      modifies `leases, `lease, `addressDict, `sortByIp
      ensures addressDict == Recorded(TheRules(), old(TheDisplay()), text)
      ensures sortByIp == (old(sortByIp) || noName)
      ensures IsLeaseMessage(TheDisplay(), addressDict, msg)
    {
      hide Record, Blocks, MacList, IsLeaseMessage;
      leases := Blocks(text);
      var securityChecksOn := hostWhitelist != "" || hostBlacklist != "" || macWhitelist != [] || macBlacklist != [];
      ghost var names, macs := !noName || securityChecksOn, showMac || securityChecksOn;
      for i := 0 to |leases|
        invariant leases == Blocks(text)
        invariant addressDict == RecordAll(leases[..i], names, macs)
        invariant sortByIp == old(sortByIp)
      {
        ReadBlock(leases[i], securityChecksOn);
        assert leases[..i + 1][..i] == leases[..i];
      }
      assert leases[..|leases|] == leases;
      msg := FormatLeases();
    }

    // ---------------------------------------------------------------- the listings

    // The keys in listing order; no_name switches sort_by_ip on.
    method ListingOrder(d: Addresses) returns (keys: seq<string>)
      modifies `sortByIp
      ensures sortByIp == (old(sortByIp) || noName)
      ensures IsOrder(OrderedBy(TheDisplay(), d), keys, d.Keys)
    {
      if noName {
        sortByIp := true;
      }
      if sortByIp {
        keys := SortedKeys(d.Keys);
      } else {
        keys := SortKeysByHost(d);
      }
    }

    // The loop shared by the two listings: every entry followed by the separator.
    method AppendEntries(start: string, keys: seq<string>, named: Addresses) returns (msg: string)
      requires forall k :: k in keys ==> k in named && k in addressDict
      ensures msg == start + Terminated(Entries(TheDisplay(), keys, named, addressDict))
    {
      hide Terminated;
      ghost var show := TheDisplay();
      msg := start;
      TerminatedNone(start);
      assert keys[..0] == [];
      for i := 0 to |keys|
        invariant msg == start + Terminated(Entries(show, keys[..i], named, addressDict))
      {
        var ip := keys[i];
        ghost var before := msg;
        if noName {
          msg := msg + ip;
        } else {
          msg := msg + (named[ip].host + " = " + ip);
        }
        if showMac {
          msg := msg + (" (" + addressDict[ip].mac + ")");
        }
        ghost var entry := ListedAs(show, ip, named[ip].host, addressDict[ip].mac);
        assert msg == before + entry;
        msg := msg + SEPARATOR;
        EntriesStep(show, keys, i, named, addressDict);
        TerminatedStep(start, Entries(show, keys[..i], named, addressDict), entry);
      }
      assert keys[..|keys|] == keys;
    }

    method FormatLeases() returns (msg: string)
      modifies `sortByIp
      ensures sortByIp == (old(sortByIp) || noName)
      ensures IsLeaseMessage(TheDisplay(), addressDict, msg)
    {
      var keys := ListingOrder(addressDict);
      hide IsOrder, Decimal, RStrip;
      var n := |keys|;
      if n == 0 {
        msg := "No dhcp leases recorded";
      } else {
        if noSummary {
          msg := "";
        } else {
          if n == 1 { msg := Decimal(n) + " lease"; } else { msg := Decimal(n) + " leases"; }
          if !compactOutput { msg := msg + " - "; }
        }
        assert msg == Summary(TheDisplay(), n);
        if !compactOutput {
          msg := AppendEntries(msg, keys, addressDict);
          msg := RStrip(msg, {',', ' '});
        }
        msg := msg + " | 'DHCP Leases'=" + Decimal(n);
      }
      assert msg == LeaseMessage(TheDisplay(), |keys|, Entries(TheDisplay(), keys, addressDict, addressDict));
    }

    // The look-up of the original MAC needs every flagged key in the full dictionary.
    method FormatUnauthorizedLeases() returns (msg: string)
      requires unauthorizedDict.Keys <= addressDict.Keys
      modifies `sortByIp
      ensures sortByIp == (old(sortByIp) || noName)
      ensures IsUnauthorizedMessage(TheDisplay(), unauthorizedDict, addressDict, msg)
    {
      var keys := ListingOrder(unauthorizedDict);
      var n := |keys|;
      if n == 0 {
        msg := "";
      } else {
        if n == 1 {
          msg := Decimal(n) + " Unauthorized Host! ";
        } else {
          msg := Decimal(n) + " Unauthorized Hosts! ";
        }
        msg := AppendEntries(msg, keys, unauthorizedDict);
        msg := RStrip(msg, {',', ' '});
      }
      assert msg == UnauthorizedMessage(|keys|, Entries(TheDisplay(), keys, unauthorizedDict, addressDict));
    }

    // ------------------------------------------------------------------ the passes

    // The passes go through the dictionary in an order that is left open.
    method CheckHostWhitelist()
      requires Normalized()
      modifies `unauthorizedDict
      ensures unauthorizedDict == old(unauthorizedDict) + Pass(TheRules(), HostWhite, addressDict)
    {
      hide Normal, MacList, HostList, Upper, PassOver, Pass;
      var d := addressDict;
      ghost var r, before := TheRules(), unauthorizedDict;
      var hostList := HostList(hostWhitelist);
      var rest := d.Keys;
      PassDone(r, HostWhite, d, before);
      assert d.Keys - rest == {};
      while rest != {}
        invariant rest <= d.Keys
        invariant TheRules() == r && addressDict == d && Normalized()
        invariant unauthorizedDict == before + PassOver(r, HostWhite, d, d.Keys - rest)
        decreases |rest|
      {
        var ip :| ip in rest;
        PassStep(r, HostWhite, d, before, d.Keys - rest, ip);
        assert d.Keys - rest + {ip} == d.Keys - (rest - {ip});
        rest := rest - {ip};
        var hostname, mac := d[ip].host, d[ip].mac;
        if Upper(hostname) !in hostList {
          unauthorizedDict := unauthorizedDict[ip := Lease(hostname, mac)];
        }
      }
      assert d.Keys - rest == d.Keys;
    }

    method CheckHostBlacklist()
      requires Normalized()
      modifies `unauthorizedDict
      ensures unauthorizedDict == old(unauthorizedDict) + Pass(TheRules(), HostBlack, addressDict)
    {
      hide Normal, MacList, HostList, Upper, PassOver, Pass;
      var d := addressDict;
      ghost var r, before := TheRules(), unauthorizedDict;
      var hostList := HostList(hostBlacklist);
      var rest := d.Keys;
      PassDone(r, HostBlack, d, before);
      assert d.Keys - rest == {};
      while rest != {}
        invariant rest <= d.Keys
        invariant TheRules() == r && addressDict == d && Normalized()
        invariant unauthorizedDict == before + PassOver(r, HostBlack, d, d.Keys - rest)
        decreases |rest|
      {
        var ip :| ip in rest;
        PassStep(r, HostBlack, d, before, d.Keys - rest, ip);
        assert d.Keys - rest + {ip} == d.Keys - (rest - {ip});
        rest := rest - {ip};
        var hostname, mac := d[ip].host, d[ip].mac;
        if Upper(hostname) in hostList {
          unauthorizedDict := unauthorizedDict[ip := Lease(hostname, mac)];
        }
      }
      assert d.Keys - rest == d.Keys;
    }

    method CheckMacWhitelist()
      requires Normalized()
      modifies `unauthorizedDict
      ensures unauthorizedDict == old(unauthorizedDict) + Pass(TheRules(), MacWhite, addressDict)
    {
      hide Normal, MacList, HostList, Upper, PassOver, Pass;
      var d := addressDict;
      ghost var r, before := TheRules(), unauthorizedDict;
      var rest := d.Keys;
      PassDone(r, MacWhite, d, before);
      assert d.Keys - rest == {};
      while rest != {}
        invariant rest <= d.Keys
        invariant TheRules() == r && addressDict == d && Normalized()
        invariant unauthorizedDict == before + PassOver(r, MacWhite, d, d.Keys - rest)
        decreases |rest|
      {
        var ip :| ip in rest;
        PassStep(r, MacWhite, d, before, d.Keys - rest, ip);
        assert d.Keys - rest + {ip} == d.Keys - (rest - {ip});
        rest := rest - {ip};
        var hostname, mac := d[ip].host, d[ip].mac;
        mac := Normal(mac);
        if mac !in macWhitelist {
          unauthorizedDict := unauthorizedDict[ip := Lease(hostname, mac)];
        }
      }
      assert d.Keys - rest == d.Keys;
    }

    method CheckMacBlacklist()
      requires Normalized()
      modifies `unauthorizedDict
      ensures unauthorizedDict == old(unauthorizedDict) + Pass(TheRules(), MacBlack, addressDict)
    {
      hide Normal, MacList, HostList, Upper, PassOver, Pass;
      var d := addressDict;
      ghost var r, before := TheRules(), unauthorizedDict;
      var rest := d.Keys;
      PassDone(r, MacBlack, d, before);
      assert d.Keys - rest == {};
      while rest != {}
        invariant rest <= d.Keys
        invariant TheRules() == r && addressDict == d && Normalized()
        invariant unauthorizedDict == before + PassOver(r, MacBlack, d, d.Keys - rest)
        decreases |rest|
      {
        var ip :| ip in rest;
        PassStep(r, MacBlack, d, before, d.Keys - rest, ip);
        assert d.Keys - rest + {ip} == d.Keys - (rest - {ip});
        rest := rest - {ip};
        var hostname, mac := d[ip].host, d[ip].mac;
        mac := Normal(mac);
        if mac in macBlacklist {
          unauthorizedDict := unauthorizedDict[ip := Lease(hostname, mac)];
        }
      }
      assert d.Keys - rest == d.Keys;
    }

    method CheckUnauthorizedLeases()
      requires Normalized()
      modifies `unauthorizedDict, `unauthorized
      ensures unauthorizedDict == RunChecks(TheRules(), PASSES, addressDict, old(unauthorizedDict))
      ensures unauthorized == (old(unauthorized) || unauthorizedDict != map[])
    {
      hide Pass, MacList, RunChecks;
      PassesInTurn(TheRules(), addressDict, unauthorizedDict);
      if macWhitelist != [] {
        CheckMacWhitelist();
      }
      if macBlacklist != [] {
        CheckMacBlacklist();
      }
      if hostWhitelist != "" {
        CheckHostWhitelist();
      }
      if hostBlacklist != "" {
        CheckHostBlacklist();
      }
      if unauthorizedDict != map[] {
        unauthorized := true;
      }
    }

    // ------------------------------------------------------------------ the check

    // The whole check on a fresh tester.
    method TestLeases(text: string) returns (status: Status, output: string)
      requires addressDict == map[] && unauthorizedDict == map[] && !unauthorized
      modifies this
      ensures TheRules() == old(TheRules())
      ensures status == Unknown <==> !(ValidMacs(MacList(macWhitelistText)) && ValidMacs(MacList(macBlacklistText)))
      ensures status == Unknown ==> addressDict == map[] && unauthorizedDict == map[]
      ensures status != Unknown ==>
                && addressDict == Recorded(TheRules(), old(TheDisplay()), text)
                && unauthorizedDict == Verdict(TheRules(), addressDict)
                && unauthorizedDict.Keys == Flagged(TheRules(), addressDict)
                && (status == Critical <==> Flagged(TheRules(), addressDict) != {})
                && IsOutput(TheDisplay(), unauthorizedDict, addressDict, status == Critical, output)
    {
      hide Recorded, Verdict, Flagged, MacList, ValidMacs, IsOutput, IsLeaseMessage, IsUnauthorizedMessage, RunChecks;
      var ok := ValidateVariables();
      if !ok {
        return Unknown, "";
      }
      addressDict := map[];
      ghost var r := TheRules();
      var listing := ParseLeases(text);
      ghost var d := addressDict;
      CheckUnauthorizedLeases();
      ghost var u := unauthorizedDict;
      VerdictOf(r, d, u);
      status, output := OK, listing;
      if unauthorized {
        var offenders := FormatUnauthorizedLeases();
        output := offenders + " || " + listing;
        status := Critical;
        AlertIsOutput(TheDisplay(), u, d, offenders, listing);
      } else {
        ListingIsOutput(TheDisplay(), u, d, listing);
      }
    }
  }
}
