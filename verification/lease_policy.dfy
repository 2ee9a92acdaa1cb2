// The whitelists and blacklists of check_dhcpd_leases.py: what the four passes write
// into the dictionary of unauthorised leases, and what that says about the lists.
module LeasePolicy {
  import opened Text
  import opened HostOrder
  import LeaseCurrent
  import LeaseText

  // ----------------------------------------------------------------- the lists

  // A comma or space separated list as given on the command line
  function ListWords(text: string): seq<string> {
    Fields(Replace(text, ',', " "))
  }

  // Upper case without colons; dashes stay.
  function Normal(mac: string): string {
    Upper(Remove(mac, ':'))
  }

  function Normals(words: seq<string>): (r: seq<string>)
    ensures |r| == |words|
    ensures forall i :: 0 <= i < |words| ==> r[i] == Normal(words[i])
  {
    if words == [] then [] else Normals(words[..|words| - 1]) + [Normal(words[|words| - 1])]
  }

  function Uppers(words: seq<string>): (r: seq<string>)
    ensures |r| == |words|
    ensures forall i :: 0 <= i < |words| ==> r[i] == Upper(words[i])
  {
    if words == [] then [] else Uppers(words[..|words| - 1]) + [Upper(words[|words| - 1])]
  }

  function MacList(text: string): seq<string> {
    Normals(ListWords(text))
  }

  function HostList(text: string): seq<string> {
    Uppers(ListWords(text))
  }

  // ^([\dA-Fa-f]{2}[:-]?){more}[\dA-Fa-f]{2}$
  predicate MacFormat(m: string, more: nat) {
    |m| >= 2 && IsHex(m[0]) && IsHex(m[1]) &&
    if more == 0 then |m| == 2
    else if |m| > 2 && (m[2] == ':' || m[2] == '-') then MacFormat(m[3..], more - 1)
    else MacFormat(m[2..], more - 1)
  }

  predicate ValidMac(m: string) {
    MacFormat(m, 5)
  }

  predicate ValidMacs(macs: seq<string>) {
    forall i :: 0 <= i < |macs| ==> ValidMac(macs[i])
  }

  datatype Rules = Rules(hostWhite: string, hostBlack: string, macWhite: string, macBlack: string)

  // ---------------------------------------------------------------- the passes

  datatype Check = MacWhite | MacBlack | HostWhite | HostBlack

  predicate Enabled(r: Rules, c: Check) {
    match c
    case MacWhite => MacList(r.macWhite) != []
    case MacBlack => MacList(r.macBlack) != []
    case HostWhite => r.hostWhite != ""
    case HostBlack => r.hostBlack != ""
  }

  predicate Fails(r: Rules, c: Check, l: Lease) {
    match c
    case MacWhite => Normal(l.mac) !in MacList(r.macWhite)
    case MacBlack => Normal(l.mac) in MacList(r.macBlack)
    case HostWhite => Upper(l.host) !in HostList(r.hostWhite)
    case HostBlack => Upper(l.host) in HostList(r.hostBlack)
  }

  // What a pass writes down: the address rules record the normalised address.
  function Mark(c: Check, l: Lease): Lease {
    if c.MacWhite? || c.MacBlack? then l.(mac := Normal(l.mac)) else l
  }

  function Pass(r: Rules, c: Check, d: Addresses): Addresses {
    map ip | ip in d && Fails(r, c, d[ip]) :: Mark(c, d[ip])
  }

  function RunChecks(r: Rules, cs: seq<Check>, d: Addresses, u: Addresses): Addresses {
    if cs == [] then u else
    Step(r, cs[|cs| - 1], d, RunChecks(r, cs[..|cs| - 1], d, u))
  }

  // A pass that has dealt with the addresses of done
  function PassOver(r: Rules, c: Check, d: Addresses, done: set<string>): Addresses {
    map ip | ip in d && ip in done && Fails(r, c, d[ip]) :: Mark(c, d[ip])
  }

  lemma PassStep(r: Rules, c: Check, d: Addresses, u: Addresses, done: set<string>, ip: string)
    requires ip in d
    ensures u + PassOver(r, c, d, done + {ip})
         == if Fails(r, c, d[ip]) then (u + PassOver(r, c, d, done))[ip := Mark(c, d[ip])]
            else u + PassOver(r, c, d, done)
  {
    hide Fails, Mark;
  }

  lemma PassDone(r: Rules, c: Check, d: Addresses, u: Addresses)
    ensures u + PassOver(r, c, d, d.Keys) == u + Pass(r, c, d)
    ensures u + PassOver(r, c, d, {}) == u
  {
    hide Fails, Mark;
    assert PassOver(r, c, d, d.Keys) == Pass(r, c, d);
    assert PassOver(r, c, d, {}) == map[];
  }

  function Step(r: Rules, c: Check, d: Addresses, u: Addresses): Addresses {
    if Enabled(r, c) then u + Pass(r, c, d) else u
  }

  lemma PassesInTurn(r: Rules, d: Addresses, u: Addresses)
    ensures RunChecks(r, PASSES, d, u)
         == Step(r, HostBlack, d, Step(r, HostWhite, d, Step(r, MacBlack, d, Step(r, MacWhite, d, u))))
  {
    hide Step;
    RunLast(r, [], MacWhite, d, u);
    assert [] + [MacWhite] == [MacWhite];
    RunLast(r, [MacWhite], MacBlack, d, u);
    assert [MacWhite] + [MacBlack] == [MacWhite, MacBlack];
    RunLast(r, [MacWhite, MacBlack], HostWhite, d, u);
    assert [MacWhite, MacBlack] + [HostWhite] == [MacWhite, MacBlack, HostWhite];
    RunLast(r, [MacWhite, MacBlack, HostWhite], HostBlack, d, u);
    assert [MacWhite, MacBlack, HostWhite] + [HostBlack] == PASSES;
  }

  lemma RunLast(r: Rules, cs: seq<Check>, c: Check, d: Addresses, u: Addresses)
    ensures RunChecks(r, cs + [c], d, u) == Step(r, c, d, RunChecks(r, cs, d, u))
  {
  }

  // The order of the passes in check_unauthorized_leases
  const PASSES := [MacWhite, MacBlack, HostWhite, HostBlack]

  predicate SecurityOn(r: Rules) {
    r.hostWhite != "" || r.hostBlack != "" || MacList(r.macWhite) != [] || MacList(r.macBlack) != []
  }

  // -------------------------------------------------- what the lists are for

  predicate SameLetters(a: string, b: string) {
    |a| == |b| && forall i :: 0 <= i < |a| ==> UpperChar(a[i]) == UpperChar(b[i])
  }

  // b is a with colons put in or taken out and letters in either case.
  predicate Respelled(a: string, b: string)
    decreases |a| + |b|
  {
    if a != "" && a[0] == ':' then Respelled(a[1..], b)
    else if b != "" && b[0] == ':' then Respelled(a, b[1..])
    else if a == "" || b == "" then a == b
    else UpperChar(a[0]) == UpperChar(b[0]) && Respelled(a[1..], b[1..])
  }

  predicate NamesHost(text: string, host: string) {
    exists w :: w in ListWords(text) && SameLetters(w, host)
  }

  predicate NamesMac(text: string, mac: string) {
    exists w :: w in ListWords(text) && Respelled(w, mac)
  }

  // Not on a whitelist that was given, or on a blacklist
  predicate Offends(r: Rules, l: Lease) {
    || (ListWords(r.macWhite) != [] && !NamesMac(r.macWhite, l.mac))
    || NamesMac(r.macBlack, l.mac)
    || OffendsHost(r, l)
  }

  predicate OffendsHost(r: Rules, l: Lease) {
    || (r.hostWhite != "" && !NamesHost(r.hostWhite, l.host))
    || NamesHost(r.hostBlack, l.host)
  }

  function Flagged(r: Rules, d: Addresses): set<string> {
    set ip | ip in d && Offends(r, d[ip])
  }

  // ------------------------------------------------ spelling of names and addresses

  lemma SameLettersIsUpper(a: string, b: string)
    ensures SameLetters(a, b) <==> Upper(a) == Upper(b)
  {
  }

  lemma NormalCons(c: char, s: string)
    ensures Normal([c] + s) == (if c == ':' then "" else [UpperChar(c)]) + Normal(s)
  {
  }

  // Two spellings are compared by normalising them.
  lemma {:induction false} RespelledIsNormal(a: string, b: string)
    ensures Respelled(a, b) <==> Normal(a) == Normal(b)
    decreases |a| + |b|
  {
    if a != "" { NormalCons(a[0], a[1..]); assert a == [a[0]] + a[1..]; }
    if b != "" { NormalCons(b[0], b[1..]); assert b == [b[0]] + b[1..]; }
    if a != "" && a[0] == ':' {
      RespelledIsNormal(a[1..], b);
    } else if b != "" && b[0] == ':' {
      RespelledIsNormal(a, b[1..]);
    } else if a != "" && b != "" {
      RespelledIsNormal(a[1..], b[1..]);
      assert Normal(a)[0] == UpperChar(a[0]) && Normal(a)[1..] == Normal(a[1..]);
      assert Normal(b)[0] == UpperChar(b[0]) && Normal(b)[1..] == Normal(b[1..]);
    }
  }

  lemma {:induction false} NormalIdempotent(a: string)
    ensures Normal(Normal(a)) == Normal(a)
  {
    var n := Normal(a);
    forall i | 0 <= i < |n| ensures n[i] != ':' && UpperChar(n[i]) == n[i] {
      assert Remove(a, ':')[i] in Remove(a, ':');
    }
    assert Remove(n, ':') == n;
    assert Upper(n) == n;
  }

  // A normal form has no colon and no small letter, and spells the address it is made of.
  lemma NormalIs(a: string)
    ensures forall i :: 0 <= i < |Normal(a)| ==> Normal(a)[i] != ':' && !('a' <= Normal(a)[i] <= 'z')
    ensures Respelled(Normal(a), a)
  {
    var m := Remove(a, ':');
    forall i | 0 <= i < |m| ensures m[i] != ':' {
      assert m[i] in m;
    }
    NormalIdempotent(a);
    RespelledIsNormal(Normal(a), a);
  }

  // A list written with other colons and cases is valid exactly when the original is.
  lemma RespelledList(a: string, b: string)
    requires |ListWords(a)| == |ListWords(b)|
    requires forall i :: 0 <= i < |ListWords(a)| ==> Respelled(ListWords(a)[i], ListWords(b)[i])
    ensures MacList(a) == MacList(b)
  {
    forall i | 0 <= i < |ListWords(a)| ensures MacList(a)[i] == MacList(b)[i] {
      RespelledIsNormal(ListWords(a)[i], ListWords(b)[i]);
    }
  }

  lemma InNormals(words: seq<string>, mac: string)
    ensures Normal(mac) in Normals(words) <==> exists w :: w in words && Respelled(w, mac)
  {
    forall w ensures Respelled(w, mac) <==> Normal(w) == Normal(mac) {
      RespelledIsNormal(w, mac);
    }
    if Normal(mac) in Normals(words) {
      var i :| 0 <= i < |words| && Normals(words)[i] == Normal(mac);
      assert words[i] in words && Respelled(words[i], mac);
    }
    if exists w :: w in words && Respelled(w, mac) {
      var i :| 0 <= i < |words| && Respelled(words[i], mac);
      assert Normals(words)[i] == Normal(mac);
    }
  }

  lemma InUppers(words: seq<string>, host: string)
    ensures Upper(host) in Uppers(words) <==> exists w :: w in words && SameLetters(w, host)
  {
    forall w ensures SameLetters(w, host) <==> Upper(w) == Upper(host) {
      SameLettersIsUpper(w, host);
    }
    if Upper(host) in Uppers(words) {
      var i :| 0 <= i < |words| && Uppers(words)[i] == Upper(host);
      assert words[i] in words && SameLetters(words[i], host);
    }
    if exists w :: w in words && SameLetters(w, host) {
      var i :| 0 <= i < |words| && SameLetters(words[i], host);
      assert Uppers(words)[i] == Upper(host);
    }
  }

  lemma NoWords()
    ensures ListWords("") == []
  {
  }

  // ---------------------------------------------------- lists as they are written

  // A comma and white space part the entries of a list.
  lemma EntriesParted(a: string, c: char, b: string)
    requires c == ',' || IsSpace(c)
    ensures ListWords(a + [c] + b) == ListWords(a) + ListWords(b)
  {
    hide Replace, Fields, IsSpace;
    var between := if c == ',' then ' ' else c;
    ReplaceConcat(a + [c], b, ',', " ");
    ReplaceConcat(a, [c], ',', " ");
    SeparatorReplaced(c);
    FieldsConcat(Replace(a, ',', " "), between, Replace(b, ',', " "));
  }

  lemma SeparatorReplaced(c: char)
    ensures Replace([c], ',', " ") == if c == ',' then " " else [c]
    ensures IsSpace(' ')
  {
  }

  lemma EntryAlone(w: string)
    requires IsWord(w) && ',' !in w
    ensures ListWords(w) == [w]
  {
    FieldsOfWord(w);
  }

  predicate EntryWords(words: seq<string>) {
    forall i :: 0 <= i < |words| ==> IsWord(words[i]) && ',' !in words[i]
  }

  // A comma separated list has the entries it was written with.
  lemma {:induction false} ListRead(words: seq<string>)
    requires EntryWords(words)
    ensures ListWords(Join(words, ',')) == words
  {
    hide ListWords, IsWord;
    if words == [] {
      NoWords();
    } else {
      EntryAlone(words[0]);
      if |words| > 1 {
        ListRead(words[1..]);
        EntriesParted(words[0], ',', Join(words[1..], ','));
      }
    }
  }

  predicate HostAmong(words: seq<string>, host: string) {
    exists i :: 0 <= i < |words| && SameLetters(words[i], host)
  }

  predicate MacAmong(words: seq<string>, mac: string) {
    exists i :: 0 <= i < |words| && Respelled(words[i], mac)
  }

  // A host or MAC standing anywhere in a comma separated list counts as listed, and no
  // other does.
  lemma ListedInWords(words: seq<string>, name: string)
    requires EntryWords(words)
    ensures NamesHost(Join(words, ','), name) <==> HostAmong(words, name)
    ensures NamesMac(Join(words, ','), name) <==> MacAmong(words, name)
  {
    hide ListWords, SameLetters, Respelled, IsWord, Join;
    ListRead(words);
    if w :| w in words && SameLetters(w, name) {
      var i :| 0 <= i < |words| && words[i] == w;
      assert SameLetters(words[i], name);
    }
    if w :| w in words && Respelled(w, name) {
      var i :| 0 <= i < |words| && words[i] == w;
      assert Respelled(words[i], name);
    }
    forall i | 0 <= i < |words| ensures words[i] in ListWords(Join(words, ',')) {
    }
  }

  lemma ListGiven(words: seq<string>)
    requires EntryWords(words)
    ensures Join(words, ',') != "" <==> words != []
    ensures ListWords(Join(words, ',')) != [] <==> words != []
  {
    hide ListWords;
    ListRead(words);
    NoWords();
  }

  // A lease offends exactly when a given whitelist has no entry for it or a blacklist has
  // one, in terms of the entries written.
  lemma OffendsInWords(hostWhite: seq<string>, hostBlack: seq<string>, macWhite: seq<string>, macBlack: seq<string>,
                       l: Lease)
    requires EntryWords(hostWhite) && EntryWords(hostBlack) && EntryWords(macWhite) && EntryWords(macBlack)
    ensures Offends(Rules(Join(hostWhite, ','), Join(hostBlack, ','), Join(macWhite, ','), Join(macBlack, ',')), l) <==>
            || (hostWhite != [] && !HostAmong(hostWhite, l.host)) || HostAmong(hostBlack, l.host)
            || (macWhite != [] && !MacAmong(macWhite, l.mac)) || MacAmong(macBlack, l.mac)
  {
    hide ListWords, NamesHost, NamesMac, Join, EntryWords, HostAmong, MacAmong;
    ListGiven(hostWhite);
    ListGiven(macWhite);
    ListedInWords(hostWhite, l.host);
    ListedInWords(hostBlack, l.host);
    ListedInWords(macWhite, l.mac);
    ListedInWords(macBlack, l.mac);
  }

  // With a blacklist of hosts alone, a lease is flagged exactly when its host is an entry.
  lemma BlacklistFlags(words: seq<string>, d: Addresses)
    requires EntryWords(words)
    ensures Flagged(Rules("", Join(words, ','), "", ""), d) == set ip | ip in d && HostAmong(words, d[ip].host)
  {
    hide Offends, HostAmong;
    assert Join([], ',') == "";
    forall ip | ip in d
      ensures Offends(Rules("", Join(words, ','), "", ""), d[ip]) <==> HostAmong(words, d[ip].host)
    {
      OffendsInWords([], words, [], [], d[ip]);
      NoneAmong(d[ip]);
    }
  }

  lemma NoneAmong(l: Lease)
    ensures !HostAmong([], l.host) && !MacAmong([], l.mac)
  {
  }

  // ------------------------------------------------------- what the passes decide

  // One lease fails an enabled pass exactly when it offends the rules.
  lemma OffendsIsFails(r: Rules, l: Lease)
    ensures Offends(r, l) <==> exists c :: Enabled(r, c) && Fails(r, c, l)
    ensures OffendsHost(r, l) <==>
            (Enabled(r, HostWhite) && Fails(r, HostWhite, l)) || (Enabled(r, HostBlack) && Fails(r, HostBlack, l))
  {
    InNormals(ListWords(r.macWhite), l.mac);
    InNormals(ListWords(r.macBlack), l.mac);
    InUppers(ListWords(r.hostWhite), l.host);
    InUppers(ListWords(r.hostBlack), l.host);
    NoWords();
    assert Fails(r, MacWhite, l) <==> !NamesMac(r.macWhite, l.mac);
    assert Fails(r, MacBlack, l) <==> NamesMac(r.macBlack, l.mac);
    assert Fails(r, HostWhite, l) <==> !NamesHost(r.hostWhite, l.host);
    assert Fails(r, HostBlack, l) <==> NamesHost(r.hostBlack, l.host);
    assert Enabled(r, MacWhite) <==> ListWords(r.macWhite) != [];
    assert !Enabled(r, MacBlack) ==> !NamesMac(r.macBlack, l.mac);
  }

  lemma {:induction false} RunChecksKeys(r: Rules, cs: seq<Check>, d: Addresses, u: Addresses)
    ensures forall ip :: ip in RunChecks(r, cs, d, u) <==>
              ip in u || (ip in d && exists c :: c in cs && Enabled(r, c) && Fails(r, c, d[ip]))
  {
    hide Enabled, Fails;
    if cs != [] {
      var front, c := cs[..|cs| - 1], cs[|cs| - 1];
      RunChecksKeys(r, front, d, u);
      assert cs == front + [c];
    }
  }

  // In whatever order the four passes run, and however often, the flagged addresses
  // are those whose lease offends the rules.
  lemma AnyOrder(r: Rules, cs: seq<Check>, d: Addresses, u: Addresses)
    requires forall c :: c in cs
    ensures RunChecks(r, cs, d, u).Keys == u.Keys + Flagged(r, d)
  {
    hide Enabled, Fails, Offends;
    RunChecksKeys(r, cs, d, u);
    forall ip | ip in d ensures Offends(r, d[ip]) <==> exists c :: Enabled(r, c) && Fails(r, c, d[ip]) {
      OffendsIsFails(r, d[ip]);
    }
  }

  lemma AllPasses()
    ensures forall c :: c in PASSES
  {
    assert PASSES[0] == MacWhite && PASSES[1] == MacBlack && PASSES[2] == HostWhite && PASSES[3] == HostBlack;
    forall c: Check ensures c in PASSES {
      match c
      case MacWhite =>
      case MacBlack =>
      case HostWhite =>
      case HostBlack =>
    }
  }

  // The lease with its address in capitals and without colons
  function WithNormalMac(l: Lease): Lease {
    Lease(l.host, Normal(l.mac))
  }

  // The dictionary the code builds: an address rule alone leaves the normalised address.
  function Verdict(r: Rules, d: Addresses): Addresses {
    map ip | ip in d && Offends(r, d[ip]) :: if OffendsHost(r, d[ip]) then d[ip] else WithNormalMac(d[ip])
  }

  lemma VerdictKeys(r: Rules, d: Addresses)
    ensures Verdict(r, d).Keys == Flagged(r, d) <= d.Keys
    ensures Verdict(r, d) == map[] <==> Flagged(r, d) == {}
  {
  }

  lemma PassesVerdict(r: Rules, d: Addresses)
    ensures RunChecks(r, PASSES, d, map[]) == Verdict(r, d)
  {
    hide Enabled, Fails, Offends, OffendsHost;
    AllPasses();
    AnyOrder(r, PASSES, d, map[]);
    MacMarks(r, d);
    HostMarks(r, d, RunChecks(r, [MacWhite, MacBlack], d, map[]));
    forall ip | ip in Verdict(r, d) ensures RunChecks(r, PASSES, d, map[])[ip] == Verdict(r, d)[ip] {
      OffendsIsFails(r, d[ip]);
    }
  }

  lemma VerdictOf(r: Rules, d: Addresses, u: Addresses)
    requires u == RunChecks(r, PASSES, d, map[])
    ensures u == Verdict(r, d) && u.Keys == Flagged(r, d) <= d.Keys
    ensures u == map[] <==> Flagged(r, d) == {}
  {
    PassesVerdict(r, d);
    VerdictKeys(r, d);
  }

  lemma HostMarks(r: Rules, d: Addresses, u2: Addresses)
    requires u2 == RunChecks(r, [MacWhite, MacBlack], d, map[])
    ensures var u := RunChecks(r, PASSES, d, map[]);
            forall ip :: ip in u ==>
              if ip in d && ((Enabled(r, HostWhite) && Fails(r, HostWhite, d[ip]))
                  || (Enabled(r, HostBlack) && Fails(r, HostBlack, d[ip])))
              then u[ip] == d[ip]
              else ip in u2 && u[ip] == u2[ip]
  {
    hide Enabled, Fails;
    assert PASSES[..3] == [MacWhite, MacBlack, HostWhite] && PASSES[..3][..2] == [MacWhite, MacBlack];
  }

  lemma MacMarks(r: Rules, d: Addresses)
    ensures var u := RunChecks(r, [MacWhite, MacBlack], d, map[]);
            forall ip :: ip in u ==> ip in d && u[ip] == Mark(MacWhite, d[ip])
  {
    hide Enabled, Fails;
    assert [MacWhite, MacBlack][..1] == [MacWhite] && [MacWhite][..0] == [];
    var u1 := RunChecks(r, [MacWhite], d, map[]);
    assert RunChecks(r, [], d, map[]) == map[];
    assert forall ip :: ip in u1 ==> ip in d && u1[ip] == Mark(MacWhite, d[ip]);
  }

  // A pass never invents an address and never changes a host name.
  lemma {:induction false} RunChecksHosts(r: Rules, cs: seq<Check>, d: Addresses)
    ensures forall ip :: ip in RunChecks(r, cs, d, map[]) ==>
        ip in d && RunChecks(r, cs, d, map[])[ip].host == d[ip].host
  {
    hide Enabled, Fails;
    if cs != [] {
      RunChecksHosts(r, cs[..|cs| - 1], d);
    }
  }

  // ---------------------------------------------------------- display and verdict

  datatype Display = Display(noName: bool, showMac: bool, compact: bool, sortByIp: bool, noSummary: bool)

  function Recorded(r: Rules, show: Display, text: string): Addresses {
    LeaseText.RecordAll(LeaseText.Blocks(text), !show.noName || SecurityOn(r), show.showMac || SecurityOn(r))
  }

  lemma SecurityOnIsEnabled(r: Rules)
    ensures SecurityOn(r) <==> exists c :: Enabled(r, c)
  {
    assert r.hostWhite != "" ==> Enabled(r, HostWhite);
    assert r.hostBlack != "" ==> Enabled(r, HostBlack);
    assert MacList(r.macWhite) != [] ==> Enabled(r, MacWhite);
    assert MacList(r.macBlack) != [] ==> Enabled(r, MacBlack);
  }

  // What is displayed cannot change who is unauthorised.
  lemma DisplayIrrelevant(r: Rules, show: Display, show': Display, text: string)
    ensures RunChecks(r, PASSES, Recorded(r, show, text), map[])
        == RunChecks(r, PASSES, Recorded(r, show', text), map[])
    ensures Recorded(r, show, text).Keys == Recorded(r, show', text).Keys
  {
    hide Enabled, Fails, LeaseText.RecordAll, LeaseText.Blocks;
    SecurityOnIsEnabled(r);
    var blocks := LeaseText.Blocks(text);
    RecordedKeys(blocks, !show.noName || SecurityOn(r), show.showMac || SecurityOn(r));
    RecordedKeys(blocks, !show'.noName || SecurityOn(r), show'.showMac || SecurityOn(r));
    if !SecurityOn(r) {
      RunChecksKeys(r, PASSES, Recorded(r, show, text), map[]);
      RunChecksKeys(r, PASSES, Recorded(r, show', text), map[]);
    }
  }

  lemma {:induction false} RecordedKeys(blocks: seq<string>, names: bool, macs: bool)
    ensures LeaseText.RecordAll(blocks, names, macs).Keys == LeaseText.RecordAll(blocks, true, true).Keys
  {
    if blocks != [] {
      RecordedKeys(blocks[..|blocks| - 1], names, macs);
      hide LeaseText.IpOf, LeaseText.IsActive, LeaseText.HostnameOf, LeaseText.MacOf;
    }
  }

  // From the text of the file to the verdict: whatever is displayed, the flagged
  // addresses are those whose last declaration that is visible and read as active
  // offends the rules.
  lemma FlaggedInFile(r: Rules, show: Display, es: seq<LeaseText.Entry>, tail: string)
    requires forall i :: 0 <= i < |es| ==> LeaseText.WellFormed(es[i])
    requires '}' !in tail
    ensures RunChecks(r, PASSES, Recorded(r, show, LeaseText.FileText(es, tail)), map[]).Keys
         == Flagged(r, LeaseText.Latest(es, true, true))
  {
    hide Offends, RunChecks, LeaseText.RecordAll, LeaseText.Blocks, LeaseText.FileText;
    var text := LeaseText.FileText(es, tail);
    var everything := Display(false, true, show.compact, show.sortByIp, show.noSummary);
    DisplayIrrelevant(r, show, everything, text);
    LeaseText.RoundTrip(es, tail, true, true);
    AllPasses();
    AnyOrder(r, PASSES, Recorded(r, everything, text), map[]);
  }

  // Addresses flagged although no current lease of theirs offends the rules: stale ones,
  // and misread ones whose current lease does not offend
  function FalselyFlagged(r: Rules, es: seq<LeaseText.Entry>): set<string> {
    var read, current := LeaseText.Latest(es, true, true), LeaseCurrent.Current(es, true, true);
    set ip | ip in read && Offends(r, read[ip]) &&
             (LeaseCurrent.Stale(es, ip)
              || (LeaseCurrent.Misread(es, ip, true, true) && ip in current && !Offends(r, current[ip])))
  }

  // Offenders that are not flagged: missed ones, and misread ones
  function MissedOffenders(r: Rules, es: seq<LeaseText.Entry>): set<string> {
    var read, current := LeaseText.Latest(es, true, true), LeaseCurrent.Current(es, true, true);
    set ip | ip in current && Offends(r, current[ip]) &&
             (LeaseCurrent.Missed(es, ip)
              || (LeaseCurrent.Misread(es, ip, true, true) && ip in read && !Offends(r, read[ip])))
  }

  // The addresses flagged against those whose current lease offends the rules
  lemma FlaggedAndCurrent(r: Rules, show: Display, es: seq<LeaseText.Entry>, tail: string)
    requires forall i :: 0 <= i < |es| ==> LeaseText.WellFormed(es[i])
    requires '}' !in tail
    ensures var flagged := RunChecks(r, PASSES, Recorded(r, show, LeaseText.FileText(es, tail)), map[]).Keys;
            var offending := Flagged(r, LeaseCurrent.Current(es, true, true));
            && flagged - offending == FalselyFlagged(r, es)
            && offending - flagged == MissedOffenders(r, es)
            && (flagged == offending <==> FalselyFlagged(r, es) == {} == MissedOffenders(r, es))
  {
    hide Offends, RunChecks, Recorded, LeaseText.FileText, LeaseText.WellFormed, LeaseText.Latest, LeaseCurrent.Current,
         LeaseCurrent.Stale, LeaseCurrent.Missed, LeaseCurrent.Misread;
    FlaggedInFile(r, show, es, tail);
    var read, current := LeaseText.Latest(es, true, true), LeaseCurrent.Current(es, true, true);
    forall ip
      ensures ip in read && ip !in current <==> LeaseCurrent.Stale(es, ip)
      ensures ip in current && ip !in read <==> LeaseCurrent.Missed(es, ip)
      ensures ip in read && ip in current && read[ip] != current[ip] <==> LeaseCurrent.Misread(es, ip, true, true)
    {
      LeaseCurrent.ReadOrCurrent(es, true, true, ip);
    }
    var flagged, offending := Flagged(r, read), Flagged(r, current);
    assert flagged - offending == FalselyFlagged(r, es);
    assert offending - flagged == MissedOffenders(r, es);
    assert flagged == (flagged - offending) + (flagged * offending);
    assert offending == (offending - flagged) + (flagged * offending);
  }

  // A client with the word "lease" in its name evades a blacklist that names it.
  lemma EvadesByName(r: Rules, show: Display, ip: string, name: string) returns (e: LeaseText.Entry)
    requires LeaseCurrent.GoodIp(ip) && LeaseText.WellFormedLine(LeaseText.Hostname(name))
    requires Contains(name, "lease") && NamesHost(r.hostBlack, name)
    ensures e == LeaseText.Entry([], ip, [LeaseText.State("active"), LeaseText.Hostname(name)])
    ensures LeaseText.WellFormed(e)
    ensures ip in Flagged(r, LeaseCurrent.Current([e], true, true))
    ensures RunChecks(r, PASSES, Recorded(r, show, LeaseText.FileText([e], "")), map[]) == map[]
  {
    hide RunChecks, Recorded, LeaseText.FileText, LeaseText.WellFormed, LeaseCurrent.GoodIp, LeaseText.WellFormedLine,
         Contains, NamesHost, NamesMac, LeaseText.Latest, LeaseCurrent.Current, LeaseText.Hidden,
         LeaseText.ReadAsActive, LeaseCurrent.Active, LeaseCurrent.IsRead;
    e := LeaseCurrent.NamedLease(ip, name);
    LeaseCurrent.ReadOrCurrent([e], true, true, ip);
    LeaseCurrent.CurrentAt([e], true, true, ip);
    assert LeaseCurrent.GivenName(e.body) == name;
    FlaggedInFile(r, show, [e], "");
    forall x ensures x !in LeaseText.Latest([e], true, true) {
      LeaseCurrent.LatestAt([e], true, true, x);
    }
    assert RunChecks(r, PASSES, Recorded(r, show, LeaseText.FileText([e], "")), map[]).Keys == {};
  }

  lemma ListedByName(name: string)
    requires IsWord(name) && ',' !in name
    ensures NamesHost(name, name)
  {
    FieldsOfWord(name);
    assert ListWords(name) == [name] && SameLetters(name, name);
    assert name in ListWords(name);
  }

  lemma ExampleContains()
    ensures Contains("release1", "lease")
  {
    assert At("release1", "lease", 2);
  }

  // The client release1 is not flagged by a blacklist of its name.
  lemma Release1Evades(show: Display) returns (e: LeaseText.Entry)
    ensures e.ip == "10.0.0.9" && LeaseText.WellFormed(e)
    ensures var r := Rules("", "release1", "", "");
            && e.ip in Flagged(r, LeaseCurrent.Current([e], true, true))
            && RunChecks(r, PASSES, Recorded(r, show, LeaseText.FileText([e], "")), map[]) == map[]
  {
    hide LeaseText.WellFormed, LeaseText.WellFormedLine, LeaseText.FileText, Recorded, RunChecks, Flagged,
         LeaseText.MatchesIp, LeaseText.HasHostname, LeaseText.OpeningLine, Contains, NamesHost, LeaseCurrent.Current;
    LeaseText.ExampleIp("");
    assert "10.0.0.9" + "" == "10.0.0.9";
    LeaseText.WordName("release1");
    ExampleContains();
    ListedByName("release1");
    e := EvadesByName(Rules("", "release1", "", ""), show, "10.0.0.9", "release1");
  }

  // -------------------------------------------------------- laws of the verdict

  // More names on a blacklist flag more; more names on a whitelist that is in force
  // flag less.
  lemma Monotone(r: Rules, r': Rules, d: Addresses)
    requires forall w :: w in ListWords(r.hostBlack) ==> w in ListWords(r'.hostBlack)
    requires forall w :: w in ListWords(r.macBlack) ==> w in ListWords(r'.macBlack)
    requires forall w :: w in ListWords(r'.hostWhite) ==> w in ListWords(r.hostWhite)
    requires forall w :: w in ListWords(r'.macWhite) ==> w in ListWords(r.macWhite)
    requires r.hostWhite != "" ==> r'.hostWhite != ""
    requires ListWords(r.macWhite) != [] ==> ListWords(r'.macWhite) != []
    ensures Flagged(r, d) <= Flagged(r', d)
  {
    hide ListWords, SameLetters, Respelled;
    forall l | Offends(r, l) ensures Offends(r', l) {
    }
  }

  // Colons and letter case never decide who is flagged by an address rule.
  lemma SpellingIrrelevant(r: Rules, r': Rules, d: Addresses, d': Addresses)
    requires r'.hostWhite == r.hostWhite && r'.hostBlack == r.hostBlack
    requires |ListWords(r.macWhite)| == |ListWords(r'.macWhite)| && |ListWords(r.macBlack)| == |ListWords(r'.macBlack)|
    requires forall i :: 0 <= i < |ListWords(r.macWhite)| ==>
               Respelled(ListWords(r.macWhite)[i], ListWords(r'.macWhite)[i])
    requires forall i :: 0 <= i < |ListWords(r.macBlack)| ==>
               Respelled(ListWords(r.macBlack)[i], ListWords(r'.macBlack)[i])
    requires d.Keys == d'.Keys
    requires forall ip :: ip in d ==> d'[ip].host == d[ip].host && Respelled(d[ip].mac, d'[ip].mac)
    ensures ValidMacs(MacList(r.macWhite)) <==> ValidMacs(MacList(r'.macWhite))
    ensures ValidMacs(MacList(r.macBlack)) <==> ValidMacs(MacList(r'.macBlack))
    ensures Flagged(r, d) == Flagged(r', d')
  {
    RespelledList(r.macWhite, r'.macWhite);
    RespelledList(r.macBlack, r'.macBlack);
    forall ip | ip in d ensures Offends(r, d[ip]) <==> Offends(r', d'[ip]) {
      RespelledIsNormal(d[ip].mac, d'[ip].mac);
      SameNames(r.macWhite, r'.macWhite, d[ip].mac, d'[ip].mac);
      SameNames(r.macBlack, r'.macBlack, d[ip].mac, d'[ip].mac);
    }
  }

  lemma SameNames(a: string, b: string, mac: string, mac': string)
    requires MacList(a) == MacList(b) && Normal(mac) == Normal(mac')
    ensures NamesMac(a, mac) <==> NamesMac(b, mac')
  {
    InNormals(ListWords(a), mac);
    InNormals(ListWords(b), mac');
  }

  // Without separators the format is twelve hexadecimal digits.
  lemma {:induction false} BareFormat(m: string, more: nat)
    requires ':' !in m && '-' !in m
    ensures MacFormat(m, more) <==> |m| == 2 * more + 2 && forall i :: 0 <= i < |m| ==> IsHex(m[i])
  {
    if more > 0 && |m| > 2 {
      BareFormat(m[2..], more - 1);
      assert m == m[..2] + m[2..];
      assert forall i :: 2 <= i < |m| ==> m[i] == m[2..][i - 2];
    }
  }

  // Pairs of digits, with a separator or none after each but the last
  function Separated(pairs: seq<string>, seps: seq<string>): string
    requires pairs != [] && |seps| == |pairs| - 1
  {
    if |pairs| == 1 then pairs[0] else pairs[0] + seps[0] + Separated(pairs[1..], seps[1..])
  }

  predicate Separators(seps: seq<string>) {
    forall i :: 0 <= i < |seps| ==> seps[i] == "" || seps[i] == ":" || seps[i] == "-"
  }

  predicate HexPairs(pairs: seq<string>) {
    forall i :: 0 <= i < |pairs| ==> HexPair(pairs[i])
  }

  // The format accepts pairs of hexadecimal digits, each pair but the last followed by a
  // colon, a dash or nothing,
  lemma {:induction false} FormatAccepts(pairs: seq<string>, seps: seq<string>)
    requires pairs != [] && |seps| == |pairs| - 1 && HexPairs(pairs) && Separators(seps)
    ensures MacFormat(Separated(pairs, seps), |pairs| - 1)
  {
    var m := Separated(pairs, seps);
    assert HexPair(pairs[0]);
    if |pairs| > 1 {
      var rest := Separated(pairs[1..], seps[1..]);
      FormatAccepts(pairs[1..], seps[1..]);
      assert HexPair(pairs[1]) && rest[0] == pairs[1][0];
      assert m[2 + |seps[0]|..] == rest;
    }
  }

  // and nothing else.
  lemma {:induction false} FormatParts(m: string, more: nat) returns (pairs: seq<string>, seps: seq<string>)
    requires MacFormat(m, more)
    ensures |pairs| == more + 1 && |seps| == more && HexPairs(pairs) && Separators(seps)
    ensures m == Separated(pairs, seps)
  {
    assert HexPair(m[..2]);
    if more == 0 {
      pairs, seps := [m], [];
    } else {
      var sep := if |m| > 2 && (m[2] == ':' || m[2] == '-') then [m[2]] else "";
      pairs, seps := FormatParts(m[2 + |sep|..], more - 1);
      pairs, seps := [m[..2]] + pairs, [sep] + seps;
      assert pairs[1..] == pairs[1..] && seps[1..] == seps[1..];
      assert m == m[..2] + sep + m[2 + |sep|..];
    }
  }

  // ---------------------------------------------------- addresses with dashes

  // The same hardware address, whichever separators it is written with
  predicate SameAddress(a: string, b: string) {
    Normal(Remove(a, '-')) == Normal(Remove(b, '-'))
  }

  lemma {:induction false} NormalKeepsDash(s: string)
    ensures '-' in Normal(s) <==> '-' in s
  {
    if s != "" {
      NormalKeepsDash(s[1..]);
      NormalCons(s[0], s[1..]);
      assert s == [s[0]] + s[1..];
    }
  }

  // dhcpd writes addresses without dashes. Such a lease matches a list entry for the
  // same address exactly when the entry has no dash, although entries written with
  // dashes are accepted as valid.
  lemma DashedEntriesNeverMatch(entry: string, mac: string)
    requires '-' !in mac
    ensures Respelled(entry, mac) <==> SameAddress(entry, mac) && '-' !in entry
  {
    RespelledIsNormal(entry, mac);
    NormalKeepsDash(entry);
    NormalKeepsDash(mac);
  }

  predicate HexPair(p: string) {
    |p| == 2 && IsHex(p[0]) && IsHex(p[1])
  }

  function Flat(pairs: seq<string>): string {
    if pairs == [] then "" else pairs[0] + Flat(pairs[1..])
  }

  lemma {:induction false} RemoveSeparators(pairs: seq<string>, c: char)
    requires !IsHex(c)
    requires forall i :: 0 <= i < |pairs| ==> HexPair(pairs[i])
    ensures Remove(Join(pairs, c), c) == Flat(pairs)
    ensures forall x :: x in Join(pairs, c) ==> x == c || IsHex(x)
  {
    if |pairs| == 1 {
      assert Flat(pairs) == pairs[0] + "" == pairs[0];
    } else if |pairs| > 1 {
      var rest := Join(pairs[1..], c);
      RemoveSeparators(pairs[1..], c);
      RemoveConcat(pairs[0] + [c], rest, c);
      RemoveConcat(pairs[0], [c], c);
    }
  }

  lemma {:induction false} DashedFormat(pairs: seq<string>)
    requires pairs != []
    requires forall i :: 0 <= i < |pairs| ==> HexPair(pairs[i])
    ensures MacFormat(Upper(Join(pairs, '-')), |pairs| - 1)
  {
    var m, u := Join(pairs, '-'), Upper(Join(pairs, '-'));
    assert u[0] == UpperChar(pairs[0][0]) && u[1] == UpperChar(pairs[0][1]);
    if |pairs| > 1 {
      DashedFormat(pairs[1..]);
      assert m[3..] == Join(pairs[1..], '-');
      assert u[3..] == Upper(m[3..]);
    }
  }

  // The advertised form aa-bb-cc-dd-ee-ff of any address passes the format check, and
  // never matches the lease of that very address.
  lemma AdvertisedDashForm(pairs: seq<string>)
    requires |pairs| == 6 && forall i :: 0 <= i < |pairs| ==> HexPair(pairs[i])
    ensures ValidMac(Normal(Join(pairs, '-')))
    ensures SameAddress(Join(pairs, '-'), Join(pairs, ':'))
    ensures !Respelled(Join(pairs, '-'), Join(pairs, ':'))
  {
    var dashed, coloned := Join(pairs, '-'), Join(pairs, ':');
    RemoveSeparators(pairs, '-');
    RemoveSeparators(pairs, ':');
    DashedFormat(pairs);
    assert Remove(dashed, ':') == dashed && Remove(coloned, '-') == coloned;
    assert ':' !in Flat(pairs);
    assert dashed[2] == '-';
    DashedEntriesNeverMatch(dashed, coloned);
  }
}
