// sort_keys_by_host of check_dhcpd_leases.py: the dictionary's keys ordered by host,
// and by key within a host. The code repeats every key once per lease of its host and
// removes the repetitions afterwards; the order it ends with is the strict
// lexicographic order on (host, key), which determines the list.
module HostOrder {
  import opened Sums
  import opened Text

  datatype Lease = Lease(host: string, mac: string)

  type Addresses = map<string, Lease>

  // The host a key is sorted by.
  function HostOf(d: Addresses): string -> string {
    k => if k in d then d[k].host else ""
  }

  // Sorting by address alone is sorting by a constant host.
  function NoHost(): string -> string {
    k => ""
  }

  predicate Before(h: string -> string, a: string, b: string) {
    Less(h(a), h(b)) || (h(a) == h(b) && Less(a, b))
  }

  // keys lists exactly the elements of ks, each once, in strict (host, key) order.
  ghost predicate IsOrder(h: string -> string, keys: seq<string>, ks: set<string>) {
    && (forall i :: 0 <= i < |keys| ==> keys[i] in ks)
    && (forall k :: k in ks ==> k in keys)
    && (forall i, j :: 0 <= i < j < |keys| ==> Before(h, keys[i], keys[j]))
  }

  // ------------------------------------------------------- laws of the order

  lemma BeforeAsymmetric(h: string -> string, a: string, b: string)
    requires Before(h, a, b)
    ensures !Before(h, b, a) && a != b
  {
    if Before(h, b, a) {
      hide Leq;
      if h(a) == h(b) { LeqAntisymmetric(a, b); } else { LeqAntisymmetric(h(a), h(b)); }
    }
  }

  lemma OrderNoDups(h: string -> string, keys: seq<string>, ks: set<string>)
    requires IsOrder(h, keys, ks)
    ensures NoDups(keys)
    ensures |keys| == |ks|
  {
    forall i, j | 0 <= i < j < |keys| ensures keys[i] != keys[j] {
      BeforeAsymmetric(h, keys[i], keys[j]);
    }
    CardinalityOf(keys, ks);
  }

  lemma {:induction false} CardinalityOf(keys: seq<string>, ks: set<string>)
    requires NoDups(keys)
    requires forall k :: k in ks <==> k in keys
    ensures |keys| == |ks|
  {
    if keys == [] {
      assert ks == {};
    } else {
      var front, last := keys[..|keys| - 1], keys[|keys| - 1];
      assert keys == front + [last];
      CardinalityOf(front, ks - {last});
    }
  }

  // At most one list is in (host, key) order.
  lemma {:induction false} OrderUnique(h: string -> string, xs: seq<string>, ys: seq<string>, ks: set<string>)
    requires IsOrder(h, xs, ks) && IsOrder(h, ys, ks)
    ensures xs == ys
  {
    hide Before;
    OrderNoDups(h, xs, ks);
    OrderNoDups(h, ys, ks);
    if xs != [] && ys != [] {
      FirstIsFirst(h, xs, ys, ks);
      DropFirst(h, xs, ks);
      DropFirst(h, ys, ks);
      OrderUnique(h, xs[1..], ys[1..], ks - {xs[0]});
      assert xs == [xs[0]] + xs[1..] && ys == [ys[0]] + ys[1..];
    }
  }

  lemma FirstIsFirst(h: string -> string, xs: seq<string>, ys: seq<string>, ks: set<string>)
    requires IsOrder(h, xs, ks) && IsOrder(h, ys, ks) && xs != [] && ys != []
    ensures xs[0] == ys[0]
  {
    hide Before;
    var j :| 0 <= j < |ys| && ys[j] == xs[0];
    var i :| 0 <= i < |xs| && xs[i] == ys[0];
    if j > 0 && i > 0 {
      BeforeAsymmetric(h, xs[0], ys[0]);
    }
  }

  lemma DropFirst(h: string -> string, xs: seq<string>, ks: set<string>)
    requires IsOrder(h, xs, ks) && xs != []
    ensures IsOrder(h, xs[1..], ks - {xs[0]})
  {
  }

  lemma OrderConcat(h: string -> string, xs: seq<string>, ys: seq<string>, ks: set<string>, ls: set<string>)
    requires IsOrder(h, xs, ks) && IsOrder(h, ys, ls)
    requires forall x, y :: x in ks && y in ls ==> Before(h, x, y)
    ensures IsOrder(h, xs + ys, ks + ls)
  {
  }

  function Filter(keys: seq<string>, sub: set<string>): seq<string> {
    if keys == [] then [] else (if keys[0] in sub then [keys[0]] else []) + Filter(keys[1..], sub)
  }

  // Dropping keys from an ordered list leaves the ordered list of the others.
  lemma {:induction false} FilterOrder(h: string -> string, keys: seq<string>, ks: set<string>, sub: set<string>)
    requires IsOrder(h, keys, ks)
    ensures IsOrder(h, Filter(keys, sub), ks * sub)
  {
    hide Before;
    if keys != [] {
      DropFirst(h, keys, ks);
      FirstBeforeOthers(h, keys, ks);
      hide IsOrder;
      FilterOrder(h, keys[1..], ks - {keys[0]}, sub);
      if keys[0] in sub {
        OnlyKey(h, keys[0]);
        OrderConcat(h, [keys[0]], Filter(keys[1..], sub), {keys[0]}, (ks - {keys[0]}) * sub);
        assert {keys[0]} + (ks - {keys[0]}) * sub == ks * sub;
      } else {
        assert (ks - {keys[0]}) * sub == ks * sub;
      }
    }
  }

  lemma FirstBeforeOthers(h: string -> string, keys: seq<string>, ks: set<string>)
    requires IsOrder(h, keys, ks) && keys != []
    ensures keys[0] in ks && forall k :: k in ks - {keys[0]} ==> Before(h, keys[0], k)
  {
    hide Before;
    assert forall k :: k in ks && k != keys[0] ==> exists i :: 0 < i < |keys| && keys[i] == k;
  }

  lemma OnlyKey(h: string -> string, key: string)
    ensures IsOrder(h, [key], {key})
  {
  }

  // Only the hosts of the listed keys matter.
  lemma OrderAgree(h: string -> string, g: string -> string, keys: seq<string>, ks: set<string>)
    requires IsOrder(h, keys, ks)
    requires forall k :: k in ks ==> h(k) == g(k)
    ensures IsOrder(g, keys, ks)
  {
  }

  // ------------------------------------------------- what the loops accumulate

  function Hosts(h: string -> string, keys: seq<string>): seq<string> {
    if keys == [] then [] else Hosts(h, keys[..|keys| - 1]) + [h(keys[|keys| - 1])]
  }

  function Group(h: string -> string, keys: seq<string>, host: string): seq<string> {
    if keys == [] then [] else
    var key := keys[|keys| - 1];
    Group(h, keys[..|keys| - 1], host) + if h(key) == host then [key] else []
  }

  function Expand(h: string -> string, keys: seq<string>, hosts: seq<string>): seq<string> {
    if hosts == [] then [] else
    Expand(h, keys, hosts[..|hosts| - 1]) + Group(h, keys, hosts[|hosts| - 1])
  }

  function Dedup(xs: seq<string>): (r: seq<string>)
    ensures forall x :: x in r <==> x in xs
  {
    if xs == [] then [] else
    var front, last := Dedup(xs[..|xs| - 1]), xs[|xs| - 1];
    assert xs == xs[..|xs| - 1] + [last];
    if last in front then front else front + [last]
  }

  lemma {:induction false} DedupKnown(xs: seq<string>, ys: seq<string>)
    requires forall y :: y in ys ==> y in xs
    ensures Dedup(xs + ys) == Dedup(xs)
  {
    if ys == [] {
      assert xs + ys == xs;
    } else {
      var front := ys[..|ys| - 1];
      DedupKnown(xs, front);
      assert (xs + ys)[..|xs + ys| - 1] == xs + front;
    }
  }

  lemma {:induction false} DedupNew(xs: seq<string>, ys: seq<string>)
    requires NoDups(ys)
    requires forall y :: y in ys ==> y !in xs
    ensures Dedup(xs + ys) == Dedup(xs) + ys
  {
    if ys == [] {
      assert xs + ys == xs;
    } else {
      var front, last := ys[..|ys| - 1], ys[|ys| - 1];
      DedupNew(xs, front);
      assert (xs + ys)[..|xs + ys| - 1] == xs + front;
      assert last !in front;
      assert last !in Dedup(xs) + front;
      assert Dedup(xs) + front + [last] == Dedup(xs) + ys by { assert ys == front + [last]; }
    }
  }

  lemma {:induction false} GroupOrder(h: string -> string, keys: seq<string>, host: string)
    requires Sorted(keys) && NoDups(keys)
    ensures IsOrder(h, Group(h, keys, host), set k | k in keys && h(k) == host)
  {
    hide Leq;
    if keys != [] {
      var front, last := keys[..|keys| - 1], keys[|keys| - 1];
      GroupOrder(h, front, host);
      assert keys == front + [last];
      var ks := set k | k in front && h(k) == host;
      if h(last) == host {
        assert forall i :: 0 <= i < |front| && h(front[i]) == host ==> Before(h, keys[i], last);
        OrderConcat(h, Group(h, front, host), [last], ks, {last});
        assert ks + {last} == set k | k in keys && h(k) == host;
      } else {
        assert ks == set k | k in keys && h(k) == host;
      }
    }
  }

  ghost function KeysWithHostIn(h: string -> string, keys: seq<string>, hosts: seq<string>): set<string> {
    set k | k in keys && h(k) in hosts
  }

  // Going through the sorted hosts, repetitions included, the list without repetitions
  // is in order at every step.
  lemma {:induction false} ExpandOrder(h: string -> string, keys: seq<string>, hosts: seq<string>)
    requires Sorted(keys) && NoDups(keys) && Sorted(hosts)
    ensures IsOrder(h, Dedup(Expand(h, keys, hosts)), KeysWithHostIn(h, keys, hosts))
  {
    hide Leq;
    if hosts != [] {
      var front, host := hosts[..|hosts| - 1], hosts[|hosts| - 1];
      assert hosts == front + [host];
      ExpandOrder(h, keys, front);
      GroupOrder(h, keys, host);
      AppendGroup(h, keys, front, host, Expand(h, keys, front), Group(h, keys, host));
      assert KeysWithHostIn(h, keys, hosts) ==
             KeysWithHostIn(h, keys, front) + set k | k in keys && h(k) == host;
    }
  }

  lemma AppendGroup(h: string -> string, keys: seq<string>, front: seq<string>, host: string,
                    xs: seq<string>, g: seq<string>)
    requires IsOrder(h, Dedup(xs), KeysWithHostIn(h, keys, front))
    requires IsOrder(h, g, set k | k in keys && h(k) == host)
    requires forall i :: 0 <= i < |front| ==> Leq(front[i], host)
    ensures IsOrder(h, Dedup(xs + g), KeysWithHostIn(h, keys, front) + set k | k in keys && h(k) == host)
  {
    hide Leq;
    var old', new' := KeysWithHostIn(h, keys, front), set k | k in keys && h(k) == host;
    if host in front {
      assert forall y :: y in g ==> y in Dedup(xs);
      DedupKnown(xs, g);
      assert old' + new' == old';
    } else {
      assert forall y :: y in g ==> y !in Dedup(xs);
      OrderNoDups(h, g, new');
      DedupNew(xs, g);
      assert forall x, y :: x in old' && y in new' ==> Before(h, x, y);
      OrderConcat(h, Dedup(xs), g, old', new');
    }
  }

  // ------------------------------------------- the size of the repeated list

  // The summand of a host that is listed a[host] times and has b[host] leases
  function Times(a: multiset<string>, b: multiset<string>): string -> int {
    x => a[x] * b[x]
  }

  lemma ListedOnceMore(domain: set<string>, a: multiset<string>, b: multiset<string>, y: string)
    requires y in domain
    ensures Sum(domain, Times(a + multiset{y}, b)) == Sum(domain, Times(a, b)) + b[y]
  {
    hide Sum;
    var a' := a + multiset{y};
    assert forall x :: x != y ==> a'[x] == a[x];
    SumChange(domain, Times(a, b), Times(a', b), y);
    OneMore(a[y], b[y]);
  }

  lemma OneMore(m: nat, n: nat)
    ensures (m + 1) * n == m * n + n
  {
  }

  lemma {:induction false} GroupSize(h: string -> string, keys: seq<string>, host: string)
    ensures |Group(h, keys, host)| == multiset(Hosts(h, keys))[host]
  {
    if keys != [] {
      GroupSize(h, keys[..|keys| - 1], host);
    }
  }

  lemma {:induction false} ExpandSize(h: string -> string, keys: seq<string>, hosts: seq<string>, domain: set<string>)
    requires forall x :: x in hosts ==> x in domain
    ensures |Expand(h, keys, hosts)| == Sum(domain, Times(multiset(hosts), multiset(Hosts(h, keys))))
  {
    if hosts == [] {
      SumZero(domain, Times(multiset(hosts), multiset(Hosts(h, keys))));
    } else {
      var front, host := hosts[..|hosts| - 1], hosts[|hosts| - 1];
      assert hosts == front + [host];
      ExpandSize(h, keys, front, domain);
      GroupSize(h, keys, host);
      ListedOnceMore(domain, multiset(front), multiset(Hosts(h, keys)), host);
      assert multiset(hosts) == multiset(front) + multiset{host};
    }
  }

  // The list before the repetitions are removed has, summed over the distinct hosts,
  // the square of the number of leases of the host.
  lemma RepeatedListSize(d: Addresses, keys: seq<string>)
    ensures
      var hosts := Hosts(HostOf(d), keys);
      |Expand(HostOf(d), keys, Sort(hosts))|
      == Sum((set x | x in hosts), Times(multiset(hosts), multiset(hosts)))
  {
    var hosts := Hosts(HostOf(d), keys);
    SortLaws(hosts);
    SameElements(Sort(hosts), hosts);
    ExpandSize(HostOf(d), keys, Sort(hosts), set x | x in hosts);
  }

  // ------------------------------------------------------------- the operations

  // list(dictionary.keys()): the keys in some order
  method ListKeys(ks: set<string>) returns (keys: seq<string>)
    ensures NoDups(keys)
    ensures forall k :: k in keys <==> k in ks
  {
    keys := [];
    var rest := ks;
    while rest != {}
      invariant NoDups(keys) && rest <= ks
      invariant forall k :: k in keys <==> k in ks - rest
      decreases |rest|
    {
      var k :| k in rest;
      assert forall i :: 0 <= i < |keys| ==> keys[i] in keys;
      keys := keys + [k];
      rest := rest - {k};
    }
  }

  // list(dictionary.keys()) followed by sort()
  method SortedKeys(ks: set<string>) returns (keys: seq<string>)
    ensures Sorted(keys) && NoDups(keys)
    ensures IsOrder(NoHost(), keys, ks)
  {
    hide Leq;
    var listed := ListKeys(ks);
    keys := Sort(listed);
    SortLaws(listed);
    SameElements(keys, listed);
    NoDupsByMultiset(listed, keys);
  }

  // hosts: the host of every key, repetitions included
  method CollectHosts(dictionary: Addresses, keys: seq<string>) returns (hosts: seq<string>)
    requires forall k :: k in keys ==> k in dictionary
    ensures hosts == Hosts(HostOf(dictionary), keys)
  {
    hosts := [];
    for i := 0 to |keys|
      invariant hosts == Hosts(HostOf(dictionary), keys[..i])
    {
      hosts := hosts + [dictionary[keys[i]].host];
      assert keys[..i + 1][..i] == keys[..i];
    }
    assert keys[..|keys|] == keys;
  }

  // The keys of every host, once for each time the host is listed
  method RepeatKeys(dictionary: Addresses, keys: seq<string>, hosts: seq<string>) returns (repeated: seq<string>)
    requires forall k :: k in keys ==> k in dictionary
    ensures repeated == Expand(HostOf(dictionary), keys, hosts)
  {
    ghost var h := HostOf(dictionary);
    repeated := [];
    for i := 0 to |hosts|
      invariant repeated == Expand(h, keys, hosts[..i])
    {
      ghost var sofar := repeated;
      for j := 0 to |keys|
        invariant repeated == sofar + Group(h, keys[..j], hosts[i])
      {
        if dictionary[keys[j]].host == hosts[i] {
          repeated := repeated + [keys[j]];
        }
        assert keys[..j + 1][..j] == keys[..j];
      }
      assert keys[..|keys|] == keys;
      assert hosts[..i + 1][..i] == hosts[..i];
    }
    assert hosts[..|hosts|] == hosts;
  }

  method RemoveRepeats(repeated: seq<string>) returns (order: seq<string>)
    ensures order == Dedup(repeated)
  {
    order := [];
    for i := 0 to |repeated|
      invariant order == Dedup(repeated[..i])
    {
      if repeated[i] !in order {
        order := order + [repeated[i]];
      }
      assert repeated[..i + 1][..i] == repeated[..i];
    }
    assert repeated[..|repeated|] == repeated;
  }

  method SortKeysByHost(dictionary: Addresses) returns (order: seq<string>)
    ensures IsOrder(HostOf(dictionary), order, dictionary.Keys)
    ensures forall i, j :: 0 <= i < j < |order| ==>
              && Leq(dictionary[order[i]].host, dictionary[order[j]].host)
              && (dictionary[order[i]].host == dictionary[order[j]].host ==> Leq(order[i], order[j]))
  {
    var keys := SortedKeys(dictionary.Keys);
    var hosts := CollectHosts(dictionary, keys);
    SortLaws(hosts);
    SameElements(Sort(hosts), hosts);
    hosts := Sort(hosts);
    var repeated := RepeatKeys(dictionary, keys, hosts);
    order := RemoveRepeats(repeated);
    ExpandOrder(HostOf(dictionary), keys, hosts);
    HostsHold(HostOf(dictionary), keys);
    hide Leq, Sort, Hosts, Expand, Dedup, Before;
    assert KeysWithHostIn(HostOf(dictionary), keys, hosts) == dictionary.Keys;
    OrderReads(dictionary, order);
  }

  // In listing order hosts ascend, and keys within a host.
  lemma OrderReads(d: Addresses, order: seq<string>)
    requires IsOrder(HostOf(d), order, d.Keys)
    ensures forall i, j :: 0 <= i < j < |order| ==>
              && Leq(d[order[i]].host, d[order[j]].host)
              && (d[order[i]].host == d[order[j]].host ==> Leq(order[i], order[j]))
  {
    hide Leq;
    forall i, j | 0 <= i < j < |order|
      ensures Leq(d[order[i]].host, d[order[j]].host)
      ensures d[order[i]].host == d[order[j]].host ==> Leq(order[i], order[j])
    {
      assert Before(HostOf(d), order[i], order[j]);
      LeqReflexive(d[order[i]].host);
    }
  }

  lemma {:induction false} HostsHold(h: string -> string, keys: seq<string>)
    ensures forall k :: k in keys ==> h(k) in Hosts(h, keys)
  {
    if keys != [] {
      HostsHold(h, keys[..|keys| - 1]);
      assert keys == keys[..|keys| - 1] + [keys[|keys| - 1]];
    }
  }
}
