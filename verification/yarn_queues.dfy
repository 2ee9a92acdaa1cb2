// check_hadoop_yarn_queue_apps.py: counting running applications by queue and category.
module YarnQueues {
  import opened Sums
  import opened Text

  datatype App = App(name: string, queue: string)

  datatype Category = Disallowed | NonAllowed | Allowed

  // The regular expressions of the options, as tests on a text
  datatype Selection = Selection(queue: string -> bool, allow: Option<string -> bool>, disallow: Option<string -> bool>)

  const TOTAL := "total"

  // A dictionary from queue to number of applications; the key "total" counts them all.
  type Counters = map<string, int>

  function CategoryOf(sel: Selection, app: App): Category {
    if sel.disallow.Some? && sel.disallow.value(app.name) then Disallowed
    else if sel.allow.Some? && !sel.allow.value(app.name) then NonAllowed
    else Allowed
  }

  function Increment(c: Counters, queue: string): Counters
    requires TOTAL in c
  {
    var t := c[TOTAL := c[TOTAL] + 1];
    t[queue := Counter(t)(queue) + 1]
  }

  function Tally(queues: seq<string>): (c: Counters)
    ensures TOTAL in c
  {
    if queues == [] then map[TOTAL := 0]
    else Increment(Tally(queues[..|queues| - 1]), queues[|queues| - 1])
  }

  // The queues of the selected applications, and of those in a category
  function Matching(sel: Selection, apps: seq<App>): seq<string> {
    if apps == [] then [] else
    var app := apps[|apps| - 1];
    Matching(sel, apps[..|apps| - 1]) + if sel.queue(app.queue) then [app.queue] else []
  }

  function QueuesOf(sel: Selection, apps: seq<App>, c: Category): seq<string> {
    if apps == [] then [] else
    var app := apps[|apps| - 1];
    QueuesOf(sel, apps[..|apps| - 1], c) +
    if sel.queue(app.queue) && CategoryOf(sel, app) == c then [app.queue] else []
  }

  datatype Stats = Stats(disallowed: Counters, nonAllowed: Counters, allowed: Counters) {
    ghost predicate Valid() {
      TOTAL in disallowed && TOTAL in nonAllowed && TOTAL in allowed
    }

    // One key of each dictionary is the total and no queue.
    function MatchingQueues(): int {
      |allowed| + |nonAllowed| + |disallowed| - 3
    }
  }

  function StatsOf(sel: Selection, apps: seq<App>): (s: Stats)
    ensures s.Valid()
  {
    Stats(Tally(QueuesOf(sel, apps, Disallowed)), Tally(QueuesOf(sel, apps, NonAllowed)),
        Tally(QueuesOf(sel, apps, Allowed)))
  }

  predicate Disallows(sel: Selection, name: string) {
    match sel.disallow case None => false case Some(test) => test(name)
  }

  // The name fails a test for allowed names that was given.
  predicate Refuses(sel: Selection, name: string) {
    match sel.allow case None => false case Some(test) => !test(name)
  }

  // The queues of the applications with a property, in order
  function Selected(apps: seq<App>, test: App -> bool): seq<string> {
    if apps == [] then [] else
    Selected(apps[..|apps| - 1], test) + if test(apps[|apps| - 1]) then [apps[|apps| - 1].queue] else []
  }

  // Who is in which category: disallowed names first, then names that are refused; the
  // others are allowed.
  lemma {:induction false} CategoriesAre(sel: Selection, apps: seq<App>)
    ensures Matching(sel, apps) == Selected(apps, (x: App) => sel.queue(x.queue))
    ensures QueuesOf(sel, apps, Disallowed) == Selected(apps, (x: App) => sel.queue(x.queue) && Disallows(sel, x.name))
    ensures QueuesOf(sel, apps, NonAllowed)
         == Selected(apps, (x: App) => sel.queue(x.queue) && !Disallows(sel, x.name) && Refuses(sel, x.name))
    ensures QueuesOf(sel, apps, Allowed)
         == Selected(apps, (x: App) => sel.queue(x.queue) && !Disallows(sel, x.name) && !Refuses(sel, x.name))
  {
    if apps != [] {
      CategoriesAre(sel, apps[..|apps| - 1]);
    }
  }

  // Some matching application is disallowed or refused.
  lemma {:induction false} WarningIs(sel: Selection, apps: seq<App>)
    ensures QueuesOf(sel, apps, Disallowed) != [] || QueuesOf(sel, apps, NonAllowed) != [] <==>
            exists x :: x in apps && sel.queue(x.queue) && (Disallows(sel, x.name) || Refuses(sel, x.name))
  {
    if apps != [] {
      var front, last := apps[..|apps| - 1], apps[|apps| - 1];
      WarningIs(sel, front);
      assert apps == front + [last];
    }
  }

  // ------------------------------------------------------------------ the loop

  method CheckQueueApps(sel: Selection, apps: seq<App>) returns (stats: Stats, matchingApps: nat, warning: bool)
    ensures stats == StatsOf(sel, apps)
    ensures matchingApps == |Matching(sel, apps)|
    ensures warning <==> exists x :: x in apps && sel.queue(x.queue) && (Disallows(sel, x.name) || Refuses(sel, x.name))
    ensures matchingApps == |Selected(apps, (x: App) => sel.queue(x.queue))|
    ensures stats.disallowed == Tally(Selected(apps, (x: App) => sel.queue(x.queue) && Disallows(sel, x.name)))
    ensures stats.nonAllowed
         == Tally(Selected(apps, (x: App) => sel.queue(x.queue) && !Disallows(sel, x.name) && Refuses(sel, x.name)))
    ensures stats.allowed
         == Tally(Selected(apps, (x: App) => sel.queue(x.queue) && !Disallows(sel, x.name) && !Refuses(sel, x.name)))
  {
    hide Tally, QueuesOf, Matching, Selected, Disallows, Refuses;
    NothingTallied(sel);
    assert apps[..0] == [];
    stats := Stats(map[TOTAL := 0], map[TOTAL := 0], map[TOTAL := 0]);
    matchingApps, warning := 0, false;
    for i := 0 to |apps|
      invariant stats == StatsOf(sel, apps[..i])
      invariant matchingApps == |Matching(sel, apps[..i])|
      invariant warning <==> QueuesOf(sel, apps[..i], Disallowed) != [] || QueuesOf(sel, apps[..i], NonAllowed) != []
    {
      var app := apps[i];
      StatsStep(sel, apps, i);
      if !sel.queue(app.queue) {
        continue;
      }
      matchingApps := matchingApps + 1;
      if sel.disallow.Some? && sel.disallow.value(app.name) {
        warning := true;
        var c := stats.disallowed[TOTAL := stats.disallowed[TOTAL] + 1];
        stats := stats.(disallowed := c[app.queue := Counter(c)(app.queue) + 1]);
      } else if sel.allow.Some? && !sel.allow.value(app.name) {
        warning := true;
        var c := stats.nonAllowed[TOTAL := stats.nonAllowed[TOTAL] + 1];
        stats := stats.(nonAllowed := c[app.queue := Counter(c)(app.queue) + 1]);
      } else {
        var c := stats.allowed[TOTAL := stats.allowed[TOTAL] + 1];
        stats := stats.(allowed := c[app.queue := Counter(c)(app.queue) + 1]);
      }
    }
    assert apps[..|apps|] == apps;
    CategoriesAre(sel, apps);
    WarningIs(sel, apps);
  }

  lemma NothingTallied(sel: Selection)
    ensures Tally([]) == map[TOTAL := 0] && Matching(sel, []) == []
    ensures forall c :: QueuesOf(sel, [], c) == []
  {
  }

  lemma TallyMore(queues: seq<string>, queue: string)
    ensures Tally(queues + [queue]) == Increment(Tally(queues), queue)
  {
  }

  lemma StatsStep(sel: Selection, apps: seq<App>, i: nat)
    requires i < |apps|
    ensures var app := apps[i];
            forall c :: QueuesOf(sel, apps[..i + 1], c)
                     == if sel.queue(app.queue) && CategoryOf(sel, app) == c
                        then QueuesOf(sel, apps[..i], c) + [app.queue]
                        else QueuesOf(sel, apps[..i], c)
    ensures Matching(sel, apps[..i + 1])
         == if sel.queue(apps[i].queue) then Matching(sel, apps[..i]) + [apps[i].queue] else Matching(sel, apps[..i])
    ensures forall c :: Tally(QueuesOf(sel, apps[..i], c) + [apps[i].queue])
                     == Increment(Tally(QueuesOf(sel, apps[..i], c)), apps[i].queue)
  {
    hide Tally;
    assert apps[..i + 1][..i] == apps[..i];
    forall c ensures Tally(QueuesOf(sel, apps[..i], c) + [apps[i].queue])
                  == Increment(Tally(QueuesOf(sel, apps[..i], c)), apps[i].queue)
    {
      TallyMore(QueuesOf(sel, apps[..i], c), apps[i].queue);
    }
  }

  // ------------------------------------------------------- what the counters mean

  // Every queue but one called "total" has its own count. The key "total" counts every
  // application once, and those on a queue of that name twice.
  lemma {:induction false} TallyIs(queues: seq<string>)
    ensures Tally(queues)[TOTAL] == |queues| + multiset(queues)[TOTAL]
    ensures forall q :: q != TOTAL ==> (q in Tally(queues) <==> q in queues)
    ensures forall q :: q in queues && q != TOTAL ==> Tally(queues)[q] == multiset(queues)[q]
  {
    if queues != [] {
      var front, last := queues[..|queues| - 1], queues[|queues| - 1];
      TallyIs(front);
      assert queues == front + [last];
      assert multiset(queues) == multiset(front) + multiset{last};
      assert forall q :: q !in front ==> multiset(front)[q] == 0;
    }
  }

  lemma {:induction false} PerQueueSum(queues: seq<string>)
    ensures Sum(Tally(queues).Keys - {TOTAL}, Counter(Tally(queues))) == |queues| - multiset(queues)[TOTAL]
  {
    hide Sum;
    if queues == [] {
      assert Tally(queues).Keys - {TOTAL} == {};
      SumZero({}, Counter(Tally(queues)));
    } else {
      var front, last := queues[..|queues| - 1], queues[|queues| - 1];
      PerQueueSum(front);
      assert queues == front + [last];
      IncrementSum(Tally(front), last);
    }
  }

  lemma IncrementSum(c: Counters, queue: string)
    requires TOTAL in c
    ensures var c' := Increment(c, queue);
            Sum(c'.Keys - {TOTAL}, Counter(c')) == Sum(c.Keys - {TOTAL}, Counter(c)) + if queue == TOTAL then 0 else 1
  {
    hide Sum;
    var c' := Increment(c, queue);
    var ks := c.Keys - {TOTAL};
    if queue in c {
      assert c'.Keys - {TOTAL} == ks;
      if queue == TOTAL {
        SumAgree(ks, Counter(c), Counter(c'));
      } else {
        SumChange(ks, Counter(c), Counter(c'), queue);
      }
    } else {
      assert c'.Keys - {TOTAL} == ks + {queue};
      SumMore(ks, Counter(c'), queue);
      SumAgree(ks, Counter(c), Counter(c'));
    }
  }

  // The total of a category is the sum of its queues exactly when none of them is
  // called "total".
  lemma TotalIsSum(queues: seq<string>)
    ensures Tally(queues)[TOTAL] == Sum(Tally(queues).Keys - {TOTAL}, Counter(Tally(queues))) <==> TOTAL !in queues
  {
    hide Sum, Tally;
    TallyIs(queues);
    PerQueueSum(queues);
    assert TOTAL in queues <==> multiset(queues)[TOTAL] > 0;
  }

  lemma TotalCollision()
    ensures Tally([TOTAL])[TOTAL] == 2
  {
  }

  // ---------------------------------------------------------------- conservation

  lemma {:induction false} Partition(sel: Selection, apps: seq<App>)
    ensures multiset(Matching(sel, apps))
         == multiset(QueuesOf(sel, apps, Disallowed)) + multiset(QueuesOf(sel, apps, NonAllowed))
             + multiset(QueuesOf(sel, apps, Allowed))
  {
    if apps != [] {
      hide CategoryOf;
      Partition(sel, apps[..|apps| - 1]);
    }
  }

  // No application is lost: the three totals add up to the matching applications exactly
  // when none of those runs on a queue called "total".
  lemma TotalsConserved(sel: Selection, apps: seq<App>)
    ensures var s := StatsOf(sel, apps);
            && s.disallowed[TOTAL] + s.nonAllowed[TOTAL] + s.allowed[TOTAL]
               == |Matching(sel, apps)| + multiset(Matching(sel, apps))[TOTAL]
            && (s.disallowed[TOTAL] + s.nonAllowed[TOTAL] + s.allowed[TOTAL] == |Matching(sel, apps)|
                <==> TOTAL !in Matching(sel, apps))
  {
    hide Tally, Matching, QueuesOf;
    var d, n, a := QueuesOf(sel, apps, Disallowed), QueuesOf(sel, apps, NonAllowed), QueuesOf(sel, apps, Allowed);
    var m := Matching(sel, apps);
    Partition(sel, apps);
    TallyIs(d);
    TallyIs(n);
    TallyIs(a);
    assert |multiset(m)| == |m| && |multiset(d)| == |d| && |multiset(n)| == |n| && |multiset(a)| == |a|;
    assert TOTAL in m <==> multiset(m)[TOTAL] > 0;
  }

  // A warning is raised exactly when the totals show an application that is not allowed.
  lemma WarningIsTotal(sel: Selection, apps: seq<App>)
    ensures var s := StatsOf(sel, apps);
            QueuesOf(sel, apps, Disallowed) != [] || QueuesOf(sel, apps, NonAllowed) != []
            <==> s.disallowed[TOTAL] + s.nonAllowed[TOTAL] > 0
  {
    hide Tally, QueuesOf;
    TallyIs(QueuesOf(sel, apps, Disallowed));
    TallyIs(QueuesOf(sel, apps, NonAllowed));
  }

  // ------------------------------------------------------------- counting queues

  function Named(queues: seq<string>): set<string> {
    set q | q in queues && q != TOTAL
  }

  lemma TallySize(queues: seq<string>)
    ensures |Tally(queues)| == 1 + |Named(queues)|
  {
    TallyKeys(queues);
    assert |Tally(queues)| == |Tally(queues).Keys|;
    assert TOTAL !in Named(queues);
  }

  lemma TallyKeys(queues: seq<string>)
    ensures Tally(queues).Keys == {TOTAL} + Named(queues)
  {
  }

  // Every queue counted once, and once more for each further category it is in
  lemma ThreeUnion(a: set<string>, b: set<string>, c: set<string>)
    ensures |a| + |b| + |c| == |a + b + c| + |(a * b) + (a * c) + (b * c)| + |a * b * c|
  {
    TwoUnion(a, b);
    TwoUnion(a + b, c);
    TwoUnion(a * c, b * c);
    TwoUnion(a * b, (a * c) + (b * c));
    assert (a + b) * c == (a * c) + (b * c);
    assert (a * c) * (b * c) == a * b * c;
    assert (a * b) * ((a * c) + (b * c)) == a * b * c;
    assert (a * b) + ((a * c) + (b * c)) == (a * b) + (a * c) + (b * c);
  }

  lemma TwoUnion(a: set<string>, b: set<string>)
    ensures |a| + |b| == |a + b| + |a * b|
  {
  }

  // The queues of the matching applications
  function MatchingSet(sel: Selection, apps: seq<App>): set<string> {
    set q | q in Matching(sel, apps)
  }

  // Queues (not called "total") with applications in at least two categories, and in
  // all three
  function InTwo(sel: Selection, apps: seq<App>): set<string> {
    set q | q in MatchingSet(sel, apps) && q != TOTAL &&
            exists c, c' :: c != c' && q in QueuesOf(sel, apps, c) && q in QueuesOf(sel, apps, c')
  }

  function InThree(sel: Selection, apps: seq<App>): set<string> {
    set q | q in MatchingSet(sel, apps) && q != TOTAL && forall c :: q in QueuesOf(sel, apps, c)
  }

  // The number of matching queues that is printed: a queue called "total" is left out,
  // and a queue counts once for every category it has applications in. Without a queue
  // of that name the number is right exactly when no queue is in two categories; with
  // one it is right exactly when a single queue is in two, and none in three.
  lemma MatchingQueuesCount(sel: Selection, apps: seq<App>)
    ensures var shown, all := StatsOf(sel, apps).MatchingQueues(), MatchingSet(sel, apps);
            && shown == |all| + |InTwo(sel, apps)| + |InThree(sel, apps)| - (if TOTAL in all then 1 else 0)
            && (TOTAL !in all ==> shown >= |all| && (shown == |all| <==> InTwo(sel, apps) == {}))
            && (TOTAL in all ==>
                shown >= |all| - 1 && (shown == |all| <==> |InTwo(sel, apps)| == 1 && InThree(sel, apps) == {}))
  {
    hide StatsOf, MatchingSet, InTwo, InThree;
    ShownFormula(sel, apps);
    TwoAndThree(sel, apps);
    if |InTwo(sel, apps)| == 0 {
      assert InTwo(sel, apps) == {};
    }
    if |InThree(sel, apps)| == 0 {
      assert InThree(sel, apps) == {};
    }
  }

  lemma ShownFormula(sel: Selection, apps: seq<App>)
    ensures StatsOf(sel, apps).MatchingQueues() + (if TOTAL in MatchingSet(sel, apps) then 1 else 0)
         == |MatchingSet(sel, apps)| + |InTwo(sel, apps)| + |InThree(sel, apps)|
  {
    hide Tally, Matching, QueuesOf, InTwo, InThree, Named;
    var d, n, a := QueuesOf(sel, apps, Disallowed), QueuesOf(sel, apps, NonAllowed), QueuesOf(sel, apps, Allowed);
    Partition(sel, apps);
    NamedUnion(Matching(sel, apps), d, n, a);
    TallySize(d);
    TallySize(n);
    TallySize(a);
    ThreeUnion(Named(d), Named(n), Named(a));
    SharedIs(sel, apps);
    NamedSize(sel, apps);
  }

  lemma NamedSize(sel: Selection, apps: seq<App>)
    ensures |MatchingSet(sel, apps)| == |Named(Matching(sel, apps))| + if TOTAL in MatchingSet(sel, apps) then 1 else 0
  {
    hide Matching;
    assert Named(Matching(sel, apps)) == MatchingSet(sel, apps) - {TOTAL};
  }

  lemma TwoAndThree(sel: Selection, apps: seq<App>)
    ensures |InThree(sel, apps)| <= |InTwo(sel, apps)|
  {
    hide Matching, QueuesOf;
    forall q | q in InThree(sel, apps) ensures q in InTwo(sel, apps) {
      assert q in QueuesOf(sel, apps, Disallowed) && q in QueuesOf(sel, apps, Allowed);
    }
    SubsetSize(InThree(sel, apps), InTwo(sel, apps));
  }

  lemma SubsetSize(a: set<string>, b: set<string>)
    requires a <= b
    ensures |a| <= |b|
  {
    TwoUnion(a, b - a);
    assert a + (b - a) == b;
  }

  lemma NamedUnion(m: seq<string>, d: seq<string>, n: seq<string>, a: seq<string>)
    requires multiset(m) == multiset(d) + multiset(n) + multiset(a)
    ensures Named(m) == Named(d) + Named(n) + Named(a)
  {
    forall q ensures q in m <==> q in d || q in n || q in a {
      assert q in m <==> q in multiset(m);
      assert q in d <==> q in multiset(d);
      assert q in n <==> q in multiset(n);
      assert q in a <==> q in multiset(a);
    }
  }

  lemma SharedIs(sel: Selection, apps: seq<App>)
    ensures var d, n, a := Named(QueuesOf(sel, apps, Disallowed)), Named(QueuesOf(sel, apps, NonAllowed)),
        Named(QueuesOf(sel, apps, Allowed));
            && InTwo(sel, apps) == (d * n) + (d * a) + (n * a)
            && InThree(sel, apps) == d * n * a
  {
    hide QueuesOf, Matching;
    var d, n, a := QueuesOf(sel, apps, Disallowed), QueuesOf(sel, apps, NonAllowed), QueuesOf(sel, apps, Allowed);
    Partition(sel, apps);
    NamedUnion(Matching(sel, apps), d, n, a);
    forall q
      ensures q in InTwo(sel, apps) <==> q in (Named(d) * Named(n)) + (Named(d) * Named(a)) + (Named(n) * Named(a))
      ensures q in InThree(sel, apps) <==> q in Named(d) * Named(n) * Named(a)
    {
      TwoCategories(sel, apps, q);
      assert q in Named(Matching(sel, apps)) <==> q in MatchingSet(sel, apps) && q != TOTAL;
    }
  }

  lemma TwoCategories(sel: Selection, apps: seq<App>, q: string)
    ensures var d, n, a :=
        QueuesOf(sel, apps, Disallowed), QueuesOf(sel, apps, NonAllowed), QueuesOf(sel, apps, Allowed);
            && ((exists c, c' :: c != c' && q in QueuesOf(sel, apps, c) && q in QueuesOf(sel, apps, c'))
                <==> (q in d && q in n) || (q in d && q in a) || (q in n && q in a))
            && ((forall c :: q in QueuesOf(sel, apps, c)) <==> q in d && q in n && q in a)
  {
    hide QueuesOf;
    if forall c :: q in QueuesOf(sel, apps, c) {
      assert q in QueuesOf(sel, apps, Disallowed);
    }
  }

  // A queue called "total" with a running application: no matching queue is shown.
  lemma TotalNotShown(sel: Selection, name: string)
    requires sel.queue(TOTAL)
    ensures var apps := [App(name, TOTAL)];
            StatsOf(sel, apps).MatchingQueues() == 0 && MatchingSet(sel, apps) == {TOTAL}
  {
    var apps := [App(name, TOTAL)];
    assert apps[..0] == [];
    assert Matching(sel, apps) == [TOTAL];
    assert MatchingSet(sel, apps) == {TOTAL};
    MatchingQueuesCount(sel, apps);
    assert InTwo(sel, apps) == {} && InThree(sel, apps) == {};
  }

  // One queue with an application that is disallowed and one that is not is shown twice.
  lemma SharedShownTwice(sel: Selection, a: string, b: string, queue: string)
    requires sel.queue(queue) && queue != TOTAL
    requires CategoryOf(sel, App(a, queue)) != CategoryOf(sel, App(b, queue))
    ensures var apps := [App(a, queue), App(b, queue)];
            StatsOf(sel, apps).MatchingQueues() == 2 && MatchingSet(sel, apps) == {queue}
  {
    hide CategoryOf, Tally, Matching, QueuesOf, StatsOf;
    var apps := [App(a, queue), App(b, queue)];
    var c, c' := CategoryOf(sel, App(a, queue)), CategoryOf(sel, App(b, queue));
    TwoApps(sel, App(a, queue), App(b, queue));
    MatchingQueuesCount(sel, apps);
    assert queue in QueuesOf(sel, apps, c) && queue in QueuesOf(sel, apps, c');
    assert MatchingSet(sel, apps) == {queue};
    assert InTwo(sel, apps) == {queue};
    var k := Third(c, c');
    assert queue !in QueuesOf(sel, apps, k);
    assert InThree(sel, apps) == {};
  }

  lemma TwoApps(sel: Selection, x: App, y: App)
    requires sel.queue(x.queue) && sel.queue(y.queue) && CategoryOf(sel, x) != CategoryOf(sel, y)
    ensures Matching(sel, [x, y]) == [x.queue, y.queue]
    ensures forall k :: QueuesOf(sel, [x, y], k)
                     == if k == CategoryOf(sel, x) then [x.queue] else if k == CategoryOf(sel, y) then [y.queue] else []
  {
    hide CategoryOf;
    assert [x, y][..1] == [x] && [x][..0] == [];
    assert Matching(sel, [x]) == [x.queue];
    assert forall k :: QueuesOf(sel, [x], k) == if k == CategoryOf(sel, x) then [x.queue] else [];
  }

  function Third(c: Category, c': Category): (k: Category)
    ensures k != c && k != c'
  {
    if c != Disallowed && c' != Disallowed then Disallowed
    else if c != NonAllowed && c' != NonAllowed then NonAllowed
    else Allowed
  }
}
