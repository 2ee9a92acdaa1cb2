// Sums over finite sets, for the counters kept in dictionaries.
module Sums {

  ghost function Sum(ks: set<string>, f: string -> int): int {
    if ks == {} then 0 else
    var k :| k in ks;
    f(k) + Sum(ks - {k}, f)
  }

  // Any key may be taken out first.
  lemma {:induction false} SumTake(ks: set<string>, f: string -> int, k: string)
    requires k in ks
    ensures Sum(ks, f) == f(k) + Sum(ks - {k}, f)
  {
    var y :| y in ks && Sum(ks, f) == f(y) + Sum(ks - {y}, f);
    if y != k {
      SumTake(ks - {y}, f, k);
      SumTake(ks - {k}, f, y);
      assert ks - {y} - {k} == ks - {k} - {y};
    }
  }

  lemma {:induction false} SumAgree(ks: set<string>, f: string -> int, g: string -> int)
    requires forall k :: k in ks ==> f(k) == g(k)
    ensures Sum(ks, f) == Sum(ks, g)
  {
    if ks != {} {
      var k :| k in ks;
      SumTake(ks, f, k);
      SumTake(ks, g, k);
      SumAgree(ks - {k}, f, g);
    }
  }

  // Changing the summand of one key changes the sum by as much.
  lemma SumChange(ks: set<string>, f: string -> int, g: string -> int, k: string)
    requires k in ks
    requires forall x :: x in ks && x != k ==> f(x) == g(x)
    ensures Sum(ks, g) == Sum(ks, f) + g(k) - f(k)
  {
    hide Sum;
    SumTake(ks, f, k);
    SumTake(ks, g, k);
    SumAgree(ks - {k}, f, g);
  }

  lemma {:induction false} SumZero(ks: set<string>, f: string -> int)
    requires forall k :: k in ks ==> f(k) == 0
    ensures Sum(ks, f) == 0
  {
    if ks != {} {
      var k :| k in ks;
      SumTake(ks, f, k);
      SumZero(ks - {k}, f);
    }
  }

  // A new key adds its own summand.
  lemma SumMore(ks: set<string>, f: string -> int, k: string)
    requires k !in ks
    ensures Sum(ks + {k}, f) == Sum(ks, f) + f(k)
  {
    hide Sum;
    SumTake(ks + {k}, f, k);
    assert ks + {k} - {k} == ks;
  }

  // The value of a key in a dictionary of counters, 0 when it is missing
  function Counter(m: map<string, int>): string -> int {
    k => if k in m then m[k] else 0
  }

  // The sum of all counters after one of them is raised by one
  lemma SumIncrement(m: map<string, int>, k: string)
    ensures var m' := m[k := Counter(m)(k) + 1];
            Sum(m'.Keys, Counter(m')) == Sum(m.Keys, Counter(m)) + 1
  {
    hide Sum;
    var m' := m[k := Counter(m)(k) + 1];
    if k in m {
      assert m'.Keys == m.Keys;
      SumChange(m.Keys, Counter(m), Counter(m'), k);
    } else {
      assert m'.Keys == m.Keys + {k};
      SumMore(m.Keys, Counter(m'), k);
      SumAgree(m.Keys, Counter(m), Counter(m'));
    }
  }
}
