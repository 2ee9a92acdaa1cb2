// Python's string and list built-ins as far as the plugins use them, and the laws
// the other modules need. Characters are Unicode scalar values; white space is what
// str.split() and the regex class \s accept; digits and case are ASCII.
module Text {

  datatype Option<+T> = None | Some(value: T)

  datatype Result<+T, +E> = Ok(value: T) | Err(error: E)

  // ---------------------------------------------------------------- characters

  predicate IsSpace(c: char) {
    var n := c as int;
    || 9 <= n <= 13 || 28 <= n <= 32 || n == 0x85 || n == 0xA0 || n == 0x1680
    || 0x2000 <= n <= 0x200A || n == 0x2028 || n == 0x2029 || n == 0x202F || n == 0x205F || n == 0x3000
  }

  predicate IsDigit(c: char) {
    '0' <= c <= '9'
  }

  predicate AllDigits(s: string) {
    forall i :: 0 <= i < |s| ==> IsDigit(s[i])
  }

  predicate IsLetter(c: char) {
    'a' <= c <= 'z' || 'A' <= c <= 'Z'
  }

  predicate IsHex(c: char) {
    IsDigit(c) || 'a' <= c <= 'f' || 'A' <= c <= 'F'
  }

  function UpperChar(c: char): (r: char) {
    if 'a' <= c <= 'z' then c - 32 as char else c
  }

  function Upper(s: string): (r: string)
    ensures |r| == |s|
    ensures forall i :: 0 <= i < |s| ==> r[i] == UpperChar(s[i])
  {
    if s == "" then "" else [UpperChar(s[0])] + Upper(s[1..])
  }

  // A small letter becomes the capital at the same place in the alphabet.
  lemma UpperLetter(c: char)
    ensures 'a' <= c <= 'z' ==>
              'A' <= UpperChar(c) <= 'Z' && UpperChar(c) as int - 'A' as int == c as int - 'a' as int
    ensures !('a' <= c <= 'z') ==> UpperChar(c) == c
  {
  }

  predicate NoSpace(s: string) {
    forall i :: 0 <= i < |s| ==> !IsSpace(s[i])
  }

  // A word: what str.split() can return.
  predicate IsWord(s: string) {
    s != "" && NoSpace(s)
  }

  // ------------------------------------------------------- removing, replacing

  function Remove(s: string, c: char): (r: string)
    ensures c !in r
    ensures forall x :: x in r ==> x in s
    ensures c !in s ==> r == s
  {
    if s == "" then "" else (if s[0] == c then "" else [s[0]]) + Remove(s[1..], c)
  }

  // s.replace(c, sub) for a single character c
  function Replace(s: string, c: char, sub: string): (r: string)
    ensures c !in sub ==> c !in r
    ensures c !in s ==> r == s
    ensures forall x :: x in r ==> (x in s && x != c) || x in sub
  {
    if s == "" then "" else (if s[0] == c then sub else [s[0]]) + Replace(s[1..], c, sub)
  }

  lemma {:induction false} RemoveConcat(a: string, b: string, c: char)
    ensures Remove(a + b, c) == Remove(a, c) + Remove(b, c)
  {
    if a == "" {
      assert a + b == b;
    } else {
      assert (a + b)[1..] == a[1..] + b;
      RemoveConcat(a[1..], b, c);
    }
  }

  lemma ReplaceHead(s: string, c: char, sub: string)
    requires s != ""
    ensures Replace(s, c, sub) == (if s[0] == c then sub else [s[0]]) + Replace(s[1..], c, sub)
  {
  }

  lemma {:induction false} ReplaceConcat(a: string, b: string, c: char, sub: string)
    ensures Replace(a + b, c, sub) == Replace(a, c, sub) + Replace(b, c, sub)
  {
    hide Replace;
    if a == "" {
      assert a + b == b;
      ReplaceNothing(c, sub);
    } else {
      ReplaceHead(a, c, sub);
      ReplaceHead(a + b, c, sub);
      assert (a + b)[1..] == a[1..] + b && (a + b)[0] == a[0];
      ReplaceConcat(a[1..], b, c, sub);
    }
  }

  lemma ReplaceNothing(c: char, sub: string)
    ensures Replace("", c, sub) == ""
  {
  }

  function LStrip(s: string, cs: set<char>): (r: string)
    ensures |r| <= |s| && r == s[|s| - |r|..]
    ensures r != "" ==> r[0] !in cs
    ensures forall i :: 0 <= i < |s| - |r| ==> s[i] in cs
  {
    if s == "" || s[0] !in cs then s else LStrip(s[1..], cs)
  }

  function RStrip(s: string, cs: set<char>): (r: string)
    ensures |r| <= |s| && r == s[..|r|]
    ensures r != "" ==> r[|r| - 1] !in cs
    ensures forall i :: |r| <= i < |s| ==> s[i] in cs
  {
    if s == "" || s[|s| - 1] !in cs then s else RStrip(s[..|s| - 1], cs)
  }

  function Strip(s: string, cs: set<char>): (r: string)
    ensures forall x :: x in r ==> x in s
    ensures r != "" ==> r[0] !in cs && r[|r| - 1] !in cs
    ensures s != "" && s[0] !in cs && s[|s| - 1] !in cs ==> r == s
  {
    RStrip(LStrip(s, cs), cs)
  }

  lemma RStripOf(a: string, b: string, cs: set<char>)
    requires a != "" ==> a[|a| - 1] !in cs
    requires forall i :: 0 <= i < |b| ==> b[i] in cs
    ensures RStrip(a + b, cs) == a
  {
    var r := RStrip(a + b, cs);
    assert forall j :: |a| <= j < |a + b| ==> (a + b)[j] in cs;
    assert a != "" ==> (a + b)[|a| - 1] !in cs;
  }

  lemma LStripOf(a: string, b: string, cs: set<char>)
    requires b != "" ==> b[0] !in cs
    requires forall i :: 0 <= i < |a| ==> a[i] in cs
    ensures LStrip(a + b, cs) == b
  {
    var s, r := a + b, LStrip(a + b, cs);
    assert s[|a|..] == b;
    assert forall i :: 0 <= i < |a| ==> s[i] in cs;
    assert b != "" ==> s[|a|] !in cs;
    assert r != "" ==> s[|s| - |r|] == r[0];
  }

  // Quotes around a text go with those at its ends.
  lemma StripPair(s: string, q: char)
    ensures Strip([q] + s + [q], {q}) == Strip(s, {q})
  {
    hide LStrip, RStrip;
    var t := LStrip(s, {q});
    var before := [q] + s[..|s| - |t|];
    if t == "" {
      LStripOf([q] + s + [q], "", {q});
      assert [q] + s + [q] + "" == [q] + s + [q];
    } else {
      var r := RStrip(t, {q});
      LStripOf(before, t + [q], {q});
      assert [q] + s + [q] == before + (t + [q]);
      RStripOf(r, t[|r|..] + [q], {q});
      assert t + [q] == r + (t[|r|..] + [q]);
    }
  }

  // White-space stripping, as in s.lstrip() and s.strip().
  function SkipSpace(s: string): (r: string)
    ensures |r| <= |s| && r == s[|s| - |r|..]
    ensures r != "" ==> !IsSpace(r[0])
    ensures forall i :: 0 <= i < |s| - |r| ==> IsSpace(s[i])
  {
    if s == "" || !IsSpace(s[0]) then s else SkipSpace(s[1..])
  }

  function DropTrailingSpace(s: string): (r: string)
    ensures |r| <= |s| && r == s[..|r|]
    ensures r != "" ==> !IsSpace(r[|r| - 1])
    ensures forall i :: |r| <= i < |s| ==> IsSpace(s[i])
  {
    if s == "" || !IsSpace(s[|s| - 1]) then s else DropTrailingSpace(s[..|s| - 1])
  }

  function Trim(s: string): (r: string)
    ensures forall x :: x in r ==> x in s
    ensures s != "" && !IsSpace(s[0]) && !IsSpace(s[|s| - 1]) ==> r == s
    ensures r != "" ==> !IsSpace(r[0]) && !IsSpace(r[|r| - 1])
  {
    DropTrailingSpace(SkipSpace(s))
  }

  // Only the white space around a text goes.
  lemma TrimPadded(before: string, s: string, after: string)
    requires forall i :: 0 <= i < |before| ==> IsSpace(before[i])
    requires forall i :: 0 <= i < |after| ==> IsSpace(after[i])
    requires s != "" && !IsSpace(s[0]) && !IsSpace(s[|s| - 1])
    ensures Trim(before + s + after) == s
  {
    hide IsSpace, SkipSpace, DropTrailingSpace;
    var all, rest := before + s + after, SkipSpace(before + s + after);
    assert all == before + (s + after);
    assert all[|before|] == s[0] && forall i :: 0 <= i < |before| ==> all[i] == before[i];
    assert rest == s + after by {
      assert rest != "" ==> all[|all| - |rest|] == rest[0];
    }
    var kept := DropTrailingSpace(rest);
    assert rest[|s| - 1] == s[|s| - 1] && forall i :: |s| <= i < |rest| ==> rest[i] == after[i - |s|];
    assert kept != "" ==> kept[|kept| - 1] == rest[|kept| - 1];
  }

  // ------------------------------------------------------------------ searching

  predicate StartsWith(s: string, p: string) {
    |p| <= |s| && s[..|p|] == p
  }

  predicate Contains(s: string, p: string) {
    exists i :: 0 <= i <= |s| && At(s, p, i)
  }

  // p stands in s at index i.
  predicate At(s: string, p: string, i: nat) {
    i + |p| <= |s| && forall j :: i <= j < i + |p| ==> s[j] == p[j - i]
  }

  function IndexOf(s: string, c: char): (i: nat)
    requires c in s
    ensures i < |s| && s[i] == c && c !in s[..i]
  {
    if s[0] == c then 0 else 1 + IndexOf(s[1..], c)
  }

  lemma IndexOfIs(a: string, c: char, b: string)
    requires c !in a
    ensures IndexOf(a + [c] + b, c) == |a|
  {
    var s := a + [c] + b;
    var i := IndexOf(s, c);
    assert s[|a|] == c;
    assert forall j :: 0 <= j < |a| ==> s[j] == a[j] && a[j] in a;
    assert forall j :: 0 <= j < i ==> s[j] in s[..i];
  }

  // ---------------------------------------------------------- splitting, joining

  // s.split(c)
  function Split(s: string, c: char): (parts: seq<string>)
    ensures |parts| >= 1
    ensures forall i :: 0 <= i < |parts| ==> c !in parts[i]
    ensures c !in s ==> parts == [s]
    decreases |s|
  {
    if c !in s then [s] else
    var i := IndexOf(s, c);
    [s[..i]] + Split(s[i + 1..], c)
  }

  // c.join(parts)
  function Join(parts: seq<string>, c: char): string {
    if parts == [] then ""
    else if |parts| == 1 then parts[0]
    else parts[0] + [c] + Join(parts[1..], c)
  }

  lemma SplitCons(a: string, c: char, b: string)
    requires c !in a
    ensures Split(a + [c] + b, c) == [a] + Split(b, c)
  {
    var s := a + [c] + b;
    IndexOfIs(a, c, b);
    assert s[|a|] == c;
    assert s[..|a|] == a && s[|a| + 1..] == b;
  }

  lemma {:induction false} SplitOfJoin(parts: seq<string>, c: char)
    requires parts != []
    requires forall i :: 0 <= i < |parts| ==> c !in parts[i]
    ensures Split(Join(parts, c), c) == parts
  {
    if |parts| > 1 {
      SplitOfJoin(parts[1..], c);
      SplitCons(parts[0], c, Join(parts[1..], c));
    }
  }

  lemma {:induction false} JoinAvoids(parts: seq<string>, sep: char, c: char)
    requires c != sep && forall i :: 0 <= i < |parts| ==> c !in parts[i]
    ensures c !in Join(parts, sep)
  {
    if |parts| > 1 {
      JoinAvoids(parts[1..], sep, c);
    }
  }

  predicate AnyContains(parts: seq<string>, p: string) {
    exists i :: 0 <= i < |parts| && Contains(parts[i], p)
  }

  // A pattern free of c is found in s exactly when it is found in one of the pieces.
  lemma {:induction false} ContainsInPiece(s: string, c: char, p: string)
    requires p != "" && c !in p
    ensures Contains(s, p) <==> AnyContains(Split(s, c), p)
    decreases |s|
  {
    if c !in s {
      assert Split(s, c)[0] == s;
    } else {
      var k := IndexOf(s, c);
      ContainsInPiece(s[k + 1..], c, p);
      ContainsAcross(s[..k], c, s[k + 1..], p);
      assert s == s[..k] + [c] + s[k + 1..];
      AnyContainsCons(s[..k], Split(s[k + 1..], c), p);
    }
  }

  lemma AnyContainsCons(a: string, rest: seq<string>, p: string)
    ensures AnyContains([a] + rest, p) <==> Contains(a, p) || AnyContains(rest, p)
  {
    var parts := [a] + rest;
    assert parts[0] == a;
    if AnyContains(rest, p) {
      var i :| 0 <= i < |rest| && Contains(rest[i], p);
      assert Contains(parts[i + 1], p);
    }
  }

  lemma ContainsAcross(a: string, c: char, b: string, p: string)
    requires p != "" && c !in p
    ensures Contains(a + [c] + b, p) <==> Contains(a, p) || Contains(b, p)
  {
    var s := a + [c] + b;
    if Contains(s, p) {
      var i :| 0 <= i <= |s| && At(s, p, i);
      assert forall j :: i <= j < i + |p| ==> s[j] in p;
      assert s[|a|] == c;
      assert forall j :: 0 <= j < |a| ==> a[j] == s[j];
      assert forall j :: 0 <= j < |b| ==> b[j] == s[j + (|a| + 1)];
      if i < |a| {
        assert At(a, p, i);
      } else {
        assert At(b, p, i - |a| - 1);
      }
    }
    if Contains(a, p) {
      var i :| 0 <= i <= |a| && At(a, p, i);
      assert At(s, p, i);
    }
    if Contains(b, p) {
      var i :| 0 <= i <= |b| && At(b, p, i);
      forall j | |a| + 1 + i <= j < |a| + 1 + i + |p| ensures s[j] == p[j - (|a| + 1 + i)] {
        assert s[j] == b[j - |a| - 1];
      }
      assert At(s, p, |a| + 1 + i);
    }
  }

  // Number of leading non-space characters.
  function WordLength(s: string): (n: nat)
    ensures n <= |s| && NoSpace(s[..n])
    ensures n < |s| ==> IsSpace(s[n])
  {
    if s == "" || IsSpace(s[0]) then 0 else 1 + WordLength(s[1..])
  }

  // s.split()
  function Fields(s: string): seq<string>
    decreases |s|
  {
    if s == "" then []
    else if IsSpace(s[0]) then Fields(s[1..])
    else var n := WordLength(s); [s[..n]] + Fields(s[n..])
  }

  lemma {:induction false} FieldsWords(s: string, i: nat)
    requires i < |Fields(s)|
    ensures IsWord(Fields(s)[i])
    ensures forall x :: x in Fields(s)[i] ==> x in s
    decreases |s|
  {
    if IsSpace(s[0]) {
      FieldsWords(s[1..], i);
    } else if i > 0 {
      FieldsWords(s[WordLength(s)..], i - 1);
    }
  }

  lemma FieldsSkip(c: char, s: string)
    requires IsSpace(c)
    ensures Fields([c] + s) == Fields(s)
  {
  }

  lemma FieldsCons(w: string, rest: string)
    requires IsWord(w)
    requires rest != "" ==> IsSpace(rest[0])
    ensures Fields(w + rest) == [w] + Fields(rest)
  {
    var s := w + rest;
    assert s[0] == w[0];
    var n := WordLength(s);
    assert forall j :: 0 <= j < |w| ==> s[j] == w[j];
    assert rest != "" ==> s[|w|] == rest[0];
    assert forall j :: 0 <= j < n ==> s[j] == s[..n][j];
    assert s[..n] == w && s[n..] == rest;
  }

  lemma FieldsOfWord(w: string)
    requires IsWord(w)
    ensures Fields(w) == [w]
  {
    FieldsCons(w, "");
    assert w + "" == w;
  }

  // A word, one space, and the rest of the line.
  lemma FieldsStep(w: string, rest: string)
    requires IsWord(w)
    ensures Fields(w + ([' '] + rest)) == [w] + Fields(rest)
  {
    FieldsCons(w, [' '] + rest);
    FieldsSkip(' ', rest);
  }

  lemma {:induction false} FieldsConcat(a: string, c: char, b: string)
    requires IsSpace(c)
    ensures Fields(a + [c] + b) == Fields(a) + Fields(b)
    decreases |a|
  {
    hide IsSpace, WordLength;
    var s := a + [c] + b;
    if a == "" {
      FieldsSkip(c, b);
      assert s == [c] + b;
    } else if IsSpace(a[0]) {
      FieldsConcat(a[1..], c, b);
      assert s[1..] == a[1..] + [c] + b;
    } else {
      var n := WordLength(a);
      FieldsConcat(a[n..], c, b);
      FieldsCons(a[..n], a[n..]);
      FieldsCons(a[..n], a[n..] + [c] + b);
      hide Fields;
      assert a == a[..n] + a[n..] && s == a[..n] + (a[n..] + [c] + b);
    }
  }

  // Without words there is nothing but white space.
  lemma {:induction false} NoFields(line: string)
    requires Fields(line) == []
    ensures forall i :: 0 <= i < |line| ==> IsSpace(line[i])
  {
    if line != "" {
      NoFields(line[1..]);
      assert line == [line[0]] + line[1..];
    }
  }

  lemma {:induction false} FieldsOfJoin(words: seq<string>)
    requires forall i :: 0 <= i < |words| ==> IsWord(words[i])
    ensures Fields(Join(words, ' ')) == words
  {
    if |words| == 1 {
      FieldsOfWord(words[0]);
    } else if |words| > 1 {
      var tail := Join(words[1..], ' ');
      FieldsOfJoin(words[1..]);
      FieldsStep(words[0], tail);
      assert words[0] + [' '] + tail == words[0] + ([' '] + tail);
    }
  }

  // ------------------------------------------------------------------- ordering

  // Python's "a <= b" on strings: lexicographic by code point.
  predicate Leq(a: string, b: string) {
    a == "" || (b != "" && (a[0] < b[0] || (a[0] == b[0] && Leq(a[1..], b[1..]))))
  }

  // The first place where the texts differ, with the smaller character in a
  predicate SmallerAt(a: string, b: string, k: int) {
    0 <= k < |a| && k < |b| && a[k] < b[k] && forall j :: 0 <= j < k ==> a[j] == b[j]
  }

  // A text comes before those it begins, and before those with a larger character at the
  // first place where they differ.
  lemma {:induction false} LeqIs(a: string, b: string)
    ensures Leq(a, b) <==> a <= b || exists k :: SmallerAt(a, b, k)
  {
    if a != "" && b != "" && a[0] == b[0] {
      var a', b' := a[1..], b[1..];
      LeqIs(a', b');
      assert a == [a[0]] + a' && b == [b[0]] + b';
      if k :| SmallerAt(a, b, k) {
        assert SmallerAt(a', b', k - 1);
      }
      if k :| SmallerAt(a', b', k) {
        assert SmallerAt(a, b, k + 1);
      }
    } else if a != "" && b != "" && a[0] < b[0] {
      assert SmallerAt(a, b, 0);
    }
  }

  predicate Less(a: string, b: string) {
    Leq(a, b) && a != b
  }

  lemma {:induction false} LeqReflexive(a: string)
    ensures Leq(a, a)
  {
    if a != "" {
      LeqReflexive(a[1..]);
    }
  }

  lemma LeqTotal(a: string, b: string)
    ensures Leq(a, b) || Leq(b, a)
  {
  }

  lemma {:induction false} LeqAntisymmetric(a: string, b: string)
    requires Leq(a, b) && Leq(b, a)
    ensures a == b
  {
    if a != "" && b != "" {
      LeqAntisymmetric(a[1..], b[1..]);
      assert a == [a[0]] + a[1..] && b == [b[0]] + b[1..];
    }
  }

  lemma {:induction false} LeqTransitive(a: string, b: string, c: string)
    requires Leq(a, b) && Leq(b, c)
    ensures Leq(a, c)
  {
    if a != "" && b != "" && c != "" && a[0] == b[0] == c[0] {
      LeqTransitive(a[1..], b[1..], c[1..]);
    }
  }

  predicate Sorted(xs: seq<string>) {
    forall i, j :: 0 <= i < j < |xs| ==> Leq(xs[i], xs[j])
  }

  predicate NoDups<T(==)>(xs: seq<T>) {
    forall i, j :: 0 <= i < j < |xs| ==> xs[i] != xs[j]
  }

  function Insert(x: string, xs: seq<string>): seq<string> {
    if xs == [] then [x]
    else if Leq(x, xs[0]) then [x] + xs
    else [xs[0]] + Insert(x, xs[1..])
  }

  // list.sort()
  function Sort(xs: seq<string>): seq<string> {
    if xs == [] then [] else Insert(xs[0], Sort(xs[1..]))
  }

  lemma {:induction false} InsertLaws(x: string, xs: seq<string>)
    requires Sorted(xs)
    ensures Sorted(Insert(x, xs))
    ensures multiset(Insert(x, xs)) == multiset(xs) + multiset{x}
  {
    hide Leq;
    if xs == [] {
    } else if Leq(x, xs[0]) {
      forall j | 0 <= j < |xs| ensures Leq(x, xs[j]) {
        if j > 0 { LeqTransitive(x, xs[0], xs[j]); }
      }
    } else {
      var tail := Insert(x, xs[1..]);
      InsertLaws(x, xs[1..]);
      LeqTotal(x, xs[0]);
      assert xs == [xs[0]] + xs[1..];
      forall j | 0 <= j < |tail| ensures Leq(xs[0], tail[j]) {
        assert tail[j] in multiset(tail);
        assert tail[j] in xs[1..] || tail[j] == x;
      }
    }
  }

  lemma {:induction false} SortLaws(xs: seq<string>)
    ensures Sorted(Sort(xs))
    ensures multiset(Sort(xs)) == multiset(xs)
  {
    if xs != [] {
      hide Leq;
      SortLaws(xs[1..]);
      InsertLaws(xs[0], Sort(xs[1..]));
      assert xs == [xs[0]] + xs[1..];
    }
  }

  lemma SameElements<T>(xs: seq<T>, ys: seq<T>)
    requires multiset(xs) == multiset(ys)
    ensures |xs| == |ys|
    ensures forall x :: x in xs <==> x in ys
  {
    assert |multiset(xs)| == |xs| && |multiset(ys)| == |ys|;
    assert forall x :: x in xs <==> x in multiset(xs);
    assert forall x :: x in ys <==> x in multiset(ys);
  }

  lemma NoDupsByMultiset<T>(xs: seq<T>, ys: seq<T>)
    requires NoDups(xs) && multiset(xs) == multiset(ys)
    ensures NoDups(ys)
  {
    forall i, j | 0 <= i < j < |ys| ensures ys[i] != ys[j] {
      if ys[i] == ys[j] {
        var x := ys[i];
        assert ys == ys[..i] + [x] + ys[i + 1..j] + [x] + ys[j + 1..];
        assert multiset(ys)[x] >= 2;
        CountOne(xs, x);
        assert false;
      }
    }
  }

  lemma {:induction false} CountOne<T>(xs: seq<T>, x: T)
    requires NoDups(xs)
    ensures multiset(xs)[x] <= 1
  {
    if xs != [] {
      var front, last := xs[..|xs| - 1], xs[|xs| - 1];
      assert xs == front + [last];
      CountOne(front, x);
      if last == x {
        assert x !in front;
        assert x !in multiset(front);
      }
    }
  }

  // max(a, b)
  function Max(a: int, b: int): int {
    if a >= b then a else b
  }

  // ------------------------------------------------------------ decimal numerals

  // str(n) for a natural number
  function Decimal(n: nat): (s: string)
    ensures s != ""
    ensures forall i :: 0 <= i < |s| ==> IsDigit(s[i])
  {
    if n < 10 then [DigitChar(n)] else Decimal(n / 10) + [DigitChar(n % 10)]
  }

  function DigitChar(d: nat): (c: char)
    requires d < 10
    ensures IsDigit(c)
  {
    '0' + d as char
  }

  // str(n) for an integer
  function IntText(n: int): (s: string)
    ensures s != "" && NoSpace(s)
    ensures forall x :: x in s ==> IsDigit(x) || x == '-'
  {
    if n < 0 then "-" + Decimal(-n) else Decimal(n)
  }

  lemma {:induction false} DecimalInjective(m: nat, n: nat)
    requires Decimal(m) == Decimal(n)
    ensures m == n
  {
    var a, b := Decimal(m), Decimal(n);
    assert a[|a| - 1] == DigitChar(m % 10) && b[|b| - 1] == DigitChar(n % 10);
    if m >= 10 && n >= 10 {
      assert a[..|a| - 1] == Decimal(m / 10) && b[..|b| - 1] == Decimal(n / 10);
      DecimalInjective(m / 10, n / 10);
    }
  }

  // The number written in digits
  function NumberOf(s: string): nat
    requires AllDigits(s)
  {
    if s == "" then 0 else 10 * NumberOf(s[..|s| - 1]) + (s[|s| - 1] as int - '0' as int)
  }

  // Reading the digits back gives the number, and there is no leading zero.
  lemma {:induction false} DecimalReads(n: nat)
    ensures AllDigits(Decimal(n)) && NumberOf(Decimal(n)) == n
    ensures Decimal(n)[0] == '0' ==> n == 0
  {
    var s := Decimal(n);
    if n >= 10 {
      DecimalReads(n / 10);
      assert s[..|s| - 1] == Decimal(n / 10) && s[0] == Decimal(n / 10)[0];
    } else {
      assert s[..0] == "" && NumberOf("") == 0;
    }
  }

  // A number is known from its text.
  lemma IntTextInjective(m: int, n: int)
    requires IntText(m) == IntText(n)
    ensures m == n
  {
    assert IntText(m)[0] == '-' <==> m < 0;
    assert IntText(n)[0] == '-' <==> n < 0;
    if m < 0 && n < 0 {
      assert IntText(m)[1..] == Decimal(-m) && IntText(n)[1..] == Decimal(-n);
      DecimalInjective(-m, -n);
    } else if m >= 0 && n >= 0 {
      DecimalInjective(m, n);
    }
  }
}
