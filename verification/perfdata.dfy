// The perfdata half of adapter_csv.py: which items of a plugin's perfdata become a
// column, with which header and value.
module Perfdata {
  import opened Text

  datatype Column = Column(header: string, value: string)

  // -------------------------------------------------------- the numeral pattern

  function DigitRun(s: string): (n: nat)
    ensures n <= |s| && AllDigits(s[..n])
    ensures n < |s| ==> !IsDigit(s[n])
  {
    if s == "" || !IsDigit(s[0]) then 0 else 1 + DigitRun(s[1..])
  }

  function FirstDigit(s: string): (i: Option<nat>)
    ensures i.Some? ==> i.value < |s| && IsDigit(s[i.value]) && forall k :: 0 <= k < i.value ==> !IsDigit(s[k])
    ensures i.None? ==> forall k :: 0 <= k < |s| ==> !IsDigit(s[k])
  {
    if s == "" then None
    else if IsDigit(s[0]) then Some(0)
    else match FirstDigit(s[1..]) { case None => None case Some(i) => Some(i + 1) }
  }

  // Length of what (\d+(?:\.\d+)?) takes from a text that starts with a digit
  function NumeralLength(s: string): (n: nat)
    requires s != "" && IsDigit(s[0])
    ensures 1 <= n <= |s|
  {
    var n := DigitRun(s);
    if n + 1 < |s| && s[n] == '.' && IsDigit(s[n + 1]) then n + 1 + DigitRun(s[n + 1..]) else n
  }

  // What ([A-Za-z]{1,2}|%)? takes next
  function Units(s: string): (u: string)
    ensures u <= s
    ensures IsUnits(u)
  {
    if s != "" && IsLetter(s[0]) then (if |s| > 1 && IsLetter(s[1]) then s[..2] else s[..1])
    else if s != "" && s[0] == '%' then s[..1]
    else ""
  }

  predicate IsUnits(u: string) {
    || u == "" || u == "%"
    || (|u| == 1 && IsLetter(u[0]))
    || (|u| == 2 && IsLetter(u[0]) && IsLetter(u[1]))
  }

  // The language of \d+(?:\.\d+)?
  predicate IsNumeral(s: string) {
    exists n :: 1 <= n <= |s| && NumeralAt(s, n)
  }

  predicate NumeralAt(s: string, n: nat)
    requires n <= |s|
  {
    AllDigits(s[..n]) && (n == |s| || (s[n] == '.' && n + 1 < |s| && AllDigits(s[n + 1..])))
  }

  // ------------------------------------------------------------- one item

  function HeaderText(key: string, units: string): string {
    var header := if units != "" then key + " (" + units + ")" else key;
    Upper(Replace(Strip(Strip(header, {'"'}), {'\''}), ',', "_"))
  }

  function ColumnOf(item: string): Option<Column> {
    if '=' !in item then None else
    var i := IndexOf(item, '=');
    DataColumn(item[..i], Split(item[i + 1..], ';')[0])
  }

  function DataColumn(key: string, data: string): Option<Column> {
    match FirstDigit(data)
    case None => None
    case Some(k) =>
      var n := NumeralLength(data[k..]);
      Some(Column(HeaderText(key, Units(data[k + n..])), data[k..k + n]))
  }

  function Columns(items: seq<string>): (columns: seq<Column>)
    ensures |columns| <= |items|
  {
    if items == [] then [] else
    Columns(items[..|items| - 1]) +
    match ColumnOf(items[|items| - 1]) { case None => [] case Some(column) => [column] }
  }

  function Headers(columns: seq<Column>): (r: seq<string>)
    ensures |r| == |columns|
    ensures forall i :: 0 <= i < |columns| ==> r[i] == columns[i].header
  {
    if columns == [] then [] else Headers(columns[..|columns| - 1]) + [columns[|columns| - 1].header]
  }

  function Values(columns: seq<Column>): (r: seq<string>)
    ensures |r| == |columns|
    ensures forall i :: 0 <= i < |columns| ==> r[i] == columns[i].value
  {
    if columns == [] then [] else Values(columns[..|columns| - 1]) + [columns[|columns| - 1].value]
  }

  // ------------------------------------------------------------------- laws

  lemma {:induction false} DigitRunIs(s: string, n: nat)
    requires n <= |s| && AllDigits(s[..n]) && (n < |s| ==> !IsDigit(s[n]))
    ensures DigitRun(s) == n
  {
  }

  // A numeral followed by neither a digit nor a point is taken whole.
  lemma NumeralTaken(v: string, rest: string)
    requires IsNumeral(v)
    requires rest != "" ==> !IsDigit(rest[0]) && rest[0] != '.'
    ensures IsDigit(v[0])
    ensures NumeralLength(v + rest) == |v|
  {
    var s := v + rest;
    var n :| 1 <= n <= |v| && NumeralAt(v, n);
    assert s[..n] == v[..n] && IsDigit(v[..n][0]);
    DigitRunIs(s, n);
    if n < |v| {
      assert s[n + 1..] == v[n + 1..] + rest;
      assert IsDigit(v[n + 1..][0]);
      DigitRunIs(s[n + 1..], |v| - n - 1);
    }
  }

  // An item becomes a column exactly when there is a digit after its first equals sign
  // and before the next semicolon.
  lemma ColumnExists(item: string)
    ensures ColumnOf(item).Some? <==>
            exists e, k :: 0 <= e < k < |item| && DigitAfterEquals(item, e, k)
  {
    hide NumeralLength, Units, HeaderText;
    if '=' in item {
      var e := IndexOf(item, '=');
      var rest := item[e + 1..];
      var data := Split(rest, ';')[0];
      SplitHead(rest, ';');
      forall k | e < k < |item| ensures DigitAfterEquals(item, e, k) <==>
          k - e - 1 < |data| && IsDigit(data[k - e - 1]) {
        assert item[k] == rest[k - e - 1];
        assert item[e + 1..k] == rest[..k - e - 1];
        if ';' in rest && k - e - 1 >= |data| {
          assert k - e - 1 > |data| ==> rest[..k - e - 1][|data|] == ';';
        }
      }
      forall f, k | 0 <= f < k < |item| && DigitAfterEquals(item, f, k) ensures f == e {
        FirstEquals(item, e, f);
      }
      if FirstDigit(data).Some? {
        var k := FirstDigit(data).value;
        assert DigitAfterEquals(item, e, e + 1 + k);
      }
    }
  }

  predicate DigitAfterEquals(item: string, e: nat, k: nat)
    requires e < k < |item|
  {
    item[e] == '=' && '=' !in item[..e] && IsDigit(item[k]) && ';' !in item[e + 1..k]
  }

  lemma FirstEquals(item: string, e: nat, f: nat)
    requires e < |item| && f < |item| && item[e] == item[f] == '='
    requires '=' !in item[..e] && '=' !in item[..f]
    ensures e == f
  {
  }

  lemma SplitHead(s: string, c: char)
    ensures Split(s, c)[0] == if c in s then s[..IndexOf(s, c)] else s
  {
  }

  // The value of a column is the leftmost longest numeral of its data.
  lemma NumeralLeftmostLongest(data: string, k: nat)
    requires FirstDigit(data) == Some(k)
    ensures var n := NumeralLength(data[k..]);
            && IsNumeral(data[k..][..n])
            && forall m :: n < m <= |data| - k ==> !IsNumeral(data[k..][..m])
  {
    hide NumeralLength, IsNumeral;
    TakenIsNumeral(data[k..]);
    forall m | NumeralLength(data[k..]) < m <= |data| - k ensures !IsNumeral(data[k..][..m]) {
      if IsNumeral(data[k..][..m]) {
        LongerNumeral(data[k..], m);
      }
    }
  }

  lemma TakenIsNumeral(s: string)
    requires s != "" && IsDigit(s[0])
    ensures IsNumeral(s[..NumeralLength(s)])
  {
    var d, n := DigitRun(s), NumeralLength(s);
    assert s[..n][..d] == s[..d];
    if d < n {
      assert s[..n][d + 1..] == s[d + 1..][..n - d - 1];
    }
    assert NumeralAt(s[..n], d);
  }

  lemma LongerNumeral(s: string, m: nat)
    requires s != "" && IsDigit(s[0]) && m <= |s| && IsNumeral(s[..m])
    ensures m <= NumeralLength(s)
  {
    var d := DigitRun(s);
    var e :| 1 <= e <= m && NumeralAt(s[..m], e);
    assert forall i :: 0 <= i < e ==> s[i] == s[..m][..e][i];
    assert e <= d;
    if e < m {
      assert s[e] == s[..m][e] == '.';
      assert forall i :: 0 <= i < d ==> s[i] == s[..d][i];
      assert e == d;
      var tail := s[..m][e + 1..];
      assert forall i :: 0 <= i < |tail| ==> s[e + 1..][i] == tail[i] && IsDigit(tail[i]);
      assert s[e + 1] == tail[0];
    }
  }

  lemma ColumnChars(item: string)
    requires IsWord(item) && ColumnOf(item).Some?
    ensures var c := ColumnOf(item).value;
            && c.value != "" && (forall x :: x in c.value ==> IsDigit(x) || x == '.') && IsDigit(c.value[|c.value| - 1])
            && '=' !in c.header && ',' !in c.header && '\n' !in c.header && '\r' !in c.header
            && ('|' !in item ==> '|' !in c.header)
  {
    hide HeaderText, DataColumn, Split;
    var i := IndexOf(item, '=');
    var data := Split(item[i + 1..], ';')[0];
    DataColumnChars(item[..i], data);
    HeaderClean(item, i, Units(data[FirstDigit(data).value + NumeralLength(data[FirstDigit(data).value..])..]));
  }

  lemma DataColumnChars(key: string, data: string)
    requires DataColumn(key, data).Some?
    ensures FirstDigit(data).Some?
    ensures var c, k := DataColumn(key, data).value, FirstDigit(data).value;
            && c.value != "" && (forall x :: x in c.value ==> IsDigit(x) || x == '.') && IsDigit(c.value[|c.value| - 1])
            && k + NumeralLength(data[k..]) <= |data|
            && c.header == HeaderText(key, Units(data[k + NumeralLength(data[k..])..]))
  {
    hide HeaderText, NumeralLength, Units;
    var k := FirstDigit(data).value;
    var n := NumeralLength(data[k..]);
    NumeralChars(data[k..]);
    assert data[k..k + n] == data[k..][..n];
  }

  lemma HeaderClean(item: string, i: nat, u: string)
    requires IsWord(item) && i <= |item| && '=' !in item[..i] && IsUnits(u)
    ensures var h := HeaderText(item[..i], u);
            ',' !in h && '=' !in h && '\n' !in h && '\r' !in h && ('|' !in item ==> '|' !in h)
  {
    hide HeaderText;
    WordHasNoNewline(item);
    HeaderNoComma(item[..i], u);
    HeaderAvoids(item[..i], u, '=');
    HeaderAvoids(item[..i], u, '\n');
    HeaderAvoids(item[..i], u, '\r');
    if '|' !in item {
      HeaderAvoids(item[..i], u, '|');
    }
  }

  // The unit is the longest one that stands there.
  lemma UnitsGreedy(s: string, n: nat)
    requires n <= |s| && IsUnits(s[..n])
    ensures n <= |Units(s)|
  {
    if n > 0 {
      assert s[..n][0] == s[0];
      assert n > 1 ==> s[..n][1] == s[1];
    }
  }

  lemma WordHasNoNewline(s: string)
    requires NoSpace(s)
    ensures '\n' !in s && '\r' !in s && ' ' !in s
  {
  }

  lemma NumeralChars(s: string)
    requires s != "" && IsDigit(s[0])
    ensures var v := s[..NumeralLength(s)];
            (forall x :: x in v ==> IsDigit(x) || x == '.') && IsDigit(v[|v| - 1])
  {
    var n, d := NumeralLength(s), DigitRun(s);
    assert forall i :: 0 <= i < d ==> s[i] == s[..d][i];
    if n > d {
      var e := n - d - 1;
      forall i | d + 1 <= i < n ensures IsDigit(s[i]) {
        assert s[i] == s[d + 1..][..e][i - d - 1];
      }
    }
  }

  lemma UpperAvoids(s: string, c: char)
    requires c !in s && !('A' <= c <= 'Z')
    ensures c !in Upper(s)
  {
  }

  lemma HeaderAvoids(key: string, units: string, c: char)
    requires c !in key && c !in units && c !in " ()_" && !('A' <= c <= 'Z')
    ensures c !in HeaderText(key, units)
  {
    hide Strip, Replace;
    var header := if units != "" then key + " (" + units + ")" else key;
    assert c !in " (" && c !in ")" && c !in "_" by {
      assert " ()_"[0] == ' ' && " ()_"[1] == '(' && " ()_"[2] == ')' && " ()_"[3] == '_';
    }
    assert c !in header;
    UpperAvoids(Replace(Strip(Strip(header, {'"'}), {'\''}), ',', "_"), c);
  }

  lemma HeaderNoComma(key: string, units: string)
    ensures ',' !in HeaderText(key, units)
  {
    hide Strip;
    var header := if units != "" then key + " (" + units + ")" else key;
    UpperAvoids(Replace(Strip(Strip(header, {'"'}), {'\''}), ',', "_"), ',');
  }
}
