// Perfdata as monitoring plugins write it, and what adapter_csv.py exports of it: from the
// written text, through the cleaning of the message, to the columns.
module PerfdataFormat {
  import opened Text
  import opened Perfdata
  import opened AdapterCsv

  // ------------------------------------------------------------ the written format

  // 'label'=value[units][;thresholds], the quotes being optional. The label is its last
  // word, and what stands before it up to a space or a comma.
  datatype Metric = Metric(quote: string, before: string, last: string, sign: string, value: string,
                           units: string, tail: string)

  function Label(m: Metric): string {
    m.before + m.last
  }

  function DataText(m: Metric): string {
    m.sign + (m.value + m.units + m.tail)
  }

  function MetricText(m: Metric): string {
    m.quote + Label(m) + m.quote + ['='] + DataText(m)
  }

  predicate WellFormed(m: Metric) {
    && (m.quote == "" || m.quote == "'" || m.quote == "\"")
    && BeforeWord(m.before) && LabelWord(m.last)
    && (m.sign == "" || m.sign == "-" || m.sign == "+") && IsNumeral(m.value) && IsUnits(m.units)
    && NoSpace(m.tail) && ',' !in m.tail && (m.tail != "" ==> m.tail[0] == ';')
  }

  predicate BeforeWord(s: string) {
    '=' !in s && '\n' !in s && '\r' !in s && (s != "" ==> IsSpace(s[|s| - 1]) || s[|s| - 1] == ',')
  }

  predicate LabelWord(w: string) {
    IsWord(w) && '=' !in w && ',' !in w && w[0] !in {'"', '\''} && w[|w| - 1] !in {'"', '\''}
  }

  function UnitText(units: string): string {
    if units == "" then "" else " (" + units + ")"
  }

  // The header that is read: the last word of the label, with the unit. A closing quote
  // stays when there is a unit, because the unit is appended before quotes are stripped.
  function MetricHeader(m: Metric): string {
    Upper(m.last + (if m.units == "" then "" else m.quote) + UnitText(m.units))
  }

  // The header the label asks for
  function LabelHeader(m: Metric): string {
    Upper(Label(m) + UnitText(m.units))
  }

  function MetricColumn(m: Metric): Column {
    Column(MetricHeader(m), m.value)
  }

  function MetricTexts(ms: seq<Metric>): (r: seq<string>)
    ensures |r| == |ms|
    ensures forall i :: 0 <= i < |ms| ==> r[i] == MetricText(ms[i])
  {
    if ms == [] then [] else [MetricText(ms[0])] + MetricTexts(ms[1..])
  }

  function MetricColumns(ms: seq<Metric>): seq<Column> {
    if ms == [] then [] else [MetricColumn(ms[0])] + MetricColumns(ms[1..])
  }

  // What is exported for a plugin's message with this perfdata after it
  function Exported(head: string, perf: string, newlines: string): seq<Column> {
    ColumnsIn(Clean(head + ['|'] + perf + newlines))
  }

  predicate IsHead(head: string, newlines: string) {
    '|' !in head && !StartsWith(head, "Hari Sekhon") && forall i :: 0 <= i < |newlines| ==> newlines[i] == '\n'
  }

  // ------------------------------------------------------- cleaning the perfdata

  // The message of a cleaned text with its lines joined
  function OneLined(head: string): string {
    Ellipsis(Replace(Remove(head, '\r'), '\n', " \\n "), false)
  }

  lemma PerfdataFollows(head: string, perf: string, newlines: string)
    requires IsHead(head, newlines) && '\r' !in perf && '\n' !in perf
    ensures Clean(head + ['|'] + perf + newlines) == OneLined(head) + ['|'] + Ellipsis(perf, false)
    ensures '|' !in OneLined(head)
  {
    hide StartsWith, Ellipsis, Clean, Remove, Replace;
    StartOfLine(head, '|', perf + newlines);
    assert head + ['|'] + (perf + newlines) == head + ['|'] + perf + newlines;
    assert perf != "" ==> perf[|perf| - 1] in perf;
    CleanIs(head + ['|'] + perf, newlines);
    OneLine(head, perf);
    CleanAtBar(Replace(Remove(head, '\r'), '\n', " \\n "), perf);
    assert '|' !in " \\n ";
  }

  // Whatever the message is, cleaning it cleans its perfdata.
  lemma PerfdataCleaned(head: string, perf: string, newlines: string)
    requires IsHead(head, newlines) && '\r' !in perf && '\n' !in perf
    ensures Exported(head, perf, newlines) == Columns(Fields(Ellipsis(perf, false)))
  {
    hide StartsWith, Ellipsis, Clean, OneLined, Columns, Fields, IndexOf;
    PerfdataFollows(head, perf, newlines);
    IndexOfIs(OneLined(head), '|', Ellipsis(perf, false));
    var m := OneLined(head) + ['|'] + Ellipsis(perf, false);
    assert m[|OneLined(head)|] == '|' && m[|OneLined(head)| + 1..] == Ellipsis(perf, false);
  }

  // The message field is the cleaned text before the bar, without white space at its ends.
  lemma MessageExported(head: string, perf: string, newlines: string)
    requires IsHead(head, newlines) && '\r' !in perf && '\n' !in perf
    ensures MessagePart(Clean(head + ['|'] + perf + newlines)) == Trim(OneLined(head))
    ensures (head != "" ==> head[|head| - 1] != '\n') ==>
              MessagePart(Clean(head + ['|'] + perf + newlines)) == Trim(Clean(head))
  {
    hide StartsWith, Ellipsis, Clean, Remove, Replace, IndexOf, Trim;
    PerfdataFollows(head, perf, newlines);
    var m := OneLined(head) + ['|'] + Ellipsis(perf, false);
    IndexOfIs(OneLined(head), '|', Ellipsis(perf, false));
    assert m[|OneLined(head)|] == '|' && m[..|OneLined(head)|] == OneLined(head);
    if head != "" ==> head[|head| - 1] != '\n' {
      assert head + "" == head;
      CleanIs(head, "");
    }
  }

  // A plain message between white space is exported as it is.
  lemma PlainMessage(before: string, message: string, after: string, perf: string, newlines: string)
    requires IsHead(before + message + after, newlines) && '\r' !in perf && '\n' !in perf
    requires PlainField(before + message + after)
    requires forall i :: 0 <= i < |before| ==> IsSpace(before[i])
    requires forall i :: 0 <= i < |after| ==> IsSpace(after[i])
    requires message != "" && !IsSpace(message[0]) && !IsSpace(message[|message| - 1])
    ensures MessagePart(Clean(before + message + after + ['|'] + perf + newlines)) == message
  {
    hide StartsWith, Clean, Trim, Ellipsis, IsSpace;
    var head := before + message + after;
    MessageExported(head, perf, newlines);
    assert head != "" ==> head[|head| - 1] in head;
    CleanKeeps(head);
    TrimPadded(before, message, after);
  }

  lemma OneLine(head: string, perf: string)
    requires '\r' !in perf && '\n' !in perf
    ensures Replace(Remove(head + ['|'] + perf, '\r'), '\n', " \\n ")
         == Replace(Remove(head, '\r'), '\n', " \\n ") + (['|'] + perf)
  {
    hide Replace, Remove;
    assert head + ['|'] + perf == head + (['|'] + perf);
    RemoveConcat(head, ['|'] + perf, '\r');
    assert Remove(['|'] + perf, '\r') == ['|'] + perf;
    ReplaceConcat(Remove(head, '\r'), ['|'] + perf, '\n', " \\n ");
  }

  lemma CleanAtBar(before: string, perf: string)
    ensures Ellipsis(before + (['|'] + perf), false) == Ellipsis(before, false) + ['|'] + Ellipsis(perf, false)
  {
    hide Ellipsis, Swallows;
    EllipsisConcat(before, ['|'] + perf);
    EllipsisStep('|', perf, Swallows(before));
    assert !IsSpace('|');
    assert Ellipsis(before, false) + (['|'] + Ellipsis(perf, false))
        == Ellipsis(before, false) + ['|'] + Ellipsis(perf, false);
  }

  // What stands before the last word of a label still ends in white space.
  lemma BeforeCleaned(s: string)
    requires BeforeWord(s) && s != ""
    ensures var e := Ellipsis(s, false); e != "" && IsSpace(e[|e| - 1]) && '=' !in e
  {
    var front, c := s[..|s| - 1], s[|s| - 1];
    assert s == front + [c];
    EllipsisConcat(front, [c]);
    var e := Ellipsis(s, false);
    if c == ',' {
      assert Ellipsis([c], Swallows(front)) == "... " by { EllipsisComma(Swallows(front)); }
    } else if !Swallows(front) {
      EllipsisStep(c, "", false);
      NothingToClean();
      assert [c] + "" == [c];
    } else {
      EllipsisStep(c, "", true);
      assert [c] + "" == [c];
      SwallowedEnd(front);
    }
  }

  lemma EllipsisComma(swallow: bool)
    ensures Ellipsis([','], swallow) == "... "
  {
    assert !IsSpace(',');
    assert [','][1..] == "";
    assert Ellipsis("", true) == "";
    assert "... " + "" == "... ";
  }

  // A text that swallows ends, cleaned, in the space of its ellipsis.
  lemma {:induction false} SwallowedEnd(s: string)
    requires Swallows(s)
    ensures var e := Ellipsis(s, false); e != "" && e[|e| - 1] == ' '
    ensures Ellipsis("", true) == ""
  {
    var front, c := s[..|s| - 1], s[|s| - 1];
    assert s == front + [c];
    EllipsisConcat(front, [c]);
    if c == ',' {
      EllipsisComma(Swallows(front));
    } else {
      EllipsisStep(c, "", true);
      assert [c] + "" == [c];
      SwallowedEnd(front);
    }
  }

  // ------------------------------------------------------ reading one metric

  lemma {:induction false} ColumnsConcat(xs: seq<string>, ys: seq<string>)
    ensures Columns(xs + ys) == Columns(xs) + Columns(ys)
  {
    hide ColumnOf;
    if ys == [] {
      assert xs + ys == xs;
    } else {
      ColumnsConcat(xs, ys[..|ys| - 1]);
      assert (xs + ys)[..|xs + ys| - 1] == xs + ys[..|ys| - 1];
    }
  }

  lemma ColumnsOfOne(item: string)
    ensures Columns([item]) == match ColumnOf(item) { case None => [] case Some(column) => [column] }
  {
    hide ColumnOf;
    assert [item][..0] == [];
  }

  lemma {:induction false} NoColumnsIn(items: seq<string>)
    requires forall i :: 0 <= i < |items| ==> '=' !in items[i]
    ensures Columns(items) == []
  {
    if items != [] {
      NoColumnsIn(items[..|items| - 1]);
    }
  }

  // A text without an equals sign gives no column.
  lemma NoEquals(s: string)
    requires '=' !in s
    ensures Columns(Fields(s)) == []
  {
    hide Columns, Fields;
    forall i | 0 <= i < |Fields(s)| ensures '=' !in Fields(s)[i] {
      FieldsWords(s, i);
    }
    NoColumnsIn(Fields(s));
  }

  // The item a metric is read from, up to its data
  function Key(m: Metric): string {
    (if m.before == "" then m.quote else "") + m.last + m.quote
  }

  function CleanText(m: Metric): string {
    (if m.before == "" then "" else m.quote + Ellipsis(m.before, false)) + (Key(m) + ['='] + DataText(m))
  }

  // The end of a metric from the last word of its label on
  function Rest(m: Metric): string {
    m.last + m.quote + ['='] + DataText(m)
  }

  lemma TextParts(m: Metric)
    ensures MetricText(m) == m.quote + m.before + Rest(m)
    ensures CleanText(m) == (if m.before == "" then m.quote else m.quote + Ellipsis(m.before, false)) + Rest(m)
  {
    hide Ellipsis, DataText;
    if m.before == "" {
      assert Key(m) + ['='] + DataText(m) == m.quote + Rest(m);
    } else {
      assert Key(m) + ['='] + DataText(m) == Rest(m);
    }
  }

  lemma MetricCleaned(m: Metric)
    requires WellFormed(m)
    ensures Ellipsis(MetricText(m), false) == CleanText(m)
    ensures MetricText(m) != "" && !Swallows(MetricText(m))
    ensures '\n' !in MetricText(m) && '\r' !in MetricText(m)
  {
    QuoteAndBefore(m);
    RestPlain(m);
    TextParts(m);
    hide WellFormed, Ellipsis, Swallows, IsWord, Rest, CleanText, MetricText;
    WordEnds(Rest(m));
    QuoteStays(m.quote);
    FirstCleaned(m.quote, m.before);
    EllipsisConcat(m.quote + m.before, Rest(m));
    PlainStays(Rest(m), Swallows(m.quote + m.before));
    EndsPlain(m.quote + m.before, Rest(m));
  }

  lemma QuoteAndBefore(m: Metric)
    requires WellFormed(m)
    ensures m.quote == "" || m.quote == "'" || m.quote == "\""
    ensures '\n' !in m.before && '\r' !in m.before && '=' !in m.before
  {
    hide IsNumeral, LabelWord, IsUnits, NoSpace;
  }

  lemma FirstCleaned(quote: string, before: string)
    requires quote == "" || quote == "'" || quote == "\""
    ensures Ellipsis(quote + before, false) == if before == "" then quote else quote + Ellipsis(before, false)
  {
    hide Ellipsis, Swallows;
    QuoteStays(quote);
    EllipsisConcat(quote, before);
    if before == "" {
      assert quote + before == quote;
    }
  }

  lemma WordEnds(s: string)
    requires IsWord(s)
    ensures s != "" && !IsSpace(s[0]) && !IsSpace(s[|s| - 1])
  {
  }

  lemma QuoteStays(quote: string)
    requires quote == "" || quote == "'" || quote == "\""
    ensures Ellipsis(quote, false) == quote && !Swallows(quote)
    ensures '\n' !in quote && '\r' !in quote
  {
  }

  lemma PlainStays(s: string, swallow: bool)
    requires s != "" && !IsSpace(s[0]) && ',' !in s
    ensures Ellipsis(s, swallow) == s
  {
    assert Ellipsis(s[1..], false) == s[1..];
    assert s == [s[0]] + s[1..];
  }

  lemma EndsPlain(a: string, b: string)
    requires b != "" && !IsSpace(b[|b| - 1]) && b[|b| - 1] != ','
    ensures !Swallows(a + b)
  {
    assert (a + b)[|a + b| - 1] == b[|b| - 1];
  }

  lemma RestPlain(m: Metric)
    requires WellFormed(m)
    ensures IsWord(DataText(m)) && ',' !in DataText(m)
    ensures IsWord(Rest(m)) && ',' !in Rest(m) && '\n' !in Rest(m) && '\r' !in Rest(m)
  {
    hide LabelWord, BeforeWord;
    NumeralText(m.value);
    assert forall i :: 0 <= i < |m.value| ==> m.value[i] in m.value;
    var data := DataText(m);
    assert IsWord(data) && ',' !in data;
    LastIsWord(m);
    assert IsWord(Rest(m));
    WordHasNoNewline(Rest(m));
  }

  lemma LastIsWord(m: Metric)
    requires WellFormed(m)
    ensures IsWord(m.last) && ',' !in m.last && '=' !in Key(m) && '=' !in m.quote
    ensures NoSpace(m.quote) && ',' !in m.quote
  {
    hide IsNumeral, IsUnits;
  }

  // For every written metric one column is read: its header is made of the last word of
  // the label, its value is the number without its sign.
  lemma MetricRead(m: Metric)
    requires WellFormed(m)
    ensures Columns(Fields(CleanText(m))) == [MetricColumn(m)]
  {
    hide Columns, ColumnOf, DataText, Key, MetricColumn, Fields, Ellipsis, BeforeWord;
    var item := Key(m) + ['='] + DataText(m);
    ItemRead(m);
    ColumnsOfOne(item);
    ItemIsWord(m);
    FieldsOfWord(item);
    if m.before == "" {
      assert "" + item == item;
    } else {
      BeforeCleaned(m.before);
      QuoteAndBefore(m);
      LastColumn(m.quote, Ellipsis(m.before, false), item);
    }
  }

  lemma ItemIsWord(m: Metric)
    requires WellFormed(m)
    ensures IsWord(Key(m) + ['='] + DataText(m))
  {
    RestPlain(m);
    LastIsWord(m);
    hide WellFormed, DataText, IsWord, NoSpace;
    var lead := if m.before == "" then m.quote else "";
    assert NoSpace(lead) by { EmptyBefore(); }
    PrefixWord(lead, Rest(m));
    assert Key(m) + ['='] + DataText(m) == lead + Rest(m);
  }

  lemma PrefixWord(a: string, b: string)
    requires NoSpace(a) && IsWord(b)
    ensures IsWord(a + b)
  {
    hide IsSpace;
  }

  // Text without an equals sign in front of an item adds no column.
  lemma LastColumn(quote: string, before: string, item: string)
    requires before != "" && IsSpace(before[|before| - 1]) && '=' !in before && '=' !in quote
    requires Fields(item) == [item]
    ensures Columns(Fields(quote + before + item)) == Columns([item])
  {
    hide Columns, Fields, IsSpace;
    var front, c := quote + before[..|before| - 1], before[|before| - 1];
    assert quote + before + item == front + [c] + item;
    FieldsConcat(front, c, item);
    ColumnsConcat(Fields(front), [item]);
    NoEquals(front);
  }

  lemma ItemRead(m: Metric)
    requires WellFormed(m)
    ensures ColumnOf(Key(m) + ['='] + DataText(m)) == Some(MetricColumn(m))
  {
    hide ColumnOf, DataColumn, HeaderText, MetricHeader, IsNumeral, IsUnits, LabelWord, BeforeWord;
    LastIsWord(m);
    ColumnAtEquals(Key(m), DataText(m));
    MetricData(m);
    NumberColumn(Key(m), m.sign, m.value, m.units);
    HeaderOfMetric(m);
  }

  lemma ColumnAtEquals(key: string, data: string)
    requires '=' !in key
    ensures ColumnOf(key + ['='] + data) == DataColumn(key, Split(data, ';')[0])
  {
    hide DataColumn;
    var item := key + ['='] + data;
    IndexOfIs(key, '=', data);
    assert item[|key|] == '=';
    assert item[..|key|] == key && item[|key| + 1..] == data;
  }

  lemma NumberColumn(key: string, sign: string, v: string, u: string)
    requires (sign == "" || sign == "-" || sign == "+") && IsNumeral(v) && IsUnits(u)
    ensures DataColumn(key, sign + (v + u)) == Some(Column(HeaderText(key, u), v))
  {
    hide HeaderText, NumeralLength, Units, FirstDigit, IsNumeral, IsUnits;
    NumberRead(sign, v, u);
  }

  // The search for a numeral passes over a sign.
  lemma NumberRead(sign: string, v: string, u: string)
    requires (sign == "" || sign == "-" || sign == "+") && IsNumeral(v) && IsUnits(u)
    ensures var data, k := sign + (v + u), |sign|;
            && FirstDigit(data) == Some(k) && NumeralLength(data[k..]) == |v|
            && Units(data[k + |v|..]) == u && data[k..k + |v|] == v
  {
    hide IsNumeral, NumeralLength, Units, FirstDigit;
    var number := v + u;
    var data, k := sign + number, |sign|;
    NumeralTaken(v, u);
    assert number[0] == v[0];
    assert data[k..] == number && data[k + |v|..] == u && data[k] == v[0];
    assert forall i :: 0 <= i < k ==> !IsDigit(data[i]);
    UnitsWhole(u);
  }

  lemma NumeralText(v: string)
    requires IsNumeral(v)
    ensures v != "" && forall x :: x in v ==> IsDigit(x) || x == '.'
  {
  }

  // Everything before the first semicolon is the value and its unit.
  lemma MetricData(m: Metric)
    requires WellFormed(m)
    ensures Split(DataText(m), ';')[0] == m.sign + (m.value + m.units)
  {
    hide LabelWord, BeforeWord;
    NumeralText(m.value);
    var number := m.sign + (m.value + m.units);
    assert ';' !in number;
    if m.tail == "" {
      assert DataText(m) == number;
    } else {
      assert DataText(m) == number + [';'] + m.tail[1..];
      SplitCons(number, ';', m.tail[1..]);
    }
  }

  lemma UnitsWhole(u: string)
    requires IsUnits(u)
    ensures Units(u) == u
  {
  }

  // --------------------------------------------------------- quotes and headers

  predicate Unquoted(s: string) {
    s != "" && s[0] !in {'"', '\''} && s[|s| - 1] !in {'"', '\''}
  }

  lemma HeaderOfMetric(m: Metric)
    requires WellFormed(m)
    ensures HeaderText(Key(m), m.units) == MetricHeader(m)
  {
    hide HeaderText, MetricHeader, IsNumeral, BeforeWord, IsUnits, LabelWord;
    var lead := if m.before == "" then m.quote else "";
    if m.units == "" {
      PlainHeader(lead, m.last, m.quote);
      assert m.last + "" + "" == m.last;
    } else {
      UnitHeader(lead, m.last + m.quote, m.units, m.last, m.quote);
      assert Key(m) == lead + (m.last + m.quote);
    }
    MetricHeaderIs(m);
  }

  lemma MetricHeaderIs(m: Metric)
    ensures MetricHeader(m) == Upper(m.last + (if m.units == "" then "" else m.quote) + UnitText(m.units))
  {
  }

  lemma PlainHeader(lead: string, last: string, quote: string)
    requires LabelWord(last) && (lead == "" || lead == quote) && (quote == "" || quote == "'" || quote == "\"")
    ensures HeaderText(lead + last + quote, "") == Upper(last)
  {
    hide Strip, Upper, Replace;
    QuotesStripped(lead, last, quote);
  }

  lemma UnitHeader(lead: string, key: string, units: string, last: string, quote: string)
    requires LabelWord(last) && key == last + quote && IsUnits(units) && units != ""
    requires (lead == "" || lead == quote) && (quote == "" || quote == "'" || quote == "\"")
    ensures HeaderText(lead + key, units) == Upper(last + quote + UnitText(units))
  {
    hide Strip, Upper, Replace;
    var body := key + UnitText(units);
    assert lead + key + " (" + units + ")" == lead + body + "";
    assert Unquoted(body) && ',' !in body;
    QuotesStripped(lead, body, "");
  }

  lemma Unstripped(s: string, q: char)
    requires s != "" && s[0] != q && s[|s| - 1] != q
    ensures Strip(s, {q}) == s
  {
  }

  // A quote before or after a text is stripped.
  lemma QuotesStripped(before: string, s: string, after: string)
    requires Unquoted(s)
    requires before in {"", "'", "\""} && after in {"", "'", "\""}
    requires before == "" || after == "" || before == after
    ensures Strip(Strip(before + s + after, {'"'}), {'\''}) == s
  {
    hide Strip;
    if before == "" && after == "" {
      assert before + s + after == s;
      Unstripped(s, '"');
      Unstripped(s, '\'');
    } else {
      var q := if before != "" then before[0] else after[0];
      OneQuote(before, s, after, q);
      if q == '"' { Unstripped(s, '\''); } else { Unstripped(before + s + after, '"'); }
    }
  }

  lemma OneQuote(before: string, s: string, after: string, q: char)
    requires s != "" && s[0] != q && s[|s| - 1] != q
    requires (before == "" || before == [q]) && (after == "" || after == [q])
    ensures Strip(before + s + after, {q}) == s
  {
    hide LStrip, RStrip;
    var t := s + after;
    assert t[0] == s[0];
    LStripOf(before, t, {q});
    assert before + s + after == before + t;
    RStripOf(s, after, {q});
  }

  // ------------------------------------------------------------ reading them all

  lemma {:induction false} MetricsCleaned(ms: seq<Metric>)
    requires forall i :: 0 <= i < |ms| ==> WellFormed(ms[i])
    ensures Columns(Fields(Ellipsis(Join(MetricTexts(ms), ' '), false))) == MetricColumns(ms)
    ensures '\n' !in Join(MetricTexts(ms), ' ') && '\r' !in Join(MetricTexts(ms), ' ')
  {
    hide Columns, Fields, MetricText, MetricColumn, WellFormed, Ellipsis, CleanText, Swallows;
    if ms == [] {
      NoItems();
    } else {
      var text, rest := MetricText(ms[0]), MetricTexts(ms[1..]);
      assert WellFormed(ms[0]);
      MetricCleaned(ms[0]);
      MetricRead(ms[0]);
      MetricsCleaned(ms[1..]);
      if |ms| == 1 {
        NoItems();
      } else {
        assert ([text] + rest)[1..] == rest;
        TwoItems(text, Join(rest, ' '));
      }
    }
  }

  lemma TwoItems(a: string, b: string)
    requires !Swallows(a)
    ensures Columns(Fields(Ellipsis(a + [' '] + b, false)))
         == Columns(Fields(Ellipsis(a, false))) + Columns(Fields(Ellipsis(b, false)))
  {
    hide Columns, Fields, Ellipsis, Swallows;
    assert a + [' '] + b == a + ([' '] + b);
    EllipsisConcat(a, [' '] + b);
    EllipsisStep(' ', b, false);
    assert Ellipsis(a, false) + ([' '] + Ellipsis(b, false)) == Ellipsis(a, false) + [' '] + Ellipsis(b, false);
    FieldsConcat(Ellipsis(a, false), ' ', Ellipsis(b, false));
    ColumnsConcat(Fields(Ellipsis(a, false)), Fields(Ellipsis(b, false)));
  }

  lemma NoItems()
    ensures Columns(Fields(Ellipsis("", false))) == []
  {
  }

  // Written perfdata after any message is exported as one column for each metric, in
  // order.
  lemma PerfdataRoundTrip(head: string, ms: seq<Metric>, newlines: string)
    requires IsHead(head, newlines) && forall i :: 0 <= i < |ms| ==> WellFormed(ms[i])
    ensures Exported(head, Join(MetricTexts(ms), ' '), newlines) == MetricColumns(ms)
  {
    hide Exported, Columns, Fields, Ellipsis, WellFormed;
    MetricsCleaned(ms);
    PerfdataCleaned(head, Join(MetricTexts(ms), ' '), newlines);
  }

  lemma MetricExported(head: string, m: Metric, newlines: string)
    requires IsHead(head, newlines) && WellFormed(m)
    ensures Exported(head, MetricText(m), newlines) == [MetricColumn(m)]
  {
    hide Exported, Columns, Fields, Ellipsis, WellFormed, CleanText, MetricText;
    MetricCleaned(m);
    MetricRead(m);
    PerfdataCleaned(head, MetricText(m), newlines);
  }

  // ------------------------------------------------------- what is lost on the way

  // The header is the label exactly when the label is one word (a comma parts words like
  // a space), and is not quoted when there is a unit.
  lemma LabelSurvives(head: string, m: Metric, newlines: string)
    requires IsHead(head, newlines) && WellFormed(m)
    ensures var columns := Exported(head, MetricText(m), newlines);
            |columns| == 1
                && (columns[0].header == LabelHeader(m) <==> m.before == "" && (m.quote == "" || m.units == ""))
  {
    hide Exported, MetricText, IsHead, Upper, BeforeWord, IsNumeral;
    MetricExported(head, m, newlines);
    var kept, unit := if m.units == "" then "" else m.quote, UnitText(m.units);
    var read, asked := m.last + kept + unit, Label(m) + unit;
    if m.before == "" && kept == "" {
      assert read == asked;
    } else if |read| == |asked| {
      assert |m.before| == |m.quote| == 1 && kept == m.quote;
      assert read[|m.last|] == m.quote[0] && asked[|m.last|] == m.last[|m.last| - 1];
      assert Upper(read)[|m.last|] == UpperChar(m.quote[0])
          && Upper(asked)[|m.last|] == UpperChar(m.last[|m.last| - 1]);
    } else {
      assert |Upper(read)| != |Upper(asked)|;
    }
  }

  // The value survives exactly when it has no sign: a negative one is exported as its
  // absolute value.
  lemma ValueSurvives(head: string, m: Metric, newlines: string)
    requires IsHead(head, newlines) && WellFormed(m)
    ensures var columns := Exported(head, MetricText(m), newlines);
            |columns| == 1 && (columns[0].value == m.sign + m.value <==> m.sign == "")
  {
    hide Exported, MetricText, IsHead, WellFormed;
    MetricExported(head, m, newlines);
    assert |m.sign + m.value| == |m.value| <==> m.sign == "";
    assert m.sign == "" ==> m.sign + m.value == m.value;
  }

  // Quoting a label is invisible in the column exactly when the value has no unit.
  lemma QuoteInHeader(head: string, m: Metric, newlines: string)
    requires IsHead(head, newlines) && WellFormed(m) && m.quote != ""
    ensures Exported(head, MetricText(m), newlines) == Exported(head, MetricText(m.(quote := "")), newlines) <==>
            m.units == ""
  {
    hide Exported, MetricText, IsHead, Upper;
    var plain := m.(quote := "");
    assert WellFormed(plain) by { hide IsNumeral, BeforeWord, LabelWord; }
    MetricExported(head, m, newlines);
    MetricExported(head, plain, newlines);
    assert |m.last + m.quote + UnitText(m.units)| != |m.last + "" + UnitText(m.units)|;
  }

  // A comma in the thresholds ends the metric: what follows is read as another one.
  lemma CommaInTail(head: string, m: Metric, m': Metric, newlines: string)
    requires IsHead(head, newlines) && WellFormed(m) && WellFormed(m') && m.tail != ""
    ensures Exported(head, MetricText(m) + [','] + MetricText(m'), newlines) == [MetricColumn(m), MetricColumn(m')]
  {
    hide Exported, Columns, Fields, Ellipsis, CleanText, MetricText, WellFormed, Swallows, IsHead;
    var a, b := MetricText(m), MetricText(m');
    MetricCleaned(m);
    MetricCleaned(m');
    MetricRead(m');
    PerfdataCleaned(head, a + [','] + b, newlines);
    WithDots(m);
    MetricRead(m.(tail := m.tail + "..."));
    assert a + [','] + b == a + ([','] + b);
    EllipsisConcat(a, [','] + b);
    EllipsisHead(',', b);
    SwallowedFields(b);
    var dotted, rest := Ellipsis(a, false) + "...", Ellipsis(b, true);
    assert Ellipsis(a, false) + ("... " + rest) == dotted + [' '] + rest;
    FieldsConcat(dotted, ' ', rest);
    ColumnsConcat(Fields(dotted), Fields(rest));
  }

  lemma WithDots(m: Metric)
    requires WellFormed(m) && m.tail != ""
    ensures var dotted := m.(tail := m.tail + "...");
            WellFormed(dotted) && CleanText(dotted) == CleanText(m) + "..." && MetricColumn(dotted) == MetricColumn(m)
  {
    hide IsNumeral, BeforeWord, LabelWord, Ellipsis;
    var dotted := m.(tail := m.tail + "...");
    assert DataText(dotted) == DataText(m) + "..." && Key(dotted) == Key(m);
    var item := Key(m) + ['='] + DataText(m);
    assert Key(m) + ['='] + DataText(dotted) == item + "...";
    var cleaned := if m.before == "" then "" else m.quote + Ellipsis(m.before, false);
    assert cleaned + (item + "...") == cleaned + item + "...";
  }

  lemma {:induction false} SwallowedFields(s: string)
    ensures Fields(Ellipsis(s, true)) == Fields(Ellipsis(s, false))
  {
    hide Fields;
    if s != "" && IsSpace(s[0]) {
      SwallowedFields(s[1..]);
      assert s == [s[0]] + s[1..];
      EllipsisStep(s[0], s[1..], true);
      EllipsisStep(s[0], s[1..], false);
      FieldsSkip(s[0], Ellipsis(s[1..], false));
    }
  }

  // ---------------------------------------------------------------------- examples

  lemma ExampleWords()
    ensures LabelWord("Leases") && BeforeWord("DHCP ") && LabelWord("used") && LabelWord("t")
    ensures IsUnits("%") && IsUnits("")
    ensures Upper("Leases") == "LEASES" && Upper("t") == "T"
  {
  }

  lemma ExampleNumerals()
    ensures IsNumeral("3") && IsNumeral("5")
  {
    assert NumeralAt("3", 1) && NumeralAt("5", 1);
  }

  // The lease check's own perfdata gives the header LEASES, a quoted label with a unit
  // keeps its closing quote, and minus five is exported as five.
  lemma ExamplesLost(head: string, newlines: string)
    requires IsHead(head, newlines)
    ensures Exported(head, "'DHCP Leases'=3", newlines) == [Column("LEASES", "3")]
    ensures Exported(head, "'used'=5%", newlines) == [Column(Upper("used' (%)"), "5")]
    ensures Exported(head, "t=-5", newlines) == [Column("T", "5")]
  {
    hide Exported, IsHead, LabelWord, BeforeWord, IsNumeral, IsUnits, Upper;
    ExampleWords();
    ExampleNumerals();
    var leases := Metric("'", "DHCP ", "Leases", "", "3", "", "");
    var used := Metric("'", "", "used", "", "5", "%", "");
    var minus := Metric("", "", "t", "-", "5", "", "");
    assert BeforeWord("") by { EmptyBefore(); }
    MetricExported(head, leases, newlines);
    MetricExported(head, used, newlines);
    MetricExported(head, minus, newlines);
    assert MetricText(leases) == "'DHCP Leases'=3";
    assert MetricText(used) == "'used'=5%";
    assert MetricText(minus) == "t=-5";
    assert "Leases" + "" + "" == "Leases" && "t" + "" + "" == "t";
    assert "used" + "'" + (" (" + "%" + ")") == "used' (%)";
  }

  lemma EmptyBefore()
    ensures BeforeWord("") && NoSpace("")
  {
  }
}
