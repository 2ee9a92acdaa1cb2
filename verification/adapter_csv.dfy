// adapter_csv.py: a plugin's "message | perfdata" output as a header line and a row of
// comma separated fields without quoting.
module AdapterCsv {
  import opened Text
  import opened Perfdata

  // ------------------------------------------------------------- the message text

  // re.search('^usage:', message, re.M): the first line that starts with "usage:"
  predicate UsageAt(m: string, i: nat) {
    i <= |m| && (i == 0 || m[i - 1] == '\n') && At(m, "usage:", i)
  }

  function FindUsage(m: string, i: nat): (found: Option<nat>)
    requires i <= |m|
    ensures found.Some? ==> i <= found.value <= |m| && UsageAt(m, found.value)
    ensures found.Some? ==> forall k :: i <= k < found.value ==> !UsageAt(m, k)
    ensures found.None? ==> forall k :: i <= k <= |m| ==> !UsageAt(m, k)
    decreases |m| - i
  {
    if UsageAt(m, i) then Some(i)
    else if i == |m| then None
    else FindUsage(m, i + 1)
  }

  function DropDescription(m: string): string {
    if !StartsWith(m, "Hari Sekhon") then m else
    match FindUsage(m, 0)
    case None => m
    case Some(i) => m[i..]
  }

  // re.sub(r',\s*', '... ', s); swallow: the white space after a comma is being dropped.
  function Ellipsis(s: string, swallow: bool): (r: string)
    ensures ',' !in r
    ensures forall x :: x in r ==> x in s || x == '.' || x == ' '
    ensures ',' !in s && !swallow ==> r == s
  {
    if s == "" then ""
    else if swallow && IsSpace(s[0]) then Ellipsis(s[1..], true)
    else if s[0] == ',' then "... " + Ellipsis(s[1..], true)
    else [s[0]] + Ellipsis(s[1..], false)
  }

  // process_message after the status prefix has been removed
  function Clean(m: string): string {
    Ellipsis(Replace(Remove(RStrip(DropDescription(m), {'\n'}), '\r'), '\n', " \\n "), false)
  }

  // The message before the first bar, and the perfdata after it
  function MessagePart(m: string): string {
    Trim(if '|' in m then m[..IndexOf(m, '|')] else m)
  }

  function PerfdataPart(m: string): string {
    if '|' in m then m[IndexOf(m, '|') + 1..] else ""
  }

  function ColumnsIn(m: string): seq<Column> {
    Columns(Fields(PerfdataPart(m)))
  }

  predicate PlainField(s: string) {
    ',' !in s && '\r' !in s && '\n' !in s
  }

  // -------------------------------------------------------------- status table

  // int(returncode) has been tried: a number, or text that is not one.
  datatype ReturnCode = Number(code: int) | NotANumber(text: string)

  // The name of a known code, a known name, or UNKNOWN
  predicate Translates(errors: map<string, int>, returncode: ReturnCode, status: string) {
    match returncode
    case Number(code) =>
      if code in errors.Values then status in errors && errors[status] == code else status == "UNKNOWN"
    case NotANumber(text) => status == if text in errors then text else "UNKNOWN"
  }

  // ------------------------------------------------------------------- the adapter

  class AdapterCSV {
    // Status names with their exit codes
    const errors: map<string, int>
    // Removal of the status prefix, whatever it does
    const unprefix: string -> string
    var returncodes: map<int, string>
    var status: string
    var message: string
    var perfdata: seq<string>
    var headers: seq<string>
    ghost const base: seq<string>

    ghost predicate Valid()
      reads this
    {
      && "UNKNOWN" in errors
      && status in errors
      && (forall code :: code in returncodes ==> returncodes[code] in errors && errors[returncodes[code]] == code)
      && (forall name :: name in errors ==> errors[name] in returncodes)
      && Lockstep()
    }

    // There is one header for every value, after the fixed ones.
    ghost predicate Lockstep()
      reads this
    {
      base <= headers && |headers| == |base| + |perfdata|
    }

    // base are the fixed headers: those of this class, or those a subclass sets.
    constructor (errors: map<string, int>, unprefix: string -> string, base: seq<string>)
      requires "UNKNOWN" in errors
      ensures Valid() && this.errors == errors && this.unprefix == unprefix && this.base == base
      ensures status == "UNKNOWN" && perfdata == [] && headers == base
    {
      this.errors, this.unprefix, this.base := errors, unprefix, base;
      status, message, perfdata, headers := "UNKNOWN", "<None>", [], base;
      returncodes := map[];
      new;
      var rest := errors.Keys;
      while rest != {}
        modifies `returncodes
        invariant rest <= errors.Keys
        invariant forall code :: code in returncodes ==>
            returncodes[code] in errors && errors[returncodes[code]] == code
        invariant forall name :: name in errors.Keys - rest ==> errors[name] in returncodes
        decreases |rest|
      {
        var name :| name in rest;
        returncodes := returncodes[errors[name] := name];
        rest := rest - {name};
      }
    }

    // The status setter
    method SetStatus(returncode: ReturnCode)
      requires Valid()
      modifies `status
      ensures Valid() && Translates(errors, returncode, status)
    {
      match returncode {
        case Number(code) =>
          if code in returncodes {
            status := returncodes[code];
            assert errors[status] in errors.Values;
          } else {
            status := "UNKNOWN";
          }
        case NotANumber(text) =>
          if text in errors {
            status := text;
          } else {
            status := "UNKNOWN";
          }
      }
    }

    method ProcessMessage()
      requires Valid()
      modifies `message
      ensures Valid() && message == Clean(unprefix(old(message)))
    {
      var m := unprefix(message);
      if StartsWith(m, "Hari Sekhon") {
        var usage := FindUsage(m, 0);
        if usage.Some? {
          m := m[usage.value..];
        }
      }
      m := RStrip(m, {'\n'});
      m := Remove(m, '\r');
      m := Replace(m, '\n', " \\n ");
      m := Ellipsis(m, false);
      message := m;
    }

    method ProcessPerfdata()
      requires Valid() && perfdata == [] && headers == base
      modifies `message, `headers, `perfdata
      ensures Valid()
      ensures message == MessagePart(old(message)) && '|' !in message
      ensures headers == base + Headers(ColumnsIn(old(message)))
      ensures perfdata == Values(ColumnsIn(old(message)))
    {
      hide Trim, Columns, IndexOf, Headers, Values;
      NoColumns();
      var raw := PerfdataPart(message);
      if '|' in message {
        message := message[..IndexOf(message, '|')];
      }
      ghost var kept := message;
      var items := Fields(raw);
      assert items[..0] == [];
      for i := 0 to |items|
        invariant Valid() && message == kept
        invariant headers == base + Headers(Columns(items[..i]))
        invariant perfdata == Values(Columns(items[..i]))
      {
        ColumnsStep(items, i);
        ProcessItem(items[i], Columns(items[..i]));
      }
      assert items[..|items|] == items;
      NoBarInMessage(old(message));
      message := Trim(message);
    }

    // One turn of the loop: an item that has a value becomes a column.
    method ProcessItem(item: string, ghost before: seq<Column>)
      requires Valid()
      requires headers == base + Headers(before) && perfdata == Values(before)
      modifies `headers, `perfdata
      ensures Valid()
      ensures var columns := if ColumnOf(item).Some? then before + [ColumnOf(item).value] else before;
              headers == base + Headers(columns) && perfdata == Values(columns)
    {
      hide FirstDigit, NumeralLength, Units, HeaderText, IndexOf, Split, Headers, Values, ColumnOf, DataColumn;
      ItemColumn(item);
      if '=' in item {
        var cut := IndexOf(item, '=');
        var header, data := item[..cut], item[cut + 1..];
        data := Split(data, ';')[0];
        var start := FirstDigit(data);
        if start.Some? {
          var k := start.value;
          var n := NumeralLength(data[k..]);
          AppendColumn(HeaderText(header, Units(data[k + n..])), data[k..k + n], before);
        }
      }
    }

    method AppendColumn(header: string, value: string, ghost before: seq<Column>)
      requires Valid()
      requires headers == base + Headers(before) && perfdata == Values(before)
      modifies `headers, `perfdata
      ensures Valid()
      ensures headers == base + Headers(before + [Column(header, value)])
      ensures perfdata == Values(before + [Column(header, value)])
    {
      assert (before + [Column(header, value)])[..|before|] == before;
      headers := headers + [header];
      perfdata := perfdata + [value];
    }

    // The fields of the row, joined one by one
    method Row(first: string) returns (row: string)
      ensures row == Join([first] + perfdata, ',')
    {
      row := first;
      for i := 0 to |perfdata|
        invariant row == Join([first] + perfdata[..i], ',')
      {
        row := row + [','] + perfdata[i];
        assert [first] + perfdata[..i + 1] == [first] + perfdata[..i] + [perfdata[i]];
        JoinLast([first] + perfdata[..i], perfdata[i], ',');
      }
      assert perfdata[..|perfdata|] == perfdata;
    }

    method Output(noHeader: bool) returns (lines: seq<string>)
      requires Valid()
      ensures lines == (if noHeader then [] else [Join(headers, ',')]) + [Join([status, message] + perfdata, ',')]
    {
      var row := Row(status + [','] + message);
      JoinFlat(status, message, perfdata, ',');
      lines := if noHeader then [row] else [Join(headers, ','), row];
    }

    // A run over given output: the row always decodes to the status, the message and the
    // values, with one field for every header.
    method Run(returncode: ReturnCode, text: string, noHeader: bool) returns (lines: seq<string>)
      requires Valid() && base == ["STATUS", "MESSAGE"] && headers == base && perfdata == []
      requires forall name :: name in errors ==> PlainField(name)
      modifies `status, `message, `headers, `perfdata
      ensures Valid() && |lines| == if noHeader then 1 else 2
      ensures Translates(errors, returncode, status)
      ensures message == MessagePart(Clean(unprefix(text)))
      ensures perfdata == Values(ColumnsIn(Clean(unprefix(text))))
      ensures Split(lines[|lines| - 1], ',') == [status, message] + perfdata
      ensures !noHeader ==> Split(lines[0], ',') == headers
      ensures |headers| == 2 + |perfdata|
      ensures forall i :: 0 <= i < |lines| ==> PlainRow(lines[i])
    {
      hide Clean, ColumnsIn, MessagePart, Split, Join, Headers, Values, Translates, PlainField, PlainRow;
      SetStatus(returncode);
      message := text;
      ProcessMessage();
      ProcessPerfdata();
      lines := Output(noHeader);
      BasePlain();
      OutputDecodes(unprefix(text), base, status);
    }
  }

  // ---------------------------------------------------------- laws of the columns

  lemma NoColumns()
    ensures Columns([]) == [] && Headers([]) == [] && Values([]) == []
  {
  }

  lemma ItemColumn(item: string)
    ensures '=' !in item ==> ColumnOf(item) == None
    ensures '=' in item ==>
              var cut := IndexOf(item, '=');
              var data := Split(item[cut + 1..], ';')[0];
              match FirstDigit(data)
              case None => ColumnOf(item) == None
              case Some(k) =>
                var n := NumeralLength(data[k..]);
                ColumnOf(item) == Some(Column(HeaderText(item[..cut], Units(data[k + n..])), data[k..k + n]))
  {
    hide IndexOf, FirstDigit, NumeralLength, Units, HeaderText, Split;
  }

  lemma ColumnsStep(items: seq<string>, i: nat)
    requires i < |items|
    ensures items[..0] == []
    ensures Columns(items[..i + 1])
         == if ColumnOf(items[i]).Some? then Columns(items[..i]) + [ColumnOf(items[i]).value] else Columns(items[..i])
  {
    hide ColumnOf;
    assert items[..i + 1][..i] == items[..i];
  }

  // ---------------------------------------------------------------- laws of Join

  lemma {:induction false} JoinLast(parts: seq<string>, last: string, c: char)
    requires parts != []
    ensures Join(parts + [last], c) == Join(parts, c) + [c] + last
  {
    if |parts| > 1 {
      assert (parts + [last])[1..] == parts[1..] + [last];
      JoinLast(parts[1..], last, c);
      assert parts[0] + [c] + (Join(parts[1..], c) + [c] + last) == parts[0] + [c] + Join(parts[1..], c) + [c] + last;
    }
  }

  lemma JoinFlat(a: string, b: string, rest: seq<string>, c: char)
    ensures Join([a + [c] + b] + rest, c) == Join([a, b] + rest, c)
  {
  }

  // ------------------------------------------------------- laws of the message

  lemma CleanIsPlain(m: string)
    ensures PlainField(Clean(m))
  {
    hide DropDescription, RStrip;
    var oneLine := Replace(Remove(RStrip(DropDescription(m), {'\n'}), '\r'), '\n', " \\n ");
    assert '\r' !in " \\n " && '\n' !in " \\n ";
    assert '\r' !in oneLine && '\n' !in oneLine;
  }

  // Cleaning changes nothing in a message that needs none.
  lemma CleanKeeps(m: string)
    requires PlainField(m) && !StartsWith(m, "Hari Sekhon")
    ensures Clean(m) == m
  {
  }

  // A comma and the white space after it become "... "; the rest is kept.
  lemma {:induction false} EllipsisAtComma(a: string, space: string, b: string)
    requires ',' !in a
    requires forall i :: 0 <= i < |space| ==> IsSpace(space[i])
    requires b != "" ==> !IsSpace(b[0])
    ensures Ellipsis(a + ([','] + (space + b)), false) == a + "... " + Ellipsis(b, false)
  {
    hide Ellipsis;
    if a == "" {
      assert a + ([','] + (space + b)) == [','] + (space + b);
      EllipsisHead(',', space + b);
      SpaceSwallowed(space, b);
      assert a + "... " == "... ";
    } else {
      EllipsisAtComma(a[1..], space, b);
      assert a + ([','] + (space + b)) == [a[0]] + (a[1..] + ([','] + (space + b)));
      EllipsisHead(a[0], a[1..] + ([','] + (space + b)));
      assert a + "... " + Ellipsis(b, false) == [a[0]] + (a[1..] + "... " + Ellipsis(b, false));
    }
  }

  lemma EllipsisHead(c: char, s: string)
    ensures Ellipsis([c] + s, false) == if c == ',' then "... " + Ellipsis(s, true) else [c] + Ellipsis(s, false)
  {
  }

  lemma {:induction false} SpaceSwallowed(space: string, b: string)
    requires forall i :: 0 <= i < |space| ==> IsSpace(space[i])
    requires b != "" ==> !IsSpace(b[0])
    ensures Ellipsis(space + b, true) == Ellipsis(b, false)
  {
    if space == "" {
      assert space + b == b;
    } else {
      assert (space + b)[1..] == space[1..] + b;
      SpaceSwallowed(space[1..], b);
    }
  }

  // Ends in a comma, or in white space after one
  predicate Swallows(s: string) {
    s != "" && (s[|s| - 1] == ',' || (IsSpace(s[|s| - 1]) && Swallows(s[..|s| - 1])))
  }

  lemma {:induction false} EllipsisConcat(a: string, b: string)
    ensures Ellipsis(a + b, false) == Ellipsis(a, false) + Ellipsis(b, Swallows(a))
  {
    hide IsSpace, Ellipsis;
    if a == "" {
      NothingToClean();
      assert a + b == b && "" + Ellipsis(b, false) == Ellipsis(b, false);
    } else {
      var front, c := a[..|a| - 1], a[|a| - 1];
      EllipsisConcat(front, [c] + b);
      EllipsisConcat(front, [c]);
      EllipsisOne(c, b, Swallows(front));
      assert a == front + [c] && a + b == front + ([c] + b);
      assert Ellipsis(a + b, false)
          == Ellipsis(front, false) + Ellipsis([c], Swallows(front)) + Ellipsis(b, Swallows(a));
    }
  }

  lemma NothingToClean()
    ensures Ellipsis("", false) == ""
  {
  }

  lemma EllipsisOne(c: char, b: string, swallow: bool)
    ensures Ellipsis([c] + b, swallow) == Ellipsis([c], swallow) + Ellipsis(b, c == ',' || (swallow && IsSpace(c)))
  {
    hide IsSpace;
    assert !IsSpace(',') by { CommaIsNoSpace(); }
    assert ([c] + b)[1..] == b && [c][1..] == "";
  }

  lemma CommaIsNoSpace()
    ensures !IsSpace(',') && !IsSpace('\\') && !IsSpace('n') && IsSpace(' ')
  {
  }

  // A line break becomes a visible "\n" between two spaces. After a comma, which has its
  // own space, the first of them goes.
  lemma VisibleNewline(b: string, swallow: bool)
    ensures Ellipsis(" \\n " + b, swallow) == (if swallow then "" else " ") + "\\n " + Ellipsis(b, false)
  {
    hide IsSpace, Ellipsis;
    CommaIsNoSpace();
    assert " \\n " + b == [' '] + (['\\'] + (['n'] + ([' '] + b)));
    EllipsisStep(' ', ['\\'] + (['n'] + ([' '] + b)), swallow);
    EllipsisStep('\\', ['n'] + ([' '] + b), swallow);
    EllipsisStep('n', [' '] + b, false);
    EllipsisStep('\\', ['n'] + ([' '] + b), false);
    EllipsisStep(' ', b, false);
    assert ['\\'] + (['n'] + ([' '] + Ellipsis(b, false))) == "\\n " + Ellipsis(b, false);
    assert [' '] + ("\\n " + Ellipsis(b, false)) == " " + "\\n " + Ellipsis(b, false);
    assert "" + "\\n " + Ellipsis(b, false) == "\\n " + Ellipsis(b, false);
  }

  lemma EllipsisStep(c: char, s: string, swallow: bool)
    requires c != ','
    ensures Ellipsis([c] + s, swallow) == if swallow && IsSpace(c) then Ellipsis(s, true) else [c] + Ellipsis(s, false)
  {
    assert ([c] + s)[1..] == s;
  }

  // The lines of a message are cleaned one by one and joined by a visible "\n"; carriage
  // returns and trailing newlines go.
  lemma CleanAtNewline(a: string, b: string, newlines: string)
    requires '\n' !in a && b != "" && b[|b| - 1] != '\n'
    requires forall i :: 0 <= i < |newlines| ==> newlines[i] == '\n'
    requires !StartsWith(a, "Hari Sekhon") && !StartsWith(b, "Hari Sekhon")
    ensures Clean(a + ['\n'] + b + newlines)
         == Clean(a) + ((if Swallows(Remove(a, '\r')) then "" else " ") + "\\n " + Clean(b))
  {
    hide DropDescription, StartsWith, Ellipsis, Clean, Swallows, Remove, Replace;
    StartOfLine(a, '\n', b + newlines);
    assert a + ['\n'] + (b + newlines) == a + ['\n'] + b + newlines && a + "" == a && b + "" == b;
    CleanIs(a, "");
    CleanIs(b, "");
    CleanIs(a + ['\n'] + b, newlines);
    RemoveConcat(a + ['\n'], b, '\r');
    RemoveConcat(a, ['\n'], '\r');
    NewlineStays();
    TwoLines(Remove(a, '\r'), Remove(b, '\r'));
  }

  lemma NewlineStays()
    ensures Remove(['\n'], '\r') == ['\n']
  {
  }

  lemma TwoLines(first: string, rest: string)
    requires '\n' !in first
    ensures Ellipsis(Replace(first + ['\n'] + rest, '\n', " \\n "), false)
         == Ellipsis(Replace(first, '\n', " \\n "), false)
            + ((if Swallows(first) then "" else " ") + "\\n " + Ellipsis(Replace(rest, '\n', " \\n "), false))
  {
    hide Ellipsis, Swallows, Replace;
    var more := Replace(rest, '\n', " \\n ");
    ReplaceAt(first, '\n', rest, " \\n ");
    assert first + " \\n " + more == first + (" \\n " + more);
    EllipsisConcat(first, " \\n " + more);
    VisibleNewline(more, Swallows(first));
  }

  lemma StartOfLine(a: string, c: char, b: string)
    requires c == '\n' || c == '|'
    requires !StartsWith(a, "Hari Sekhon")
    ensures !StartsWith(a + [c] + b, "Hari Sekhon")
  {
    var s, name := a + [c] + b, "Hari Sekhon";
    assert |name| == 11 && c !in name;
    if |a| < 11 {
      assert s[|a|] == c && (11 <= |s| ==> s[..11][|a|] == c);
    } else {
      assert s[..11] == a[..11];
    }
  }

  lemma CleanIs(m: string, newlines: string)
    requires !StartsWith(m + newlines, "Hari Sekhon") && (m != "" ==> m[|m| - 1] != '\n')
    requires forall i :: 0 <= i < |newlines| ==> newlines[i] == '\n'
    ensures Clean(m + newlines) == Ellipsis(Replace(Remove(m, '\r'), '\n', " \\n "), false)
  {
    hide StartsWith, Ellipsis;
    NotDescribed(m + newlines);
    RStripOf(m, newlines, {'\n'});
  }

  lemma NotDescribed(m: string)
    requires !StartsWith(m, "Hari Sekhon")
    ensures DropDescription(m) == m
  {
  }

  lemma {:induction false} ReplaceAt(a: string, c: char, b: string, sub: string)
    requires c !in a
    ensures Replace(a + [c] + b, c, sub) == a + sub + Replace(b, c, sub)
  {
    hide Replace;
    var t := a + [c] + b;
    ReplaceHead(t, c, sub);
    if a == "" {
      assert t[1..] == b && a + sub == sub;
    } else {
      ReplaceAt(a[1..], c, b, sub);
      assert t[1..] == a[1..] + [c] + b && t[0] == a[0];
      assert a + sub + Replace(b, c, sub) == [a[0]] + (a[1..] + sub + Replace(b, c, sub));
    }
  }

  // The plugins' own description is dropped up to the first usage line.
  lemma DescriptionDropped(about: string, usage: string)
    requires StartsWith(about, "Hari Sekhon") && StartsWith(usage, "usage:")
    requires forall k :: 0 <= k <= |about| ==> !UsageAt(about + ['\n'] + usage, k)
    ensures DropDescription(about + ['\n'] + usage) == usage
  {
    var m := about + ['\n'] + usage;
    assert m[..11] == about[..11];
    UsageFollows(about, usage);
    var k := FindUsage(m, 0);
    assert m[|about| + 1..] == usage;
  }

  lemma UsageFollows(about: string, usage: string)
    requires StartsWith(usage, "usage:")
    ensures UsageAt(about + ['\n'] + usage, |about| + 1)
  {
  }

  lemma TrimPlain(m: string)
    requires PlainField(m)
    ensures PlainField(MessagePart(m))
  {
  }

  // The message field holds nothing of the perfdata.
  lemma NoBarInMessage(m: string)
    ensures '|' !in MessagePart(m)
  {
  }

  // Without a bar everything is message, and there are no columns.
  lemma NoPerfdata(m: string)
    requires '|' !in m
    ensures MessagePart(m) == Trim(m) && ColumnsIn(m) == []
  {
  }

  // --------------------------------------------------------------- decodability

  lemma {:induction false} ColumnsClean(items: seq<string>)
    requires forall i :: 0 <= i < |items| ==> IsWord(items[i])
    ensures forall c :: c in Columns(items) ==>
              && PlainField(c.header) && '=' !in c.header
              && PlainField(c.value) && c.value != "" && ' ' !in c.value && '|' !in c.value
  {
    hide ColumnOf;
    if items != [] {
      ColumnsClean(items[..|items| - 1]);
      if ColumnOf(items[|items| - 1]).Some? {
        ColumnChars(items[|items| - 1]);
      }
    }
  }

  lemma ColumnsInClean(m: string)
    ensures forall c :: c in ColumnsIn(m) ==>
              && PlainField(c.header) && '=' !in c.header
              && PlainField(c.value) && c.value != "" && ' ' !in c.value && '|' !in c.value
  {
    hide Columns;
    forall i | 0 <= i < |Fields(PerfdataPart(m))| ensures IsWord(Fields(PerfdataPart(m))[i]) {
      FieldsWords(PerfdataPart(m), i);
    }
    ColumnsClean(Fields(PerfdataPart(m)));
  }

  // For every plugin output, splitting the row at the commas gives back its fields.
  lemma CsvDecodes(text: string, first: seq<string>)
    requires forall i :: 0 <= i < |first| ==> PlainField(first[i])
    ensures var fields := first + [MessagePart(Clean(text))] + Values(ColumnsIn(Clean(text)));
            Split(Join(fields, ','), ',') == fields && PlainRow(Join(fields, ','))
  {
    hide Clean, ColumnsIn, MessagePart;
    var fields := first + [MessagePart(Clean(text))] + Values(ColumnsIn(Clean(text)));
    CleanIsPlain(text);
    TrimPlain(Clean(text));
    ColumnsInClean(Clean(text));
    RowDecodes(fields);
  }

  predicate PlainRow(row: string) {
    '\r' !in row && '\n' !in row
  }

  lemma RowDecodes(fields: seq<string>)
    requires fields != [] && forall i :: 0 <= i < |fields| ==> PlainField(fields[i])
    ensures Split(Join(fields, ','), ',') == fields && PlainRow(Join(fields, ','))
  {
    SplitOfJoin(fields, ',');
    JoinAvoids(fields, ',', '\r');
    JoinAvoids(fields, ',', '\n');
  }

  lemma BasePlain()
    ensures PlainField("STATUS") && PlainField("MESSAGE")
  {
  }

  // Row and header line together
  lemma OutputDecodes(text: string, base: seq<string>, status: string)
    requires PlainField(status) && base != [] && forall i :: 0 <= i < |base| ==> PlainField(base[i])
    ensures var columns := ColumnsIn(Clean(text));
            var fields := [status, MessagePart(Clean(text))] + Values(columns);
            var headers := base + Headers(columns);
            && Split(Join(fields, ','), ',') == fields && PlainRow(Join(fields, ','))
            && Split(Join(headers, ','), ',') == headers && PlainRow(Join(headers, ','))
  {
    hide Clean, ColumnsIn, MessagePart, Split, Join;
    CsvDecodes(text, [status]);
    assert [status] + [MessagePart(Clean(text))] == [status, MessagePart(Clean(text))];
    HeadersDecode(text, base);
  }

  // The header line decodes to the headers.
  lemma HeadersDecode(text: string, base: seq<string>)
    requires base != [] && forall i :: 0 <= i < |base| ==> PlainField(base[i])
    ensures var headers := base + Headers(ColumnsIn(Clean(text)));
            Split(Join(headers, ','), ',') == headers && PlainRow(Join(headers, ','))
  {
    hide Clean, ColumnsIn;
    ColumnsInClean(Clean(text));
    RowDecodes(base + Headers(ColumnsIn(Clean(text))));
  }
}
