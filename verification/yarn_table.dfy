// print_apps of check_hadoop_yarn_queue_apps.py: the table of applications and the width
// of its lines.
module YarnTable {
  import opened Text

  // A field of an application: text or an integer
  datatype Value = Words(s: string) | Number(n: int)

  datatype Column = User | Queue | State | FinalStatus | ElapsedTime | Name | Id

  type AppFields = Column -> Value

  const COLUMNS := [User, Queue, State, FinalStatus, ElapsedTime, Name, Id]

  function Heading(c: Column): string {
    match c
    case User => "User"
    case Queue => "Queue"
    case State => "State"
    case FinalStatus => "Final Status"
    case ElapsedTime => "Elapsed Time"
    case Name => "Name"
    case Id => "Id"
  }

  // str(value)
  function Str(v: Value): string {
    match v
    case Words(s) => s
    case Number(n) => IntText(n)
  }

  function Spaces(n: nat): (s: string)
    ensures |s| == n
  {
    if n == 0 then "" else Spaces(n - 1) + " "
  }

  // '{0:{1}}'.format(v, width): text to the left, numbers to the right, never cut
  function Padded(v: Value, width: nat): string {
    var s := Str(v);
    var fill := Spaces(if |s| < width then width - |s| else 0);
    if v.Words? then s + fill else fill + s
  }

  // int(val / 1000), rounding towards zero
  function Thousandth(n: int): int {
    if n >= 0 then n / 1000 else -((-n) / 1000)
  }

  // What is printed for a column; only the elapsed time is converted.
  function Shown(c: Column, v: Value): Value {
    if c == ElapsedTime && v.Number? then Number(Thousandth(v.n)) else v
  }

  // The value as it is printed, with spaces after a text and before a number up to the
  // width
  lemma PaddedIs(v: Value, width: nat)
    ensures var p, n := Padded(v, width), |Str(v)|;
            && |p| == Max(n, width)
            && (v.Words? ==> p[..n] == v.s && forall i :: n <= i < |p| ==> p[i] == ' ')
            && (v.Number? ==> p[|p| - n..] == IntText(v.n) && forall i :: 0 <= i < |p| - n ==> p[i] == ' ')
  {
    SpacesAre(if |Str(v)| < width then width - |Str(v)| else 0);
  }

  lemma {:induction false} SpacesAre(n: nat)
    ensures forall i :: 0 <= i < n ==> Spaces(n)[i] == ' '
  {
    if n > 0 {
      SpacesAre(n - 1);
    }
  }

  // An elapsed time is shown in whole seconds, rounded towards zero; other fields are
  // shown as they are.
  lemma ShownIs(c: Column, v: Value)
    ensures c != ElapsedTime || v.Words? ==> Shown(c, v) == v
    ensures c == ElapsedTime && v.Number? ==>
              && Shown(c, v).Number?
              && (v.n >= 0 ==> 0 <= 1000 * Shown(c, v).n <= v.n < 1000 * Shown(c, v).n + 1000)
              && (v.n < 0 ==> 1000 * Shown(c, v).n - 1000 < v.n <= 1000 * Shown(c, v).n <= 0)
  {
  }

  // The width of a column: the longest of its heading and its values as they come
  function Width(apps: seq<AppFields>, c: Column): nat {
    if apps == [] then |Heading(c)| else Max(Width(apps[..|apps| - 1], c), |Str(apps[|apps| - 1](c))|)
  }

  lemma {:induction false} WidthIsMaximum(apps: seq<AppFields>, c: Column)
    ensures Width(apps, c) >= |Heading(c)|
    ensures forall i :: 0 <= i < |apps| ==> |Str(apps[i](c))| <= Width(apps, c)
    ensures Width(apps, c) == |Heading(c)| || exists i :: 0 <= i < |apps| && |Str(apps[i](c))| == Width(apps, c)
  {
    hide Str, Heading;
    if apps != [] {
      WidthIsMaximum(apps[..|apps| - 1], c);
    }
  }

  function TotalWidth(apps: seq<AppFields>, columns: seq<Column>): nat {
    if columns == [] then 0
    else TotalWidth(apps, columns[..|columns| - 1]) + Width(apps, columns[|columns| - 1]) + 2
  }

  function Rule(n: nat): (s: string)
    ensures |s| == n
  {
    if n == 0 then "" else Rule(n - 1) + "="
  }

  // --------------------------------------------------------- decimal lengths

  lemma {:induction false} DecimalMonotone(m: nat, n: nat)
    requires m <= n
    ensures |Decimal(m)| <= |Decimal(n)|
  {
    if m >= 10 {
      DecimalMonotone(m / 10, n / 10);
    }
  }

  // A time in seconds is never longer than the time in milliseconds it was measured as.
  lemma ThousandthIsShorter(n: int)
    ensures |IntText(Thousandth(n))| <= |IntText(n)|
  {
    if n >= 0 {
      DecimalMonotone(n / 1000, n);
    } else if (-n) / 1000 == 0 {
      assert IntText(Thousandth(n)) == Decimal(0);
    } else {
      DecimalMonotone((-n) / 1000, -n);
    }
  }

  lemma ShownFits(c: Column, v: Value)
    ensures |Str(Shown(c, v))| <= |Str(v)|
  {
    if c == ElapsedTime && v.Number? {
      ThousandthIsShorter(v.n);
    }
  }

  // ------------------------------------------------------------ printing

  // A line: every cell padded to its column and followed by two spaces
  function LineOf(apps: seq<AppFields>, columns: seq<Column>, cell: Column -> Value): string {
    if columns == [] then "" else
    var c := columns[|columns| - 1];
    LineOf(apps, columns[..|columns| - 1], cell) + Padded(cell(c), Width(apps, c)) + "  "
  }

  // The columns stand in a line one after the other, from the left.
  lemma LineIs(apps: seq<AppFields>, cell: Column -> Value)
    ensures LineOf(apps, COLUMNS, cell)
         == Padded(cell(User), Width(apps, User)) + "  " + Padded(cell(Queue), Width(apps, Queue)) + "  "
            + Padded(cell(State), Width(apps, State)) + "  "
            + Padded(cell(FinalStatus), Width(apps, FinalStatus)) + "  "
            + Padded(cell(ElapsedTime), Width(apps, ElapsedTime)) + "  " + Padded(cell(Name), Width(apps, Name)) + "  "
            + Padded(cell(Id), Width(apps, Id)) + "  "
  {
    hide Padded, Width;
    LineMore(apps, [], User, cell);
    LineMore(apps, [User], Queue, cell);
    LineMore(apps, [User, Queue], State, cell);
    LineMore(apps, [User, Queue, State], FinalStatus, cell);
    LineMore(apps, [User, Queue, State, FinalStatus], ElapsedTime, cell);
    LineMore(apps, [User, Queue, State, FinalStatus, ElapsedTime], Name, cell);
    LineMore(apps, [User, Queue, State, FinalStatus, ElapsedTime, Name], Id, cell);
    assert [] + [User] == [User] && [User] + [Queue] == [User, Queue];
    assert [User, Queue] + [State] == [User, Queue, State];
    assert [User, Queue, State] + [FinalStatus] == [User, Queue, State, FinalStatus];
    assert [User, Queue, State, FinalStatus] + [ElapsedTime] == [User, Queue, State, FinalStatus, ElapsedTime];
    assert [User, Queue, State, FinalStatus, ElapsedTime] + [Name]
        == [User, Queue, State, FinalStatus, ElapsedTime, Name];
    assert [User, Queue, State, FinalStatus, ElapsedTime, Name] + [Id] == COLUMNS;
    hide LineOf;
    assert LineOf(apps, [], cell) == "" by { NoLine(apps, cell); }
  }

  lemma NoLine(apps: seq<AppFields>, cell: Column -> Value)
    ensures LineOf(apps, [], cell) == ""
  {
  }

  lemma LineMore(apps: seq<AppFields>, columns: seq<Column>, c: Column, cell: Column -> Value)
    ensures LineOf(apps, columns + [c], cell) == LineOf(apps, columns, cell) + Padded(cell(c), Width(apps, c)) + "  "
  {
    hide Padded, Width;
    assert (columns + [c])[..|columns|] == columns;
  }

  // A line whose cells fit their columns has the full width.
  lemma {:induction false} LineWidth(apps: seq<AppFields>, columns: seq<Column>, cell: Column -> Value)
    requires forall c :: c in columns ==> |Str(cell(c))| <= Width(apps, c)
    ensures |LineOf(apps, columns, cell)| == TotalWidth(apps, columns)
  {
    if columns != [] {
      LineWidth(apps, columns[..|columns| - 1], cell);
    }
  }

  lemma DataLineWidth(apps: seq<AppFields>, i: nat)
    requires i < |apps|
    ensures |LineOf(apps, COLUMNS, c => Shown(c, apps[i](c)))| == TotalWidth(apps, COLUMNS)
  {
    forall c | c in COLUMNS ensures |Str(Shown(c, apps[i](c)))| <= Width(apps, c) {
      WidthIsMaximum(apps, c);
      ShownFits(c, apps[i](c));
    }
    LineWidth(apps, COLUMNS, c => Shown(c, apps[i](c)));
  }

  lemma HeaderLineWidth(apps: seq<AppFields>)
    ensures |LineOf(apps, COLUMNS, c => Words(Heading(c)))| == TotalWidth(apps, COLUMNS)
  {
    forall c | c in COLUMNS ensures |Str(Words(Heading(c)))| <= Width(apps, c) {
      WidthIsMaximum(apps, c);
    }
    LineWidth(apps, COLUMNS, c => Words(Heading(c)));
  }

  method MeasureColumn(apps: seq<AppFields>, c: Column) returns (width: nat)
    ensures width == Width(apps, c)
  {
    width := |Heading(c)|;
    for i := 0 to |apps|
      invariant width == Width(apps[..i], c)
    {
      var w := |Str(apps[i](c))|;
      if w > width {
        width := w;
      }
      assert apps[..i + 1][..i] == apps[..i];
    }
    assert apps[..|apps|] == apps;
  }

  method FormatLine(ghost apps: seq<AppFields>, widths: map<Column, nat>, cell: Column -> Value) returns (line: string)
    requires forall c :: c in COLUMNS ==> c in widths && widths[c] == Width(apps, c)
    ensures line == LineOf(apps, COLUMNS, cell)
  {
    line := "";
    for i := 0 to |COLUMNS|
      invariant line == LineOf(apps, COLUMNS[..i], cell)
    {
      var c := COLUMNS[i];
      assert c in COLUMNS;
      line := line + Padded(cell(c), widths[c]) + "  ";
      assert COLUMNS[..i + 1][..i] == COLUMNS[..i];
    }
    assert COLUMNS[..|COLUMNS|] == COLUMNS;
  }

  // The lines printed before the end, or before an elapsed time that is not an integer
  // (not ok). All of them have the same length.
  method PrintApps(apps: seq<AppFields>) returns (lines: seq<string>, ok: bool)
    ensures ok <==> forall i :: 0 <= i < |apps| ==> apps[i](ElapsedTime).Number?
    ensures ok ==> |lines| == 3 + |apps|
    ensures |lines| >= 3 && lines[0] == lines[2] == Rule(TotalWidth(apps, COLUMNS))
    ensures lines[1] == LineOf(apps, COLUMNS, c => Words(Heading(c)))
    ensures forall i :: 3 <= i < |lines| ==>
              i - 3 < |apps| && lines[i] == LineOf(apps, COLUMNS, c => Shown(c, apps[i - 3](c)))
    ensures forall i :: 0 <= i < |lines| ==> |lines[i]| == TotalWidth(apps, COLUMNS)
  {
    hide Width, LineOf, Padded, Heading;
    var widths: map<Column, nat> := map[];
    for i := 0 to |COLUMNS|
      invariant forall c :: c in COLUMNS[..i] ==> c in widths && widths[c] == Width(apps, c)
    {
      var w := MeasureColumn(apps, COLUMNS[i]);
      widths := widths[COLUMNS[i] := w];
    }
    assert COLUMNS[..|COLUMNS|] == COLUMNS;
    var totalWidth := 0;
    for i := 0 to |COLUMNS|
      invariant totalWidth == TotalWidth(apps, COLUMNS[..i])
    {
      assert COLUMNS[i] in COLUMNS;
      totalWidth := totalWidth + widths[COLUMNS[i]] + 2;
      assert COLUMNS[..i + 1][..i] == COLUMNS[..i];
    }
    var header := FormatLine(apps, widths, c => Words(Heading(c)));
    HeaderLineWidth(apps);
    lines := [Rule(totalWidth), header, Rule(totalWidth)];
    for k := 0 to |apps|
      invariant |lines| == 3 + k && lines[..3] == [Rule(totalWidth), header, Rule(totalWidth)]
      invariant forall i :: 0 <= i < k ==> apps[i](ElapsedTime).Number?
      invariant forall i :: 3 <= i < |lines| ==> lines[i] == LineOf(apps, COLUMNS, c => Shown(c, apps[i - 3](c)))
      invariant forall i :: 0 <= i < |lines| ==> |lines[i]| == TotalWidth(apps, COLUMNS)
    {
      if !apps[k](ElapsedTime).Number? {
        return lines, false;
      }
      var app := apps[k];
      var line := FormatLine(apps, widths, c => Shown(c, app(c)));
      DataLineWidth(apps, k);
      assert line == LineOf(apps, COLUMNS, c => Shown(c, apps[k](c)));
      lines := lines + [line];
    }
    ok := true;
  }
}
