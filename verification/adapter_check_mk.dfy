// adapter_check_mk.py: "status name perfdata message", where only the message may hold
// spaces.
module AdapterCheckMk {
  import opened Text
  import opened Perfdata
  import opened AdapterCsv
  import AdapterGeneos

  // re.sub(r'\s+', '_', s)
  function Squash(s: string): string {
    SquashFrom(s, false)
  }

  // inside: the run of white space under way has its underscore already.
  function SquashFrom(s: string, inside: bool): (r: string)
    ensures NoSpace(r)
    ensures forall x :: x in r ==> x in s || x == '_'
    ensures NoSpace(s) ==> r == s
    ensures s != "" && !inside ==> r != ""
  {
    if s == "" then ""
    else if IsSpace(s[0]) then (if inside then "" else "_") + SquashFrom(s[1..], true)
    else [s[0]] + SquashFrom(s[1..], false)
  }

  // A run of white space becomes one underscore.
  lemma {:induction false} SquashAtSpace(a: string, space: string, b: string)
    requires NoSpace(a) && space != "" && (forall i :: 0 <= i < |space| ==> IsSpace(space[i]))
    requires b != "" ==> !IsSpace(b[0])
    ensures Squash(a + (space + b)) == a + "_" + Squash(b)
  {
    hide IsSpace;
    if a == "" {
      SpaceRun(space[1..], b);
      assert a + (space + b) == [space[0]] + (space[1..] + b);
      assert a + "_" + Squash(b) == "_" + Squash(b);
    } else {
      SquashAtSpace(a[1..], space, b);
      assert a + (space + b) == [a[0]] + (a[1..] + (space + b));
      assert a + "_" + Squash(b) == [a[0]] + (a[1..] + "_" + Squash(b));
    }
  }

  lemma {:induction false} SpaceRun(space: string, b: string)
    requires (forall i :: 0 <= i < |space| ==> IsSpace(space[i])) && (b != "" ==> !IsSpace(b[0]))
    ensures SquashFrom(space + b, true) == SquashFrom(b, false)
  {
    hide IsSpace;
    if space == "" {
      assert space + b == b;
    } else {
      SpaceRun(space[1..], b);
      assert space + b == [space[0]] + (space[1..] + b);
    }
  }

  function SquashAll(keys: seq<string>): (r: seq<string>)
    ensures |r| == |keys|
    ensures forall i :: 0 <= i < |keys| ==> r[i] == Squash(keys[i])
  {
    if keys == [] then [] else SquashAll(keys[..|keys| - 1]) + [Squash(keys[|keys| - 1])]
  }

  predicate IsInterpreter(arg: string) {
    || StartsWith(arg, "perl") || StartsWith(arg, "python") || StartsWith(arg, "ruby")
    || StartsWith(arg, "groovy") || StartsWith(arg, "jython")
  }

  const INTERPRETERS := {"perl", "python", "ruby", "groovy", "jython"}

  // An interpreter, with any version after its name, does not name a check.
  lemma InterpreterIs(arg: string)
    ensures IsInterpreter(arg) <==> exists prog :: prog in INTERPRETERS && prog <= arg
  {
    forall prog: string ensures StartsWith(arg, prog) <==> prog <= arg {
    }
  }

  // ---------------------------------------------------------- the perfdata field

  // key=val pieces
  function Pairs(keys: seq<string>, vals: seq<string>): (r: seq<string>)
    requires |keys| == |vals|
    ensures |r| == |keys|
    ensures forall i :: 0 <= i < |keys| ==> r[i] == keys[i] + ['='] + vals[i]
  {
    if keys == [] then [] else
    Pairs(keys[..|keys| - 1], vals[..|vals| - 1]) + [keys[|keys| - 1] + ['='] + vals[|vals| - 1]]
  }

  function Terminated(parts: seq<string>, c: char): string {
    if parts == [] then "" else Terminated(parts[..|parts| - 1], c) + parts[|parts| - 1] + [c]
  }

  function PerfField(pairs: seq<string>): string {
    var perf := RStrip(Terminated(pairs, '|'), {'|'});
    if perf == "" then "-" else perf
  }

  function Line(code: int, name: string, perf: string, message: string): string {
    Join([IntText(code), name, perf, message], ' ')
  }

  lemma LineIs(code: int, name: string, perf: string, message: string)
    ensures Line(code, name, perf, message) == IntText(code) + [' '] + name + [' '] + perf + [' '] + message
  {
    var status := IntText(code);
    assert [status, name, perf, message][1..] == [name, perf, message];
    assert [name, perf, message][1..] == [perf, message] && [perf, message][1..] == [message];
    assert Join([message], ' ') == message;
    assert Join([perf, message], ' ') == perf + [' '] + message;
    assert Join([name, perf, message], ' ') == name + [' '] + (perf + [' '] + message);
    assert Line(code, name, perf, message) == status + [' '] + (name + [' '] + (perf + [' '] + message));
  }

  // Reading a line back: cut three times at the first space
  function Cut(s: string, c: char): Option<(string, string)> {
    if c !in s then None else
    var i := IndexOf(s, c);
    Some((s[..i], s[i + 1..]))
  }

  datatype CheckLine = CheckLine(status: string, name: string, perf: string, message: string)

  function ReadLine(line: string): Option<CheckLine> {
    match Cut(line, ' ')
    case None => None
    case Some((status, rest)) =>
      match Cut(rest, ' ')
      case None => None
      case Some((name, rest')) =>
        match Cut(rest', ' ')
        case None => None
        case Some((perf, message)) => Some(CheckLine(status, name, perf, message))
  }

  // Reading the perfdata field back
  function ReadPerf(perf: string): seq<Option<(string, string)>> {
    if perf == "-" then [] else CutAll(Split(perf, '|'))
  }

  function CutAll(pairs: seq<string>): (r: seq<Option<(string, string)>>)
    ensures |r| == |pairs|
    ensures forall i :: 0 <= i < |pairs| ==> r[i] == Cut(pairs[i], '=')
  {
    if pairs == [] then [] else CutAll(pairs[..|pairs| - 1]) + [Cut(pairs[|pairs| - 1], '=')]
  }

  function Zip(keys: seq<string>, vals: seq<string>): (r: seq<Option<(string, string)>>)
    requires |keys| == |vals|
    ensures |r| == |keys|
    ensures forall i :: 0 <= i < |keys| ==> r[i] == Some((keys[i], vals[i]))
  {
    if keys == [] then [] else
    Zip(keys[..|keys| - 1], vals[..|vals| - 1]) + [Some((keys[|keys| - 1], vals[|vals| - 1]))]
  }

  // -------------------------------------------------------------------- the adapter

  class AdapterCheckMK {
    const csv: AdapterCSV
    const args: seq<string>
    var name: string

    constructor (errors: map<string, int>, unprefix: string -> string, args: seq<string>)
      requires "UNKNOWN" in errors
      ensures csv.Valid() && csv.errors == errors && csv.unprefix == unprefix && this.args == args && fresh(csv)
      ensures csv.headers == csv.base == ["STATUS", "MESSAGE"] && csv.perfdata == []
    {
      this.args, name := args, "";
      csv := new AdapterCSV(errors, unprefix, ["STATUS", "MESSAGE"]);
    }

    // An argument that can name the check
    predicate NamesCheck(arg: string, isFloat: string -> bool) {
      arg != "" && arg[0] != '-' && !IsInterpreter(arg) && arg !in csv.errors && !isFloat(arg)
    }

    // The first argument, from the i-th on, whose basename can name the check
    function FirstName(isFloat: string -> bool, i: nat): (k: nat)
      requires i <= |args|
      ensures i <= k <= |args|
      ensures k < |args| ==> NamesCheck(AdapterGeneos.Basename(args[k]), isFloat)
      ensures forall j :: i <= j < k ==> !NamesCheck(AdapterGeneos.Basename(args[j]), isFloat)
      decreases |args| - i
    {
      if i == |args| || NamesCheck(AdapterGeneos.Basename(args[i]), isFloat) then i else FirstName(isFloat, i + 1)
    }

    // The arguments passed over, and the one taken
    lemma PassedOver(isFloat: string -> bool, j: nat)
      requires j < |args|
      ensures var arg := AdapterGeneos.Basename(args[j]);
              && (FirstName(isFloat, 0) == j ==>
                    && arg != "" && arg[0] != '-' && arg !in csv.errors && !isFloat(arg)
                    && !exists prog :: prog in INTERPRETERS && prog <= arg)
              && (j < FirstName(isFloat, 0) ==>
                    || arg == "" || arg[0] == '-' || arg in csv.errors || isFloat(arg)
                    || exists prog :: prog in INTERPRETERS && prog <= arg)
    {
      hide AdapterGeneos.Basename, IsInterpreter;
      InterpreterIs(AdapterGeneos.Basename(args[j]));
    }

    // The --name option, or else the first argument that can name the check. Not ok
    // stands for the usage error.
    method ProcessOptions(option: string, isFloat: string -> bool) returns (ok: bool)
      modifies `name
      ensures ok <==> option != "" || FirstName(isFloat, 0) < |args|
      ensures ok ==>
                name == Squash(if option != "" then option else AdapterGeneos.Basename(args[FirstName(isFloat, 0)]))
      ensures ok ==> name != "" && NoSpace(name)
    {
      hide AdapterGeneos.Basename, SquashFrom, IsInterpreter;
      name := option;
      if name == "" {
        var i := 0;
        while i < |args|
          invariant name == "" && 0 <= i <= |args| && FirstName(isFloat, 0) == FirstName(isFloat, i)
        {
          var arg := AdapterGeneos.Basename(args[i]);
          if NamesCheck(arg, isFloat) {
            name := arg;
            break;
          }
          i := i + 1;
        }
      }
      if name == "" {
        return false;
      }
      name := Squash(name);
      return true;
    }

    method Output() returns (line: string)
      requires csv.Valid() && |csv.base| == 2
      ensures line == Line(csv.errors[csv.status], name,
                           PerfField(Pairs(SquashAll(csv.headers[2..]), csv.perfdata)), csv.message)
    {
      hide Squash;
      var perf := "";
      ghost var keys, vals := SquashAll(csv.headers[2..]), csv.perfdata;
      for i := 0 to |csv.perfdata|
        invariant perf == Terminated(Pairs(keys, vals)[..i], '|')
      {
        var key, val := csv.headers[2..][i], csv.perfdata[i];
        perf := perf + (Squash(key) + ['='] + val) + ['|'];
        assert Pairs(keys, vals)[..i + 1][..i] == Pairs(keys, vals)[..i];
      }
      assert Pairs(keys, vals)[..|vals|] == Pairs(keys, vals);
      perf := RStrip(perf, {'|'});
      if perf == "" {
        perf := "-";
      }
      line := IntText(csv.errors[csv.status]) + [' '] + name + [' '] + perf + [' '] + csv.message;
      JoinFour(IntText(csv.errors[csv.status]), name, perf, csv.message);
    }

    // A run over given output with a chosen name: the line always reads back, and its
    // perfdata reads back exactly when no header holds a bar.
    method Run(returncode: ReturnCode, text: string) returns (line: string)
      requires csv.Valid() && csv.base == ["STATUS", "MESSAGE"] && csv.headers == csv.base && csv.perfdata == []
      requires NoSpace(name)
      modifies csv
      ensures csv.Valid() && PlainRow(line) && Translates(csv.errors, returncode, csv.status)
      ensures csv.message == MessagePart(Clean(csv.unprefix(text)))
      ensures csv.headers[2..] == Headers(ColumnsIn(Clean(csv.unprefix(text))))
      ensures csv.perfdata == Values(ColumnsIn(Clean(csv.unprefix(text))))
      ensures var read := ReadLine(line);
              && read.Some?
              && read.value.status == IntText(csv.errors[csv.status])
              && read.value.name == name
              && read.value.message == csv.message
              && (read.value.perf == "-" <==> csv.perfdata == [])
              && (ReadPerf(read.value.perf) == Zip(SquashAll(csv.headers[2..]), csv.perfdata)
                  <==> forall h :: h in csv.headers[2..] ==> '|' !in h)
    {
      hide Clean, ColumnsIn, MessagePart, PerfField, Line, ReadLine, ReadPerf;
      csv.SetStatus(returncode);
      csv.message := text;
      csv.ProcessMessage();
      csv.ProcessPerfdata();
      line := Output();
      assert csv.headers[2..] == Headers(ColumnsIn(Clean(csv.unprefix(text))));
      CheckMkDecodes(csv.unprefix(text), csv.errors[csv.status], name);
    }
  }

  // ---------------------------------------------------------------------- laws

  lemma {:induction false} TerminatedIsJoin(parts: seq<string>, c: char)
    requires parts != []
    ensures Terminated(parts, c) == Join(parts, c) + [c]
  {
    var front, last := parts[..|parts| - 1], parts[|parts| - 1];
    if front != [] {
      TerminatedIsJoin(front, c);
      JoinLast(front, last, c);
      assert parts == front + [last];
    } else {
      assert Terminated(front, c) == "";
      assert "" + last + [c] == last + [c];
    }
  }

  lemma JoinEnd(parts: seq<string>, c: char)
    requires parts != [] && parts[|parts| - 1] != ""
    ensures var j := Join(parts, c); var last := parts[|parts| - 1];
            j != "" && j[|j| - 1] == last[|last| - 1]
  {
  }

  lemma CutOf(a: string, c: char, b: string)
    requires c !in a
    ensures Cut(a + [c] + b, c) == Some((a, b))
  {
    var s := a + [c] + b;
    IndexOfIs(a, c, b);
    assert s[|a|] == c;
    assert s[..|a|] == a && s[|a| + 1..] == b;
  }

  lemma LineReads(code: int, name: string, perf: string, message: string)
    requires NoSpace(name) && ' ' !in perf
    ensures ReadLine(Line(code, name, perf, message)) == Some(CheckLine(IntText(code), name, perf, message))
  {
    hide Cut, IntText;
    WordHasNoNewline(name);
    WordHasNoNewline(IntText(code));
    CutJoin([perf, message], ' ');
    CutJoin([name, perf, message], ' ');
    CutJoin([IntText(code), name, perf, message], ' ');
    assert [IntText(code), name, perf, message][1..] == [name, perf, message];
    assert [name, perf, message][1..] == [perf, message];
    assert Join([perf, message][1..], ' ') == message;
  }

  lemma CutJoin(parts: seq<string>, c: char)
    requires |parts| > 1 && c !in parts[0]
    ensures Cut(Join(parts, c), c) == Some((parts[0], Join(parts[1..], c)))
  {
    CutOf(parts[0], c, Join(parts[1..], c));
  }

  lemma JoinFour(a: string, b: string, d: string, e: string)
    ensures a + [' '] + b + [' '] + d + [' '] + e == Join([a, b, d, e], ' ')
  {
    hide Join;
    JoinOne(e);
    JoinLast([a, b, d], e, ' ');
    assert [a, b, d] + [e] == [a, b, d, e];
    JoinLast([a, b], d, ' ');
    assert [a, b] + [d] == [a, b, d];
    JoinLast([a], b, ' ');
    assert [a] + [b] == [a, b];
    JoinOne(a);
  }

  lemma JoinOne(a: string)
    ensures Join([a], ' ') == a
  {
  }

  // With non-empty pieces that end in something else, stripping drops the last
  // separator and nothing more.
  lemma PerfFieldIsJoin(pairs: seq<string>)
    requires pairs != []
    requires var last := pairs[|pairs| - 1]; last != "" && last[|last| - 1] != '|'
    ensures PerfField(pairs) == Join(pairs, '|') && Join(pairs, '|') != ""
  {
    TerminatedIsJoin(pairs, '|');
    JoinEnd(pairs, '|');
    RStripOf(Join(pairs, '|'), ['|'], {'|'});
  }

  // Splitting what was joined gives at least as many pieces, and more when one of them
  // holds the separator.
  lemma {:induction false} SplitOfJoinSize(parts: seq<string>, c: char)
    requires parts != []
    ensures |Split(Join(parts, c), c)| >= |parts|
    ensures |Split(Join(parts, c), c)| == |parts| <==> forall i :: 0 <= i < |parts| ==> c !in parts[i]
  {
    AdapterGeneos.SplitLength(parts[0], c);
    hide Split;
    if |parts| > 1 {
      SplitOfJoinSize(parts[1..], c);
      AdapterGeneos.SplitOfConcat(parts[0], c, Join(parts[1..], c));
      assert forall i :: 0 < i < |parts| ==> parts[i] == parts[1..][i - 1];
    }
  }

  predicate CleanVal(v: string) {
    v != "" && '|' !in v && ' ' !in v && PlainField(v)
  }

  // The perfdata field reads back to the pairs exactly when no key holds a bar.
  lemma PerfReads(keys: seq<string>, vals: seq<string>)
    requires |keys| == |vals|
    requires forall i :: 0 <= i < |keys| ==> '=' !in keys[i] && CleanVal(vals[i])
    ensures var perf := PerfField(Pairs(keys, vals));
            && (perf == "-" <==> keys == [])
            && (ReadPerf(perf) == Zip(keys, vals) <==> forall i :: 0 <= i < |keys| ==> '|' !in keys[i])
  {
    var pairs := Pairs(keys, vals);
    if keys != [] {
      hide PerfField, Cut;
      var last := pairs[|pairs| - 1];
      assert last[|last| - 1] == vals[|vals| - 1][|vals[|vals| - 1]| - 1];
      PerfFieldIsJoin(pairs);
      NotDash(pairs, keys[0], vals[0]);
      SplitOfJoinSize(pairs, '|');
      forall i | 0 <= i < |keys| ensures ('|' in pairs[i] <==> '|' in keys[i])
          && Cut(pairs[i], '=') == Some((keys[i], vals[i])) {
        CutOf(keys[i], '=', vals[i]);
      }
      if forall i :: 0 <= i < |keys| ==> '|' !in keys[i] {
        SplitOfJoin(pairs, '|');
        assert CutAll(pairs) == Zip(keys, vals);
      }
    }
  }

  // A field with a pair in it is never the placeholder.
  lemma NotDash(pairs: seq<string>, key: string, val: string)
    requires pairs != [] && pairs[0] == key + ['='] + val && val != ""
    ensures Join(pairs, '|') != "-"
  {
  }

  lemma {:induction false} PairsNoSpace(keys: seq<string>, vals: seq<string>)
    requires |keys| == |vals|
    requires forall i :: 0 <= i < |keys| ==> ' ' !in keys[i] && PlainField(keys[i]) && CleanVal(vals[i])
    ensures var perf := PerfField(Pairs(keys, vals)); ' ' !in perf && PlainRow(perf)
  {
    var pairs := Pairs(keys, vals);
    if keys != [] {
      hide PerfField;
      var last := pairs[|pairs| - 1];
      assert last[|last| - 1] == vals[|vals| - 1][|vals[|vals| - 1]| - 1];
      PerfFieldIsJoin(pairs);
      JoinAvoids(pairs, '|', ' ');
      JoinAvoids(pairs, '|', '\n');
      JoinAvoids(pairs, '|', '\r');
    }
  }

  lemma SquashedKeys(headers: seq<string>)
    requires forall h :: h in headers ==> PlainField(h) && '=' !in h
    ensures forall i :: 0 <= i < |headers| ==>
              var k := SquashAll(headers)[i];
              && ' ' !in k && PlainField(k) && '=' !in k && ('|' in k <==> '|' in headers[i])
  {
    forall i | 0 <= i < |headers|
      ensures var k := SquashAll(headers)[i];
              ' ' !in k && PlainField(k) && '=' !in k && ('|' in k <==> '|' in headers[i])
    {
      assert headers[i] in headers;
      WordHasNoNewline(Squash(headers[i]));
      SquashKeepsBar(headers[i], false);
    }
  }

  lemma {:induction false} SquashKeepsBar(s: string, inside: bool)
    ensures '|' in s <==> '|' in SquashFrom(s, inside)
  {
    if s != "" {
      SquashKeepsBar(s[1..], IsSpace(s[0]));
      assert s == [s[0]] + s[1..];
    }
  }

  // For every plugin output: the line is one line, its four parts read back, and its
  // perfdata reads back exactly when no header holds a bar.
  lemma CheckMkDecodes(text: string, code: int, name: string)
    requires NoSpace(name)
    ensures var columns := ColumnsIn(Clean(text));
            var message := MessagePart(Clean(text));
            var keys, vals := SquashAll(Headers(columns)), Values(columns);
            var perf := PerfField(Pairs(keys, vals));
            var line := Line(code, name, perf, message);
            && PlainRow(line)
            && ReadLine(line) == Some(CheckLine(IntText(code), name, perf, message))
            && (perf == "-" <==> columns == [])
            && (ReadPerf(perf) == Zip(keys, vals) <==> forall h :: h in Headers(columns) ==> '|' !in h)
  {
    hide Clean, ColumnsIn, MessagePart, ReadLine, ReadPerf, PerfField, Squash, Line;
    var columns := ColumnsIn(Clean(text));
    var keys, vals := SquashAll(Headers(columns)), Values(columns);
    ColumnsInClean(Clean(text));
    SquashedKeys(Headers(columns));
    PairsNoSpace(keys, vals);
    PerfReads(keys, vals);
    LineReads(code, name, PerfField(Pairs(keys, vals)), MessagePart(Clean(text)));
    CleanIsPlain(text);
    TrimPlain(Clean(text));
    LinePlain(code, name, PerfField(Pairs(keys, vals)), MessagePart(Clean(text)));
    assert forall i :: 0 <= i < |keys| ==> Headers(columns)[i] in Headers(columns);
  }

  lemma LinePlain(code: int, name: string, perf: string, message: string)
    requires NoSpace(name) && PlainRow(perf) && PlainRow(message)
    ensures PlainRow(Line(code, name, perf, message))
  {
    WordHasNoNewline(name);
    WordHasNoNewline(IntText(code));
    JoinAvoids([IntText(code), name, perf, message], ' ', '\n');
    JoinAvoids([IntText(code), name, perf, message], ' ', '\r');
  }

  // When the perfdata section holds no further bar, neither does any header.
  lemma {:induction false} NoBarInHeaders(items: seq<string>)
    requires forall i :: 0 <= i < |items| ==> IsWord(items[i]) && '|' !in items[i]
    ensures forall h :: h in Headers(Columns(items)) ==> '|' !in h
  {
    hide ColumnOf;
    if items != [] {
      NoBarInHeaders(items[..|items| - 1]);
      var front := Columns(items[..|items| - 1]);
      if ColumnOf(items[|items| - 1]).Some? {
        ColumnChars(items[|items| - 1]);
        assert Columns(items)[..|front|] == front;
      } else {
        assert Columns(items) == front;
      }
    }
  }

  lemma NoFurtherBar(text: string)
    requires '|' !in PerfdataPart(text)
    ensures forall h :: h in Headers(ColumnsIn(text)) ==> '|' !in h
  {
    var raw := PerfdataPart(text);
    forall i | 0 <= i < |Fields(raw)| ensures IsWord(Fields(raw)[i]) && '|' !in Fields(raw)[i] {
      FieldsWords(raw, i);
    }
    NoBarInHeaders(Fields(raw));
  }
}
