// adapter_geneos.py: the CSV adapter with the command's name as a first column.
module AdapterGeneos {
  import opened Text
  import opened Perfdata
  import opened AdapterCsv

  // os.path.basename
  function Basename(path: string): string {
    if '/' !in path then path else Basename(path[IndexOf(path, '/') + 1..])
  }

  // The part after the last slash
  lemma {:induction false} BasenameIs(path: string)
    ensures '/' !in Basename(path) && |Basename(path)| <= |path|
    ensures Basename(path) == path[|path| - |Basename(path)|..]
    ensures |Basename(path)| < |path| ==> path[|path| - |Basename(path)| - 1] == '/'
  {
    hide IndexOf;
    if '/' in path {
      BasenameIs(path[IndexOf(path, '/') + 1..]);
    }
  }

  // The header line decodes to the headers, and the row to as many fields, exactly when
  // the command's name holds no comma.
  ghost predicate Decodes(lines: seq<string>, headers: seq<string>, name: string, fields: seq<string>) {
    && |lines| == 2
    && PlainRow(lines[0]) && PlainRow(lines[1])
    && Split(lines[0], ',') == headers
    && (|Split(lines[1], ',')| == |headers| <==> ',' !in name)
    && (',' !in name ==> Split(lines[1], ',') == [name] + fields)
  }

  class AdapterGeneos {
    const csv: AdapterCSV
    const args: seq<string>

    constructor (errors: map<string, int>, unprefix: string -> string, args: seq<string>)
      requires "UNKNOWN" in errors
      ensures csv.Valid() && csv.errors == errors && csv.unprefix == unprefix && this.args == args && fresh(csv)
      ensures csv.headers == csv.base == ["NAME", "STATUS", "DETAILS"] && csv.perfdata == []
    {
      this.args := args;
      csv := new AdapterCSV(errors, unprefix, ["NAME", "STATUS", "DETAILS"]);
    }

    // os.path.basename(self.args[0].split()[0]); None stands for the IndexError.
    method CommandName() returns (name: Option<string>)
      ensures name.Some? <==> args != [] && Fields(args[0]) != []
      ensures name.Some? ==> name.value == Basename(Fields(args[0])[0])
    {
      if args == [] {
        return None;
      }
      var words := Fields(args[0]);
      if words == [] {
        return None;
      }
      return Some(Basename(words[0]));
    }

    method Output() returns (lines: Option<seq<string>>)
      requires csv.Valid()
      ensures lines.Some? <==> args != [] && Fields(args[0]) != []
      ensures lines.Some? ==>
                lines.value == [Join(csv.headers, ','),
                                Join([Basename(Fields(args[0])[0]), csv.status, csv.message] + csv.perfdata, ',')]
    {
      var name := CommandName();
      if name.None? {
        return None;
      }
      var row := csv.Row(name.value + [','] + csv.status + [','] + csv.message);
      JoinThree(name.value, csv.status, csv.message, csv.perfdata, ',');
      return Some([Join(csv.headers, ','), row]);
    }

    // None: the command line is blank.
    method Run(returncode: ReturnCode, text: string) returns (lines: Option<seq<string>>)
      requires csv.Valid() && csv.base == ["NAME", "STATUS", "DETAILS"] && csv.headers == csv.base && csv.perfdata == []
      requires forall name :: name in csv.errors ==> PlainField(name)
      modifies csv
      ensures csv.Valid() && Translates(csv.errors, returncode, csv.status)
      ensures csv.message == MessagePart(Clean(csv.unprefix(text)))
      ensures csv.perfdata == Values(ColumnsIn(Clean(csv.unprefix(text))))
      ensures lines.Some? <==> args != [] && Fields(args[0]) != []
      ensures lines.Some? ==>
                Decodes(lines.value, csv.headers, Basename(Fields(args[0])[0]),
                    [csv.status, csv.message] + csv.perfdata)
    {
      hide Clean, ColumnsIn, MessagePart, Basename, Join, Headers, Values, Translates, Fields, Decodes, PlainField,
          PlainRow;
      csv.SetStatus(returncode);
      csv.message := text;
      csv.ProcessMessage();
      csv.ProcessPerfdata();
      lines := Output();
      if lines.Some? {
        NamePlain(args[0]);
        LinesDecode(csv.unprefix(text), Basename(Fields(args[0])[0]), csv.status);
      }
    }
  }

  lemma NamePlain(arg: string)
    requires Fields(arg) != []
    ensures PlainRow(Basename(Fields(arg)[0]))
  {
    hide Basename;
    BasenameIs(Fields(arg)[0]);
  }

  lemma JoinThree(a: string, b: string, d: string, rest: seq<string>, c: char)
    ensures Join([a + [c] + b + [c] + d] + rest, c) == Join([a, b, d] + rest, c)
  {
    hide Join;
    JoinFlat(a + [c] + b, d, rest, c);
    JoinFlat(a, b, [d] + rest, c);
    assert [a + [c] + b, d] + rest == [a + [c] + b] + ([d] + rest);
    assert [a, b] + ([d] + rest) == [a, b, d] + rest;
  }

  lemma {:induction false} SplitOfConcat(a: string, c: char, b: string)
    ensures Split(a + [c] + b, c) == Split(a, c) + Split(b, c)
    decreases |a|
  {
    if c !in a {
      SplitCons(a, c, b);
    } else {
      hide Split, IndexOf;
      var p, q := a[..IndexOf(a, c)], a[IndexOf(a, c) + 1..];
      assert a == p + [c] + q;
      SplitOfConcat(q, c, b);
      SplitAtFirst(p, c, q, b);
    }
  }

  lemma SplitAtFirst(p: string, c: char, q: string, b: string)
    requires c !in p && Split(q + [c] + b, c) == Split(q, c) + Split(b, c)
    ensures Split(p + [c] + q + [c] + b, c) == Split(p + [c] + q, c) + Split(b, c)
  {
    hide Split;
    SplitCons(p, c, q);
    SplitCons(p, c, q + [c] + b);
    assert p + [c] + q + [c] + b == p + [c] + (q + [c] + b);
  }

  lemma SplitLength(s: string, c: char)
    ensures |Split(s, c)| == 1 <==> c !in s
    ensures c !in s ==> Split(s, c) == [s]
  {
  }

  // The row has as many fields as the header line exactly when the command's name holds
  // no comma, and then it decodes to them.
  lemma GeneosDecodes(text: string, name: string, status: string)
    requires PlainField(status) && PlainRow(name)
    ensures var fields := [name, status, MessagePart(Clean(text))] + Values(ColumnsIn(Clean(text)));
            && PlainRow(Join(fields, ','))
            && (|Split(Join(fields, ','), ',')| == |fields| <==> ',' !in name)
            && (',' !in name ==> Split(Join(fields, ','), ',') == fields)
  {
    hide Clean, ColumnsIn, MessagePart, Split;
    var rest := [status] + [MessagePart(Clean(text))] + Values(ColumnsIn(Clean(text)));
    var fields := [name, status, MessagePart(Clean(text))] + Values(ColumnsIn(Clean(text)));
    CsvDecodes(text, [status]);
    assert fields == [name] + rest && fields[1..] == rest;
    assert Join(fields, ',') == name + [','] + Join(rest, ',');
    SplitOfConcat(name, ',', Join(rest, ','));
    SplitLength(name, ',');
  }

  lemma LinesDecode(text: string, name: string, status: string)
    requires PlainField(status) && PlainRow(name)
    ensures var columns := ColumnsIn(Clean(text));
            var headers := ["NAME", "STATUS", "DETAILS"] + Headers(columns);
            var fields := [status, MessagePart(Clean(text))] + Values(columns);
            Decodes([Join(headers, ','), Join([name, status, MessagePart(Clean(text))] + Values(columns), ',')],
                headers, name, fields)
  {
    hide Clean, ColumnsIn, MessagePart, Split, Join;
    HeadersDecode(text, ["NAME", "STATUS", "DETAILS"]);
    GeneosDecodes(text, name, status);
    var values := Values(ColumnsIn(Clean(text)));
    assert [name] + ([status, MessagePart(Clean(text))] + values) == [name, status, MessagePart(Clean(text))] + values;
  }
}
