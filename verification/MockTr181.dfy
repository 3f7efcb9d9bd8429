/** The mock TR-181 parameter table: GET and SET over decoded requests. */
module MockTr181 {
  import opened Octets

  type Attributes = map<string, string>

  /** An entry of the table. */
  datatype Entry = Entry(name: string, value: string, access: string, dataType: int, attributes: Attributes, delay: int)

  /** A parameter of a request or of a reply. */
  datatype Parameter = Parameter(
    name: string, value: string, dataType: int, attributes: Attributes, message: string, count: int)

  const STATUS_OK := 200
  const STATUS_ACCEPTED := 202
  const STATUS_FAILED := 520

  predicate Writable(x: Entry) {
    'w' in x.access
  }

  predicate Readable(x: Entry) {
    'r' in x.access
  }

  // ----- SET: the check -----

  function NotWritable(x: Entry): Parameter {
    Parameter(x.name, "", 0, map[], "Parameter is not writable", 0)
  }

  function NotFound(name: string): Parameter {
    Parameter(name, "", 0, map[], "Invalid parameter name", 0)
  }

  /** The first n entries that have a name and can be written, by index. */
  function WritableIn(table: seq<Entry>, name: string, n: nat): seq<nat>
    requires n <= |table|
  {
    if n == 0 then []
    else WritableIn(table, name, n - 1) + if table[n - 1].name == name && Writable(table[n - 1]) then [n - 1] else []
  }

  function UnwritableIn(table: seq<Entry>, name: string, n: nat): seq<Parameter>
    requires n <= |table|
  {
    if n == 0 then []
    else
      UnwritableIn(table, name, n - 1) +
      if table[n - 1].name == name && !Writable(table[n - 1]) then [NotWritable(table[n - 1])] else []
  }

  /** What one requested parameter adds to the list of failures. */
  function FailuresOf(table: seq<Entry>, name: string): seq<Parameter> {
    UnwritableIn(table, name, |table|) + if WritableIn(table, name, |table|) == [] then [NotFound(name)] else []
  }

  function Failures(table: seq<Entry>, request: seq<Parameter>): seq<Parameter> {
    if request == [] then []
    else Failures(table, request[..|request| - 1]) + FailuresOf(table, request[|request| - 1].name)
  }

  function Targets(table: seq<Entry>, request: seq<Parameter>): seq<nat> {
    if request == [] then []
    else Targets(table, request[..|request| - 1]) + WritableIn(table, request[|request| - 1].name, |table|)
  }

  /** A name can be set: some entry has it, and every entry that has it has the letter w in its access. */
  predicate Settable(table: seq<Entry>, name: string) {
    && (exists i | 0 <= i < |table| :: table[i].name == name)
    && (forall i | 0 <= i < |table| && table[i].name == name :: 'w' in table[i].access)
  }

  lemma {:induction false} WritableInMeans(table: seq<Entry>, name: string, n: nat)
    requires n <= |table|
    ensures forall i: nat :: i in WritableIn(table, name, n) <==> i < n && table[i].name == name && Writable(table[i])
  {
    if n > 0 {
      hide Writable;
      WritableInMeans(table, name, n - 1);
    }
  }

  lemma {:induction false} UnwritableInMeans(table: seq<Entry>, name: string, n: nat)
    requires n <= |table|
    ensures UnwritableIn(table, name, n) == [] <==> forall i | 0 <= i < n && table[i].name == name :: Writable(table[i])
  {
    if n > 0 {
      hide Writable;
      UnwritableInMeans(table, name, n - 1);
    }
  }

  lemma FailuresOfMeans(table: seq<Entry>, name: string)
    ensures FailuresOf(table, name) == [] <==> Settable(table, name)
  {
    WritableInMeans(table, name, |table|);
    UnwritableInMeans(table, name, |table|);
    var w := WritableIn(table, name, |table|);
    if w != [] {
      assert w[0] in w;
    }
    if Settable(table, name) {
      var i :| 0 <= i < |table| && table[i].name == name;
      assert i in w;
    }
  }

  /** A request fails exactly when one of its names cannot be set. */
  lemma {:induction false} FailuresMean(table: seq<Entry>, request: seq<Parameter>)
    ensures Failures(table, request) == [] <==> forall p | p in request :: Settable(table, p.name)
  {
    if request != [] {
      var front, last := request[..|request| - 1], request[|request| - 1];
      assert request == front + [last];
      FailuresMean(table, front);
      FailuresOfMeans(table, last.name);
    }
  }

  // ----- SET: the update -----

  function WithParameter(x: Entry, p: Parameter): Entry {
    if x.name == p.name then x.(value := p.value, dataType := p.dataType, attributes := p.attributes) else x
  }

  /** The table after an accepted request, parameter by parameter. */
  function Applied(table: seq<Entry>, request: seq<Parameter>): (r: seq<Entry>)
    ensures |r| == |table|
  {
    if request == [] then table
    else
      var before := Applied(table, request[..|request| - 1]);
      seq(|table|, i requires 0 <= i < |table| => WithParameter(before[i], request[|request| - 1]))
  }

  /** The last parameter of the request with a name. */
  function LastFor(request: seq<Parameter>, name: string): Option<Parameter> {
    if request == [] then None
    else if request[|request| - 1].name == name then Some(request[|request| - 1])
    else LastFor(request[..|request| - 1], name)
  }

  /** What SET leaves in an entry. */
  function SetEntry(x: Entry, request: seq<Parameter>): Entry {
    match LastFor(request, x.name)
    case None => x
    case Some(p) => x.(value := p.value, dataType := p.dataType, attributes := p.attributes)
  }

  /** Every entry that is named holds the last value given for it; every other entry is as it was. */
  lemma {:induction false} AppliedMeans(table: seq<Entry>, request: seq<Parameter>, i: nat)
    requires i < |table|
    ensures Applied(table, request)[i] == SetEntry(table[i], request)
  {
    if request != [] {
      AppliedMeans(table, request[..|request| - 1], i);
    }
  }

  /** The reply for a parameter that was written. */
  function Written(p: Parameter): Parameter {
    Parameter(p.name, p.value, p.dataType, p.attributes, "Success", 0)
  }

  /** The replies for one parameter: one for every collected entry that has its name. */
  function WrittenTo(table: seq<Entry>, p: Parameter, targets: seq<nat>): seq<Parameter>
    requires forall i | i in targets :: i < |table|
  {
    if targets == [] then []
    else
      var front, last := targets[..|targets| - 1], targets[|targets| - 1];
      assert last in targets && forall i | i in front :: i in targets;
      WrittenTo(table, p, front) + if table[last].name == p.name then [Written(p)] else []
  }

  function AllWritten(table: seq<Entry>, request: seq<Parameter>, targets: seq<nat>): seq<Parameter>
    requires forall i | i in targets :: i < |table|
  {
    if request == [] then []
    else AllWritten(table, request[..|request| - 1], targets) + WrittenTo(table, request[|request| - 1], targets)
  }

  lemma {:induction false} TargetsMean(table: seq<Entry>, request: seq<Parameter>)
    ensures forall i: nat :: i in Targets(table, request) <==>
              i < |table| && Writable(table[i]) && exists p | p in request :: p.name == table[i].name
  {
    if request != [] {
      var front, last := request[..|request| - 1], request[|request| - 1];
      assert request == front + [last];
      TargetsMean(table, front);
      WritableInMeans(table, last.name, |table|);
    }
  }

  /** When nothing fails, the entries to write are all those that a parameter names. */
  lemma TargetsCover(table: seq<Entry>, request: seq<Parameter>, p: Parameter)
    requires Failures(table, request) == [] && p in request
    ensures forall i: nat | i < |table| && table[i].name == p.name :: i in Targets(table, request)
  {
    FailuresMean(table, request);
    TargetsMean(table, request);
    assert Settable(table, p.name);
  }

  class Handler {
    const table: array<Entry>

    constructor (table: array<Entry>)
      ensures this.table == table
    {
      this.table := table;
    }

    /** The first pass of SET: which entries to write, and which parameters fail. */
    method Collect(request: seq<Parameter>) returns (targets: seq<nat>, failed: seq<Parameter>)
      ensures targets == Targets(table[..], request) && failed == Failures(table[..], request)
    {
      targets, failed := [], [];
      for k := 0 to |request|
        invariant targets == Targets(table[..], request[..k]) && failed == Failures(table[..], request[..k])
      {
        var name := request[k].name;
        var writable: seq<nat>, unwritable: seq<Parameter> := [], [];
        for i := 0 to table.Length
          invariant writable == WritableIn(table[..], name, i) && unwritable == UnwritableIn(table[..], name, i)
        {
          if table[i].name == name {
            if Writable(table[i]) {
              writable := writable + [i];
            } else {
              unwritable := unwritable + [NotWritable(table[i])];
            }
          }
        }
        assert request[..k + 1][..k] == request[..k];
        targets := targets + writable;
        failed := failed + unwritable;
        if writable == [] {
          failed := failed + [NotFound(name)];
        }
        assert failed == Failures(table[..], request[..k]) + FailuresOf(table[..], name);
      }
      assert request[..|request|] == request;
    }

    /** The inner loop of the second pass: writes one parameter to the collected entries that have its name. */
    method Write(p: Parameter, targets: seq<nat>, ghost names: seq<Entry>) returns (written: seq<Parameter>)
      requires forall i | i in targets :: i < table.Length
      requires |names| == table.Length && forall i | 0 <= i < table.Length :: names[i].name == table[i].name
      modifies table
      ensures forall i | 0 <= i < table.Length ::
              table[i] == if i in targets then WithParameter(old(table[i]), p) else old(table[i])
      ensures written == WrittenTo(names, p, targets)
    {
      written := [];
      for k := 0 to |targets|
        invariant forall i | i in targets[..k] :: i in targets
        invariant forall i | 0 <= i < table.Length ::
                    table[i] == if i in targets[..k] then WithParameter(old(table[i]), p) else old(table[i])
        invariant written == WrittenTo(names, p, targets[..k])
      {
        var i := targets[k];
        assert i in targets;
        assert targets[..k + 1] == targets[..k] + [i] && targets[..k + 1][..k] == targets[..k];
        if table[i].name == p.name {
          table[i] := table[i].(value := p.value, dataType := p.dataType, attributes := p.attributes);
          written := written +
            [Parameter(table[i].name, table[i].value, table[i].dataType, table[i].attributes, "Success", 0)];
        }
      }
      assert targets[..|targets|] == targets;
    }

    /** The second pass of SET. */
    method WriteAll(request: seq<Parameter>, targets: seq<nat>) returns (written: seq<Parameter>)
      requires targets == Targets(table[..], request) && Failures(table[..], request) == []
      modifies table
      ensures table[..] == Applied(old(table[..]), request)
      ensures (forall i | i in targets :: i < table.Length) && written == AllWritten(old(table[..]), request, targets)
    {
      ghost var start := table[..];
      TargetsMean(start, request);
      hide Targets, Failures;
      written := [];
      for k := 0 to |request|
        invariant table[..] == Applied(start, request[..k])
        invariant written == AllWritten(start, request[..k], targets)
      {
        ghost var before := table[..];
        NamesStay(start, request[..k]);
        var p := request[k];
        assert p in request && request[..k + 1][..k] == request[..k];
        var more := Write(p, targets, start);
        written := written + more;
        TargetsCover(start, request, p);
        assert forall i | 0 <= i < table.Length :: table[i] == WithParameter(before[i], p);
      }
      assert request[..|request|] == request;
    }

    /** SET: all of the request, or nothing. */
    method Set(request: seq<Parameter>) returns (status: int, result: seq<Parameter>)
      modifies table
      ensures var start, failed := old(table[..]), Failures(old(table[..]), request);
              if failed != [] then table[..] == start && status == 520 && result == failed
              else
                && table[..] == Applied(start, request) && status == 202
                && (forall i | i in Targets(start, request) :: i < |start|)
                && result == AllWritten(start, request, Targets(start, request))
    {
      hide Applied, Failures, Targets, AllWritten;
      var targets, failed := Collect(request);
      if |failed| != 0 {
        return STATUS_FAILED, failed;
      }
      result := WriteAll(request, targets);
      status := STATUS_ACCEPTED;
    }

    // ----- GET -----

    method Get(names: seq<string>) returns (status: int, report: seq<Parameter>, failed: seq<string>)
      ensures failed == Unavailable(table[..], names)
      ensures status == if failed == [] then 200 else 520
      ensures report == if failed == [] then Report(table[..], names) else []
    {
      report, failed := [], [];
      for k := 0 to |names|
        invariant report == Report(table[..], names[..k]) && failed == Unavailable(table[..], names[..k])
      {
        var name := names[k];
        var readable: seq<Parameter>, unreadable: seq<string> := [], [];
        for i := 0 to table.Length
          invariant readable == ReadableIn(table[..], name, i) && unreadable == UnreadableIn(table[..], name, i)
        {
          if name != "" && name <= table[i].name {
            if Readable(table[i]) {
              readable := readable + [Reported(table[i])];
            } else if name[|name| - 1] != '.' {
              unreadable := unreadable + [table[i].name];
            }
          }
        }
        assert names[..k + 1][..k] == names[..k];
        report := report + readable;
        failed := failed + unreadable;
        if readable == [] {
          failed := failed + [name];
        }
        assert failed == Unavailable(table[..], names[..k]) + UnavailableOf(table[..], name);
      }
      assert names[..|names|] == names;
      if |failed| != 0 {
        return STATUS_FAILED, [], failed;
      }
      status := STATUS_OK;
    }
  }

  lemma {:induction false} NamesStay(table: seq<Entry>, request: seq<Parameter>)
    ensures forall i | 0 <= i < |table| :: Applied(table, request)[i].name == table[i].name
    ensures forall i | 0 <= i < |table| :: Applied(table, request)[i].access == table[i].access
  {
    if request != [] {
      NamesStay(table, request[..|request| - 1]);
    }
  }

  // ----- GET -----

  function Reported(x: Entry): Parameter {
    Parameter(x.name, x.value, x.dataType, x.attributes, "Success", 1)
  }

  /** A requested name stands for every entry whose name begins with it; the empty name for none. */
  predicate Matches(x: Entry, name: string) {
    name != "" && name <= x.name
  }

  predicate Wildcard(name: string) {
    name != "" && name[|name| - 1] == '.'
  }

  function ReadableIn(table: seq<Entry>, name: string, n: nat): seq<Parameter>
    requires n <= |table|
  {
    if n == 0 then []
    else
      ReadableIn(table, name, n - 1) +
      if Matches(table[n - 1], name) && Readable(table[n - 1]) then [Reported(table[n - 1])] else []
  }

  function UnreadableIn(table: seq<Entry>, name: string, n: nat): seq<string>
    requires n <= |table|
  {
    if n == 0 then []
    else
      UnreadableIn(table, name, n - 1) +
      if Matches(table[n - 1], name) && !Readable(table[n - 1]) && !Wildcard(name) then [table[n - 1].name] else []
  }

  function UnavailableOf(table: seq<Entry>, name: string): seq<string> {
    UnreadableIn(table, name, |table|) + if ReadableIn(table, name, |table|) == [] then [name] else []
  }

  function Unavailable(table: seq<Entry>, names: seq<string>): seq<string> {
    if names == [] then [] else Unavailable(table, names[..|names| - 1]) + UnavailableOf(table, names[|names| - 1])
  }

  function Report(table: seq<Entry>, names: seq<string>): seq<Parameter> {
    if names == [] then [] else Report(table, names[..|names| - 1]) + ReadableIn(table, names[|names| - 1], |table|)
  }

  /** A name can be read: it is not empty, an entry whose name begins with it has the letter r in its access and, unless
      it ends in a dot, all of them have. */
  predicate Gettable(table: seq<Entry>, name: string) {
    && name != ""
    && (exists i | 0 <= i < |table| :: name <= table[i].name && 'r' in table[i].access)
    && (name[|name| - 1] == '.' || forall i | 0 <= i < |table| && name <= table[i].name :: 'r' in table[i].access)
  }

  lemma {:induction false} ReadableInMeans(table: seq<Entry>, name: string, n: nat)
    requires n <= |table|
    ensures forall x :: x in ReadableIn(table, name, n) <==>
              exists i | 0 <= i < n :: Reports(x, table[i], name)
  {
    if n > 0 {
      ReadableInMeans(table, name, n - 1);
    }
  }

  lemma {:induction false} UnreadableInMeans(table: seq<Entry>, name: string, n: nat)
    requires n <= |table|
    ensures UnreadableIn(table, name, n) == [] <==>
              Wildcard(name) || forall i | 0 <= i < n && Matches(table[i], name) :: Readable(table[i])
  {
    if n > 0 {
      hide Matches, Readable, Wildcard;
      UnreadableInMeans(table, name, n - 1);
    }
  }

  lemma UnavailableOfMeans(table: seq<Entry>, name: string)
    ensures UnavailableOf(table, name) == [] <==> Gettable(table, name)
  {
    ReadableInMeans(table, name, |table|);
    UnreadableInMeans(table, name, |table|);
    var r := ReadableIn(table, name, |table|);
    if r != [] {
      assert r[0] in r;
    }
    if Gettable(table, name) {
      var i :| 0 <= i < |table| && name <= table[i].name && 'r' in table[i].access;
      assert Reports(Reported(table[i]), table[i], name);
      assert Reported(table[i]) in r;
    }
  }

  /** GET succeeds exactly when every name asked for can be read. */
  lemma {:induction false} GetSucceeds(table: seq<Entry>, names: seq<string>)
    ensures Unavailable(table, names) == [] <==> forall name | name in names :: Gettable(table, name)
  {
    if names != [] {
      var front, last := names[..|names| - 1], names[|names| - 1];
      assert names == front + [last];
      GetSucceeds(table, front);
      UnavailableOfMeans(table, last);
    }
  }

  /** A line of the report is about an entry that the name stands for. */
  predicate Reports(x: Parameter, entry: Entry, name: string) {
    && name != "" && name <= entry.name && 'r' in entry.access
    && x == Parameter(entry.name, entry.value, entry.dataType, entry.attributes, "Success", 1)
  }

  lemma {:induction false} ReportMeans(table: seq<Entry>, names: seq<string>)
    ensures forall x :: x in Report(table, names) <==>
              exists i, name | 0 <= i < |table| && name in names :: Reports(x, table[i], name)
  {
    if names != [] {
      var front, last := names[..|names| - 1], names[|names| - 1];
      assert names == front + [last];
      ReportMeans(table, front);
      ReadableInMeans(table, last, |table|);
      hide Reports;
      forall x
        ensures x in Report(table, names) <==>
                exists i, name | 0 <= i < |table| && name in names :: Reports(x, table[i], name)
      {
        if i, name :| 0 <= i < |table| && name in names && Reports(x, table[i], name) {
          assert name in front || name == last;
        }
        if x in Report(table, front) {
          var i, name :| 0 <= i < |table| && name in front && Reports(x, table[i], name);
          assert name in names;
        } else if x in ReadableIn(table, last, |table|) {
          var i :| 0 <= i < |table| && Reports(x, table[i], last);
          assert last in names;
        }
      }
    }
  }

  // ----- SET and then GET -----

  /** What a GET reports for an entry after a SET that names it. */
  function SetReport(request: seq<Parameter>, name: string): Parameter
    requires LastFor(request, name).Some?
  {
    var p := LastFor(request, name).value;
    Parameter(name, p.value, p.dataType, p.attributes, "Success", 1)
  }

  lemma EntryAfter(table: seq<Entry>, request: seq<Parameter>, i: nat)
    requires i < |table|
    ensures var x := Applied(table, request)[i];
            && x.name == table[i].name && x.access == table[i].access
            && (LastFor(request, x.name).Some? ==>
                  SetReport(request, x.name) == Parameter(x.name, x.value, x.dataType, x.attributes, "Success", 1))
  {
    hide LastFor, Applied;
    AppliedMeans(table, request, i);
  }

  lemma InReport(table: seq<Entry>, request: seq<Parameter>, names: seq<string>, name: string, i: nat)
    requires i < |table| && table[i].name == name && Readable(table[i]) && name != "" && name in names
    requires LastFor(request, name).Some?
    ensures SetReport(request, name) in Report(Applied(table, request), names)
  {
    hide Applied, Report, LastFor;
    EntryAfter(table, request, i);
    ReportMeans(Applied(table, request), names);
    assert Reports(SetReport(request, name), Applied(table, request)[i], name);
  }

  lemma FromReport(table: seq<Entry>, request: seq<Parameter>, names: seq<string>, x: Parameter) returns (i: nat)
    requires x in Report(Applied(table, request), names)
    ensures i < |table| && table[i].name == x.name && Readable(table[i])
    ensures LastFor(request, x.name).Some? ==> x == SetReport(request, x.name)
  {
    hide Applied, Report, LastFor;
    ReportMeans(Applied(table, request), names);
    var k, name :| 0 <= k < |table| && name in names && Reports(x, Applied(table, request)[k], name);
    i := k;
    EntryAfter(table, request, i);
  }

  /** After an accepted SET, a GET that asks for a name of the request and succeeds reports, for that name, the last
      value that the request gave and no other. Only a name with a final dot can stay out of the report, and it does
      exactly when no entry of that name can be read. */
  lemma SetThenGet(table: seq<Entry>, request: seq<Parameter>, names: seq<string>, name: string)
    requires Failures(table, request) == [] && LastFor(request, name).Some? && name != "" && name in names
    requires Unavailable(Applied(table, request), names) == []
    ensures var report, expected := Report(Applied(table, request), names), SetReport(request, name);
            && (expected in report <==> exists i | 0 <= i < |table| :: table[i].name == name && Readable(table[i]))
            && (name[|name| - 1] != '.' ==> expected in report)
            && forall x | x in report && x.name == name :: x == expected
  {
    hide Applied, Failures, Report, Unavailable, Readable, Settable, Gettable, LastFor;
    var after := Applied(table, request);
    FailuresMean(table, request);
    LastForIn(request, name);
    GetSucceeds(after, names);
    forall i: nat | i < |table| && table[i].name == name && Readable(table[i])
      ensures SetReport(request, name) in Report(after, names)
    {
      InReport(table, request, names, name, i);
    }
    forall x | x in Report(after, names) && x.name == name
      ensures x == SetReport(request, name)
      ensures exists i | 0 <= i < |table| :: table[i].name == name && Readable(table[i])
    {
      var i := FromReport(table, request, names, x);
    }
    if name[|name| - 1] != '.' {
      var i := NamedEntry(table, name);
      EntryAfter(table, request, i);
      GetsAll(after, name, i);
      SameAccess(after[i], table[i]);
    }
  }

  lemma SameAccess(x: Entry, y: Entry)
    requires x.access == y.access
    ensures Readable(x) == Readable(y)
  {
  }

  lemma NamedEntry(table: seq<Entry>, name: string) returns (i: nat)
    requires Settable(table, name)
    ensures i < |table| && table[i].name == name
  {
    i :| 0 <= i < |table| && table[i].name == name;
  }

  lemma GetsAll(table: seq<Entry>, name: string, i: nat)
    requires Gettable(table, name) && !Wildcard(name) && i < |table| && table[i].name == name
    ensures Readable(table[i])
  {
  }

  lemma {:induction false} LastForIn(request: seq<Parameter>, name: string)
    requires LastFor(request, name).Some?
    ensures LastFor(request, name).value in request && LastFor(request, name).value.name == name
  {
    if request[|request| - 1].name != name {
      LastForIn(request[..|request| - 1], name);
    }
  }
}
