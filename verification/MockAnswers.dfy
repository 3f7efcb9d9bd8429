/** What the answers of the mock TR-181 table list, and in which order. */
module MockAnswers {
  import opened MockTr181

  // ----- the order of the answers -----

  /** picks lists the entries among the first n that have a property, by index and in the order of the table. */
  ghost predicate Picked(table: seq<Entry>, n: nat, property: Entry -> bool, picks: seq<nat>)
    requires n <= |table|
  {
    && (forall i: nat :: i in picks <==> i < n && property(table[i]))
    && forall a, b | 0 <= a < b < |picks| :: picks[a] < picks[b]
  }

  lemma PickedMore(table: seq<Entry>, n: nat, property: Entry -> bool, picks: seq<nat>)
    requires n < |table| && Picked(table, n, property, picks)
    ensures Picked(table, n + 1, property, if property(table[n]) then picks + [n] else picks)
  {
    forall a | 0 <= a < |picks|
      ensures picks[a] < n
    {
      assert picks[a] in picks;
    }
  }

  lemma PickedNone(table: seq<Entry>, property: Entry -> bool)
    ensures Picked(table, 0, property, [])
  {
  }

  function MatchesReadable(name: string): Entry -> bool {
    (x: Entry) => name != "" && name <= x.name && 'r' in x.access
  }

  function MatchesUnreadable(name: string): Entry -> bool {
    (x: Entry) => name != "" && name[|name| - 1] != '.' && name <= x.name && 'r' !in x.access
  }

  function NamedUnwritable(name: string): Entry -> bool {
    (x: Entry) => x.name == name && 'w' !in x.access
  }

  lemma {:induction false} ReadableInOrder(table: seq<Entry>, name: string, n: nat) returns (picks: seq<nat>)
    requires n <= |table|
    ensures Picked(table, n, MatchesReadable(name), picks) && |ReadableIn(table, name, n)| == |picks|
    ensures forall k | 0 <= k < |picks| ::
              picks[k] < |table| && Reports(ReadableIn(table, name, n)[k], table[picks[k]], name)
  {
    hide Picked;
    if n == 0 {
      picks := [];
      PickedNone(table, MatchesReadable(name));
    } else {
      var before := ReadableInOrder(table, name, n - 1);
      PickedMore(table, n - 1, MatchesReadable(name), before);
      picks := if MatchesReadable(name)(table[n - 1]) then before + [n - 1] else before;
    }
  }

  /** The report for a name lists the entries that it stands for in the order of the table, and the report for several
      names is theirs one after the other. */
  lemma ReportInOrder(table: seq<Entry>, names: seq<string>, name: string) returns (picks: seq<nat>)
    ensures Picked(table, |table|, MatchesReadable(name), picks)
    ensures var more := Report(table, names + [name])[|Report(table, names)|..];
            && Report(table, names + [name]) == Report(table, names) + more && |more| == |picks|
            && forall k | 0 <= k < |picks| :: picks[k] < |table| && Reports(more[k], table[picks[k]], name)
  {
    picks := ReadableInOrder(table, name, |table|);
    assert (names + [name])[..|names|] == names;
    assert Report(table, names + [name]) == Report(table, names) + ReadableIn(table, name, |table|);
  }

  lemma {:induction false} UnreadableInOrder(table: seq<Entry>, name: string, n: nat) returns (picks: seq<nat>)
    requires n <= |table|
    ensures Picked(table, n, MatchesUnreadable(name), picks) && |UnreadableIn(table, name, n)| == |picks|
    ensures forall k | 0 <= k < |picks| :: picks[k] < |table| && UnreadableIn(table, name, n)[k] == table[picks[k]].name
  {
    hide Picked;
    if n == 0 {
      picks := [];
      PickedNone(table, MatchesUnreadable(name));
    } else {
      var before := UnreadableInOrder(table, name, n - 1);
      PickedMore(table, n - 1, MatchesUnreadable(name), before);
      picks := if MatchesUnreadable(name)(table[n - 1]) then before + [n - 1] else before;
    }
  }

  /** The names that a GET reports as failed: for each name asked for, the entries that it stands for and that cannot be
      read, unless it ends in a dot, and then the name itself if nothing was readable. */
  lemma UnavailableInOrder(table: seq<Entry>, names: seq<string>, name: string) returns (picks: seq<nat>)
    ensures Picked(table, |table|, MatchesUnreadable(name), picks)
    ensures var more := Unavailable(table, names + [name])[|Unavailable(table, names)|..];
            var found := exists i | 0 <= i < |table| :: MatchesReadable(name)(table[i]);
            && Unavailable(table, names + [name]) == Unavailable(table, names) + more
            && |more| == |picks| + (if found then 0 else 1) && (!found ==> more[|picks|] == name)
            && forall k | 0 <= k < |picks| :: picks[k] < |table| && more[k] == table[picks[k]].name
  {
    picks := UnreadableInOrder(table, name, |table|);
    var readable := ReadableInOrder(table, name, |table|);
    assert (names + [name])[..|names|] == names;
    assert Unavailable(table, names + [name]) == Unavailable(table, names) + UnavailableOf(table, name);
    assert readable != [] ==> readable[0] in readable;
  }

  lemma {:induction false} UnwritableInOrder(table: seq<Entry>, name: string, n: nat) returns (picks: seq<nat>)
    requires n <= |table|
    ensures Picked(table, n, NamedUnwritable(name), picks) && |UnwritableIn(table, name, n)| == |picks|
    ensures forall k | 0 <= k < |picks| ::
              UnwritableIn(table, name, n)[k] == Parameter(name, "", 0, map[], "Parameter is not writable", 0)
  {
    hide Picked;
    if n == 0 {
      picks := [];
      PickedNone(table, NamedUnwritable(name));
    } else {
      var before := UnwritableInOrder(table, name, n - 1);
      PickedMore(table, n - 1, NamedUnwritable(name), before);
      picks := if NamedUnwritable(name)(table[n - 1]) then before + [n - 1] else before;
    }
  }

  /** The failures of a SET: for each parameter, one for every entry of its name that cannot be written, and then one if
      no entry of its name can be. */
  lemma FailuresInOrder(table: seq<Entry>, request: seq<Parameter>, p: Parameter) returns (picks: seq<nat>)
    ensures Picked(table, |table|, NamedUnwritable(p.name), picks)
    ensures var more := Failures(table, request + [p])[|Failures(table, request)|..];
            var found := exists i | 0 <= i < |table| :: table[i].name == p.name && 'w' in table[i].access;
            && Failures(table, request + [p]) == Failures(table, request) + more
            && |more| == |picks| + (if found then 0 else 1)
            && (!found ==> more[|picks|] == Parameter(p.name, "", 0, map[], "Invalid parameter name", 0))
            && forall k | 0 <= k < |picks| ::
                 more[k] == Parameter(p.name, "", 0, map[], "Parameter is not writable", 0)
  {
    picks := UnwritableInOrder(table, p.name, |table|);
    WritableInMeans(table, p.name, |table|);
    var w := WritableIn(table, p.name, |table|);
    assert (request + [p])[..|request|] == request;
    assert Failures(table, request + [p]) == Failures(table, request) + FailuresOf(table, p.name);
    assert w != [] ==> w[0] in w;
  }

  // ----- the replies of an accepted SET -----

  function Times(request: seq<Parameter>, name: string): nat {
    if request == [] then 0
    else Times(request[..|request| - 1], name) + if request[|request| - 1].name == name then 1 else 0
  }

  function NamedIn(table: seq<Entry>, targets: seq<nat>, name: string): nat
    requires forall i | i in targets :: i < |table|
  {
    if targets == [] then 0
    else
      var front, last := targets[..|targets| - 1], targets[|targets| - 1];
      assert last in targets && forall i | i in front :: i in targets;
      NamedIn(table, front, name) + if table[last].name == name then 1 else 0
  }

  lemma {:induction false} RepliesTo(table: seq<Entry>, p: Parameter, targets: seq<nat>)
    requires forall i | i in targets :: i < |table|
    ensures var replies := WrittenTo(table, p, targets);
            && |replies| == NamedIn(table, targets, p.name)
            && forall k | 0 <= k < |replies| ::
                 replies[k] == Parameter(p.name, p.value, p.dataType, p.attributes, "Success", 0)
  {
    if targets != [] {
      var front, last := targets[..|targets| - 1], targets[|targets| - 1];
      assert last in targets && forall i | i in front :: i in targets;
      RepliesTo(table, p, front);
    }
  }

  lemma NamedInSnoc(table: seq<Entry>, a: seq<nat>, i: nat, name: string)
    requires (forall j | j in a :: j < |table|) && i < |table|
    ensures forall j | j in a + [i] :: j < |table|
    ensures NamedIn(table, a + [i], name) == NamedIn(table, a, name) + if table[i].name == name then 1 else 0
  {
    assert (a + [i])[..|a|] == a;
  }

  lemma {:induction false} NamedInAppend(table: seq<Entry>, a: seq<nat>, b: seq<nat>, name: string)
    requires (forall i | i in a :: i < |table|) && (forall i | i in b :: i < |table|)
    ensures (forall i | i in a + b :: i < |table|)
    ensures NamedIn(table, a + b, name) == NamedIn(table, a, name) + NamedIn(table, b, name)
    decreases b
  {
    if b == [] {
      assert a + b == a;
    } else {
      var front, last := b[..|b| - 1], b[|b| - 1];
      assert last in b && forall i | i in front :: i in b;
      assert (a + b)[..|a + b| - 1] == a + front && (a + b)[|a + b| - 1] == last;
      NamedInAppend(table, a, front, name);
    }
  }

  lemma WritableBound(table: seq<Entry>, name: string, n: nat)
    requires n <= |table|
    ensures forall i | i in WritableIn(table, name, n) :: i < |table|
  {
    WritableInMeans(table, name, n);
  }

  lemma {:induction false} NamedWritable(table: seq<Entry>, other: string, n: nat, name: string)
    requires n <= |table|
    ensures forall i | i in WritableIn(table, other, n) :: i < |table|
    ensures NamedIn(table, WritableIn(table, other, n), name) ==
            if other == name then |WritableIn(table, other, n)| else 0
  {
    hide NamedIn, Writable;
    WritableBound(table, other, n);
    if n == 0 {
      NamedInNone(table, name);
    } else {
      NamedWritable(table, other, n - 1, name);
      var front := WritableIn(table, other, n - 1);
      if table[n - 1].name == other && Writable(table[n - 1]) {
        NamedInSnoc(table, front, n - 1, name);
      } else {
        assert WritableIn(table, other, n) == front;
      }
    }
  }

  lemma {:induction false} NamedTargets(table: seq<Entry>, request: seq<Parameter>, name: string)
    ensures forall i | i in Targets(table, request) :: i < |table|
    ensures NamedIn(table, Targets(table, request), name) == Times(request, name) * |WritableIn(table, name, |table|)|
  {
    hide WritableIn, NamedIn, Writable;
    if request == [] {
      NamedInNone(table, name);
    } else {
      var front, last := request[..|request| - 1], request[|request| - 1];
      NamedTargets(table, front, name);
      NamedWritable(table, last.name, |table|, name);
      NamedInAppend(table, Targets(table, front), WritableIn(table, last.name, |table|), name);
      OneMoreTime(Times(front, name), |WritableIn(table, name, |table|)|);
    }
  }

  lemma NamedInNone(table: seq<Entry>, name: string)
    ensures NamedIn(table, [], name) == 0
  {
  }

  lemma OneMoreTime(k: nat, n: nat)
    ensures (k + 1) * n == k * n + n
  {
  }

  /** The replies of an accepted SET to one of its parameters: its own value, once for every entry of its name and every
      time that the request has the name. */
  lemma RepliesCount(table: seq<Entry>, request: seq<Parameter>, p: Parameter)
    ensures forall i | i in Targets(table, request) :: i < |table|
    ensures var replies := WrittenTo(table, p, Targets(table, request));
            && |replies| == Times(request, p.name) * |WritableIn(table, p.name, |table|)|
            && forall k | 0 <= k < |replies| ::
                 replies[k] == Parameter(p.name, p.value, p.dataType, p.attributes, "Success", 0)
  {
    hide Targets, WrittenTo, WritableIn, NamedIn, Times;
    NamedTargets(table, request, p.name);
    RepliesTo(table, p, Targets(table, request));
  }
}
