/** Putting together a token that is spread over the lines of a DNS TXT record. */
module TxtRecords {
  import opened Octets

  // ----- index strings -----

  function Digit(d: nat): char
    requires d < 10
  {
    ('0' as int + d) as char
  }

  function Decimal(n: nat): (s: string)
    ensures |s| > 0
  {
    if n < 10 then [Digit(n)] else Decimal(n / 10) + [Digit(n % 10)]
  }

  /** The index with at least two digits. */
  function IndexString(i: nat): string {
    if i < 10 then "0" + Decimal(i) else Decimal(i)
  }

  function Value(s: string): int {
    if s == [] then 0 else Value(s[..|s| - 1]) * 10 + (s[|s| - 1] as int - '0' as int)
  }

  lemma {:induction false} DecimalValue(n: nat)
    ensures Value(Decimal(n)) == n
  {
    if n >= 10 {
      DecimalValue(n / 10);
      assert Decimal(n)[..|Decimal(n)| - 1] == Decimal(n / 10);
    } else {
      assert Value([Digit(n)]) == Value([]) * 10 + n;
    }
  }

  lemma IndexValue(i: nat)
    ensures Value(IndexString(i)) == i
  {
    DecimalValue(i);
    if i < 10 {
      var s := IndexString(i);
      assert s == ['0', Digit(i)];
      assert s[..1] == ['0'];
      assert Value(['0']) == Value([]) * 10 + 0;
    }
  }

  /** Different indices have different strings. */
  lemma IndexInjective(i: nat, j: nat)
    requires IndexString(i) == IndexString(j)
    ensures i == j
  {
    IndexValue(i);
    IndexValue(j);
  }

  // ----- what an index string is -----

  predicate IsDigit(c: char) {
    '0' <= c <= '9'
  }

  /** s writes the number i in decimal, with a leading zero only where two digits call for one. */
  predicate Names(s: string, i: nat) {
    && s != [] && (forall c | c in s :: IsDigit(c)) && Value(s) == i
    && (i < 100 ==> |s| == 2) && (i >= 10 ==> s[0] != '0')
  }

  lemma {:induction false} DecimalDigits(n: nat)
    ensures forall c | c in Decimal(n) :: IsDigit(c)
    ensures n > 0 ==> Decimal(n)[0] != '0'
    ensures n < 10 ==> |Decimal(n)| == 1
    ensures 10 <= n < 100 ==> |Decimal(n)| == 2
  {
    if n >= 10 {
      DecimalDigits(n / 10);
    }
  }

  lemma {:induction false} ValueBound(s: string)
    requires forall c | c in s :: IsDigit(c)
    ensures Value(s) >= 0
    ensures s != [] && s[0] != '0' ==> Value(s) > 0
  {
    if s != [] {
      var front := s[..|s| - 1];
      assert forall c | c in front :: c in s;
      assert IsDigit(s[|s| - 1]);
      ValueBound(front);
      assert front != [] ==> front[0] == s[0];
    }
  }

  lemma DecimalSnoc(q: nat, d: nat)
    requires q > 0 && d < 10
    ensures Decimal(q * 10 + d) == Decimal(q) + [Digit(d)]
  {
    var n := q * 10 + d;
    assert n / 10 == q && n % 10 == d;
  }

  lemma ValueSnoc(front: string, c: char)
    ensures Value(front + [c]) == Value(front) * 10 + (c as int - '0' as int)
  {
    assert (front + [c])[..|front|] == front;
  }

  lemma OneDigit(c: char)
    requires IsDigit(c)
    ensures Value([c]) == c as int - '0' as int && [c] == Decimal(Value([c])) && c == Digit(c as int - '0' as int)
  {
    assert [c][..0] == [];
  }

  /** Digits without a leading zero are the decimal string of their value. */
  lemma {:induction false} DigitsAreDecimal(s: string)
    requires s != [] && (forall c | c in s :: IsDigit(c)) && (|s| > 1 ==> s[0] != '0')
    ensures Value(s) >= 0 && s == Decimal(Value(s))
  {
    hide Value, Decimal;
    var front, last := s[..|s| - 1], s[|s| - 1];
    assert last in s && forall c | c in front :: c in s;
    assert s == front + [last];
    OneDigit(last);
    if front == [] {
      assert s == [last];
    } else {
      assert front[0] == s[0];
      DigitsAreDecimal(front);
      ValueBound(front);
      ValueSnoc(front, last);
      DecimalSnoc(Value(front), last as int - '0' as int);
    }
  }

  lemma TwoDigits(s: string)
    requires |s| == 2
    ensures Value(s) == (s[0] as int - '0' as int) * 10 + (s[1] as int - '0' as int)
  {
    assert s[..1] == [s[0]];
    assert Value([s[0]]) == Value([]) * 10 + (s[0] as int - '0' as int);
  }

  /** The index string is the one string that names the index: decimal digits, at least two, no other leading zero. */
  lemma NamesOnlyIndex(s: string, i: nat)
    ensures Names(s, i) <==> s == IndexString(i)
  {
    IndexValue(i);
    DecimalDigits(i);
    if Names(s, i) {
      if i < 10 {
        TwoDigits(s);
        assert s[0] in s && s[1] in s;
        assert s == ['0', Digit(i)];
      } else {
        DigitsAreDecimal(s);
      }
    }
  }

  // ----- lines -----

  /** strings.Split(line, ":"). */
  function Split(line: string): (segments: seq<string>)
    ensures |segments| > 0
  {
    if line == [] then [[]]
    else
      var rest := Split(line[1..]);
      if line[0] == ':' then [[]] + rest else [[line[0]] + rest[0]] + rest[1..]
  }

  predicate ColonFree(s: string) {
    ':' !in s
  }

  lemma {:induction false} SplitColonFree(s: string)
    requires ColonFree(s)
    ensures Split(s) == [s]
  {
    if s != [] {
      SplitColonFree(s[1..]);
      assert s == [s[0]] + s[1..];
    }
  }

  /** A line made of a key, a colon and a value has those two segments. */
  lemma {:induction false} SplitLine(key: string, value: string)
    requires ColonFree(key) && ColonFree(value)
    ensures Split(key + ":" + value) == [key, value]
  {
    var line := key + ":" + value;
    if key == [] {
      assert line[0] == ':' && line[1..] == value;
      SplitColonFree(value);
    } else {
      SplitLine(key[1..], value);
      assert line[0] == key[0] && line[1..] == key[1..] + ":" + value;
      assert key == [key[0]] + key[1..];
    }
  }

  lemma {:induction false} DecimalColonFree(n: nat)
    ensures ColonFree(Decimal(n))
  {
    if n >= 10 {
      DecimalColonFree(n / 10);
    }
  }

  lemma IndexColonFree(i: nat)
    ensures ColonFree(IndexString(i))
  {
    DecimalColonFree(i);
  }

  // ----- parts -----

  type Parts = map<string, string>

  /** The parts that the lines fill: later lines win, and part 00 is there from the start. */
  function PartsOf(lines: seq<string>): Parts {
    if lines == [] then map["00" := ""] else WithLine(PartsOf(lines[..|lines| - 1]), lines[|lines| - 1])
  }

  function WithLine(parts: Parts, line: string): Parts {
    var segments := Split(line);
    if |segments| != 2 then parts else parts[segments[0] := segments[1]]
  }

  predicate AllPresent(parts: Parts, n: nat) {
    forall i: nat | i < n :: IndexString(i) in parts
  }

  /** The parts 0 .. n-1, one after the other. */
  function Joined(parts: Parts, n: nat): string
    requires AllPresent(parts, n)
  {
    if n == 0 then "" else Joined(parts, n - 1) + parts[IndexString(n - 1)]
  }

  function Indices(n: nat): (s: set<string>)
  {
    set i: nat | i < n :: IndexString(i)
  }

  lemma {:induction false} IndicesSize(n: nat)
    ensures |Indices(n)| == n
  {
    if n > 0 {
      IndicesSize(n - 1);
      var last := IndexString(n - 1);
      assert last !in Indices(n - 1) by {
        forall i: nat | i < n - 1
          ensures IndexString(i) != last
        {
          if IndexString(i) == last {
            IndexInjective(i, n - 1);
          }
        }
      }
      assert Indices(n) == Indices(n - 1) + {last};
    }
  }

  lemma SubsetSize<T>(a: set<T>, b: set<T>)
    requires a <= b
    ensures |a| <= |b|
  {
    assert b == a + (b - a);
  }

  /** There are not more parts present in a row than there are parts. */
  lemma Pigeonhole(parts: Parts, n: nat)
    requires AllPresent(parts, n)
    ensures n <= |parts|
  {
    IndicesSize(n);
    SubsetSize(Indices(n), parts.Keys);
  }

  /** The bound of the source's loop never ends it before the first missing index. */
  lemma BoundIsEnough(parts: Parts, n: nat)
    requires AllPresent(parts, n) && n == |parts|
    ensures IndexString(n) !in parts
  {
    if IndexString(n) in parts {
      Pigeonhole(parts, n + 1);
    }
  }

  /** n is the first index that has no part. */
  predicate FirstMissing(parts: Parts, n: nat) {
    AllPresent(parts, n) && IndexString(n) !in parts
  }

  lemma FirstMissingUnique(parts: Parts, m: nat, n: nat)
    requires FirstMissing(parts, m) && FirstMissing(parts, n)
    ensures m == n
  {
  }

  /** text is the parts joined from 00 up to the first index that is missing. */
  ghost predicate ReassemblesTo(lines: seq<string>, text: string) {
    exists n :: FirstMissing(PartsOf(lines), n) && text == Joined(PartsOf(lines), n)
  }

  method Reassemble(lines: seq<string>) returns (text: string)
    ensures ReassemblesTo(lines, text)
  {
    var parts: Parts := map["00" := ""];
    for k := 0 to |lines|
      invariant parts == PartsOf(lines[..k])
    {
      var segments := Split(lines[k]);
      assert lines[..k + 1][..k] == lines[..k];
      if |segments| == 2 {
        parts := parts[segments[0] := segments[1]];
      }
    }
    assert lines[..|lines|] == lines;
    text := "";
    var i: nat := 0;
    while i < |parts|
      invariant i <= |parts| && AllPresent(parts, i) && text == Joined(parts, i)
    {
      if IndexString(i) !in parts {
        return;
      }
      text := text + parts[IndexString(i)];
      i := i + 1;
    }
    BoundIsEnough(parts, i);
  }

  // ----- a token cut into chunks comes back whole -----

  /** The line that carries chunk j, with indices counted from first. */
  function LineOf(first: nat, chunks: seq<string>, j: nat): string
    requires j < |chunks|
  {
    IndexString(first + j) + ":" + chunks[j]
  }

  /** A line that carries no chunk: malformed, or with a key that is no index up to last. */
  predicate Noise(line: string, last: nat) {
    |Split(line)| != 2 || forall i: nat | i <= last :: Split(line)[0] != IndexString(i)
  }

  predicate IsLine(line: string, first: nat, chunks: seq<string>, j: nat) {
    j < |chunks| && line == LineOf(first, chunks, j)
  }

  ghost predicate LineOk(line: string, first: nat, chunks: seq<string>) {
    Noise(line, first + |chunks|) || exists j :: IsLine(line, first, chunks, j)
  }

  /** The lines are those of the chunks, in any order, possibly repeated, mixed with noise. */
  ghost predicate Carries(lines: seq<string>, first: nat, chunks: seq<string>) {
    && (forall j | 0 <= j < |chunks| :: LineOf(first, chunks, j) in lines)
    && (forall line | line in lines :: LineOk(line, first, chunks))
  }

  lemma LineSegments(first: nat, chunks: seq<string>, j: nat)
    requires j < |chunks| && ColonFree(chunks[j])
    ensures Split(LineOf(first, chunks, j)) == [IndexString(first + j), chunks[j]]
  {
    IndexColonFree(first + j);
    SplitLine(IndexString(first + j), chunks[j]);
  }

  /** A line changes the part of an index only if it is the line of that index's chunk. */
  lemma LineSetsItsPart(parts: Parts, line: string, first: nat, chunks: seq<string>, i: nat)
    requires (forall c | c in chunks :: ColonFree(c)) && LineOk(line, first, chunks) && i <= first + |chunks|
    ensures var after, key := WithLine(parts, line), IndexString(i);
            if first <= i && IsLine(line, first, chunks, i - first) then key in after && after[key] == chunks[i - first]
            else (key in after <==> key in parts) && (key in parts ==> after[key] == parts[key])
  {
    hide Split, IndexString, LineOf;
    var key := IndexString(i);
    if first <= i && IsLine(line, first, chunks, i - first) {
      LineSegments(first, chunks, i - first);
    } else if !Noise(line, first + |chunks|) {
      var j: nat :| IsLine(line, first, chunks, j);
      LineSegments(first, chunks, j);
      if IndexString(first + j) == key {
        IndexInjective(first + j, i);
        assert false;
      }
    }
  }

  /** What the lines make of an index: its chunk, if its line is among them; nothing, if it has no chunk. */
  lemma {:induction false} PartOfChunk(lines: seq<string>, first: nat, chunks: seq<string>, i: nat)
    requires (forall c | c in chunks :: ColonFree(c)) && (forall line | line in lines :: LineOk(line, first, chunks))
    requires i <= first + |chunks|
    ensures var parts, key := PartsOf(lines), IndexString(i);
            && (first <= i < first + |chunks| && LineOf(first, chunks, i - first) in lines ==>
                  key in parts && parts[key] == chunks[i - first])
            && (!(first <= i < first + |chunks|) ==> (key in parts <==> i == 0) && (i == 0 ==> parts[key] == ""))
    decreases lines
  {
    if lines == [] {
      assert IndexString(0) == "00";
      if IndexString(i) == "00" {
        IndexInjective(i, 0);
      }
    } else {
      hide Split, IndexString, LineOf, WithLine;
      var front, line := lines[..|lines| - 1], lines[|lines| - 1];
      assert lines == front + [line];
      assert line in lines && forall l | l in front :: l in lines;
      PartOfChunk(front, first, chunks, i);
      LineSetsItsPart(PartsOf(front), line, first, chunks, i);
    }
  }

  predicate HasChunk(parts: Parts, first: nat, chunks: seq<string>, j: nat) {
    j < |chunks| && IndexString(first + j) in parts && parts[IndexString(first + j)] == chunks[j]
  }

  lemma {:induction false} JoinedChunks(parts: Parts, first: nat, chunks: seq<string>, n: nat)
    requires first <= 1 && n <= |chunks| && AllPresent(parts, first + n)
    requires forall j: nat | j < |chunks| :: HasChunk(parts, first, chunks, j)
    requires first == 1 ==> "00" in parts && parts["00"] == ""
    ensures Joined(parts, first + n) == Concat(chunks[..n])
  {
    assert IndexString(0) == "00";
    if n == 0 {
      if first == 1 {
        assert Joined(parts, 1) == Joined(parts, 0) + parts[IndexString(0)];
      }
      assert chunks[..0] == [];
    } else {
      JoinedChunks(parts, first, chunks, n - 1);
      assert chunks[..n] == chunks[..n - 1] + [chunks[n - 1]];
      assert HasChunk(parts, first, chunks, n - 1);
      ConcatSnoc(chunks[..n - 1], chunks[n - 1]);
    }
  }

  lemma LinesRecovered(lines: seq<string>, first: nat, chunks: seq<string>)
    requires first <= 1 && (forall c | c in chunks :: ColonFree(c)) && (first == 0 ==> chunks != [])
    requires Carries(lines, first, chunks)
    ensures forall text :: ReassemblesTo(lines, text) <==> text == Concat(chunks)
  {
    var parts, n := PartsOf(lines), first + |chunks|;
    forall i: nat | i < n
      ensures IndexString(i) in parts
    {
      PartOfChunk(lines, first, chunks, i);
    }
    PartOfChunk(lines, first, chunks, n);
    PartOfChunk(lines, first, chunks, 0);
    forall j: nat | j < |chunks|
      ensures HasChunk(parts, first, chunks, j)
    {
      PartOfChunk(lines, first, chunks, first + j);
    }
    assert IndexString(0) == "00";
    JoinedChunks(parts, first, chunks, |chunks|);
    assert chunks[..|chunks|] == chunks;
    assert FirstMissing(parts, n) && Joined(parts, n) == Concat(chunks);
    forall m | FirstMissing(parts, m)
      ensures m == n
    {
      FirstMissingUnique(parts, m, n);
    }
  }

  /** A line with a number, a colon and a chunk. */
  ghost predicate Numbered(line: string, n: nat, chunk: string) {
    exists key :: Names(key, n) && line == key + ":" + chunk
  }

  /** A line that carries no chunk: it does not have one colon, or what stands before it is no number up to last. */
  predicate CarriesNothing(line: string, last: nat) {
    |Split(line)| != 2 || forall i: nat | i <= last :: !Names(Split(line)[0], i)
  }

  ghost predicate CarriesOne(line: string, first: nat, chunks: seq<string>) {
    exists j :: 0 <= j < |chunks| && Numbered(line, first + j, chunks[j])
  }

  ghost predicate HasLine(lines: seq<string>, n: nat, chunk: string) {
    exists line :: line in lines && Numbered(line, n, chunk)
  }

  lemma NumberedIs(line: string, n: nat, chunk: string)
    ensures Numbered(line, n, chunk) <==> line == IndexString(n) + ":" + chunk
  {
    NamesOnlyIndex(IndexString(n), n);
    if Numbered(line, n, chunk) {
      var key :| Names(key, n) && line == key + ":" + chunk;
      NamesOnlyIndex(key, n);
    }
  }

  /** Any text cut into chunks without colons, numbered from 0 or from 1 in decimal with at least two digits, its lines
      in any order, repeated or mixed with lines that carry nothing, is put together again exactly. */
  lemma TokenRecovered(lines: seq<string>, first: nat, chunks: seq<string>)
    requires first <= 1 && (forall c | c in chunks :: ColonFree(c)) && (first == 0 ==> chunks != [])
    requires forall j | 0 <= j < |chunks| :: HasLine(lines, first + j, chunks[j])
    requires forall line | line in lines ::
               CarriesNothing(line, first + |chunks|) || CarriesOne(line, first, chunks)
    ensures forall text :: ReassemblesTo(lines, text) <==> text == Concat(chunks)
  {
    hide LineOf, LineOk, HasLine, CarriesNothing, CarriesOne, ReassemblesTo, Concat, ColonFree;
    forall j | 0 <= j < |chunks|
      ensures LineOf(first, chunks, j) in lines
    {
      LineIsThere(lines, first, chunks, j);
    }
    forall line | line in lines
      ensures LineOk(line, first, chunks)
    {
      LineFits(line, first, chunks);
    }
    LinesRecovered(lines, first, chunks);
  }

  lemma LineIsThere(lines: seq<string>, first: nat, chunks: seq<string>, j: nat)
    requires j < |chunks| && HasLine(lines, first + j, chunks[j])
    ensures LineOf(first, chunks, j) in lines
  {
    hide Numbered, IndexString;
    var line :| line in lines && Numbered(line, first + j, chunks[j]);
    NumberedIs(line, first + j, chunks[j]);
  }

  lemma LineFits(line: string, first: nat, chunks: seq<string>)
    requires CarriesNothing(line, first + |chunks|) || CarriesOne(line, first, chunks)
    ensures LineOk(line, first, chunks)
  {
    hide Numbered, IndexString, CarriesNothing, Noise;
    if CarriesNothing(line, first + |chunks|) {
      NothingIsNoise(line, first + |chunks|);
    } else {
      var j :| 0 <= j < |chunks| && Numbered(line, first + j, chunks[j]);
      NumberedIs(line, first + j, chunks[j]);
      assert IsLine(line, first, chunks, j);
    }
  }

  lemma NothingIsNoise(line: string, last: nat)
    requires CarriesNothing(line, last)
    ensures Noise(line, last)
  {
    hide Split, Names, IndexString;
    forall i: nat | i <= last && |Split(line)| == 2
      ensures Split(line)[0] != IndexString(i)
    {
      NamesOnlyIndex(Split(line)[0], i);
    }
  }
}
