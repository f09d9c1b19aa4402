/** HTTP response headers parsing (`RsHeaders`): the head of a response is a
    status line followed by `Name: value` lines; the parser turns it into a
    table from lower-cased, trimmed names to the values of every line with
    that name, in line order, and `Base` and `Smart` answer queries over it. */
module RsHeaders {
  import opened Wrappers
  import opened Text

  /** The parsed head: canonical header name to its values, in line order. */
  type Table = map<string, seq<string>>

  /** The HTTP status carried by every failure below. */
  const HttpBadRequest := 400

  /** The failures the parser and the mandatory lookup raise. */
  datatype HttpError =
    | EmptyHead
    | InvalidHeader(line: string)
    | MandatoryMissing(name: string, known: set<string>)
  {
    function Status(): int {
      HttpBadRequest
    }

    /** The diagnostic text; for `MandatoryMissing` only up to the list of
        known names, whose rendering depends on hash order. */
    function Message(): string {
      match this
      case EmptyHead => "a valid response must contain at least one line in the head"
      case InvalidHeader(line) => "invalid HTTP header: \"" + line + "\""
      case MandatoryMissing(name, _) => "header \"" + name + "\" is mandatory, not found among "
    }
  }

  /** `line.split(":", 2)` when it yields two parts, `None` when it yields one. */
  function Split(line: string): (r: Option<(string, string)>) {
    IndexOfSpec(line, ':');
    match IndexOf(line, ':')
    case None => None
    case Some(i) => Some((line[..i], line[i + 1..]))
  }

  /** A line the parser accepts after the status line: one that splits in two. */
  predicate IsHeaderLine(line: string) {
    Split(line).Some?
  }

  /** A line splits exactly when it holds a colon; the parts put back
      together around a colon give the line, and the first holds no colon. */
  lemma SplitSpec(line: string)
    ensures IsHeaderLine(line) <==> ':' in line
    ensures IsHeaderLine(line) ==>
      var (name, value) := Split(line).value;
      line == name + ":" + value && ':' !in name
  {
    IndexOfSpec(line, ':');
    if IndexOf(line, ':').Some? {
      var i := IndexOf(line, ':').value;
      assert line == line[..i] + [line[i]] + line[i + 1..];
    }
  }

  predicate AllHeaderLines(lines: seq<string>) {
    forall i :: 0 <= i < |lines| ==> IsHeaderLine(lines[i])
  }

  /** The canonical name of a header line: its part before the first colon,
      trimmed and lower-cased. */
  function Name(line: string): (r: string)
    requires IsHeaderLine(line)
  {
    Lower(Trim(Split(line).value.0))
  }

  /** The value of a header line: its part after the first colon, trimmed. */
  function Value(line: string): (r: string)
    requires IsHeaderLine(line)
  {
    Trim(Split(line).value.1)
  }

  /** `map.getOrDefault(key, Collections.emptyList())`. */
  function Lookup(t: Table, key: string): (r: seq<string>) {
    if key in t then t[key] else []
  }

  /** Appending one value to the list of `key`, creating it when new. */
  function Append(t: Table, key: string, value: string): (r: Table)
    ensures r.Keys == t.Keys + {key}
    ensures forall k :: Lookup(r, k) == Lookup(t, k) + (if k == key then [value] else [])
  {
    t[key := Lookup(t, key) + [value]]
  }

  /** The parsing loop over the header lines, from the table built so far:
      the first line without a colon ends it with a failure. */
  function Fold(t: Table, lines: seq<string>): (r: Result<Table, HttpError>)
    decreases |lines|
  {
    if lines == [] then Success(t)
    else
      if !IsHeaderLine(lines[0]) then Failure(InvalidHeader(lines[0]))
      else Fold(Append(t, Name(lines[0]), Value(lines[0])), lines[1..])
  }

  /** The whole parse of a head: the status line is required and skipped. */
  function Parse(head: seq<string>): (r: Result<Table, HttpError>) {
    if head == [] then Failure(EmptyHead) else Fold(map[], head[1..])
  }

  // Reference definitions of the parsed table, independent of the loop.

  /** The canonical names of some header lines. */
  function NamesOf(lines: seq<string>): (r: set<string>)
    requires AllHeaderLines(lines)
  {
    set i | 0 <= i < |lines| :: Name(lines[i])
  }

  /** The values of the lines whose canonical name is `key`, in line order,
      duplicates included. */
  function ValuesOf(lines: seq<string>, key: string): (r: seq<string>)
    requires AllHeaderLines(lines)
  {
    if lines == [] then []
    else
      AllHeaderLinesTail(lines);
      (if Name(lines[0]) == key then [Value(lines[0])] else []) + ValuesOf(lines[1..], key)
  }

  /** Splitting happens at the first colon only: the name side cannot hold a
      colon, the value side may hold any number of them, and may be empty. */
  lemma SplitAtFirstColon(prefix: string, suffix: string)
    requires ':' !in prefix
    ensures IsHeaderLine(prefix + ":" + suffix)
    ensures Name(prefix + ":" + suffix) == Lower(Trim(prefix))
    ensures Value(prefix + ":" + suffix) == Trim(suffix)
  {
    var line := prefix + ":" + suffix;
    var n := |prefix|;
    assert line[n] == ':';
    assert line[..n] == prefix;
    IndexOfSpec(line, ':');
    forall j | n < j <= |line| ensures ':' in line[..j] {
      assert line[..j][n] == ':';
    }
    forall j | 0 <= j < n ensures line[j] != ':' {
      assert line[j] == prefix[j];
    }
    var i := IndexOf(line, ':').value;
    assert i == n;
    assert line[n + 1..] == suffix;
  }

  lemma NamesOfCons(lines: seq<string>)
    requires lines != [] && AllHeaderLines(lines)
    ensures NamesOf(lines) == {Name(lines[0])} + NamesOf(lines[1..])
  {
    var rest := lines[1..];
    forall k | k in NamesOf(lines) ensures k in {Name(lines[0])} + NamesOf(rest) {
      var i :| 0 <= i < |lines| && Name(lines[i]) == k;
      if i > 0 { assert rest[i - 1] == lines[i]; }
    }
    forall k | k in NamesOf(rest) ensures k in NamesOf(lines) {
      var i :| 0 <= i < |rest| && Name(rest[i]) == k;
      assert lines[i + 1] == rest[i];
    }
  }

  /** The loop is fail-fast: the first line without a colon decides the
      outcome, whatever follows it. */
  lemma {:induction false} FoldFailsAt(t: Table, lines: seq<string>, j: nat)
    requires j < |lines| && !IsHeaderLine(lines[j])
    requires forall i :: 0 <= i < j ==> IsHeaderLine(lines[i])
    ensures Fold(t, lines) == Failure(InvalidHeader(lines[j]))
    decreases j
  {
    if j > 0 {
      FoldFailsAt(Append(t, Name(lines[0]), Value(lines[0])), lines[1..], j - 1);
    }
  }

  /** One step of the loop over a line with a colon. */
  lemma FoldStep(t: Table, lines: seq<string>)
    requires lines != [] && IsHeaderLine(lines[0])
    ensures Fold(t, lines) == Fold(Append(t, Name(lines[0]), Value(lines[0])), lines[1..])
  {
  }

  lemma ValuesOfCons(lines: seq<string>, key: string)
    requires lines != [] && AllHeaderLines(lines)
    ensures ValuesOf(lines, key) == (if Name(lines[0]) == key then [Value(lines[0])] else []) + ValuesOf(lines[1..], key)
  {
  }

  /** When every line has a colon, the loop appends to each name's list
      exactly that name's values, in line order, behind the ones it held. */
  lemma {:induction false} FoldValues(t: Table, lines: seq<string>, key: string)
    requires AllHeaderLines(lines)
    ensures Fold(t, lines).Success?
    ensures Lookup(Fold(t, lines).value, key) == Lookup(t, key) + ValuesOf(lines, key)
    decreases |lines|
  {
    if lines != [] {
      var rest := lines[1..];
      var t' := Append(t, Name(lines[0]), Value(lines[0]));
      AllHeaderLinesTail(lines);
      FoldValues(t', rest, key);
      FoldStep(t, lines);
      ValuesOfCons(lines, key);
      var own := if key == Name(lines[0]) then [Value(lines[0])] else [];
      assert Lookup(t', key) == Lookup(t, key) + own;
      SeqAssoc(Lookup(t, key), own, ValuesOf(rest, key));
    }
  }

  /** Concatenation regroups; a separate lemma keeps the solver from
      unfolding `ValuesOf` and `Lookup` while it regroups. */
  lemma SeqAssoc(a: seq<string>, b: seq<string>, c: seq<string>)
    ensures a + b + c == a + (b + c)
  {
  }

  /** When every line has a colon, the loop adds exactly the names of the
      lines to the table's keys. */
  lemma {:induction false} FoldKeys(t: Table, lines: seq<string>)
    requires AllHeaderLines(lines)
    ensures Fold(t, lines).Success?
    ensures Fold(t, lines).value.Keys == t.Keys + NamesOf(lines)
    decreases |lines|
  {
    if lines == [] {
      assert NamesOf(lines) == {};
    } else {
      var t' := Append(t, Name(lines[0]), Value(lines[0]));
      AllHeaderLinesTail(lines);
      FoldKeys(t', lines[1..]);
      FoldStep(t, lines);
      NamesOfCons(lines);
    }
  }

  lemma AllHeaderLinesCons(lines: seq<string>)
    requires lines != [] && IsHeaderLine(lines[0]) && AllHeaderLines(lines[1..])
    ensures AllHeaderLines(lines)
  {
    forall i | 0 <= i < |lines| ensures IsHeaderLine(lines[i]) {
      if i > 0 { assert lines[i] == lines[1..][i - 1]; }
    }
  }

  /** A line without a colon after the status line fails the whole parse. */
  lemma {:induction false} FoldSucceedsIff(t: Table, lines: seq<string>)
    ensures Fold(t, lines).Success? <==> AllHeaderLines(lines)
    decreases |lines|
  {
    if lines != [] && IsHeaderLine(lines[0]) {
      FoldSucceedsIff(Append(t, Name(lines[0]), Value(lines[0])), lines[1..]);
      FoldStep(t, lines);
      if AllHeaderLines(lines[1..]) {
        AllHeaderLinesCons(lines);
      } else {
        assert !AllHeaderLines(lines) by {
          if AllHeaderLines(lines) { AllHeaderLinesTail(lines); }
        }
      }
    }
  }

  /** Every name present has at least one value, and only present names do. */
  lemma {:induction false} ValuesOfEmptyIff(lines: seq<string>, key: string)
    requires AllHeaderLines(lines)
    ensures ValuesOf(lines, key) == [] <==> key !in NamesOf(lines)
    decreases |lines|
  {
    if lines != [] {
      NamesOfCons(lines);
      ValuesOfEmptyIff(lines[1..], key);
    }
  }

  lemma AllHeaderLinesConcat(a: seq<string>, b: seq<string>)
    requires AllHeaderLines(a) && AllHeaderLines(b)
    ensures AllHeaderLines(a + b)
  {
    forall i | 0 <= i < |a + b| ensures IsHeaderLine((a + b)[i]) {
      if i >= |a| { assert (a + b)[i] == b[i - |a|]; }
    }
  }

  lemma AllHeaderLinesTail(lines: seq<string>)
    requires lines != [] && AllHeaderLines(lines)
    ensures AllHeaderLines(lines[1..])
  {
    forall i | 0 <= i < |lines| - 1 ensures IsHeaderLine(lines[1..][i]) {
      assert lines[1..][i] == lines[i + 1];
    }
  }

  /** Values of earlier lines come before values of later lines. */
  lemma {:induction false} ValuesOfConcat(a: seq<string>, b: seq<string>, key: string)
    requires AllHeaderLines(a) && AllHeaderLines(b)
    ensures AllHeaderLines(a + b)
    ensures ValuesOf(a + b, key) == ValuesOf(a, key) + ValuesOf(b, key)
    decreases |a|
  {
    AllHeaderLinesConcat(a, b);
    if a == [] {
      assert a + b == b;
    } else {
      AllHeaderLinesTail(a);
      assert (a + b)[1..] == a[1..] + b;
      assert (a + b)[0] == a[0];
      ValuesOfConcat(a[1..], b, key);
      var own := if Name(a[0]) == key then [Value(a[0])] else [];
      assert ValuesOf(a + b, key) == own + ValuesOf(a[1..] + b, key);
      assert own + (ValuesOf(a[1..], key) + ValuesOf(b, key)) == (own + ValuesOf(a[1..], key)) + ValuesOf(b, key);
    }
  }

  /** The empty head is rejected with its one diagnostic. */
  lemma ParseEmptyHead()
    ensures Parse([]) == Failure(EmptyHead)
    ensures Parse([]).error.Message() == "a valid response must contain at least one line in the head"
  {
  }

  /** The status line never contributes, even when it holds a colon. */
  lemma StatusLineIgnored(status: string, other: string, lines: seq<string>)
    ensures Parse([status] + lines) == Parse([other] + lines)
  {
    assert ([status] + lines)[1..] == lines == ([other] + lines)[1..];
  }

  /** A head parses exactly when it has a status line and every later line
      has a colon. */
  lemma ParseSucceedsIff(head: seq<string>)
    ensures Parse(head).Success? <==> |head| > 0 && AllHeaderLines(head[1..])
  {
    if head != [] {
      FoldSucceedsIff(map[], head[1..]);
    }
  }

  /** The first line after the status line without a colon is the one the
      failure quotes, verbatim: the parser does not skip it and go on. */
  lemma ParseFailsFast(head: seq<string>, j: nat)
    requires 1 <= j < |head| && !IsHeaderLine(head[j])
    requires forall i :: 1 <= i < j ==> IsHeaderLine(head[i])
    ensures Parse(head) == Failure(InvalidHeader(head[j]))
    ensures Parse(head).error.Message() == "invalid HTTP header: \"" + head[j] + "\""
  {
    FoldFailsAt(map[], head[1..], j - 1);
  }

  /** The table of a head that parses: its keys are the canonical names of
      lines 1..N, and each key holds the values of its lines, in order,
      duplicates included, never an empty list. */
  lemma ParseTable(head: seq<string>)
    requires |head| > 0 && AllHeaderLines(head[1..])
    ensures Parse(head).Success?
    ensures Parse(head).value.Keys == NamesOf(head[1..])
    ensures forall k :: Lookup(Parse(head).value, k) == ValuesOf(head[1..], k)
    ensures forall k :: k in Parse(head).value ==> Parse(head).value[k] != []
  {
    FoldKeys(map[], head[1..]);
    forall k ensures Lookup(Parse(head).value, k) == ValuesOf(head[1..], k) {
      FoldValues(map[], head[1..], k);
    }
    forall k | k in Parse(head).value ensures Parse(head).value[k] != [] {
      ValuesOfEmptyIff(head[1..], k);
    }
  }

  /** Creating an empty list for a new name, then adding to it, is `Append`. */
  lemma NewKeyAppend(t: Table, key: string, value: string)
    requires key !in t
    ensures t[key := []][key := [] + [value]] == Append(t, key, value)
  {
  }

  /** `RsHeaders.Base`: a response whose head is parsed on every query. */
  datatype Base = Base(head: seq<string>) {

    /** `map()`: the loop that builds the table, fail-fast. */
    method Map() returns (r: Result<Table, HttpError>)
      ensures r == Parse(head)
    {
      if |head| == 0 {
        return Failure(EmptyHead);
      }
      var table: Table := map[];
      var i := 1;
      while i < |head|
        invariant 1 <= i <= |head|
        invariant Fold(table, head[i..]) == Parse(head)
      {
        var line := head[i];
        var parts := Split(line);
        if parts.None? {
          assert head[i..][0] == line;
          return Failure(InvalidHeader(line));
        }
        var key, value := Lower(Trim(parts.value.0)), Trim(parts.value.1);
        ghost var before := table;
        if key !in table {
          table := table[key := []];
          NewKeyAppend(before, key, value);
        }
        table := table[key := table[key] + [value]];
        assert head[i..][0] == line && head[i..][1..] == head[i + 1..];
        FoldStep(before, head[i..]);
        i := i + 1;
      }
      return Success(table);
    }

    /** `header(key)`: the values of the lines named like `key` once it is
        lower-cased (but not trimmed), or an empty list. */
    function Header(key: string): (r: Result<seq<string>, HttpError>)
      ensures r.Failure? <==> Parse(head).Failure?
      ensures r.Failure? ==> r.error == Parse(head).error
      ensures |head| > 0 && AllHeaderLines(head[1..]) ==> r == Success(ValuesOf(head[1..], Lower(key)))
    {
      ParseSucceedsIff(head);
      match Parse(head)
      case Failure(e) => Failure(e)
      case Success(t) =>
        ParseTable(head);
        Success(Lookup(t, Lower(key)))
    }

    /** `names()`: the keys of the parsed table. */
    function Names(): (r: Result<set<string>, HttpError>)
      ensures r.Failure? <==> Parse(head).Failure?
      ensures r.Failure? ==> r.error == Parse(head).error
      ensures |head| > 0 && AllHeaderLines(head[1..]) ==> r == Success(NamesOf(head[1..]))
    {
      ParseSucceedsIff(head);
      match Parse(head)
      case Failure(e) => Failure(e)
      case Success(t) =>
        ParseTable(head);
        Success(t.Keys)
    }
  }

  /** Lookups ignore the case of the queried name. */
  lemma HeaderCaseInsensitive(b: Base, key: string)
    ensures b.Header(key) == b.Header(Lower(key))
  {
    LowerIdempotent(key);
  }

  /** `RsHeaders.Smart`: single-value lookups over a `Base`. */
  datatype Smart = Smart(origin: Base) {

    /** `header(name)`, delegated: what the wrapped headers answer. */
    function Header(name: string): (r: Result<seq<string>, HttpError>)
      ensures r.Failure? <==> Parse(origin.head).Failure?
      ensures r.Failure? ==> r.error == Parse(origin.head).error
      ensures |origin.head| > 0 && AllHeaderLines(origin.head[1..]) ==>
        r == Success(ValuesOf(origin.head[1..], Lower(name)))
    {
      origin.Header(name)
    }

    /** `names()`, delegated: what the wrapped headers answer. */
    function Names(): (r: Result<set<string>, HttpError>)
      ensures r.Failure? <==> Parse(origin.head).Failure?
      ensures r.Failure? ==> r.error == Parse(origin.head).error
      ensures |origin.head| > 0 && AllHeaderLines(origin.head[1..]) ==>
        r == Success(NamesOf(origin.head[1..]))
    {
      origin.Names()
    }

    /** `single(name)`: the first value, or a failure naming the header. */
    function Single(name: string): (r: Result<string, HttpError>)
      ensures Parse(origin.head).Failure? ==> r == Failure(Parse(origin.head).error)
      ensures |origin.head| > 0 && AllHeaderLines(origin.head[1..]) ==>
        var values := ValuesOf(origin.head[1..], Lower(name));
        r == if values == [] then Failure(MandatoryMissing(name, NamesOf(origin.head[1..])))
             else Success(values[0])
    {
      match Header(name)
      case Failure(e) => Failure(e)
      case Success(values) =>
        if values == [] then Failure(MandatoryMissing(name, Names().value))
        else Success(values[0])
    }

    /** `single(name, def)`: the first value, or `def` as given. */
    function SingleOr(name: string, def: string): (r: Result<string, HttpError>)
      ensures Parse(origin.head).Failure? ==> r == Failure(Parse(origin.head).error)
      ensures |origin.head| > 0 && AllHeaderLines(origin.head[1..]) ==>
        var values := ValuesOf(origin.head[1..], Lower(name));
        r == Success(if values == [] then def else values[0])
    {
      match Header(name)
      case Failure(e) => Failure(e)
      case Success(values) =>
        if values == [] then Success(def) else Success(values[0])
    }
  }

  /** On a head that parses, an absent header makes `single(name)` fail with
      the name and the known names, and `single(name, def)` return `def`. */
  lemma SingleAbsent(s: Smart, name: string, def: string)
    requires |s.origin.head| > 0 && AllHeaderLines(s.origin.head[1..])
    requires Lower(name) !in NamesOf(s.origin.head[1..])
    ensures s.Single(name) == Failure(MandatoryMissing(name, NamesOf(s.origin.head[1..])))
    ensures s.Single(name).error.Message() == "header \"" + name + "\" is mandatory, not found among "
    ensures s.SingleOr(name, def) == Success(def)
  {
    ValuesOfEmptyIff(s.origin.head[1..], Lower(name));
  }

  /** On a head that parses, a present header makes both `single` forms
      return its first value, ignoring the default. */
  lemma SinglePresent(s: Smart, name: string, def: string)
    requires |s.origin.head| > 0 && AllHeaderLines(s.origin.head[1..])
    requires Lower(name) in NamesOf(s.origin.head[1..])
    ensures s.Single(name).Success?
    ensures s.SingleOr(name, def) == s.Single(name)
    ensures s.Single(name).value == ValuesOf(s.origin.head[1..], Lower(name))[0]
  {
    ValuesOfEmptyIff(s.origin.head[1..], Lower(name));
  }
  // Consequences for particular heads.

  /** Two lines with the same canonical name give that name both values,
      first line first; no other name appears. */
  lemma RepeatedName(status: string, first: string, second: string, key: string)
    requires IsHeaderLine(first) && IsHeaderLine(second)
    requires Name(first) == Lower(key) && Name(second) == Lower(key)
    ensures Base([status, first, second]).Header(key) == Success([Value(first), Value(second)])
    ensures Base([status, first, second]).Names() == Success({Lower(key)})
  {
    var head := [status, first, second];
    var lines := [first, second];
    var rest := [second];
    assert head[1..] == lines && lines[1..] == rest && rest[1..] == [];
    assert AllHeaderLines(lines);
    assert ValuesOf(rest[1..], Lower(key)) == [];
    ValuesOfCons(rest, Lower(key));
    ValuesOfCons(lines, Lower(key));
    assert ValuesOf(lines, Lower(key)) == [Value(first)] + [Value(second)] == [Value(first), Value(second)];
    assert NamesOf(lines) == {Lower(key)} by {
      NamesOfCons(lines);
      NamesOfCons(rest);
      assert NamesOf(rest[1..]) == {};
    }
    var b := Base(head);
    assert b.Header(key) == Success(ValuesOf(lines, Lower(key)));
    assert b.Names() == Success(NamesOf(lines));
  }

  /** An empty line after the status line is not skipped: it fails the
      whole parse, whatever follows it. */
  lemma EmptyLineRejected(status: string, rest: seq<string>)
    ensures Parse([status, ""] + rest) == Failure(InvalidHeader(""))
    ensures Parse([status, ""] + rest).error.Message() == "invalid HTTP header: \"\""
  {
    var head := [status, ""] + rest;
    assert head[1] == "";
    ParseFailsFast(head, 1);
  }

  /** Stored names never start with a blank. */
  lemma NameStartsSignificant(line: string)
    requires IsHeaderLine(line)
    ensures Name(line) == [] || !IsTrimmable(Name(line)[0])
  {
    var trimmed := Trim(Split(line).value.0);
    TrimSpec(Split(line).value.0);
    LowerSpec(trimmed);
  }

  /** The queried name is lower-cased but not trimmed: a query that starts
      with a blank finds no value, whatever the head. */
  lemma QueryNotTrimmed(b: Base, key: string)
    requires key != [] && IsTrimmable(key[0])
    requires |b.head| > 0 && AllHeaderLines(b.head[1..])
    ensures b.Header(key) == Success([])
  {
    var lines := b.head[1..];
    LowerSpec(key);
    if Lower(key) in NamesOf(lines) {
      var i :| 0 <= i < |lines| && Name(lines[i]) == Lower(key);
      NameStartsSignificant(lines[i]);
    }
    ValuesOfEmptyIff(lines, Lower(key));
  }
}
