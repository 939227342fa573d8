/** Parsing of `KEY=VALUE` parameter lines, shared by the parameter file
    (`parseParamsFile`) and the explicit `-p` tokens of `createApp`.
    A line is accepted when it contains '='; it is split on every '=' and the
    first two pieces become key and value, so text after a second '=' is lost. */
module Params {
  import opened Wrappers
  import opened GoStrings

  datatype Entry = Entry(key: string, value: string)

  /** The entry one line or token contributes, if any. */
  function ParseEntry(line: string): (e: Option<Entry>)
    ensures e.Some? <==> '=' in line
  {
    if '=' in line then
      var v := Split(line, '=');
      Some(Entry(v[0], v[1]))
    else None
  }

  /** `line` reads `key=value`, possibly followed by a further `=...`, with
      neither `key` nor `value` containing '='. */
  predicate SplitsAt(line: string, key: string, value: string)
  {
    && '=' !in key
    && '=' !in value
    && (|| line == key + "=" + value
        || (&& |line| >= |key| + |value| + 2
            && line[..|key| + |value| + 2] == key + "=" + value + "="))
  }

  /** The line assigns `key` (it has an entry and that entry names `key`). */
  predicate DefinesKey(line: string, key: string)
  {
    ParseEntry(line).Some? && ParseEntry(line).value.key == key
  }

  /** Some line of `lines` assigns `key`. */
  predicate Defined(lines: seq<string>, key: string)
  {
    exists j :: 0 <= j < |lines| && DefinesKey(lines[j], key)
  }

  /** A key is defined by a non-empty list iff by its head or its tail. */
  lemma DefinedCons(lines: seq<string>)
    requires |lines| > 0
    ensures forall k :: Defined(lines, k) <==> DefinesKey(lines[0], k) || Defined(lines[1..], k)
  {
  }

  /** One iteration of the parse loop: store the line's entry, if any,
      overwriting an earlier value of the same key. */
  function Put(m: map<string, string>, line: string): (r: map<string, string>)
    ensures '=' !in line ==> r == m
    ensures forall k {:trigger k in r} :: k in r <==> k in m || DefinesKey(line, k)
    ensures forall k :: k in m && !DefinesKey(line, k) ==> r[k] == m[k]
    ensures ParseEntry(line).Some? ==>
              ParseEntry(line).value.key in r && r[ParseEntry(line).value.key] == ParseEntry(line).value.value
  {
    match ParseEntry(line)
    case None => m
    case Some(e) => m[e.key := e.value]
  }

  /** The parse loop run over `lines` in order, starting from `base`. */
  function Assign(base: map<string, string>, lines: seq<string>): (r: map<string, string>)
    ensures forall k {:trigger k in r} :: k in r <==> k in base || Defined(lines, k)
    decreases |lines|
  {
    if |lines| == 0 then base
    else
      DefinedCons(lines);
      Assign(Put(base, lines[0]), lines[1..])
  }

  /** `parseParamsFile` once the file has been read: split on newlines and
      fold every line into an initially empty map. */
  function ParseParams(data: string): (r: map<string, string>)
    ensures forall k {:trigger k in r} :: k in r <==> Defined(Split(data, '\n'), k)
  {
    var lines := Split(data, '\n');
    Assign(map[], lines)
  }

  /** What `ParseEntry` returns reads off the line as `SplitsAt` describes. */
  lemma ParseEntrySound(line: string)
    requires '=' in line
    ensures SplitsAt(line, ParseEntry(line).value.key, ParseEntry(line).value.value)
  {
  }

  /** Joining a key and a value gives `key=value`. */
  lemma JoinPair(key: string, value: string)
    ensures Join([key, value], '=') == key + "=" + value
  {
    assert [key, value][1..] == [value];
  }

  /** Joining a key, a value and further pieces gives `key=value=...`. */
  lemma JoinPairAndTail(key: string, value: string, tail: seq<string>)
    requires |tail| >= 1
    ensures Join([key, value] + tail, '=') == (key + "=" + value + "=") + Join(tail, '=')
  {
    var parts := [key, value] + tail;
    assert parts[2..] == tail;
    JoinThreeOrMore(parts, '=');
  }

  /** A line `key=value=rest` is the join of key, value and pieces that join
      to `rest`. */
  lemma JoinLongerLine(line: string, key: string, value: string, tail: seq<string>)
    requires |line| >= |key| + |value| + 2
    requires line[..|key| + |value| + 2] == key + "=" + value + "="
    requires |tail| >= 1 && Join(tail, '=') == line[|key| + |value| + 2..]
    ensures Join([key, value] + tail, '=') == line
  {
    var n := |key| + |value| + 2;
    JoinPairAndTail(key, value, tail);
    assert line == line[..n] + line[n..];
  }

  /** The pieces of a line `key=value=rest`: key, value, then the pieces of
      `rest`. */
  lemma LongerLinePieces(line: string, key: string, value: string) returns (parts: seq<string>)
    requires '=' !in key && '=' !in value
    requires |line| >= |key| + |value| + 2
    requires line[..|key| + |value| + 2] == key + "=" + value + "="
    ensures |parts| >= 2 && parts[0] == key && parts[1] == value
    ensures forall i :: 0 <= i < |parts| ==> '=' !in parts[i]
    ensures Join(parts, '=') == line
  {
    var tail := Split(line[|key| + |value| + 2..], '=');
    JoinLongerLine(line, key, value, tail);
    parts := [key, value] + tail;
    forall i | 2 <= i < |parts|
      ensures '=' !in parts[i]
    {
      assert parts[i] == tail[i - 2];
    }
  }

  /** The pieces a line read as `SplitsAt` describes split into. */
  lemma SplitsAtPieces(line: string, key: string, value: string) returns (parts: seq<string>)
    requires SplitsAt(line, key, value)
    ensures |parts| >= 2 && parts[0] == key && parts[1] == value
    ensures forall i :: 0 <= i < |parts| ==> '=' !in parts[i]
    ensures Join(parts, '=') == line
  {
    if line == key + "=" + value {
      parts := [key, value];
      JoinPair(key, value);
    } else {
      parts := LongerLinePieces(line, key, value);
    }
  }

  /** Every key/value pair that `SplitsAt` admits is what `ParseEntry`
      returns. */
  lemma ParseEntryComplete(line: string, key: string, value: string)
    requires SplitsAt(line, key, value)
    ensures ParseEntry(line) == Some(Entry(key, value))
  {
    assert line[|key|] == '=';
    var parts := SplitsAtPieces(line, key, value);
    SplitUnique(line, '=', parts);
  }

  /** An accepted line yields exactly the text before its first '=' as key
      and the text between its first and second '=' as value. */
  lemma ParseEntryIff(line: string, key: string, value: string)
    ensures ParseEntry(line) == Some(Entry(key, value)) <==> SplitsAt(line, key, value)
  {
    if ParseEntry(line) == Some(Entry(key, value)) {
      ParseEntrySound(line);
    }
    if SplitsAt(line, key, value) {
      ParseEntryComplete(line, key, value);
    }
  }

  /** The fold leaves untouched every key that no line defines. */
  lemma {:induction false} AssignUntouched(base: map<string, string>, lines: seq<string>, key: string)
    requires forall j :: 0 <= j < |lines| ==> !DefinesKey(lines[j], key)
    ensures key in Assign(base, lines) <==> key in base
    ensures key in base ==> Assign(base, lines)[key] == base[key]
    decreases |lines|
  {
    if |lines| > 0 {
      assert !DefinesKey(lines[0], key);
      AssignUntouched(Put(base, lines[0]), lines[1..], key);
    }
  }

  /** The last line that defines a key decides its value. */
  lemma {:induction false} AssignLastWins(base: map<string, string>, lines: seq<string>, i: nat, key: string, value: string)
    requires i < |lines|
    requires ParseEntry(lines[i]) == Some(Entry(key, value))
    requires forall j :: i < j < |lines| ==> !DefinesKey(lines[j], key)
    ensures key in Assign(base, lines) && Assign(base, lines)[key] == value
    decreases |lines|
  {
    if i == 0 {
      AssignUntouched(Put(base, lines[0]), lines[1..], key);
    } else {
      AssignLastWins(Put(base, lines[0]), lines[1..], i - 1, key, value);
    }
  }

  /** A line without '=' contributes nothing, wherever it stands: removing it
      leaves the result unchanged. */
  lemma {:induction false} AssignSkipsInert(base: map<string, string>, pre: seq<string>, line: string, post: seq<string>)
    requires '=' !in line
    ensures Assign(base, pre + [line] + post) == Assign(base, pre + post)
    decreases |pre|
  {
    if |pre| == 0 {
      assert pre + [line] + post == [line] + post;
      assert ([line] + post)[1..] == post;
      assert pre + post == post;
    } else {
      assert (pre + [line] + post)[1..] == pre[1..] + [line] + post;
      assert (pre + post)[1..] == pre[1..] + post;
      AssignSkipsInert(Put(base, pre[0]), pre[1..], line, post);
    }
  }

  /** Folding onto a non-empty base is the same as folding onto the empty map
      and then overriding the base with the result. */
  lemma {:induction false} AssignOverBase(base: map<string, string>, lines: seq<string>)
    ensures Assign(base, lines) == base + Assign(map[], lines)
    decreases |lines|
  {
    if |lines| > 0 {
      var rest := Assign(map[], lines[1..]);
      AssignOverBase(Put(base, lines[0]), lines[1..]);
      AssignOverBase(Put(map[], lines[0]), lines[1..]);
      PutOverBase(base, lines[0]);
      MapUnionAssociative(base, Put(map[], lines[0]), rest);
    }
  }

  /** Storing one line into a base map is overriding the base with that
      line's own single-entry map. */
  lemma PutOverBase(base: map<string, string>, line: string)
    ensures base + Put(map[], line) == Put(base, line)
  {
  }

  /** Map override is associative. */
  lemma MapUnionAssociative(a: map<string, string>, b: map<string, string>, c: map<string, string>)
    ensures a + (b + c) == (a + b) + c
  {
  }

  /** A trailing newline at the end of a parameter file changes nothing. */
  lemma ParseParamsTrailingNewline(data: string)
    ensures ParseParams(data + "\n") == ParseParams(data)
  {
    SplitTrailingSeparator(data, '\n');
    AssignSkipsInert(map[], Split(data, '\n'), "", []);
    assert Split(data, '\n') + [""] + [] == Split(data + "\n", '\n');
    assert Split(data, '\n') + [] == Split(data, '\n');
  }

  /** `A=b=c` assigns `b` to `A`: the text after the second '=' is dropped. */
  lemma ParseEntrySecondEqualsExample()
    ensures ParseEntry("A=b=c") == Some(Entry("A", "b"))
  {
    assert "A=b=c"[..4] == "A" + "=" + "b" + "=";
    ParseEntryComplete("A=b=c", "A", "b");
  }

  /** The example file splits into its two lines and a trailing empty one. */
  lemma SplitExampleFile()
    ensures Split("A=1\nB=2\n", '\n') == ["A=1", "B=2", ""]
  {
    var lines := ["A=1", "B=2", ""];
    var j2 := Join([""], '\n');
    assert j2 == "";
    var j1 := Join(["B=2", ""], '\n');
    assert ["B=2", ""][1..] == [""];
    assert j1 == "B=2\n";
    assert lines[1..] == ["B=2", ""];
    assert Join(lines, '\n') == "A=1" + "\n" + j1;
    assert "A=1" + "\n" + "B=2\n" == "A=1\nB=2\n";
    SplitUnique("A=1\nB=2\n", '\n', lines);
  }

  /** The example file's two entries. */
  lemma ExampleEntries()
    ensures Put(map[], "A=1") == map["A" := "1"]
    ensures Put(map["A" := "1"], "B=2") == map["A" := "1", "B" := "2"]
  {
    ParseEntryComplete("A=1", "A", "1");
    ParseEntryComplete("B=2", "B", "2");
  }

  /** The two-line file with a trailing newline parses to two entries. */
  lemma ParseParamsExample()
    ensures ParseParams("A=1\nB=2\n") == map["A" := "1", "B" := "2"]
  {
    SplitExampleFile();
    ExampleEntries();
    AssignThree(map[], "A=1", "B=2", "");
  }

  /** Folding three lines is three single steps. */
  lemma AssignThree(base: map<string, string>, a: string, b: string, c: string)
    ensures Assign(base, [a, b, c]) == Put(Put(Put(base, a), b), c)
  {
    var m1, m2 := Put(base, a), Put(Put(base, a), b);
    assert [a, b, c][1..] == [b, c];
    assert [b, c][1..] == [c];
    assert [c][1..] == [];
    assert Assign(m2, [c]) == Assign(Put(m2, c), []);
    assert Assign(m1, [b, c]) == Assign(m2, [c]);
  }
}
