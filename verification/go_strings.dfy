/** The two pieces of Go's `strings` package that the command handlers rely on,
    specialised to a one-character separator: `strings.Contains(s, "=")` is
    `'=' in s`, and `strings.Split(s, sep)` is `Split` below. Go strings are
    byte strings of any content; here each `char` stands for one byte, so
    splitting on the ASCII separators '=' and '\n' gives Go's pieces. */
module GoStrings {

  /** Position of the first occurrence of `c` in `s`. */
  function IndexOf(s: string, c: char): (i: nat)
    requires c in s
    ensures i < |s| && s[i] == c
    ensures c !in s[..i]
  {
    if s[0] == c then 0
    else
      var j := IndexOf(s[1..], c);
      assert s[..1 + j] == [s[0]] + s[1..][..j];
      1 + j
  }

  /** `strings.Join(parts, [sep])`: the pieces glued back with the separator. */
  function Join(parts: seq<string>, sep: char): string
  {
    if |parts| == 0 then ""
    else if |parts| == 1 then parts[0]
    else parts[0] + [sep] + Join(parts[1..], sep)
  }

  /** Three or more pieces join as the first two, each followed by the
      separator, then the join of the rest. */
  lemma JoinThreeOrMore(parts: seq<string>, sep: char)
    requires |parts| >= 3
    ensures Join(parts, sep) == (parts[0] + [sep] + parts[1] + [sep]) + Join(parts[2..], sep)
  {
    assert parts[1..][1..] == parts[2..];
    assert parts[1..][0] == parts[1];
  }

  /** `strings.Split(s, [sep])`: the maximal separator-free pieces of `s`, in
      order. There is always at least one piece (the empty string splits into
      one empty piece) and a trailing separator leaves an empty last piece. */
  function Split(s: string, sep: char): (parts: seq<string>)
    ensures |parts| >= 1
    ensures |parts| == 1 <==> sep !in s
    ensures forall i :: 0 <= i < |parts| ==> sep !in parts[i]
    ensures Join(parts, sep) == s
    decreases |s|
  {
    if sep !in s then [s]
    else
      var i := IndexOf(s, sep);
      var rest := Split(s[i + 1..], sep);
      var parts := [s[..i]] + rest;
      assert parts[1..] == rest;
      assert s == s[..i] + [sep] + s[i + 1..];
      parts
  }

  /** The first occurrence of `c` is at `i` whenever `s[i]` is `c` and no
      earlier position holds it. */
  lemma IndexOfIsFirst(s: string, c: char, i: nat)
    requires i < |s| && s[i] == c && c !in s[..i]
    ensures IndexOf(s, c) == i
  {
  }

  /** Split is the ONLY separator-free decomposition of `s`: any non-empty
      list of separator-free pieces that joins back to `s` is `Split(s, sep)`. */
  lemma {:induction false} SplitUnique(s: string, sep: char, parts: seq<string>)
    requires |parts| >= 1
    requires forall i :: 0 <= i < |parts| ==> sep !in parts[i]
    requires Join(parts, sep) == s
    ensures Split(s, sep) == parts
    decreases |parts|
  {
    if |parts| == 1 {
      assert s == parts[0];
    } else {
      var tail := Join(parts[1..], sep);
      assert s == parts[0] + [sep] + tail;
      var i := |parts[0]|;
      assert s[i] == sep;
      assert s[..i] == parts[0];
      assert sep in s;
      IndexOfIsFirst(s, sep, i);
      assert s[i + 1..] == tail;
      SplitUnique(tail, sep, parts[1..]);
      assert parts == [parts[0]] + parts[1..];
    }
  }

  /** Appending a separator adds exactly one empty piece at the end. */
  lemma {:induction false} JoinAppendEmpty(parts: seq<string>, sep: char)
    requires |parts| >= 1
    ensures Join(parts + [""], sep) == Join(parts, sep) + [sep]
    decreases |parts|
  {
    if |parts| == 1 {
      assert (parts + [""])[1..] == [""];
    } else {
      assert (parts + [""])[1..] == parts[1..] + [""];
      JoinAppendEmpty(parts[1..], sep);
    }
  }

  /** A trailing separator yields a trailing empty piece and leaves the other
      pieces as they were. */
  lemma SplitTrailingSeparator(s: string, sep: char)
    ensures Split(s + [sep], sep) == Split(s, sep) + [""]
  {
    var parts := Split(s, sep) + [""];
    JoinAppendEmpty(Split(s, sep), sep);
    forall i | 0 <= i < |parts|
      ensures sep !in parts[i]
    {
      if i < |parts| - 1 {
        assert parts[i] == Split(s, sep)[i];
      }
    }
    SplitUnique(s + [sep], sep, parts);
  }
}
