/** `formatMessage`: an error message is split into lines, every line that
    does not already end in a colon or a period gets a period, and the lines
    are joined again. Also the string splitting and joining it is built on. */
module Utils {
  import opened Wrappers

  /** `s.split(sep)` for a one-character separator: the pieces between the
      separators, so the empty string is one empty piece and a trailing
      separator leaves an empty last piece. */
  function Split(s: string, sep: char): (r: seq<string>)
    ensures |r| >= 1
    ensures forall i :: 0 <= i < |r| ==> sep !in r[i]
  {
    if s == [] then [[]]
    else
      var rest := Split(s[1..], sep);
      if s[0] == sep then [[]] + rest
      else [[s[0]] + rest[0]] + rest[1..]
  }

  /** `parts.join(sep)`. */
  function Join(parts: seq<string>, sep: char): string {
    if |parts| == 0 then []
    else if |parts| == 1 then parts[0]
    else parts[0] + [sep] + Join(parts[1..], sep)
  }

  /** Joining the pieces of a split gives the string back. */
  lemma {:induction false} JoinSplit(s: string, sep: char)
    ensures Join(Split(s, sep), sep) == s
  {
    if s != [] {
      var rest := Split(s[1..], sep);
      JoinSplit(s[1..], sep);
      if s[0] == sep {
        assert ([[]] + rest)[1..] == rest;
      } else if |rest| == 1 {
        assert s == [s[0]] + s[1..];
      } else {
        var parts := [[s[0]] + rest[0]] + rest[1..];
        assert parts[1..] == rest[1..];
        assert Join(rest, sep) == rest[0] + [sep] + Join(rest[1..], sep);
        assert s == [s[0]] + s[1..];
      }
    }
  }

  /** Splitting a string whose first piece `p` holds no separator. */
  lemma {:induction false} SplitPrefix(p: string, tail: string, sep: char)
    requires sep !in p
    ensures Split(p + tail, sep) == [p + Split(tail, sep)[0]] + Split(tail, sep)[1..]
  {
    if p == [] {
      var t := Split(tail, sep);
      assert p + tail == tail && p + t[0] == t[0];
      assert t == [t[0]] + t[1..];
    } else {
      var t := Split(tail, sep);
      assert (p + tail)[1..] == p[1..] + tail;
      assert (p + tail)[0] == p[0] != sep;
      SplitPrefix(p[1..], tail, sep);
      var r := Split(p[1..] + tail, sep);
      assert r[0] == p[1..] + t[0] && r[1..] == t[1..];
      assert [p[0]] + (p[1..] + t[0]) == p + t[0];
    }
  }

  /** Splitting the join of separator-free pieces gives the pieces back. */
  lemma {:induction false} SplitJoin(parts: seq<string>, sep: char)
    requires |parts| >= 1
    requires forall i :: 0 <= i < |parts| ==> sep !in parts[i]
    ensures Split(Join(parts, sep), sep) == parts
  {
    if |parts| == 1 {
      SplitPrefix(parts[0], [], sep);
      assert parts[0] + [] == parts[0];
    } else {
      var rest := Join(parts[1..], sep);
      SplitJoin(parts[1..], sep);
      assert ([sep] + rest)[1..] == rest && ([sep] + rest)[0] == sep;
      assert parts[0] + [] == parts[0];
      assert parts[0] + [sep] + rest == parts[0] + ([sep] + rest);
      SplitPrefix(parts[0], [sep] + rest, sep);
      assert Split([sep] + rest, sep) == [[]] + parts[1..];
      assert parts == [parts[0]] + parts[1..];
    }
  }

  /** The line ends in a colon or a period. */
  predicate Terminated(line: string) {
    |line| > 0 && (line[|line| - 1] == ':' || line[|line| - 1] == '.')
  }

  /** One line of `formatMessage`: kept when it already ends in `:` or `.`,
      otherwise given one `.`. */
  function FormatLine(line: string): (r: string)
    ensures Terminated(r)
    ensures Terminated(line) ==> r == line
    ensures !Terminated(line) ==> r == line + "."
  {
    if Terminated(line) then line else line + "."
  }

  function FormatLines(lines: seq<string>): (r: seq<string>)
    ensures |r| == |lines|
    ensures forall i :: 0 <= i < |r| ==> r[i] == FormatLine(lines[i])
  {
    seq(|lines|, i requires 0 <= i < |lines| => FormatLine(lines[i]))
  }

  /** The message text as `formatMessage` rewrites it. */
  function FormatText(message: string): string {
    Join(FormatLines(Split(message, '\n')), '\n')
  }

  /** The thrown value `formatMessage` receives: `null`/`undefined` is `None`;
      `hasStringStack` says whether `typeof err.stack` is `'string'`. */
  datatype JsError = JsError(hasStringStack: bool, message: string)

  /** `formatMessage(err)`: nothing for a falsy error or one without a string
      stack, the rewritten message otherwise. */
  function FormatMessage(err: Option<JsError>): (r: Option<string>)
    ensures r.Some? <==> err.Some? && err.value.hasStringStack
    ensures r.Some? ==> r.value == FormatText(err.value.message)
  {
    if err.None? || !err.value.hasStringStack then None
    else Some(FormatText(err.value.message))
  }

  /** The output has as many lines as the message, line i of the output is
      line i of the message formatted, and so every output line ends in a
      colon or a period. */
  lemma FormatTextLines(message: string)
    ensures var lines := Split(message, '\n');
      var out := Split(FormatText(message), '\n');
      && |out| == |lines|
      && (forall i :: 0 <= i < |out| ==> out[i] == FormatLine(lines[i]))
      && (forall i :: 0 <= i < |out| ==> Terminated(out[i]))
  {
    var lines := Split(message, '\n');
    var formatted := FormatLines(lines);
    forall i | 0 <= i < |formatted| ensures '\n' !in formatted[i] {
      assert '\n' !in lines[i];
    }
    SplitJoin(formatted, '\n');
  }

  /** Formatting twice is formatting once. */
  lemma FormatTextIdempotent(message: string)
    ensures FormatText(FormatText(message)) == FormatText(message)
  {
    var lines := Split(message, '\n');
    var once := FormatText(message);
    FormatTextLines(message);
    assert FormatLines(Split(once, '\n')) == FormatLines(lines);
  }
}
