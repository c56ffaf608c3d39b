/**
 * The text form of a tuple: the text of every field, separated by a single
 * tab, with a single newline after the last field and nothing at all for a
 * tuple without fields.
 *
 * `Render` is the reference definition.  `Emit` is what the accumulating loop
 * of `Tuple.toString` has built after its first `n` rounds, and `EmitRender`
 * shows that the completed loop produces `Render`.  `Parse` reads a line back
 * into its columns and is the inverse of `Line` whenever no column text
 * contains a tab.
 */
module TupleText {

  import opened Wrappers

  const Tab: char := '\t'
  const Newline: char := '\n'

  /** The text of every value, in order. */
  function Texts<F>(s: seq<F>, str: F -> string): (ts: seq<string>)
    ensures |ts| == |s|
    ensures forall i :: 0 <= i < |s| ==> ts[i] == str(s[i])
  {
    seq(|s|, i requires 0 <= i < |s| => str(s[i]))
  }

  /** The strings of `ts` with one `sep` between neighbours. */
  function Join(ts: seq<string>, sep: char): string
  {
    if |ts| == 0 then ""
    else if |ts| == 1 then ts[0]
    else ts[0] + [sep] + Join(ts[1..], sep)
  }

  /** A line of columns: tab-separated and newline-terminated; empty for no columns. */
  function Line(ts: seq<string>): (r: string)
    ensures r == "" <==> ts == []
    ensures ts != [] ==> r[|r| - 1] == Newline && r[..|r| - 1] == Join(ts, Tab)
  {
    if ts == [] then "" else Join(ts, Tab) + [Newline]
  }

  /** The canonical text form of a tuple whose field values are `s`. */
  function Render<F>(s: seq<F>, str: F -> string): string
  {
    Line(Texts(s, str))
  }

  /** What one round of the rendering loop appends for slot `i`. */
  function Cell<F>(s: seq<F>, i: nat, str: F -> string): string
    requires i < |s|
  {
    str(s[i]) + [if i == |s| - 1 then Newline else Tab]
  }

  /** The accumulator of the rendering loop after its first `n` rounds. */
  function Emit<F>(s: seq<F>, n: nat, str: F -> string): string
    requires n <= |s|
  {
    if n == 0 then "" else Emit(s, n - 1, str) + Cell(s, n - 1, str)
  }

  /** Appending one more string to a non-empty join adds one separator and that string. */
  lemma {:induction false} JoinSnoc(ts: seq<string>, t: string, sep: char)
    requires |ts| >= 1
    ensures Join(ts + [t], sep) == Join(ts, sep) + [sep] + t
  {
    if |ts| == 1 {
      assert (ts + [t])[1..] == [t];
    } else {
      assert (ts + [t])[1..] == ts[1..] + [t];
      JoinSnoc(ts[1..], t, sep);
    }
  }

  /**
   * After `n` rounds the loop has written the first `n` texts joined by tabs,
   * followed by a tab, or by the newline once the last slot has been written.
   */
  lemma {:induction false} EmitPrefix<F>(s: seq<F>, n: nat, str: F -> string)
    requires 0 < n <= |s|
    ensures Emit(s, n, str) == Join(Texts(s, str)[..n], Tab) + [if n == |s| then Newline else Tab]
  {
    var ts := Texts(s, str);
    if n == 1 {
      assert ts[..1] == [str(s[0])];
    } else {
      EmitPrefix(s, n - 1, str);
      assert ts[..n] == ts[..n - 1] + [str(s[n - 1])];
      JoinSnoc(ts[..n - 1], str(s[n - 1]), Tab);
    }
  }

  /** The completed loop produces exactly the canonical text form. */
  lemma {:induction false} EmitRender<F>(s: seq<F>, str: F -> string)
    ensures Emit(s, |s|, str) == Render(s, str)
  {
    if |s| > 0 {
      EmitPrefix(s, |s|, str);
      assert Texts(s, str)[..|s|] == Texts(s, str);
    }
  }

  /** A single field renders as its text and a newline. */
  lemma RenderSingle<F>(x: F, str: F -> string)
    ensures Render([x], str) == str(x) + "\n"
  {
  }

  /** Before any field but the last comes its text and exactly one tab. */
  lemma RenderCons<F>(x: F, rest: seq<F>, str: F -> string)
    requires rest != []
    ensures Render([x] + rest, str) == str(x) + "\t" + Render(rest, str)
  {
    var ts := Texts([x] + rest, str);
    assert ts[1..] == Texts(rest, str);
  }

  /** Three fields `a`, `b`, `c` render as "a\tb\tc\n". */
  lemma RenderThree<F>(a: F, b: F, c: F, str: F -> string)
    ensures Render([a, b, c], str) == str(a) + "\t" + str(b) + "\t" + str(c) + "\n"
  {
    assert [a, b, c] == [a] + [b, c];
    assert [b, c] == [b] + [c];
    RenderCons(a, [b, c], str);
    RenderCons(b, [c], str);
    RenderSingle(c, str);
  }

  /** Cuts `line` at every `sep`; a line without `sep` is a single part. */
  function Split(line: string, sep: char): (parts: seq<string>)
    ensures |parts| >= 1
    decreases |line|
  {
    if line == "" then [""]
    else
      var rest := Split(line[1..], sep);
      if line[0] == sep then [""] + rest
      else [[line[0]] + rest[0]] + rest[1..]
  }

  /** Splitting and joining again at the same separator gives back the line. */
  lemma {:induction false} JoinSplit(line: string, sep: char)
    ensures Join(Split(line, sep), sep) == line
  {
    if line != "" {
      var rest := Split(line[1..], sep);
      JoinSplit(line[1..], sep);
      if line[0] == sep {
        assert ([""] + rest)[1..] == rest;
      } else {
        var parts := [[line[0]] + rest[0]] + rest[1..];
        if |rest| > 1 {
          assert parts[1..] == rest[1..];
        }
        assert line == [line[0]] + line[1..];
      }
    }
  }

  /** A string without the separator is one part. */
  lemma {:induction false} SplitPlain(t: string, sep: char)
    requires sep !in t
    ensures Split(t, sep) == [t]
  {
    if t != "" {
      SplitPlain(t[1..], sep);
      assert t == [t[0]] + t[1..];
    }
  }

  /** A separator-free prefix followed by the separator becomes the first part. */
  lemma {:induction false} SplitAfter(t: string, rest: string, sep: char)
    requires sep !in t
    ensures Split(t + [sep] + rest, sep) == [t] + Split(rest, sep)
  {
    var line := t + [sep] + rest;
    if t == "" {
      assert line[1..] == rest;
    } else {
      assert line[1..] == t[1..] + [sep] + rest;
      SplitAfter(t[1..], rest, sep);
      assert t == [t[0]] + t[1..];
    }
  }

  /** Joining separator-free strings and splitting again gives them back. */
  lemma {:induction false} SplitJoin(ts: seq<string>, sep: char)
    requires |ts| >= 1
    requires forall i :: 0 <= i < |ts| ==> sep !in ts[i]
    ensures Split(Join(ts, sep), sep) == ts
  {
    if |ts| == 1 {
      SplitPlain(ts[0], sep);
    } else {
      SplitJoin(ts[1..], sep);
      SplitAfter(ts[0], Join(ts[1..], sep), sep);
      assert ts == [ts[0]] + ts[1..];
    }
  }

  /** Reads a rendered line back into its column texts; `None` if it is not newline-terminated. */
  function Parse(line: string): Option<seq<string>>
  {
    if line == "" then Some([])
    else if line[|line| - 1] != Newline then None
    else Some(Split(line[..|line| - 1], Tab))
  }

  /** Rendering and parsing again recovers the column texts, provided none of them holds a tab. */
  lemma ParseLine(ts: seq<string>)
    requires forall i :: 0 <= i < |ts| ==> Tab !in ts[i]
    ensures Parse(Line(ts)) == Some(ts)
  {
    if ts != [] {
      SplitJoin(ts, Tab);
    }
  }

  /** Every line that parses is the line of what it parses to. */
  lemma LineParse(line: string)
    requires Parse(line).Some?
    ensures Line(Parse(line).value) == line
  {
    if line != "" {
      var body := line[..|line| - 1];
      JoinSplit(body, Tab);
      assert line == body + [Newline];
    }
  }

  /** The text form of a tuple determines its field texts when no field text holds a tab. */
  lemma ParseRender<F>(s: seq<F>, str: F -> string)
    requires forall i :: 0 <= i < |s| ==> Tab !in str(s[i])
    ensures Parse(Render(s, str)) == Some(Texts(s, str))
  {
    ParseLine(Texts(s, str));
  }
}
