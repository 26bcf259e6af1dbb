/** The pieces of text both ExportToCsv methods write: `;`-prefixed fields,
    newline-terminated lines, and the reading of a text back into its lines. */
module CsvText {

  /** The text contains no line break. */
  predicate NoNewline(s: string)
  {
    forall i :: 0 <= i < |s| ==> s[i] != '\n'
  }

  /** Each element written as `;` followed by the element, in order. */
  function Fields(xs: seq<string>): (r: string)
    ensures (forall i :: 0 <= i < |xs| ==> NoNewline(xs[i])) ==> NoNewline(r)
    decreases |xs|
  {
    if xs == [] then ""
    else Fields(xs[..|xs| - 1]) + ";" + xs[|xs| - 1]
  }

  /** Writing one more field extends the text of the fields before it. */
  lemma FieldsSnoc(xs: seq<string>, i: nat)
    requires i < |xs|
    ensures Fields(xs[..i + 1]) == Fields(xs[..i]) + ";" + xs[i]
  {
    assert xs[..i + 1][..i] == xs[..i];
  }

  /** Regrouping a text written piece by piece. */
  lemma Regroup(a: string, b: string, c: string)
    ensures (a + b) + c == a + (b + c)
  {
  }

  /** Each line followed by a newline, in order. */
  function JoinLines(lines: seq<string>): (r: string)
    ensures r == [] || r[|r| - 1] == '\n'
    decreases |lines|
  {
    if lines == [] then ""
    else JoinLines(lines[..|lines| - 1]) + lines[|lines| - 1] + "\n"
  }

  /** The lines of a text, without their terminating newlines; text after the
      last newline, if any, is a last line of its own. */
  function SplitLines(s: string): (r: seq<string>)
    ensures s != [] ==> r != []
    decreases |s|
  {
    if s == [] then []
    else if s[0] == '\n' then [""] + SplitLines(s[1..])
    else
      var rest := SplitLines(s[1..]);
      if rest == [] then [[s[0]]] else [[s[0]] + rest[0]] + rest[1..]
  }

  /** A text that ends in a newline splits apart from whatever follows it. */
  lemma {:induction false} SplitLinesAppend(a: string, b: string)
    requires a == [] || a[|a| - 1] == '\n'
    ensures SplitLines(a + b) == SplitLines(a) + SplitLines(b)
    decreases |a|
  {
    if a != [] {
      var tail := a[1..];
      assert (a + b)[0] == a[0] && (a + b)[1..] == tail + b;
      if tail != [] {
        assert tail[|tail| - 1] == '\n';
        SplitLinesAppend(tail, b);
        var lines := SplitLines(tail);
        if a[0] != '\n' {
          assert lines != [];
          assert SplitLines(tail + b) == lines + SplitLines(b);
          assert (lines + SplitLines(b))[0] == lines[0];
          assert (lines + SplitLines(b))[1..] == lines[1..] + SplitLines(b);
          assert SplitLines(a + b) == [[a[0]] + lines[0]] + (lines[1..] + SplitLines(b));
          assert SplitLines(a) == [[a[0]] + lines[0]] + lines[1..];
          assert [[a[0]] + lines[0]] + (lines[1..] + SplitLines(b))
              == ([[a[0]] + lines[0]] + lines[1..]) + SplitLines(b);
        } else {
          assert SplitLines(a + b) == [""] + (lines + SplitLines(b));
          assert SplitLines(a) == [""] + lines;
          assert [""] + (lines + SplitLines(b)) == ([""] + lines) + SplitLines(b);
        }
      } else {
        assert a[0] == '\n' && a == "\n";
        assert SplitLines(a) == [""] + SplitLines([]);
        assert SplitLines(a + b) == [""] + SplitLines(b);
        assert SplitLines(a) == [""];
      }
    } else {
      assert a + b == b;
    }
  }

  /** One line followed by a newline reads back as that line alone. */
  lemma {:induction false} SplitOneLine(line: string)
    requires NoNewline(line)
    ensures SplitLines(line + "\n") == [line]
    decreases |line|
  {
    if line != [] {
      assert (line + "\n")[1..] == line[1..] + "\n";
      SplitOneLine(line[1..]);
      assert line == [line[0]] + line[1..];
    }
  }

  /** Joining lines that contain no newline and splitting the text again gives
      the lines back: the text has exactly one line per joined line. */
  lemma {:induction false} SplitJoinLines(lines: seq<string>)
    requires forall i :: 0 <= i < |lines| ==> NoNewline(lines[i])
    ensures SplitLines(JoinLines(lines)) == lines
    decreases |lines|
  {
    if lines != [] {
      var init, last := lines[..|lines| - 1], lines[|lines| - 1];
      SplitJoinLines(init);
      assert JoinLines(lines) == JoinLines(init) + (last + "\n");
      SplitLinesAppend(JoinLines(init), last + "\n");
      SplitOneLine(last);
      assert lines == init + [last];
    }
  }

  /** Joining two lists of lines is joining each and concatenating. */
  lemma {:induction false} JoinLinesSplit(a: seq<string>, b: seq<string>)
    ensures JoinLines(a + b) == JoinLines(a) + JoinLines(b)
    decreases |b|
  {
    if b == [] {
      assert a + b == a;
    } else {
      var init := b[..|b| - 1];
      JoinLinesSplit(a, init);
      assert (a + b)[..|a + b| - 1] == a + init;
      Regroup(JoinLines(a), JoinLines(init), b[|b| - 1]);
      Regroup(JoinLines(a), JoinLines(init) + b[|b| - 1], "\n");
    }
  }

  lemma JoinTwoLines(a: string, b: string)
    ensures JoinLines([a, b]) == a + "\n" + b + "\n"
  {
    assert [a, b][..1] == [a];
    assert [a][..0] == [];
    assert JoinLines([a]) == "" + a + "\n";
    assert "" + a == a;
    assert JoinLines([a, b]) == JoinLines([a]) + b + "\n";
  }
}
