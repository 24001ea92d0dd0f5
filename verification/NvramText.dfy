// What the NVRAM converter keeps of a text: its settings, stripped, in order; no blank line and no comment.

module NvramText {
  import opened Nvram

  /** A line of a source text: blank, a setting, or a comment, with white space around it. */
  datatype Source =
    | Blank(space: seq<ascii>)
    | Text(before: seq<ascii>, core: Line, after: seq<ascii>)

  /** Tab, space, or unit separator: white space that does not end a line. */
  predicate Space(s: seq<ascii>) {
    forall i :: 0 <= i < |s| ==> s[i] == 9 || s[i] == 32 || s[i] == 31
  }

  /** Newline to carriage return, and the separators 28 to 30, end a line. */
  predicate Unbroken(s: seq<ascii>) {
    forall i :: 0 <= i < |s| ==> !(10 <= s[i] <= 13) && !(28 <= s[i] <= 30)
  }

  /** A core has no line break, and no white space at its ends. */
  predicate Core(s: Line) {
    && s != [] && Unbroken(s)
    && s[0] != 9 && s[0] != 32 && s[0] != 31
    && var last := s[|s| - 1]; last != 9 && last != 32 && last != 31
  }

  predicate WellFormed(l: Source) {
    match l
    case Blank(space) => Space(space)
    case Text(before, core, after) => Space(before) && Core(core) && Space(after)
  }

  function LineOf(l: Source): Line {
    match l
    case Blank(space) => space
    case Text(before, core, after) => before + core + after
  }

  /** The text of some lines, each ended by a newline, or by a carriage return and a newline. */
  function Assemble(lines: seq<Source>, dos: bool): seq<ascii> {
    if lines == [] then []
    else LineOf(lines[0]) + (if dos then [13, 10] else [10]) + Assemble(lines[1..], dos)
  }

  predicate Hash(core: Line) {
    core != [] && core[0] == 35
  }

  /** The cores that do not begin with '#'. */
  function Settings(lines: seq<Source>): seq<Line> {
    if lines == [] then []
    else (if lines[0].Text? && !Hash(lines[0].core) then [lines[0].core] else []) + Settings(lines[1..])
  }

  lemma {:induction false} StripLeftSpace(a: seq<ascii>, x: Line)
    requires Space(a)
    ensures StripLeft(a + x) == StripLeft(x)
  {
    if a == [] {
      assert a + x == x;
    } else {
      assert (a + x)[1..] == a[1..] + x && (a + x)[0] == a[0];
      StripLeftSpace(a[1..], x);
    }
  }

  lemma {:induction false} StripRightSpace(x: Line, b: seq<ascii>)
    requires Space(b)
    ensures StripRight(x + b) == StripRight(x)
    decreases |b|
  {
    if b == [] {
      assert x + b == x;
    } else {
      var n := |b| - 1;
      assert (x + b)[..|x + b| - 1] == x + b[..n] && (x + b)[|x + b| - 1] == b[n];
      StripRightSpace(x, b[..n]);
    }
  }

  lemma {:induction false} StripOfLine(l: Source)
    requires WellFormed(l)
    ensures Strip(LineOf(l)) == if l.Blank? then [] else l.core
  {
    match l
    case Blank(space) =>
      StripLeftSpace(space, []);
      assert space + [] == space;
    case Text(before, core, after) =>
      assert before + core + after == before + (core + after);
      StripLeftSpace(before, core + after);
      assert (core + after)[0] == core[0];
      StripRightSpace(core, after);
  }

  lemma LineIsUnbroken(l: Source)
    requires WellFormed(l)
    ensures Unbroken(LineOf(l))
  {
  }

  lemma {:induction false} FirstLine(line: Line, dos: bool, rest: seq<ascii>)
    requires Unbroken(line)
    ensures SplitLines(line + (if dos then [13, 10] else [10]) + rest) == [line] + SplitLines(rest)
  {
    var end: seq<ascii> := if dos then [13, 10] else [10];
    var text := line + end + rest;
    var k := |line|;
    assert forall i :: 0 <= i < k ==> text[i] == line[i];
    assert text[k] == end[0];
    BreakAt(text, k);
    assert text[..k] == line;
    assert text[k + |end|..] == rest;
    assert dos ==> text[k + 1] == 10;
  }

  lemma {:induction false} EntriesInFront(line: Line, rest: seq<Line>)
    ensures EntriesOf([line] + rest) == EntriesOf([line]) + EntriesOf(rest)
    decreases |rest|
  {
    var all := [line] + rest;
    if rest == [] {
      assert all == [line];
    } else {
      var n := |rest| - 1;
      assert all[..|all| - 1] == [line] + rest[..n] && all[|all| - 1] == rest[n];
      EntriesInFront(line, rest[..n]);
    }
  }

  lemma EntryOfLine(l: Source)
    requires WellFormed(l)
    ensures EntriesOf([LineOf(l)]) == if l.Text? && !Hash(l.core) then [l.core] else []
  {
    StripOfLine(l);
    assert [LineOf(l)][..0] == [] && EntriesOf([]) == [];
  }

  /** Main result: of an assembled text exactly the settings are kept, in order. */
  lemma {:induction false} SettingsAreKept(lines: seq<Source>, dos: bool)
    requires forall i :: 0 <= i < |lines| ==> WellFormed(lines[i])
    ensures Entries(Assemble(lines, dos)) == Settings(lines)
  {
    if lines != [] {
      var rest := Assemble(lines[1..], dos);
      LineIsUnbroken(lines[0]);
      FirstLine(LineOf(lines[0]), dos, rest);
      EntriesInFront(LineOf(lines[0]), SplitLines(rest));
      EntryOfLine(lines[0]);
      SettingsAreKept(lines[1..], dos);
    }
  }

  lemma {:induction false} StrippedEnds(line: Line)
    ensures var s := Strip(line);
            s != [] ==> s[0] != 9 && s[0] != 32 && s[|s| - 1] != 9 && s[|s| - 1] != 32
  {
    LeftEnd(line);
    RightEnd(StripLeft(line));
  }

  lemma {:induction false} LeftEnd(line: Line)
    ensures StripLeft(line) != [] ==> !IsSpace(StripLeft(line)[0])
    decreases |line|
  {
    if line != [] && IsSpace(line[0]) {
      LeftEnd(line[1..]);
    }
  }

  lemma {:induction false} RightEnd(line: Line)
    ensures var s := StripRight(line); s != [] ==> !IsSpace(s[|s| - 1]) && s[0] == line[0]
    decreases |line|
  {
    if line != [] && IsSpace(line[|line| - 1]) {
      RightEnd(line[..|line| - 1]);
    }
  }

  /** No entry of any text is blank or begins with '#', a tab or a space. */
  lemma {:induction false} EntriesAreSettings(lines: seq<Line>)
    ensures forall i :: 0 <= i < |EntriesOf(lines)| ==>
              var e := EntriesOf(lines)[i]; e != [] && e[0] != 35 && e[0] != 9 && e[0] != 32
    decreases |lines|
  {
    if lines != [] {
      EntriesAreSettings(lines[..|lines| - 1]);
      StrippedEnds(lines[|lines| - 1]);
    }
  }
}
