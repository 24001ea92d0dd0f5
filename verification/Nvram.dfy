// The NVRAM blob of the WiFi firmware: NUL-terminated settings, padding, and a length trailer.

module Nvram {
  import opened Bytes

  /** Source text is ASCII, so encoding a line is the identity. */
  type ascii = x: int | 0 <= x < 128

  type Line = seq<ascii>

  // ----- text

  /** Line boundaries: newline, carriage return, vertical tab, form feed, and the separators 1C to 1E. */
  predicate IsBreak(c: ascii) {
    10 <= c <= 13 || 28 <= c <= 30
  }

  predicate IsSpace(c: ascii) {
    c == 32 || 9 <= c <= 13 || 28 <= c <= 31
  }

  function FirstBreak(text: seq<ascii>): (k: nat)
    ensures k <= |text| && (forall i :: 0 <= i < k ==> !IsBreak(text[i])) && (k < |text| ==> IsBreak(text[k]))
  {
    if text == [] || IsBreak(text[0]) then 0 else 1 + FirstBreak(text[1..])
  }

  /** Lines without their boundaries; a carriage return and a newline count as one boundary. */
  function SplitLines(text: seq<ascii>): seq<Line>
    decreases |text|
  {
    if text == [] then []
    else
      var k := FirstBreak(text);
      if k == |text| then [text]
      else
        var next := if text[k] == 13 && k + 1 < |text| && text[k + 1] == 10 then k + 2 else k + 1;
        [text[..k]] + SplitLines(text[next..])
  }

  function StripLeft(line: Line): Line {
    if line != [] && IsSpace(line[0]) then StripLeft(line[1..]) else line
  }

  function StripRight(line: Line): Line {
    if line != [] && IsSpace(line[|line| - 1]) then StripRight(line[..|line| - 1]) else line
  }

  function Strip(line: Line): Line {
    StripRight(StripLeft(line))
  }

  /** Neither blank nor a comment. */
  predicate IsEntry(line: Line) {
    line != [] && line[0] != 35
  }

  function EntriesOf(lines: seq<Line>): (r: seq<Line>)
    ensures forall e :: e in r ==> IsEntry(e)
  {
    if lines == [] then []
    else
      var line, before := Strip(lines[|lines| - 1]), EntriesOf(lines[..|lines| - 1]);
      if IsEntry(line) then before + [line] else before
  }

  /** The settings of a text: its stripped lines that are neither blank nor comments. */
  function Entries(text: seq<ascii>): seq<Line> {
    EntriesOf(SplitLines(text))
  }

  // ----- blob

  /** Entries, each behind it a NUL. */
  function Terminated(entries: seq<Line>): seq<ascii> {
    if entries == [] then [] else Terminated(entries[..|entries| - 1]) + entries[|entries| - 1] + [0]
  }

  function Nuls(n: nat): (z: seq<ascii>)
    ensures |z| == n && forall i :: 0 <= i < n ==> z[i] == 0
  {
    seq(n, i => 0)
  }

  /** Length of the stripped data: with at least one NUL of padding, the next multiple of 64 less the trailer's 4
      bytes. */
  function PaddedLength(n: nat): (m: nat)
    ensures n < m <= n + 64 && (m + 4) % 64 == 0
  {
    var aligned := n + 1 + (3 - n % 4);
    (aligned + 4 + 63) / 64 * 64 - 4
  }

  lemma {:induction false} OneMoreEntry(before: seq<Line>, line: Line)
    ensures Terminated(before + [line]) == Terminated(before) + line + [0]
  {
    assert (before + [line])[..|before|] == before;
  }

  method StripNvram(text: seq<ascii>) returns (out: seq<ascii>)
    ensures var data := Terminated(Entries(text));
            out == data + Nuls(PaddedLength(|data|) - |data|)
  {
    out := [];
    var lines := SplitLines(text);
    for i := 0 to |lines|
      invariant out == Terminated(EntriesOf(lines[..i]))
    {
      assert lines[..i + 1][..i] == lines[..i];
      var line := Strip(lines[i]);
      if line == [] || line[0] == 35 {
        continue;
      }
      OneMoreEntry(EntriesOf(lines[..i]), line);
      out := out + line;
      out := out + [0];
    }
    assert lines[..|lines|] == lines;
    out := Pad(out);
  }

  /** One NUL more, then NULs up to a multiple of 4, then up to a multiple of 64 less the trailer. */
  method Pad(data: seq<ascii>) returns (out: seq<ascii>)
    ensures out == data + Nuls(PaddedLength(|data|) - |data|)
  {
    out := data + [0];
    while |out| % 4 != 0
      invariant |data| < |out| <= |data| + 1 + (3 - |data| % 4)
      invariant out == data + Nuls(|out| - |data|)
      decreases |data| + 4 - |out|
    {
      out := out + [0];
    }
    var target := (|out| + 4 + 63) / 64 * 64 - 4;
    while |out| < target
      invariant |data| < |out| <= target
      invariant out == data + Nuls(|out| - |data|)
    {
      out := out + [0];
    }
  }

  /** Word count in the low half, its complement in the high half. */
  function Token(words: nat): (t: nat)
    ensures t < 0x1_0000_0000
  {
    (-(words as int) - 1) % 0x1_0000 * 0x1_0000 + words % 0x1_0000
  }

  function BuildBlob(stripped: seq<byte>): (seq<byte>, nat, nat) {
    var words := |stripped| / 4;
    var token := Token(words);
    (stripped + LeBytes(token, 4), words, token)
  }

  // ----- reading it back

  function FirstNul(s: seq<ascii>): (k: nat)
    ensures k <= |s| && (forall i :: 0 <= i < k ==> s[i] != 0) && (k < |s| ==> s[k] == 0)
  {
    if s == [] || s[0] == 0 then 0 else 1 + FirstNul(s[1..])
  }

  /** NUL-terminated entries up to the first empty one. */
  function ReadEntries(s: seq<ascii>): seq<Line>
    decreases |s|
  {
    var k := FirstNul(s);
    if k == 0 || k == |s| then [] else [s[..k]] + ReadEntries(s[k + 1..])
  }

  lemma {:induction false} FirstNulAt(line: Line, rest: seq<ascii>)
    requires 0 !in line
    ensures FirstNul(line + [0] + rest) == |line|
  {
    var s := line + [0] + rest;
    assert s[|line|] == 0;
    forall i | 0 <= i < |line|
      ensures s[i] != 0
    {
      assert s[i] == line[i] && line[i] in line;
    }
  }

  /** The same data, entry by entry from the front. */
  function Stream(entries: seq<Line>): seq<ascii> {
    if entries == [] then [] else entries[0] + [0] + Stream(entries[1..])
  }

  lemma {:induction false} StreamAppend(a: seq<Line>, e: Line)
    ensures Stream(a + [e]) == Stream(a) + e + [0]
  {
    if a == [] {
      assert [e][1..] == [];
      assert Stream([e]) == e + [0] + [];
    } else {
      StreamAppend(a[1..], e);
      assert (a + [e])[1..] == a[1..] + [e];
      assert a[0] + [0] + (Stream(a[1..]) + e + [0]) == a[0] + [0] + Stream(a[1..]) + e + [0];
    }
  }

  lemma {:induction false} TerminatedIsStream(entries: seq<Line>)
    ensures Terminated(entries) == Stream(entries)
  {
    if entries != [] {
      var n := |entries| - 1;
      TerminatedIsStream(entries[..n]);
      StreamAppend(entries[..n], entries[n]);
      assert entries == entries[..n] + [entries[n]];
    }
  }

  /** An entry without a NUL is read back, and reading goes on behind it. */
  lemma {:induction false} ReadOne(e: Line, tail: seq<ascii>)
    requires e != [] && 0 !in e
    ensures ReadEntries(e + [0] + tail) == [e] + ReadEntries(tail)
  {
    var s := e + [0] + tail;
    FirstNulAt(e, tail);
    assert s[..|e|] == e && s[|e| + 1..] == tail;
  }

  /** An entry with a NUL is read too short. */
  lemma {:induction false} ReadShort(e: Line, tail: seq<ascii>)
    requires 0 in e
    ensures ReadEntries(e + [0] + tail) == [] || |ReadEntries(e + [0] + tail)[0]| < |e|
  {
    var s := e + [0] + tail;
    var j :| 0 <= j < |e| && e[j] == 0;
    assert s[j] == 0;
    assert FirstNul(s) <= j;
  }

  /** Reading gives the entries back, in order, exactly if none has a NUL inside. */
  lemma {:induction false} ReadStream(entries: seq<Line>, zeros: seq<ascii>)
    requires zeros != [] && zeros[0] == 0 && forall i :: 0 <= i < |entries| ==> entries[i] != []
    ensures ReadEntries(Stream(entries) + zeros) == entries <==> forall i :: 0 <= i < |entries| ==> 0 !in entries[i]
    decreases |entries|
  {
    if entries == [] {
      assert Stream(entries) + zeros == zeros;
    } else {
      var e, rest := entries[0], entries[1..];
      var tail := Stream(rest) + zeros;
      assert Stream(entries) + zeros == e + [0] + tail;
      if 0 in e {
        ReadShort(e, tail);
      } else {
        ReadOne(e, tail);
        ReadStream(rest, zeros);
        ReadRest(entries, ReadEntries(tail));
      }
    }
  }

  lemma ReadRest(entries: seq<Line>, more: seq<Line>)
    requires entries != [] && 0 !in entries[0]
    ensures [entries[0]] + more == entries <==> more == entries[1..]
    ensures (forall i :: 0 <= i < |entries| ==> 0 !in entries[i]) <==>
            forall i :: 0 <= i < |entries[1..]| ==> 0 !in entries[1..][i]
  {
    assert ([entries[0]] + more)[1..] == more;
    assert entries == [entries[0]] + entries[1..];
    assert forall i :: 0 < i < |entries| ==> entries[i] == entries[1..][i - 1];
  }

  /** Main result: the settings are recovered from the stripped data if and only if no setting has a NUL inside,
      so always if the text has none. */
  lemma {:induction false} SettingsAreRecovered(text: seq<ascii>, out: seq<ascii>)
    requires var data := Terminated(Entries(text)); out == data + Nuls(PaddedLength(|data|) - |data|)
    ensures ReadEntries(out) == Entries(text) <==> forall i :: 0 <= i < |Entries(text)| ==> 0 !in Entries(text)[i]
    ensures 0 !in text ==> ReadEntries(out) == Entries(text)
  {
    var entries := Entries(text);
    TerminatedIsStream(entries);
    forall i | 0 <= i < |entries|
      ensures entries[i] != []
    {
      assert entries[i] in entries;
    }
    ReadStream(entries, Nuls(PaddedLength(|Terminated(entries)|) - |Terminated(entries)|));
    if 0 !in text {
      EntriesAreFromText(text);
    }
  }

  lemma {:induction false} StripKeeps(line: Line)
    ensures forall c :: c in StripLeft(line) ==> c in line
    ensures forall c :: c in StripRight(line) ==> c in line
    decreases |line|
  {
    if line != [] {
      StripKeeps(line[1..]);
      StripKeeps(line[..|line| - 1]);
    }
  }

  lemma {:induction false} LineIsFromText(text: seq<ascii>, l: Line, c: ascii)
    requires l in SplitLines(text) && c in l
    ensures c in text
    decreases |text|
  {
    var k := FirstBreak(text);
    if k < |text| {
      var next := if text[k] == 13 && k + 1 < |text| && text[k + 1] == 10 then k + 2 else k + 1;
      if l == text[..k] {
        assert c in text[..k];
      } else {
        LineIsFromText(text[next..], l, c);
      }
    }
  }

  lemma {:induction false} EntryIsFromLine(lines: seq<Line>, e: Line, c: ascii) returns (l: Line)
    requires e in EntriesOf(lines) && c in e
    ensures l in lines && c in l
    decreases |lines|
  {
    var last := lines[|lines| - 1];
    if e == Strip(last) {
      l := last;
      StripKeeps(last);
      StripKeeps(StripLeft(last));
    } else {
      l := EntryIsFromLine(lines[..|lines| - 1], e, c);
    }
  }

  lemma EntriesAreFromText(text: seq<ascii>)
    requires 0 !in text
    ensures forall i :: 0 <= i < |Entries(text)| ==> 0 !in Entries(text)[i]
  {
    forall i | 0 <= i < |Entries(text)|
      ensures 0 !in Entries(text)[i]
    {
      if 0 in Entries(text)[i] {
        var l := EntryIsFromLine(SplitLines(text), Entries(text)[i], 0);
        LineIsFromText(text, l, 0);
      }
    }
  }

  lemma QuarterIsExact(n: nat)
    requires (n + 4) % 64 == 0
    ensures 4 * (n / 4) == n
  {
    var m := 16 * ((n + 4) / 64) - 1;
    assert n == 4 * m;
    assert n / 4 == m;
  }

  lemma TokenHalves(words: nat)
    requires words < 0x1_0000
    ensures Token(words) % 0x1_0000 == words && Token(words) / 0x1_0000 == 0xFFFF - words
  {
    assert (-(words as int) - 1) % 0x1_0000 == 0xFFFF - words;
  }

  /** The blob is a multiple of 64 bytes, ends in the trailer, and below 65536 words the trailer holds the word
      count and its complement. */
  lemma BlobShape(stripped: seq<byte>)
    requires (|stripped| + 4) % 64 == 0
    ensures var (blob, words, token) := BuildBlob(stripped);
            && |blob| % 64 == 0 && blob[..|stripped|] == stripped && 4 * words == |stripped|
            && Le(blob[|stripped|..]) == token
            && (words < 0x1_0000 ==> token % 0x1_0000 == words && token / 0x1_0000 == 0xFFFF - words)
  {
    var words := |stripped| / 4;
    QuarterIsExact(|stripped|);
    if words < 0x1_0000 {
      TokenHalves(words);
    }
    assert stripped + LeBytes(Token(words), 4) ==
      (stripped + LeBytes(Token(words), 4))[..|stripped|] + LeBytes(Token(words), 4);
    assert Pow256(4) == 0x1_0000_0000 by {
      assert Pow256(0) == 1 && Pow256(1) == 0x100 && Pow256(2) == 0x1_0000 && Pow256(3) == 0x100_0000;
    }
    LeOfLeBytes(Token(words), 4);
  }

  lemma {:induction false} BreakAt(text: seq<ascii>, k: nat)
    requires k < |text| && IsBreak(text[k]) && forall i :: 0 <= i < k ==> !IsBreak(text[i])
    ensures FirstBreak(text) == k
  {
    hide IsBreak;
    var f := FirstBreak(text);
  }

  lemma BreakIsNewline()
    ensures IsBreak(10)
  {
  }

  lemma OneSetting(text: seq<ascii>, entry: Line)
    requires text == entry + [10] && (forall i :: 0 <= i < |entry| ==> !IsBreak(entry[i]))
    requires Strip(entry) == entry && IsEntry(entry)
    ensures Entries(text) == [entry] && Terminated([entry]) == entry + [0]
  {
    hide Strip, FirstBreak, EntriesOf, Terminated, IsBreak;
    BreakIsNewline();
    assert forall i :: 0 <= i < |entry| ==> text[i] == entry[i];
    BreakAt(text, |entry|);
    assert text[..|entry|] == entry && text[|entry| + 1..] == [];
    assert SplitLines(text) == [entry];
    OneLine(entry);
  }

  lemma OneLine(entry: Line)
    requires Strip(entry) == entry && IsEntry(entry)
    ensures EntriesOf([entry]) == [entry] && Terminated([entry]) == entry + [0]
  {
    hide Strip;
    assert [entry][..0] == [];
    assert EntriesOf([]) == [] && Terminated([]) == [];
  }

  /** A setting with a NUL inside is not read back. */
  lemma NulCutsSetting()
    ensures var text: seq<ascii>, entry: Line := [97, 0, 98, 10], [97, 0, 98];
            Entries(text) == [entry] && ReadEntries(Terminated([entry]) + Nuls(PaddedLength(4) - 4)) != [entry]
  {
    hide ReadEntries, Nuls, PaddedLength, Terminated, Entries;
    var text: seq<ascii>, entry: Line := [97, 0, 98, 10], [97, 0, 98];
    OneSetting(text, entry);
    SettingsAreRecovered(text, Terminated([entry]) + Nuls(PaddedLength(4) - 4));
    assert entry[1] == 0 && Entries(text)[0] == entry;
  }
}
