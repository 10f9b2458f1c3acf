/** What the lines of a report tell a reader: the numbers after its attribute names. */
module ReportTexts {
  import opened Words
  import opened Results

  // -------------------------------------------------------------------------
  // Reading numbers and attributes.

  function ReadDec(s: string): int {
    if s == "" then 0 else ReadDec(s[..|s| - 1]) * 10 + (s[|s| - 1] as int - '0' as int)
  }

  predicate Quoteless(s: string) {
    forall i :: 0 <= i < |s| ==> s[i] != '\"'
  }

  lemma {:induction false} ReadsDec(n: nat)
    ensures ReadDec(Dec(n)) == n && Quoteless(Dec(n))
    ensures Dec(n)[0] == '0' ==> n == 0
  {
    if n < 10 {
      assert ReadDec([]) == 0;
    } else {
      ReadsDec(n / 10);
      assert Dec(n)[..|Dec(n)| - 1] == Dec(n / 10);
    }
  }

  /** The pieces of a text between its quotes. */
  function Pieces(s: string): (ps: seq<string>)
    ensures |ps| > 0
  {
    if s == "" then [""]
    else
      var rest := Pieces(s[1..]);
      if s[0] == '\"' then [""] + rest else [[s[0]] + rest[0]] + rest[1..]
  }

  lemma {:induction false} PiecesOfOne(a: string)
    requires Quoteless(a)
    ensures Pieces(a) == [a]
  {
    if a != "" {
      PiecesOfOne(a[1..]);
      assert [a[0]] + a[1..] == a;
    }
  }

  /** A quote ends one piece and begins the next. */
  lemma {:induction false} PiecesSplit(a: string, b: string)
    ensures Pieces(a + "\"" + b) == Pieces(a) + Pieces(b)
  {
    var s := a + "\"" + b;
    if a == "" {
      assert s[1..] == b;
    } else {
      PiecesSplit(a[1..], b);
      assert s[1..] == a[1..] + "\"" + b && s[0] == a[0];
      FirstOf(Pieces(a[1..]), Pieces(b));
    }
  }

  lemma FirstOf(p: seq<string>, q: seq<string>)
    requires p != []
    ensures (p + q)[0] == p[0] && (p + q)[1..] == p[1..] + q
    ensures forall x: string :: [x] + p + q == [x] + (p + q) && [x] + p[1..] + q == [x] + (p[1..] + q)
  {
  }

  /** One more name, and its text up to the next quote. */
  lemma PiecesNext(before: string, mark: string, name: string, text: string)
    requires mark == "\"" + name + "\"" && Quoteless(name) && Quoteless(text)
    ensures Pieces(before + mark + text) == Pieces(before) + [name, text]
  {
    var rest := name + "\"" + text;
    PiecesOfOne(name);
    PiecesOfOne(text);
    PiecesSplit(name, text);
    PiecesSplit(before, rest);
    assert before + mark + text == before + "\"" + rest;
  }

  /** The quoted text after the name; the pieces are names and quoted texts in turn. */
  function Attribute(ps: seq<string>, name: string): string {
    if |ps| < 2 then "" else if ps[0] == name then ps[1] else Attribute(ps[2..], name)
  }

  function ReadNumber(line: string, name: string): int {
    ReadDec(Attribute(Pieces(line), name))
  }

  // -------------------------------------------------------------------------
  // A line of five attributes.

  function FivePieces(a: string, b: string, c: string, d: string, e: string): seq<string> {
    ["<result test_video=", a, " test_pos=", b, " length=", c, " lib_video=", d, " lib_pos=", e, "/>\n"]
  }

  /** A line is such. */
  lemma PiecesOfLine(a: string, b: string, c: string, d: string, e: string)
    requires Quoteless(a) && Quoteless(b) && Quoteless(c) && Quoteless(d) && Quoteless(e)
    ensures Pieces(OPEN + a + POS + b + LENGTH + c + LIB + d + LIBPOS + e + CLOSE) == FivePieces(a, b, c, d, e)
  {
    MarksAreNames();
    PiecesFirst(OPEN, "<result test_video=", a);
    var l1 := OPEN + a;
    PiecesNext(l1, POS, " test_pos=", b);
    var l2 := l1 + POS + b;
    PiecesNext(l2, LENGTH, " length=", c);
    var l3 := l2 + LENGTH + c;
    PiecesNext(l3, LIB, " lib_video=", d);
    var l4 := l3 + LIB + d;
    PiecesNext(l4, LIBPOS, " lib_pos=", e);
    LastPiece(l4 + LIBPOS + e);
  }

  lemma MarksAreNames()
    ensures OPEN == "<result test_video=" + "\"" && Quoteless("<result test_video=")
    ensures POS == "\"" + " test_pos=" + "\"" && Quoteless(" test_pos=")
    ensures LENGTH == "\"" + " length=" + "\"" && Quoteless(" length=")
    ensures LIB == "\"" + " lib_video=" + "\"" && Quoteless(" lib_video=")
    ensures LIBPOS == "\"" + " lib_pos=" + "\"" && Quoteless(" lib_pos=")
  {
  }

  lemma PiecesFirst(mark: string, name: string, text: string)
    requires mark == name + "\"" && Quoteless(name) && Quoteless(text)
    ensures Pieces(mark + text) == [name, text]
  {
    PiecesOfOne(name);
    PiecesOfOne(text);
    PiecesSplit(name, text);
  }

  lemma LastPiece(before: string)
    ensures Pieces(before + CLOSE) == Pieces(before) + ["/>\n"]
  {
    PiecesOfOne("/>\n");
    PiecesSplit(before, "/>\n");
    assert before + CLOSE == before + "\"" + "/>\n";
  }

  /** What the five names stand for. */
  lemma FiveAttributes(a: string, b: string, c: string, d: string, e: string)
    ensures var ps := FivePieces(a, b, c, d, e);
            && Attribute(ps, "<result test_video=") == a && Attribute(ps, " test_pos=") == b
            && Attribute(ps, " length=") == c && Attribute(ps, " lib_video=") == d && Attribute(ps, " lib_pos=") == e
  {
    var ps := FivePieces(a, b, c, d, e);
    var ps2 := [" test_pos=", b, " length=", c, " lib_video=", d, " lib_pos=", e, "/>\n"];
    var ps3 := [" length=", c, " lib_video=", d, " lib_pos=", e, "/>\n"];
    var ps4 := [" lib_video=", d, " lib_pos=", e, "/>\n"];
    var ps5 := [" lib_pos=", e, "/>\n"];
    assert ps[2..] == ps2 && ps2[2..] == ps3 && ps3[2..] == ps4 && ps4[2..] == ps5;
    forall name: string | |name| != 19
      ensures Attribute(ps, name) == Attribute(ps2, name)
    {
    }
    forall name: string | |name| != 10
      ensures Attribute(ps2, name) == Attribute(ps3, name)
    {
    }
    forall name: string | |name| != 8
      ensures Attribute(ps3, name) == Attribute(ps4, name)
    {
    }
    forall name: string | |name| != 11
      ensures Attribute(ps4, name) == Attribute(ps5, name)
    {
    }
  }

  /**
   * A line tells the test's video and position, the length of a slice, and where in the
   * library the test begins: the position of the diagonal plus one, in seconds, and the
   * video of the section unless the position is then that of a new one.
   */
  ghost predicate Tells(line: string, s: Section, sliceLen: u8) {
    && ReadNumber(line, "<result test_video=") == s.TestId() / 1024
    && ReadNumber(line, " test_pos=") == s.TestId() % 1024 * sliceLen
    && ReadNumber(line, " length=") == sliceLen
    && (ReadNumber(line, " lib_video=") == s.LibId() <==> (s.LibPos() - s.TestPos() + 1) % 0x1_0000 != 0)
    && ReadNumber(line, " lib_pos=") == (s.LibPos() - s.TestPos() + 1) % 0x1_0000 / 60
  }

  /** The line for a section. */
  lemma LineTells(s: Section, sliceLen: u8)
    ensures Tells(Line(s.TestId(), s.OffsetId(), sliceLen), s, sliceLen)
  {
    var sec := Reported(s.TestId(), s.OffsetId());
    ReportNames(s);
    LineReads(s.TestId(), s.OffsetId(), sliceLen);
  }

  /** What a line says of any key. */
  lemma LineReads(testId: nat, key: nat, sliceLen: u8)
    requires testId < 0x10_0000
    ensures var line, sec := Line(testId, key, sliceLen), Reported(testId, key);
            && ReadNumber(line, "<result test_video=") == testId / 1024
            && ReadNumber(line, " test_pos=") == testId % 1024 * sliceLen
            && ReadNumber(line, " length=") == sliceLen
            && ReadNumber(line, " lib_video=") == sec.LibId()
            && ReadNumber(line, " lib_pos=") == sec.LibPos() / 60
  {
    var sec := Reported(testId, key);
    ReadsDec(testId / 1024);
    ReadsDec(testId % 1024 * sliceLen);
    ReadsDec(sliceLen);
    ReadsDec(sec.LibId());
    ReadsDec(sec.LibPos() / 60);
    var a, b, c := Dec(testId / 1024), Dec(testId % 1024 * sliceLen), Dec(sliceLen);
    var d, e := Dec(sec.LibId()), Dec(sec.LibPos() / 60);
    PiecesOfLine(a, b, c, d, e);
    FiveAttributes(a, b, c, d, e);
  }

  // -------------------------------------------------------------------------
  // The lines of a report, of all that was counted before it.

  /** A diagonal with sections has been given one. */
  lemma {:induction false} CountedSection(log: seq<Event>, key: nat) returns (s: Section)
    requires CountOf(log, key) > 0
    ensures AddSection(s) in log && s.OffsetId() == key
  {
    var front, e := log[..|log| - 1], log[|log| - 1];
    if e.AddSection? && e.section.OffsetId() == key {
      s := e.section;
    } else {
      s := CountedSection(front, key);
    }
  }

  /** Every line of a report tells of a section of the test that was counted, and of at least
      as many on its diagonal as the threshold. */
  lemma LineHasSection(log: seq<Event>, testId: nat, thres: nat, sliceLen: u8, i: nat) returns (s: Section)
    requires i < |KeysToReport(CountMap(log), testId, thres)|
    ensures AddSection(s) in log && s.TestId() == testId % 0x10_0000 && CountOf(log, s.OffsetId()) >= thres
    ensures Tells(Lines(KeysToReport(CountMap(log), testId, thres), testId, sliceLen)[i], s, sliceLen)
  {
    var keys := KeysToReport(CountMap(log), testId, thres);
    ReportedAre(log, testId, thres);
    assert keys[i] in keys;
    s := CountedSection(log, keys[i]);
    RangeIsTest(s, testId % 0x10_0000);
    LineTells(s, sliceLen);
  }

  /** And every section of the test with that many has its line. */
  lemma SectionHasLine(log: seq<Event>, s: Section, testId: nat, thres: nat, sliceLen: u8) returns (i: nat)
    requires s.TestId() == testId && CountOf(log, s.OffsetId()) > 0 && CountOf(log, s.OffsetId()) >= thres
    ensures var lines := Lines(KeysToReport(CountMap(log), testId, thres), testId, sliceLen);
            i < |lines| && Tells(lines[i], s, sliceLen)
  {
    var keys := KeysToReport(CountMap(log), testId, thres);
    ReportedAre(log, testId, thres);
    RangeIsTest(s, testId);
    i := IndexOf(log, testId, thres, keys, s.OffsetId());
    LineAt(keys, s, testId, sliceLen, i);
  }

  lemma IndexOf(log: seq<Event>, testId: nat, thres: nat, keys: seq<nat>, key: nat) returns (i: nat)
    requires ReportedKeys(log, testId, thres, keys) && OfTest(key, testId % 0x10_0000)
    requires CountOf(log, key) > 0 && CountOf(log, key) >= thres
    ensures i < |keys| && keys[i] == key
  {
    assert key in keys;
    i :| i < |keys| && keys[i] == key;
  }

  lemma LineAt(keys: seq<nat>, s: Section, testId: nat, sliceLen: u8, i: nat)
    requires s.TestId() == testId && i < |keys| && keys[i] == s.OffsetId()
    ensures Tells(Lines(keys, testId, sliceLen)[i], s, sliceLen)
  {
    LineTells(s, sliceLen);
    LineOf(keys, testId, sliceLen, i);
  }

  lemma LineOf(keys: seq<nat>, testId: nat, sliceLen: u8, i: nat)
    requires testId < 0x10_0000 && i < |keys|
    ensures Lines(keys, testId, sliceLen)[i] == Line(testId, keys[i], sliceLen)
  {
    assert testId % 0x10_0000 == testId;
  }
}
