/** What the header parser guarantees for every byte stream, however it was cut: a grammar that every
    stream fits, and the exact state the parser is in for each of its shapes. The header values are
    compared with an independent reading of the lines (sections 3.2 of RFC 7230 and 4.2.1 of RFC 6455). */
module HttpTheorems {
  import opened Sequences
  import opened Frames
  import opened HttpModel
  import HttpParser
  import TextTheorems

  // ---------------------------------------------------------------- reference reading of the lines

  function Render(lines: seq<string>): string {
    if lines == [] then "" else Render(lines[..|lines| - 1]) + (lines[|lines| - 1] + "\r\n")
  }

  /** The value of the first line that has this field name, without regard to case. */
  function FirstValue(lines: seq<string>, h: Header): Option<string> {
    if lines == [] then None
    else if HasPrefix(lines[0], Search(h)) then Some(SkipSpace(lines[0][|Search(h)|..]))
    else FirstValue(lines[1..], h)
  }

  function Fields(lines: seq<string>): seq<string> {
    if lines == [] then [] else lines[1..]
  }

  function Values(fields: seq<string>): (m: map<Header, string>)
    ensures forall h :: h in m <==> FirstValue(fields, h).Some?
    ensures forall h :: h in m ==> m[h] == FirstValue(fields, h).value
  {
    map h: Header | FirstValue(fields, h).Some? :: FirstValue(fields, h).value
  }

  predicate NoContent(line: string) {
    Status(line) == 204 || Status(line) == 304
  }

  /** The announced length, and whether it is a length at all. */
  function Announced(fields: seq<string>): Option<nat> {
    match FirstValue(fields, ContentLengthHeader)
    case None => None
    case Some(v) => Stoul(CString(v))
  }

  function Length(fields: seq<string>): nat {
    match Announced(fields) case None => 0 case Some(n) => n
  }

  /** A body is expected after a 2xx status unless the announced length is zero or unreadable. */
  predicate ExpectsBody(lines: seq<string>) {
    && lines != [] && 199 < Status(lines[0]) < 300 && !NoContent(lines[0])
    && (FirstValue(Fields(lines), ContentLengthHeader).Some? ==> Length(Fields(lines)) > 0)
  }

  /** Lines the parser completes one after the other: free of '\r', none empty but possibly the first,
      and nothing after a first line that announces no content. */
  predicate Completed(lines: seq<string>) {
    && (forall i :: 0 <= i < |lines| ==> '\r' !in lines[i])
    && (forall i :: 1 <= i < |lines| ==> lines[i] != "")
    && (|lines| > 1 ==> !NoContent(lines[0]))
  }

  predicate Reading(lines: seq<string>) {
    Completed(lines) && (lines != [] ==> !NoContent(lines[0]))
  }

  /** The state after these lines. */
  function After(lines: seq<string>): Parser {
    Parser("", if lines != [] && NoContent(lines[0]) then Skip else SlashR, lines == [], false, ExpectsBody(lines),
           false, Length(Fields(lines)), Values(Fields(lines)), if lines == [] then 0 else Status(lines[0]), lines)
  }

  // ---------------------------------------------------------------- one line

  lemma {:induction false} FirstValueAppend(fields: seq<string>, line: string, h: Header)
    ensures FirstValue(fields + [line], h) ==
            if FirstValue(fields, h).Some? then FirstValue(fields, h)
            else if HasPrefix(line, Search(h)) then Some(SkipSpace(line[|Search(h)|..])) else None
  {
    if fields == [] {
      assert (fields + [line])[1..] == [];
    } else {
      FirstValueAppend(fields[1..], line, h);
      assert (fields + [line])[1..] == fields[1..] + [line];
    }
  }

  /** A line names at most one of the fields looked for. */
  lemma OneField(line: string, h: Header, g: Header)
    requires HasPrefix(line, Search(h)) && HasPrefix(line, Search(g))
    ensures h == g
  {
    assert ToLower(line[0]) == ToLower(Search(h)[0]) == ToLower(Search(g)[0]);
    assert ToLower(line[3]) == ToLower(Search(h)[3]) == ToLower(Search(g)[3]);
  }

  lemma HeaderLineRecords(p: Parser, h: Header)
    requires HasPrefix(p.line, Search(h))
    ensures HeaderLine(p) ==
            if h in p.headers then p else if h.ContentLengthHeader? then RecordContentLength(p) else Record(p, h)
  {
    forall g: Header | HasPrefix(p.line, Search(g)) ensures g == h {
      OneField(p.line, g, h);
    }
  }

  /** The reference reading with one more line. */
  lemma ValuesAppend(fields: seq<string>, line: string, h: Header)
    requires HasPrefix(line, Search(h))
    ensures Values(fields + [line]) ==
            if h in Values(fields) then Values(fields) else Values(fields)[h := SkipSpace(line[|Search(h)|..])]
  {
    forall g: Header ensures FirstValue(fields + [line], g) ==
                             if FirstValue(fields, g).Some? then FirstValue(fields, g)
                             else if g == h then Some(SkipSpace(line[|Search(h)|..])) else None
    {
      FirstValueAppend(fields, line, g);
      if HasPrefix(line, Search(g)) {
        OneField(line, g, h);
      }
    }
  }

  lemma ValuesKept(fields: seq<string>, line: string)
    requires forall h: Header :: !HasPrefix(line, Search(h))
    ensures Values(fields + [line]) == Values(fields)
  {
    forall g: Header ensures FirstValue(fields + [line], g) == FirstValue(fields, g) {
      FirstValueAppend(fields, line, g);
    }
  }

  lemma HeaderLineKeeps(p: Parser)
    requires forall h: Header :: !HasPrefix(p.line, Search(h))
    ensures HeaderLine(p) == p
  {
  }

  /** A line that is not the first content-length line leaves the announced length as it is. */
  lemma LengthKept(lines: seq<string>, line: string)
    requires lines != []
    requires FirstValue(Fields(lines), ContentLengthHeader).Some? || !HasPrefix(line, Search(ContentLengthHeader))
    ensures Fields(lines + [line]) == Fields(lines) + [line]
    ensures Length(Fields(lines + [line])) == Length(Fields(lines))
    ensures ExpectsBody(lines + [line]) == ExpectsBody(lines)
  {
    assert Fields(lines + [line]) == Fields(lines) + [line];
    FirstValueAppend(Fields(lines), line, ContentLengthHeader);
  }

  /** The first content-length line sets the announced length. */
  lemma LengthSet(lines: seq<string>, line: string)
    requires lines != [] && FirstValue(Fields(lines), ContentLengthHeader).None?
    requires HasPrefix(line, Search(ContentLengthHeader))
    ensures Fields(lines + [line]) == Fields(lines) + [line]
    ensures Announced(Fields(lines + [line])) == Stoul(CString(SkipSpace(line[|Search(ContentLengthHeader)|..])))
    ensures ExpectsBody(lines + [line]) <==> ExpectsBody(lines) && Length(Fields(lines + [line])) > 0
  {
    assert Fields(lines + [line]) == Fields(lines) + [line];
    FirstValueAppend(Fields(lines), line, ContentLengthHeader);
  }

  /** The parser at the end of a line, and what it goes on with. */
  function Full(lines: seq<string>, line: string): Parser {
    After(lines).(line := line, lineState := SlashN)
  }

  function NextLine(p: Parser, lines: seq<string>): Parser {
    p.(lineState := SlashR, line := "", lines := lines)
  }

  /** A field line the parser has no use for. */
  lemma OtherLine(lines: seq<string>, line: string)
    requires Reading(lines) && lines != []
    requires forall h: Header :: !HasPrefix(line, Search(h))
    ensures NextLine(HeaderLine(Full(lines, line)), lines + [line]) == After(lines + [line])
  {
    LengthKept(lines, line);
    HeaderLineKeeps(Full(lines, line));
    ValuesKept(Fields(lines), line);
  }

  lemma FirstLengthLine(lines: seq<string>, line: string)
    requires Reading(lines) && lines != [] && HasPrefix(line, Search(ContentLengthHeader))
    requires FirstValue(Fields(lines), ContentLengthHeader).None?
    ensures NextLine(RecordContentLength(Full(lines, line)), lines + [line]) == After(lines + [line])
  {
    ValuesAppend(Fields(lines), line, ContentLengthHeader);
    LengthSet(lines, line);
  }

  lemma OtherNamedLine(lines: seq<string>, line: string, h: Header)
    requires Reading(lines) && lines != [] && HasPrefix(line, Search(h))
    requires FirstValue(Fields(lines), h).Some? || !h.ContentLengthHeader?
    ensures NextLine(if FirstValue(Fields(lines), h).Some? then Full(lines, line) else Record(Full(lines, line), h), lines + [line])
            == After(lines + [line])
  {
    ValuesAppend(Fields(lines), line, h);
    if HasPrefix(line, Search(ContentLengthHeader)) {
      OneField(line, h, ContentLengthHeader);
    }
    LengthKept(lines, line);
  }

  /** A field line the parser looks for: what is recorded is what the reference reading finds. */
  lemma NamedLine(lines: seq<string>, line: string, h: Header)
    requires Reading(lines) && lines != [] && HasPrefix(line, Search(h))
    ensures NextLine(HeaderLine(Full(lines, line)), lines + [line]) == After(lines + [line])
  {
    HeaderLineRecords(Full(lines, line), h);
    if h.ContentLengthHeader? && FirstValue(Fields(lines), h).None? {
      FirstLengthLine(lines, line);
    } else {
      OtherNamedLine(lines, line, h);
    }
  }

  /** One more field line. */
  lemma FieldLine(lines: seq<string>, line: string)
    requires Reading(lines) && lines != [] && line != ""
    ensures EndLine(Full(lines, line)) == After(lines + [line])
  {
    if h: Header :| HasPrefix(line, Search(h)) {
      HeaderLineRecords(Full(lines, line), h);
      NamedLine(lines, line, h);
    } else {
      HeaderLineKeeps(Full(lines, line));
      OtherLine(lines, line);
    }
  }

  lemma LineEnds(lines: seq<string>, line: string)
    requires Reading(lines) && Completed(lines + [line])
    ensures EndLine(Full(lines, line)) == After(lines + [line])
  {
    if lines != [] {
      assert (lines + [line])[|lines|] == line;
      FieldLine(lines, line);
    }
  }

  // ---------------------------------------------------------------- the grammar of all streams

  /** What a stream can look like: it stops inside a line, or between '\r' and '\n', or its headers have
      ended, or its first line announces no content, or a '\r' is not followed by '\n'. */
  datatype Shape =
    | InLine(lines: seq<string>, line: string)
    | AfterSlashR(lines: seq<string>, line: string)
    | Ended(lines: seq<string>, rest: string)
    | Silent(line: string, rest: string)
    | Malformed(lines: seq<string>, line: string, wrong: char, rest: string)

  predicate WellFormed(s: Shape) {
    match s
    case InLine(lines, line) => Reading(lines) && '\r' !in line
    case AfterSlashR(lines, line) => Reading(lines) && '\r' !in line
    case Ended(lines, rest) => Reading(lines) && lines != []
    case Silent(line, rest) => '\r' !in line && NoContent(line)
    case Malformed(lines, line, wrong, rest) => Reading(lines) && '\r' !in line && wrong != '\n'
  }

  function Shown(s: Shape): string {
    match s
    case InLine(lines, line) => Render(lines) + line
    case AfterSlashR(lines, line) => Render(lines) + line + "\r"
    case Ended(lines, rest) => Render(lines) + "\r\n" + rest
    case Silent(line, rest) => Render([line]) + rest
    case Malformed(lines, line, wrong, rest) => Render(lines) + line + "\r" + [wrong] + rest
  }

  /** A request to switch to a web socket. */
  predicate Upgrades(fields: seq<string>) {
    FirstValue(fields, SecWebSocketKey).Some? && FirstValue(fields, Upgrade).Some?
  }

  /** The response is complete: at once after an upgrade request or an announced length of zero, on the
      next byte when no body is expected. */
  predicate CompleteAfter(lines: seq<string>, rest: string) {
    || Upgrades(Fields(lines))
    || (!ExpectsBody(lines) &&
        (rest != "" || (FirstValue(Fields(lines), ContentLengthHeader).Some? && Length(Fields(lines)) == 0)))
  }

  function StateOf(s: Shape): Parser {
    match s
    case InLine(lines, line) => After(lines).(line := line)
    case AfterSlashR(lines, line) => Full(lines, line)
    case Ended(lines, rest) => After(lines).(lineState := Done, isDoneParsing := CompleteAfter(lines, rest))
    case Silent(line, rest) => After([line]).(isDoneParsing := rest != "")
    case Malformed(lines, line, wrong, rest) => After(lines).(line := line, lineState := SlashN, isInvalid := true)
  }

  /** From the start of a line to its '\r'. */
  lemma {:induction false} ReadsLine(lines: seq<string>, line: string)
    requires Reading(lines) && '\r' !in line
    ensures Bytes(Start, Render(lines) + line) == After(lines).(line := line)
    ensures Bytes(Start, Render(lines) + line + "\r") == Full(lines, line)
    decreases |lines|, 1
  {
    ReadsLines(lines);
    var p := After(lines).(line := line);
    LineGrows(After(lines), line);
    assert "" + line == line;
    BytesConcat(Start, Render(lines), line);
    BytesConcat(Start, Render(lines) + line, "\r");
    assert Bytes(p, "\r"[..0]) == p;
  }

  lemma RenderAppend(lines: seq<string>, line: string)
    ensures Render(lines + [line]) == Render(lines) + line + "\r" + ['\n']
  {
    assert (lines + [line])[..|lines|] == lines;
  }

  lemma {:induction false} LineFeed(lines: seq<string>, line: string)
    requires Reading(lines) && '\r' !in line
    ensures Bytes(Start, Render(lines) + line + "\r" + ['\n']) == EndLine(Full(lines, line))
    decreases |lines|, 2
  {
    ReadsLine(lines, line);
    OneMoreByte(Start, Render(lines) + line + "\r", '\n');
  }

  lemma {:induction false} ReadsLines(lines: seq<string>)
    requires Completed(lines)
    ensures Bytes(Start, Render(lines)) == After(lines)
    decreases |lines|, 0
  {
    if lines != [] {
      var init, line := lines[..|lines| - 1], lines[|lines| - 1];
      assert lines == init + [line];
      LineFeed(init, line);
      RenderAppend(init, line);
      LineEnds(init, line);
    }
  }

  lemma EmptyLineText(a: string)
    ensures a + "\r\n" == a + "" + "\r" + ['\n']
    ensures a + "\r\n" + "" == a + "" + "\r" + ['\n']
  {
    assert a + "" == a;
    assert "\r\n" == "\r" + ['\n'];
  }

  lemma EmptyLine(lines: seq<string>)
    requires Reading(lines) && lines != []
    ensures Bytes(Start, Render(lines) + "\r\n") == StateOf(Ended(lines, ""))
  {
    LineFeed(lines, "");
    EmptyLineText(Render(lines));
  }

  lemma EndsHeaders(lines: seq<string>, rest: string)
    requires Reading(lines) && lines != []
    ensures Bytes(Start, Render(lines) + "\r\n" + rest) == StateOf(Ended(lines, rest))
  {
    EmptyLine(lines);
    BytesConcat(Start, Render(lines) + "\r\n", rest);
    NothingMore(StateOf(Ended(lines, "")), rest);
  }

  lemma IsMalformed(lines: seq<string>, line: string, wrong: char, rest: string)
    requires WellFormed(Malformed(lines, line, wrong, rest))
    ensures Bytes(Start, Render(lines) + line + "\r" + [wrong] + rest) == StateOf(Malformed(lines, line, wrong, rest))
  {
    ReadsLine(lines, line);
    OneMoreByte(Start, Render(lines) + line + "\r", wrong);
    BytesConcat(Start, Render(lines) + line + "\r" + [wrong], rest);
    NothingMore(StateOf(Malformed(lines, line, wrong, "")), rest);
  }

  /** The parser's state after a stream of each shape. */
  lemma ShapeParses(s: Shape)
    requires WellFormed(s)
    ensures Bytes(Start, Shown(s)) == StateOf(s)
  {
    match s
    case InLine(lines, line) => ReadsLine(lines, line);
    case AfterSlashR(lines, line) => ReadsLine(lines, line);
    case Ended(lines, rest) => EndsHeaders(lines, rest);
    case Silent(line, rest) =>
      ReadsLines([line]);
      BytesConcat(Start, Render([line]), rest);
      NothingMore(After([line]), rest);
    case Malformed(lines, line, wrong, rest) => IsMalformed(lines, line, wrong, rest);
  }

  // ---------------------------------------------------------------- every stream has one shape

  function Extend(s: Shape, ch: char): Shape {
    match s
    case InLine(lines, line) => if ch == '\r' then AfterSlashR(lines, line) else InLine(lines, line + [ch])
    case AfterSlashR(lines, line) =>
      if ch != '\n' then Malformed(lines, line, ch, "")
      else if lines == [] && NoContent(line) then Silent(line, "")
      else if lines != [] && line == "" then Ended(lines, "")
      else InLine(lines + [line], "")
    case Ended(lines, rest) => Ended(lines, rest + [ch])
    case Silent(line, rest) => Silent(line, rest + [ch])
    case Malformed(lines, line, wrong, rest) => Malformed(lines, line, wrong, rest + [ch])
  }

  lemma ExtendIsWellFormed(s: Shape, ch: char)
    requires WellFormed(s)
    ensures WellFormed(Extend(s, ch))
  {
  }

  lemma LineFeedShows(lines: seq<string>, line: string)
    requires Reading(lines) && '\r' !in line
    ensures Shown(Extend(AfterSlashR(lines, line), '\n')) == Render(lines) + line + "\r" + ['\n']
  {
    if lines == [] && NoContent(line) {
      RenderAppend([], line);
      assert Render([line]) + "" == Render([line]);
      assert [] + [line] == [line];
    } else if lines != [] && line == "" {
      EmptyLineText(Render(lines));
    } else {
      RenderAppend(lines, line);
    }
  }

  lemma ExtendShows(s: Shape, ch: char)
    requires WellFormed(s)
    ensures Shown(Extend(s, ch)) == Shown(s) + [ch]
  {
    match s
    case InLine(lines, line) => ConcatAssoc(Render(lines), line, [ch]);
    case AfterSlashR(lines, line) =>
      if ch == '\n' {
        LineFeedShows(lines, line);
      }
    case Ended(lines, rest) => ConcatAssoc(Render(lines) + "\r\n", rest, [ch]);
    case Silent(line, rest) => ConcatAssoc(Render([line]), rest, [ch]);
    case Malformed(lines, line, wrong, rest) => ConcatAssoc(Render(lines) + line + "\r" + [wrong], rest, [ch]);
  }

  lemma {:induction false} EveryStreamHasAShape(bytes: string) returns (s: Shape)
    ensures WellFormed(s) && Shown(s) == bytes && Bytes(Start, bytes) == StateOf(s)
  {
    if bytes == "" {
      s := InLine([], "");
    } else {
      var init, last := bytes[..|bytes| - 1], bytes[|bytes| - 1];
      var s0 := EveryStreamHasAShape(init);
      ExtendIsWellFormed(s0, last);
      ExtendShows(s0, last);
      s := Extend(s0, last);
      assert bytes == init + [last];
    }
    ShapeParses(s);
  }

  /** The shape without the bytes the parser does not keep. */
  function Core(s: Shape): Shape {
    match s
    case InLine(_, _) => s
    case AfterSlashR(_, _) => s
    case Ended(lines, _) => Ended(lines, "")
    case Silent(line, _) => Silent(line, "")
    case Malformed(lines, line, _, _) => Malformed(lines, line, '\r', "")
  }

  function CoreOf(p: Parser): Shape {
    if p.isInvalid then Malformed(p.lines, p.line, '\r', "")
    else match p.lineState
      case SlashR => InLine(p.lines, p.line)
      case SlashN => AfterSlashR(p.lines, p.line)
      case Done => Ended(p.lines, "")
      case Skip => if p.lines == [] then InLine([], "") else Silent(p.lines[0], "")
  }

  lemma StateTellsCore(s: Shape)
    requires WellFormed(s)
    ensures CoreOf(StateOf(s)) == Core(s)
  {
  }

  lemma SameTail(a: string, x: string, y: string)
    requires a + x == a + y
    ensures x == y
  {
    assert (a + x)[|a|..] == x;
    assert (a + y)[|a|..] == y;
  }

  /** No stream has two shapes. */
  lemma Unambiguous(s: Shape, t: Shape)
    requires WellFormed(s) && WellFormed(t) && Shown(s) == Shown(t)
    ensures s == t
  {
    ShapeParses(s);
    ShapeParses(t);
    StateTellsCore(s);
    StateTellsCore(t);
    match s
    case InLine(_, _) =>
    case AfterSlashR(_, _) =>
    case Ended(lines, rest) => SameTail(Render(lines) + "\r\n", rest, t.rest);
    case Silent(line, rest) => SameTail(Render([line]), rest, t.rest);
    case Malformed(lines, line, wrong, rest) =>
      var a := Render(lines) + line + "\r";
      ConcatAssoc(a, [wrong], rest);
      ConcatAssoc(a, [t.wrong], t.rest);
      SameTail(a, [wrong] + rest, [t.wrong] + t.rest);
      assert ([wrong] + rest)[0] == wrong && ([wrong] + rest)[1..] == rest;
      assert ([t.wrong] + t.rest)[0] == t.wrong && ([t.wrong] + t.rest)[1..] == t.rest;
  }

  /** The parser gives up exactly on a '\r' in the first line or the header lines that no '\n' follows. */
  lemma MalformedExactly(bytes: string)
    ensures Bytes(Start, bytes).isInvalid <==> exists s :: WellFormed(s) && s.Malformed? && Shown(s) == bytes
  {
    var s := EveryStreamHasAShape(bytes);
    forall t | WellFormed(t) && Shown(t) == bytes ensures t == s {
      Unambiguous(s, t);
    }
  }

  /** The streams after which the parser has what it needs. */
  predicate Complete(s: Shape) {
    || (s.Ended? && CompleteAfter(s.lines, s.rest))
    || (s.Silent? && s.rest != "")
  }

  /** What parse answers after a stream: it fails exactly on malformed ones, succeeds exactly on complete ones and
      asks for more on all others. */
  lemma OutcomeExactly(bytes: string)
    ensures var outcome := HttpParser.Outcome(Bytes(Start, bytes));
            && (outcome.Failed? <==> exists s :: WellFormed(s) && s.Malformed? && Shown(s) == bytes)
            && (outcome.Succeeded? <==> exists s :: WellFormed(s) && Complete(s) && Shown(s) == bytes)
  {
    var s := EveryStreamHasAShape(bytes);
    forall t | WellFormed(t) && Shown(t) == bytes ensures t == s {
      Unambiguous(s, t);
    }
  }

  // ---------------------------------------------------------------- two streams

  lemma RenderThree(a: string, b: string, c: string)
    ensures Render([a, b, c]) == (a + "\r\n") + (b + "\r\n") + (c + "\r\n")
  {
    assert [a, b, c][..2] == [a, b] && [a, b][..1] == [a] && [a][..0] == [];
    assert Render([a]) == a + "\r\n";
    assert Render([a, b]) == Render([a]) + (b + "\r\n");
  }

  /** A line made of a field name, in any letters, and a value. */
  lemma NamedBy(name: string, h: Header, value: string)
    requires |name| == |Search(h)|
    requires forall i :: 0 <= i < |name| ==>
               name[i] == Search(h)[i] || ('a' <= Search(h)[i] <= 'z' && name[i] as int == Search(h)[i] as int - 32)
    requires value != "" ==> !TextTheorems.Blank(value[0])
    ensures HasPrefix(name + " " + value, Search(h))
    ensures SkipSpace((name + " " + value)[|Search(h)|..]) == value
    ensures forall g: Header :: HasPrefix(name + " " + value, Search(g)) ==> g == h
  {
    var line := name + " " + value;
    TextTheorems.NamesField(line, h);
    assert line[|Search(h)|..] == " " + value;
    TextTheorems.LeftTrimmed(" ", value);
    forall g: Header | HasPrefix(line, Search(g)) ensures g == h {
      OneField(line, g, h);
    }
  }

  /** A line that names this field and no other. */
  ghost predicate Names(line: string, h: Header, value: string) {
    && (forall g: Header :: HasPrefix(line, Search(g)) <==> g == h)
    && |line| >= |Search(h)| && SkipSpace(line[|Search(h)|..]) == value
  }

  lemma OneOfTwo(a: string, x: string, h: Header, b: string, y: string, g: Header, f: Header)
    requires h != g && Names(a, h, x) && Names(b, g, y)
    ensures FirstValue([a, b], f) == if f == h then Some(x) else if f == g then Some(y) else None
  {
    assert [a, b][1..] == [b];
    FirstValueAppend([], b, f);
    assert [] + [b] == [b];
  }

  lemma TwoFields(a: string, x: string, h: Header, b: string, y: string, g: Header)
    requires h != g && Names(a, h, x) && Names(b, g, y)
    ensures Values([a, b]) == map[h := x, g := y]
  {
    assert Values([]) == map[];
    ValuesAppend([], a, h);
    ValuesAppend([a], b, g);
    assert [] + [a] == [a] && [a] + [b] == [a, b];
  }

  /** The parser at the end of headers of two field lines. */
  lemma TwoLinesEnd(first: string, a: string, b: string)
    requires '\r' !in first && '\r' !in a && '\r' !in b && a != "" && b != "" && !NoContent(first)
    ensures Bytes(Start, (first + "\r\n") + (a + "\r\n") + (b + "\r\n") + "\r\n") == StateOf(Ended([first, a, b], ""))
    ensures Fields([first, a, b]) == [a, b]
  {
    EmptyLine([first, a, b]);
    RenderThree(first, a, b);
  }

  /** A request of two field lines that ask for a web socket. */
  lemma RequestParses(first: string, a: string, x: string, b: string, y: string)
    requires '\r' !in first && '\r' !in a && '\r' !in b && a != "" && b != "" && !NoContent(first)
    requires Names(a, Upgrade, x) && Names(b, SecWebSocketKey, y)
    ensures var p := Bytes(Start, (first + "\r\n") + (a + "\r\n") + (b + "\r\n") + "\r\n");
            p.isDoneParsing && p.headers == map[Upgrade := x, SecWebSocketKey := y]
  {
    TwoLinesEnd(first, a, b);
    TwoFields(a, x, Upgrade, b, y, SecWebSocketKey);
  }

  lemma UpgradeLine()
    ensures Names("Upgrade:" + " " + "websocket", Upgrade, "websocket") && '\r' !in "Upgrade:" + " " + "websocket"
  {
    NamedBy("Upgrade:", Upgrade, "websocket");
  }

  lemma KeyLine(key: string)
    requires '\r' !in key && (key != "" ==> !TextTheorems.Blank(key[0]))
    ensures Names("Sec-WebSocket-Key:" + " " + key, SecWebSocketKey, key) && '\r' !in "Sec-WebSocket-Key:" + " " + key
  {
    NamedBy("Sec-WebSocket-Key:", SecWebSocketKey, key);
  }

  lemma GetHasNoStatus()
    ensures Status("GET / HTTP/1.1") == 0 && '\r' !in "GET / HTTP/1.1"
  {
    var rest := "P/1.1";
    TextTheorems.StrtolReads(TextTheorems.Numeral("", "", "", rest));
    assert "" + ("" + ("" + rest)) == rest && "GET / HTTP/1.1"[9..] == rest;
  }

  /** A browser's request for a web socket, with any key: it is complete at once, and both fields are known. */
  lemma UpgradeRequest(key: string)
    requires '\r' !in key && (key != "" ==> !TextTheorems.Blank(key[0]))
    ensures var upgrade, line := "Upgrade:" + " " + "websocket", "Sec-WebSocket-Key:" + " " + key;
            var p := Bytes(Start, ("GET / HTTP/1.1" + "\r\n") + (upgrade + "\r\n") + (line + "\r\n") + "\r\n");
            p.isDoneParsing && p.headers == map[Upgrade := "websocket", SecWebSocketKey := key]
  {
    GetHasNoStatus();
    UpgradeLine();
    KeyLine(key);
    RequestParses("GET / HTTP/1.1", "Upgrade:" + " " + "websocket", "websocket", "Sec-WebSocket-Key:" + " " + key, key);
  }

  lemma CloseLine()
    ensures Names("connection:" + " " + "close", Connection, "close") && '\r' !in "connection:" + " " + "close"
  {
    NamedBy("connection:", Connection, "close");
  }

  lemma LengthLine(n: nat)
    requires n < SIZE
    ensures Names("CONTENT-LENGTH:" + " " + Decimal(n), ContentLengthHeader, Decimal(n))
    ensures '\r' !in "CONTENT-LENGTH:" + " " + Decimal(n) && Stoul(CString(Decimal(n))) == Some(n)
  {
    var s := Decimal(n);
    assert s[0] in s;
    NamedBy("CONTENT-LENGTH:", ContentLengthHeader, s);
    assert '\0' !in s && s + "" == s;
    TextTheorems.CStringEnds(s, "");
    TextTheorems.StoulOfDecimal(n);
  }

  lemma StatusLine(code: nat)
    requires code < 0x8000_0000
    ensures Status("HTTP/1.1 " + Decimal(code) + " OK") == code && '\r' !in "HTTP/1.1 " + Decimal(code) + " OK"
  {
    TextTheorems.StatusReads("HTTP/1.1 ", code, " OK");
  }

  /** What two such field lines say about the body. */
  lemma AnnouncedOf(a: string, x: string, b: string, y: string, n: nat)
    requires Names(a, Connection, x) && Names(b, ContentLengthHeader, y) && Stoul(CString(y)) == Some(n)
    ensures FirstValue([a, b], ContentLengthHeader).Some? && Length([a, b]) == n
  {
    OneOfTwo(a, x, Connection, b, y, ContentLengthHeader, ContentLengthHeader);
  }

  lemma LengthParses(first: string, a: string, x: string, b: string, y: string, n: nat)
    requires '\r' !in first && '\r' !in a && '\r' !in b && a != "" && b != "" && !NoContent(first)
    requires Names(a, Connection, x) && Names(b, ContentLengthHeader, y) && Stoul(CString(y)) == Some(n)
    ensures var p := Bytes(Start, (first + "\r\n") + (a + "\r\n") + (b + "\r\n") + "\r\n");
            && p.responseCode == Status(first) && p.contentLength == n && !p.isInvalid && (p.isDoneParsing <==> n == 0)
            && (p.canParseBody <==> 199 < Status(first) < 300 && n > 0)
  {
    TwoLinesEnd(first, a, b);
    AnnouncedOf(a, x, b, y, n);
    OneOfTwo(a, x, Connection, b, y, ContentLengthHeader, Upgrade);
  }

  /** A response with any status that allows content and any length: both are read, and a body is expected exactly
      after a 2xx status and a length above zero. */
  lemma ResponseLength(code: nat, n: nat)
    requires code < 0x8000_0000 && code != 204 && code != 304 && n < SIZE
    ensures var status, close, length := "HTTP/1.1 " + Decimal(code) + " OK", "connection:" + " " + "close",
                                         "CONTENT-LENGTH:" + " " + Decimal(n);
            var p := Bytes(Start, (status + "\r\n") + (close + "\r\n") + (length + "\r\n") + "\r\n");
            && p.responseCode == code && p.contentLength == n && !p.isInvalid && (p.isDoneParsing <==> n == 0)
            && (p.canParseBody <==> 199 < code < 300 && n > 0)
  {
    StatusLine(code);
    CloseLine();
    LengthLine(n);
    LengthParses("HTTP/1.1 " + Decimal(code) + " OK", "connection:" + " " + "close", "close",
                 "CONTENT-LENGTH:" + " " + Decimal(n), Decimal(n), n);
  }
}
