/** The header phase of server/http/WebResponseParser.hpp, byte by byte. */
module HttpModel {
  import opened Frames

  datatype LineState = SlashR | SlashN | Done | Skip

  datatype Header = Upgrade | SecWebSocketKey | ContentLengthHeader | Connection

  /** `line` is the line being read. `canParseBody` says that a response body is expected. History:
      `lines` are the lines completed before the empty one that ends the headers. */
  datatype Parser = Parser(
    line: string,
    lineState: LineState,
    isFirstLine: bool,
    isDoneParsing: bool,
    canParseBody: bool,
    isInvalid: bool,
    contentLength: nat,
    headers: map<Header, string>,
    responseCode: int,
    lines: seq<string>
  )

  const Start: Parser := Parser("", SlashR, true, false, false, false, 0, map[], 0, [])

  // ---------------------------------------------------------------- text

  function ToLower(c: char): char {
    if 'A' <= c <= 'Z' then (c as int + 32) as char else c
  }

  /** utils::compare on strings of equal length. */
  predicate SameIgnoringCase(a: string, b: string) {
    |a| == |b| && forall i :: 0 <= i < |a| ==> ToLower(a[i]) == ToLower(b[i])
  }

  /** utils::hasPrefix */
  predicate HasPrefix(haystack: string, needle: string) {
    |haystack| >= |needle| && SameIgnoringCase(haystack[..|needle|], needle)
  }

  function Search(h: Header): string {
    match h
    case Upgrade => "upgrade:"
    case SecWebSocketKey => "sec-websocket-key:"
    case ContentLengthHeader => "content-length:"
    case Connection => "connection:"
  }

  /** strtol in base 10, cast to int: the value saturates at the range of long and is then truncated. */
  function Strtol(s: string): int {
    var t := SkipSpace(s);
    var negative := t != "" && t[0] == '-';
    var u := if t != "" && (t[0] == '-' || t[0] == '+') then t[1..] else t;
    var v: int := Value(DigitPrefix(u));
    var long := if negative then (if v > 0x8000_0000_0000_0000 then -0x8000_0000_0000_0000 else -v)
                else (if v > 0x7FFF_FFFF_FFFF_FFFF then 0x7FFF_FFFF_FFFF_FFFF else v);
    var low := long % 0x1_0000_0000;
    if low < 0x8000_0000 then low else low - 0x1_0000_0000
  }

  /** The bytes of a char buffer up to the first zero. */
  function CString(s: string): string {
    if s == "" || s[0] == '\0' then "" else [s[0]] + CString(s[1..])
  }

  // ---------------------------------------------------------------- lines

  /** parseHeader: the first matching line wins, and leading white space of the value is dropped. */
  predicate Matches(p: Parser, h: Header) {
    h !in p.headers && HasPrefix(p.line, Search(h))
  }

  function Record(p: Parser, h: Header): Parser
    requires Matches(p, h)
  {
    p.(headers := p.headers[h := SkipSpace(p.line[|Search(h)|..])])
  }

  function RecordContentLength(p: Parser): Parser
    requires Matches(p, ContentLengthHeader)
  {
    var p1 := Record(p, ContentLengthHeader);
    match Stoul(CString(p1.headers[ContentLengthHeader]))
    case None => p1.(contentLength := 0, canParseBody := false)
    case Some(n) => p1.(contentLength := n, canParseBody := if n < 1 then false else p1.canParseBody)
  }

  /** The header lines the parser cares about, in the order it tries them. */
  function HeaderLine(p: Parser): Parser {
    if Matches(p, Upgrade) then Record(p, Upgrade)
    else if Matches(p, SecWebSocketKey) then Record(p, SecWebSocketKey)
    else if Matches(p, ContentLengthHeader) then RecordContentLength(p)
    else if Matches(p, Connection) then Record(p, Connection)
    else p
  }

  /** The status code: the number at a fixed column of the first line. */
  function Status(line: string): int {
    if |line| > 9 then Strtol(line[9..]) else 0
  }

  /** parseFirstLine: 304 and 204 end the headers, any other 2xx announces a body. */
  function FirstLine(p: Parser): Parser {
    var code := Status(p.line);
    var p1 := p.(responseCode := code);
    if code == 304 || code == 204 then p1.(lineState := Skip)
    else if 199 < code < 300 then p1.(canParseBody := true)
    else p1
  }

  /** processLine and what gotoSlashN does about its answer. */
  function EndLine(p: Parser): Parser {
    var next := if p.isFirstLine then FirstLine(p.(isFirstLine := false)) else HeaderLine(p);
    if !p.isFirstLine && p.line == "" then
      var upgraded := SecWebSocketKey in p.headers && Upgrade in p.headers;
      var empty := !p.canParseBody && p.contentLength == 0 && ContentLengthHeader in p.headers;
      p.(lineState := Done, isDoneParsing := upgraded || empty)
    else
      next.(lineState := if next.lineState.Skip? then Skip else SlashR, line := "", lines := p.lines + [p.line])
  }

  /** One byte. Once parsing is done or the input was malformed nothing changes any more. After the
      headers any further byte completes a message without a body; a body is not looked into. */
  function Byte(p: Parser, ch: char): Parser {
    if p.isDoneParsing || p.isInvalid then p
    else
      match p.lineState
      case SlashR => if ch == '\r' then p.(lineState := SlashN) else p.(line := p.line + [ch])
      case SlashN => if ch == '\n' then EndLine(p) else p.(isInvalid := true)
      case Done => if p.canParseBody then p else p.(isDoneParsing := true)
      case Skip => if p.canParseBody then p else p.(isDoneParsing := true)
  }

  function Bytes(p: Parser, bytes: string): Parser {
    if bytes == "" then p else Byte(Bytes(p, bytes[..|bytes| - 1]), bytes[|bytes| - 1])
  }

  /** Nothing more is parsed: the response is complete, or malformed. */
  predicate Stopped(p: Parser) {
    p.isDoneParsing || p.isInvalid
  }

  lemma {:induction false} BytesConcat(p: Parser, a: string, b: string)
    ensures Bytes(p, a + b) == Bytes(Bytes(p, a), b)
    decreases |b|
  {
    if b == "" {
      assert a + b == a;
    } else {
      BytesConcat(p, a, b[..|b| - 1]);
      assert (a + b)[..|a + b| - 1] == a + b[..|b| - 1];
    }
  }

  lemma OneMoreByte(p: Parser, bytes: string, ch: char)
    ensures Bytes(p, bytes + [ch]) == Byte(Bytes(p, bytes), ch)
  {
    assert (bytes + [ch])[..|bytes|] == bytes;
  }

  /** Bytes that are not '\r' extend the line. */
  lemma {:induction false} LineGrows(p: Parser, bytes: string)
    requires p.lineState.SlashR? && !p.isDoneParsing && !p.isInvalid && '\r' !in bytes
    ensures Bytes(p, bytes) == p.(line := p.line + bytes)
  {
    if bytes == "" {
      assert p.line + bytes == p.line;
    } else {
      var init, last := bytes[..|bytes| - 1], bytes[|bytes| - 1];
      assert last in bytes;
      LineGrows(p, init);
      assert p.line + bytes == p.line + init + [last];
    }
  }

  /** After the headers, after the end, and after malformed input, bytes change at most isDoneParsing. */
  lemma {:induction false} NothingMore(p: Parser, bytes: string)
    requires p.isDoneParsing || p.isInvalid || p.lineState.Done? || p.lineState.Skip?
    ensures Bytes(p, bytes) ==
            if bytes == "" || p.isDoneParsing || p.isInvalid || p.canParseBody then p else p.(isDoneParsing := true)
  {
    if bytes != "" {
      NothingMore(p, bytes[..|bytes| - 1]);
    }
  }
}
