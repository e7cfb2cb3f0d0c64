/** The header parser in place (server/http/WebResponseParser.hpp): a zeroed line buffer that is filled
    in bulk up to the next '\r', and a loop that moves an index over the received fragment. */
module HttpParser {
  import opened Sequences
  import opened Frames
  import opened HttpModel
  import TextTheorems

  datatype VResult = Succeeded | Retry | Failed

  // ---------------------------------------------------------------- numbers in a zero-filled buffer

  lemma {:induction false} SkipSpacePadded(s: string, z: string)
    requires forall i :: 0 <= i < |z| ==> z[i] == '\0'
    ensures SkipSpace(s + z) == SkipSpace(s) + z
  {
    if s != "" && IsSpace(s[0]) {
      SkipSpacePadded(s[1..], z);
      assert (s + z)[1..] == s[1..] + z;
    } else if s == "" {
      assert s + z == z;
    }
  }

  lemma {:induction false} DigitPrefixPadded(s: string, z: string)
    requires forall i :: 0 <= i < |z| ==> z[i] == '\0'
    ensures DigitPrefix(s + z) == DigitPrefix(s)
  {
    if s != "" && IsDigit(s[0]) {
      DigitPrefixPadded(s[1..], z);
      assert (s + z)[1..] == s[1..] + z;
    }
  }

  /** strtol stops at the zeros that follow the line in the buffer. */
  lemma StrtolPadded(s: string, z: string)
    requires forall i :: 0 <= i < |z| ==> z[i] == '\0'
    ensures Strtol(s + z) == Strtol(s)
  {
    SkipSpacePadded(s, z);
    var t := SkipSpace(s);
    if t != "" {
      assert (t + z)[1..] == t[1..] + z;
      DigitPrefixPadded(t[1..], z);
    }
    DigitPrefixPadded(t, z);
  }

  /** The number in the status column of a zero-filled line buffer. */
  lemma StatusInBuffer(line: string, z: string)
    requires forall i :: 0 <= i < |z| ==> z[i] == '\0'
    requires |line| + |z| >= 9
    ensures Strtol((line + z)[9..]) == Status(line)
  {
    if |line| > 9 {
      assert (line + z)[9..] == line[9..] + z;
      StrtolPadded(line[9..], z);
    } else {
      var rest := (line + z)[9..];
      assert rest == "" + rest;
      StrtolPadded("", rest);
    }
  }

  lemma {:induction false} SkipSpaceSteps(s: string, n: nat)
    requires n <= |s| && forall i :: 0 <= i < n ==> IsSpace(s[i])
    ensures SkipSpace(s) == SkipSpace(s[n..])
  {
    if n > 0 {
      SkipSpaceSteps(s[1..], n - 1);
      assert s[1..][n - 1..] == s[n..];
    }
  }

  // ---------------------------------------------------------------- the parser

  /** What the parser asks of every point of a fragment: the line has room for one more byte and the
      zero that ends it, and no byte of a response body follows. */
  predicate FitsAt(p: Parser, more: bool) {
    |p.line| < MAX_READ_BUF && (more && (p.lineState.Done? || p.lineState.Skip?) ==> !p.canParseBody)
  }

  ghost predicate Fits(p: Parser, bytes: string) {
    forall k :: 0 <= k <= |bytes| ==> FitsAt(Bytes(p, bytes[..k]), k < |bytes|)
  }

  /** Every receive up to the one that stops the parser fits. */
  ghost predicate FitsAll(p: Parser, fragments: seq<string>) {
    forall i :: 0 <= i < |fragments| ==>
      Stopped(Bytes(p, Flatten(fragments[..i]))) || Fits(Bytes(p, Flatten(fragments[..i])), fragments[i])
  }

  lemma FitsHere(p: Parser, bytes: string)
    requires bytes != "" && Fits(p, bytes)
    ensures FitsAt(p, true)
  {
    assert bytes[..0] == "";
    assert FitsAt(Bytes(p, bytes[..0]), true);
  }

  lemma FitsFirst(p: Parser, a: string, b: string)
    requires Fits(p, a + b)
    ensures Fits(p, a)
  {
    forall k | 0 <= k <= |a| ensures FitsAt(Bytes(p, a[..k]), k < |a|) {
      assert (a + b)[..k] == a[..k];
      assert FitsAt(Bytes(p, (a + b)[..k]), k < |a + b|);
    }
  }

  lemma FitsPiece(p: Parser, before: string, piece: string, after: string)
    requires Fits(p, before + (piece + after))
    ensures Fits(Bytes(p, before), piece)
  {
    var bytes := before + (piece + after);
    assert bytes[..|before|] == before && bytes[|before|..] == piece + after;
    FitsRest(p, bytes, |before|);
    FitsFirst(Bytes(p, before), piece, after);
  }

  lemma FitsInPlace(p: Parser, fragments: seq<string>, i: nat)
    requires i < |fragments| && Fits(p, Flatten(fragments))
    ensures Fits(Bytes(p, Flatten(fragments[..i])), fragments[i])
  {
    FlattenAround(fragments, i);
    FitsPiece(p, Flatten(fragments[..i]), fragments[i], Flatten(fragments[i + 1..]));
  }

  /** A stream that fits whole does so however it is cut. */
  lemma FitsHoweverCut(p: Parser, fragments: seq<string>)
    requires Fits(p, Flatten(fragments))
    ensures FitsAll(p, fragments)
  {
    forall i | 0 <= i < |fragments| ensures Fits(Bytes(p, Flatten(fragments[..i])), fragments[i]) {
      FitsInPlace(p, fragments, i);
    }
  }

  /** What parse answers. */
  function Outcome(p: Parser): VResult {
    if p.isDoneParsing then Succeeded else if p.isInvalid then Failed else Retry
  }

  lemma SliceJoins(bytes: string, from: nat, to: nat)
    requires from <= to <= |bytes|
    ensures bytes[..from] + bytes[from..to] == bytes[..to]
  {
  }

  lemma BytesSlice(p: Parser, bytes: string, from: nat, to: nat)
    requires from <= to <= |bytes|
    ensures Bytes(Bytes(p, bytes[..from]), bytes[from..to]) == Bytes(p, bytes[..to])
  {
    SliceJoins(bytes, from, to);
    BytesConcat(p, bytes[..from], bytes[from..to]);
  }

  lemma OneByte(p: Parser, bytes: string, i: nat)
    requires i < |bytes|
    ensures Bytes(p, bytes[i..i + 1]) == Byte(p, bytes[i])
  {
    OneMoreByte(p, "", bytes[i]);
    assert bytes[i..i + 1] == "" + [bytes[i]];
  }

  lemma SliceOfRest(bytes: string, n: nat, k: nat)
    requires n + k <= |bytes|
    ensures bytes[..n] + bytes[n..][..k] == bytes[..n + k]
  {
  }

  lemma BytesOfBoth(p: Parser, a: string, b: string, both: string)
    requires a + b == both
    ensures Bytes(Bytes(p, a), b) == Bytes(p, both)
  {
    BytesConcat(p, a, b);
  }

  lemma FitsUpTo(p: Parser, bytes: string, k: nat)
    requires k <= |bytes| && Fits(p, bytes)
    ensures FitsAt(Bytes(p, bytes[..k]), k < |bytes|)
  {
  }

  lemma BytesOfRest(p: Parser, bytes: string, n: nat, k: nat)
    requires n + k <= |bytes|
    ensures Bytes(Bytes(p, bytes[..n]), bytes[n..][..k]) == Bytes(p, bytes[..n + k])
  {
    SliceOfRest(bytes, n, k);
    BytesOfBoth(p, bytes[..n], bytes[n..][..k], bytes[..n + k]);
  }

  lemma FitsRest(p: Parser, bytes: string, n: nat)
    requires n <= |bytes| && Fits(p, bytes)
    ensures Fits(Bytes(p, bytes[..n]), bytes[n..])
  {
    forall k | 0 <= k <= |bytes[n..]| ensures FitsAt(Bytes(Bytes(p, bytes[..n]), bytes[n..][..k]), k < |bytes[n..]|) {
      FitsUpTo(p, bytes, n + k);
      BytesOfRest(p, bytes, n, k);
    }
  }

  /** What follows a malformed line end is not looked at. */
  lemma RestIgnored(p: Parser, bytes: string, n: nat)
    requires n <= |bytes| && Bytes(p, bytes[..n]).isInvalid
    ensures Bytes(p, bytes) == Bytes(p, bytes[..n])
  {
    NothingMore(Bytes(p, bytes[..n]), bytes[n..]);
    BytesConcat(p, bytes[..n], bytes[n..]);
    assert bytes == bytes[..n] + bytes[n..];
  }

  lemma ReceivedNext(p: Parser, fragments: seq<string>, i: nat)
    requires i < |fragments|
    ensures Bytes(p, Flatten(fragments[..i + 1])) == Bytes(Bytes(p, Flatten(fragments[..i])), fragments[i])
  {
    FlattenAppend(fragments[..i], fragments[i]);
    assert fragments[..i + 1] == fragments[..i] + [fragments[i]];
    BytesConcat(p, Flatten(fragments[..i]), fragments[i]);
  }

  /** Receives after the parser has stopped make no difference. */
  lemma RestOfReceives(p: Parser, fragments: seq<string>, i: nat)
    requires i <= |fragments| && (i == |fragments| || Stopped(Bytes(p, Flatten(fragments[..i]))))
    ensures Bytes(p, Flatten(fragments)) == Bytes(p, Flatten(fragments[..i]))
  {
    if i == |fragments| {
      assert fragments[..i] == fragments;
    } else {
      FlattenConcat(fragments[..i], fragments[i..]);
      assert fragments == fragments[..i] + fragments[i..];
      BytesConcat(p, Flatten(fragments[..i]), Flatten(fragments[i..]));
      NothingMore(Bytes(p, Flatten(fragments[..i])), Flatten(fragments[i..]));
    }
  }

  lemma LengthIsNotConnection(line: string)
    requires HasPrefix(line, Search(ContentLengthHeader))
    ensures !HasPrefix(line, Search(Connection))
  {
    assert ToLower(line[3]) == Search(ContentLengthHeader)[3];
  }

  /** The line is the first content-length line, and its length can be read. */
  predicate FindsLength(p: Parser) {
    && Matches(p, ContentLengthHeader)
    && Stoul(CString(Record(p, ContentLengthHeader).headers[ContentLengthHeader])).Some?
  }

  class WebResponseParser {
    const currentLine: array<char>
    var currentLineLen: nat
    var headerLineParseState: LineState
    var isFirstLine: bool
    var isDoneParsing: bool
    var canParseResponseBody: bool
    var isInvalid: bool
    var contentLengthHeaderValue: nat
    var headers: map<Header, string>
    var responseCode: int
    ghost var lines: seq<string>

    /** Past the line the buffer holds zeros. */
    ghost predicate Valid()
      reads this, currentLine
    {
      && currentLine.Length == MAX_READ_BUF && currentLineLen < MAX_READ_BUF
      && forall i :: currentLineLen <= i < MAX_READ_BUF ==> currentLine[i] == '\0'
    }

    ghost function Abstract(): Parser
      reads this, currentLine
      requires Valid()
    {
      Parser(currentLine[..currentLineLen], headerLineParseState, isFirstLine, isDoneParsing, canParseResponseBody,
             isInvalid, contentLengthHeaderValue, headers, responseCode, lines)
    }

    constructor ()
      ensures Valid() && fresh(currentLine) && Abstract() == Start
    {
      currentLine := new char[MAX_READ_BUF](_ => '\0');
      currentLineLen, headerLineParseState, isFirstLine, isDoneParsing := 0, SlashR, true, false;
      canParseResponseBody, isInvalid, contentLengthHeaderValue := false, false, 0;
      headers, responseCode, lines := map[], 0, [];
    }

    /** The loop of parseHeader that moves past leading white space of the value. */
    method SkipLeading(nbChars: nat) returns (start: nat)
      requires Valid() && nbChars <= currentLineLen
      ensures nbChars <= start <= currentLineLen
      ensures currentLine[start..currentLineLen] == SkipSpace(currentLine[..currentLineLen][nbChars..])
    {
      var offset := 0;
      ghost var value := currentLine[..currentLineLen][nbChars..];
      while nbChars + offset < currentLineLen && IsSpace(currentLine[nbChars + offset])
        invariant nbChars + offset <= currentLineLen
        invariant forall i :: 0 <= i < offset ==> IsSpace(value[i])
      {
        offset := offset + 1;
      }
      SkipSpaceSteps(value, offset);
      start := nbChars + offset;
      assert value[offset..] == currentLine[start..currentLineLen];
    }

    /** parseHeader: records the value of a line that starts with the field name, once. */
    method ParseHeader(h: Header) returns (found: bool)
      requires Valid()
      modifies this`headers
      ensures Valid() && found == Matches(old(Abstract()), h)
      ensures Abstract() == if found then Record(old(Abstract()), h) else old(Abstract())
      ensures var line, name := currentLine[..currentLineLen], Search(h);
              found <==> h !in old(headers) && |line| >= |name| && forall i :: 0 <= i < |name| ==>
                line[i] == name[i] || ('a' <= name[i] <= 'z' && line[i] as int == name[i] as int - 32)
    {
      ghost var line := currentLine[..currentLineLen];
      TextTheorems.NamesField(line, h);
      found := h !in headers && HasPrefix(currentLine[..currentLineLen], Search(h));
      if found {
        var start := SkipLeading(|Search(h)|);
        headers := headers[h := currentLine[start..currentLineLen]];
      }
    }

    /** parseContentLengthHeader: a length that cannot be read counts as not found. */
    method ParseContentLengthHeader() returns (found: bool)
      requires Valid()
      modifies this`headers, this`contentLengthHeaderValue, this`canParseResponseBody
      ensures Valid() && (found <==> FindsLength(old(Abstract())))
      ensures Abstract() == if Matches(old(Abstract()), ContentLengthHeader) then RecordContentLength(old(Abstract()))
                            else old(Abstract())
    {
      found := ParseHeader(ContentLengthHeader);
      if found {
        match Stoul(CString(headers[ContentLengthHeader]))
        case Some(n) =>
          contentLengthHeaderValue := n;
          if n < 1 {
            canParseResponseBody := false;
          }
        case None =>
          contentLengthHeaderValue, canParseResponseBody := 0, false;
          found := false;
      }
    }

    /** parseFirstLine */
    method ParseFirstLine()
      requires Valid()
      modifies this`responseCode, this`headerLineParseState, this`canParseResponseBody
      ensures Valid() && Abstract() == FirstLine(old(Abstract()))
    {
      assert currentLine[..] == currentLine[..currentLineLen] + currentLine[currentLineLen..];
      StatusInBuffer(currentLine[..currentLineLen], currentLine[currentLineLen..]);
      assert currentLine[..][9..] == currentLine[9..];
      responseCode := Strtol(currentLine[9..]);
      if responseCode == 304 {
        headerLineParseState := Skip;
      } else if responseCode == 204 {
        headerLineParseState := Skip;
      } else if responseCode > 199 && responseCode < 300 {
        canParseResponseBody := true;
      }
    }

    /** The field parsers in the order processLine tries them. */
    method ParseHeaderLine()
      requires Valid()
      modifies this`headers, this`contentLengthHeaderValue, this`canParseResponseBody
      ensures Valid() && Abstract() == HeaderLine(old(Abstract()))
    {
      var found := ParseHeader(Upgrade);
      if !found {
        found := ParseHeader(SecWebSocketKey);
      }
      if !found {
        found := ParseContentLengthHeader();
      }
      if !found {
        if Matches(old(Abstract()), ContentLengthHeader) {
          LengthIsNotConnection(currentLine[..currentLineLen]);
        }
        found := ParseHeader(Connection);
      }
    }

    /** processLine: true when the line is the empty one that ends the headers. */
    method ProcessLine() returns (isDone: bool)
      requires Valid()
      modifies this, currentLine
      ensures Valid() && isDone == (!old(isFirstLine) && old(currentLineLen) == 0)
      ensures Abstract() ==
              var p := old(Abstract());
              if isDone then p
              else (if p.isFirstLine then FirstLine(p.(isFirstLine := false)) else HeaderLine(p))
                   .(line := "", lines := p.lines + [p.line])
    {
      isDone := false;
      ghost var line := currentLine[..currentLineLen];
      if isFirstLine {
        isFirstLine := false;
        ParseFirstLine();
      } else if currentLineLen == 0 {
        isDone := true;
      } else {
        ParseHeaderLine();
      }
      if !isDone {
        lines := lines + [line];
      }
      forall i | 0 <= i < currentLine.Length {
        currentLine[i] := '\0';
      }
      currentLineLen := 0;
    }

    /** consume: copies bytes of the fragment to the end of the line. */
    method Consume(resp: string, start: nat, end: nat)
      requires Valid() && start <= end <= |resp| && currentLineLen + (end - start) < MAX_READ_BUF
      modifies this`currentLineLen, currentLine
      ensures Valid() && Abstract() == old(Abstract()).(line := old(Abstract()).line + resp[start..end])
    {
      ghost var line := currentLine[..currentLineLen];
      for i := start to end
        invariant currentLineLen == |line| + (i - start) && Valid()
        invariant currentLine[..currentLineLen] == line + resp[start..i]
      {
        currentLine[currentLineLen] := resp[i];
        currentLineLen := currentLineLen + 1;
        assert resp[start..i + 1] == resp[start..i] + [resp[i]];
      }
    }

    /** memchr for '\r': the index of the first one, or the end of the fragment. */
    static method FindSlashR(resp: string, start: nat) returns (found: nat)
      requires start <= |resp|
      ensures start <= found <= |resp| && '\r' !in resp[start..found]
      ensures found < |resp| ==> resp[found] == '\r'
    {
      found := start;
      while found < |resp| && resp[found] != '\r'
        invariant start <= found <= |resp| && '\r' !in resp[start..found]
      {
        found := found + 1;
      }
    }

    /** gotoSlashR: takes the rest of the line in bulk. Returns the new index. */
    method GotoSlashR(resp: string, ch: nat) returns (next: nat)
      requires Valid() && ch < |resp| && headerLineParseState.SlashR? && !isDoneParsing && !isInvalid
      requires Fits(Abstract(), resp[ch..])
      modifies this`currentLineLen, this`headerLineParseState, currentLine
      ensures Valid() && ch < next <= |resp|
      ensures Abstract() == Bytes(old(Abstract()), resp[ch..next])
    {
      ghost var p := Abstract();
      var slashR := FindSlashR(resp, ch);
      assert resp[ch..][..slashR - ch] == resp[ch..slashR];
      LineGrows(p, resp[ch..slashR]);
      assert FitsAt(Bytes(p, resp[ch..][..slashR - ch]), slashR < |resp|);
      Consume(resp, ch, slashR);
      next := slashR;
      if slashR < |resp| {
        next := slashR + 1;
        headerLineParseState := SlashN;
        OneMoreByte(p, resp[ch..slashR], '\r');
        assert resp[ch..next] == resp[ch..slashR] + ['\r'];
      }
    }

    /** gotoSlashN: ends the line, or gives up. The index does not move past a wrong byte. */
    method GotoSlashN(resp: string, ch: nat) returns (next: nat)
      requires Valid() && ch < |resp| && headerLineParseState.SlashN? && !isDoneParsing && !isInvalid
      modifies this, currentLine
      ensures Valid() && next == (if isInvalid then ch else ch + 1)
      ensures Abstract() == Byte(old(Abstract()), resp[ch])
    {
      next := ch;
      if resp[ch] == '\n' {
        var isDone := ProcessLine();
        if isDone {
          headerLineParseState := Done;
          if SecWebSocketKey in headers && Upgrade in headers {
            isDoneParsing := true;
          } else if !canParseResponseBody && contentLengthHeaderValue == 0 && ContentLengthHeader in headers {
            isDoneParsing := true;
          }
        } else if headerLineParseState != Skip {
          headerLineParseState := SlashR;
        }
        next := ch + 1;
      } else {
        isInvalid := true;
      }
    }

    /** gotoEndOfResponse when no body is expected: the rest of the fragment is passed over. */
    method GotoEndOfResponse(resp: string, ch: nat) returns (next: nat)
      requires Valid() && ch < |resp| && !canParseResponseBody && !isInvalid
      requires headerLineParseState.Done? || headerLineParseState.Skip?
      modifies this`isDoneParsing
      ensures Valid() && next == |resp| && Abstract() == Bytes(old(Abstract()), resp[ch..next])
    {
      NothingMore(Abstract(), resp[ch..|resp|]);
      isDoneParsing := true;
      next := |resp|;
    }

    /** One round of the loop of parse: the parser moves from index ch to next. */
    method Round(resp: string, ch: nat) returns (next: nat)
      requires Valid() && ch < |resp| && !isInvalid
      requires isDoneParsing ==> headerLineParseState.Done? || headerLineParseState.Skip?
      requires Fits(Abstract(), resp[ch..])
      modifies this, currentLine
      ensures Valid() && ch <= next <= |resp|
      ensures if isInvalid then next == ch && !isDoneParsing else ch < next
      ensures Abstract() == Bytes(old(Abstract()), resp[ch..if isInvalid then ch + 1 else next])
      ensures isDoneParsing ==> headerLineParseState.Done? || headerLineParseState.Skip?
    {
      FitsHere(Abstract(), resp[ch..]);
      if headerLineParseState.SlashR? {
        next := GotoSlashR(resp, ch);
      } else if headerLineParseState.SlashN? {
        OneByte(Abstract(), resp, ch);
        next := GotoSlashN(resp, ch);
      } else {
        next := GotoEndOfResponse(resp, ch);
      }
    }

    /** parse: a fragment taken in bulk leaves the parser where its bytes one by one would. */
    method Parse(resp: string) returns (result: VResult)
      requires Valid() && !isInvalid && Fits(Abstract(), resp)
      modifies this, currentLine
      ensures Valid() && Abstract() == Bytes(old(Abstract()), resp)
      ensures result == if resp == "" then Succeeded else Outcome(Abstract())
      ensures (result == Failed <==> isInvalid) && (result == Succeeded <==> isDoneParsing || resp == "")
    {
      ghost var p := Abstract();
      if |resp| == 0 {
        return Succeeded;
      }
      if isDoneParsing {
        NothingMore(p, resp);
        return Succeeded;
      }
      var ch := 0;
      while ch != |resp| && !isInvalid
        invariant Valid() && 0 <= ch <= |resp|
        invariant isInvalid ==> ch < |resp| && !isDoneParsing
        invariant Abstract() == Bytes(p, resp[..if isInvalid then ch + 1 else ch])
        invariant isDoneParsing ==> headerLineParseState.Done? || headerLineParseState.Skip?
        decreases |resp| - ch, !isInvalid
      {
        FitsRest(p, resp, ch);
        var next := Round(resp, ch);
        BytesSlice(p, resp, ch, if isInvalid then ch + 1 else next);
        ch := next;
      }
      if isInvalid {
        RestIgnored(p, resp, ch + 1);
        return Failed;
      }
      assert resp[..ch] == resp;
      result := if isDoneParsing then Succeeded else Retry;
    }

    /** A connection: parse is called for each receive until it no longer asks for more. The parser and the
        last answer are those of the whole stream, however it was cut. */
    method ParseAll(fragments: seq<string>) returns (result: VResult)
      requires Valid() && !isInvalid && !isDoneParsing
      requires (forall k :: 0 <= k < |fragments| ==> fragments[k] != "") && FitsAll(Abstract(), fragments)
      modifies this, currentLine
      ensures Valid() && Abstract() == Bytes(old(Abstract()), Flatten(fragments))
      ensures result == Outcome(Abstract())
      ensures (result == Failed <==> isInvalid) && (result == Succeeded <==> isDoneParsing)
    {
      ghost var p := Abstract();
      result := Retry;
      var i := 0;
      assert Flatten(fragments[..0]) == "";
      while i < |fragments| && result == Retry
        invariant Valid() && 0 <= i <= |fragments|
        invariant Abstract() == Bytes(p, Flatten(fragments[..i])) && result == Outcome(Abstract())
        invariant (result == Failed <==> isInvalid) && (result == Succeeded <==> isDoneParsing)
      {
        assert Stopped(Bytes(p, Flatten(fragments[..i]))) || Fits(Bytes(p, Flatten(fragments[..i])), fragments[i]);
        result := Parse(fragments[i]);
        ReceivedNext(p, fragments, i);
        i := i + 1;
      }
      RestOfReceives(p, fragments, i);
    }
  }
}
