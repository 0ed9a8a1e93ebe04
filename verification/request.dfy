/**
 * server.cpp, respond(): turning the bytes of the first recv into a request
 * line, a header map and a body, including the single extra recv made when
 * the buffered body is shorter than Content-Length.
 *
 * The parser reads an std::istringstream built from the NUL-terminated
 * buffer, so it sees only the bytes before the first NUL; the body, however,
 * is copied from the raw buffer by position and keeps any NUL bytes.
 */
module Request {
  import opened Text
  import opened Responses

  /** What the first recv returned: an error, or the bytes it read (possibly none). */
  datatype Received = RecvError | Received(bytes: string)

  /** What the one further recv for the rest of the body returned. */
  datatype ExtraRead = ReadError | ReadBytes(bytes: string)

  datatype Request = Request(verb: string, uri: string, headers: map<string, string>, body: string)

  /** Where respond() stands once parsing is over. */
  datatype Parsed =
    | Parsed(request: Request)   // handed to route()
    | Answered(reply: Reply)     // respond() replies itself and returns
    | Aborted                    // std::stoul throws; the handler dies without a reply
    | Undefined                  // tellg() gave -1 and the body copy starts before the buffer

  // ---------------------------------------------------------------------------
  // std::getline

  /** One std::getline: the line, what is left, and whether end of input was hit. */
  datatype Line = Line(text: string, rest: string, atEof: bool)

  function GetLine(s: string): (l: Line)
    requires s != []
    ensures '\n' !in l.text
    ensures l.atEof ==> l.text == s && l.rest == []
    ensures !l.atEof ==> s == l.text + "\n" + l.rest
  {
    var i := IndexOf(s, '\n');
    if i < |s| then
      assert s == s[..i] + "\n" + s[i + 1..];
      Line(s[..i], s[i + 1..], false)
    else
      Line(s, [], true)
  }

  /** A line ended by a newline is read exactly. */
  lemma {:induction false} GetLineOf(text: string, rest: string)
    requires '\n' !in text
    ensures GetLine(text + "\n" + rest) == Line(text, rest, false)
  {
    var s := text + "\n" + rest;
    assert s[|text|] == '\n';
    assert IndexOf(s, '\n') == |text| by {
      assert forall k :: 0 <= k < |text| ==> s[k] == text[k];
    }
  }

  // ---------------------------------------------------------------------------
  // The request line: `line_stream >> method >> uri >> prot`

  /** Leading whitespace skipped by operator>>. */
  function SkipSpace(s: string): (r: string)
    ensures |r| <= |s| && r == s[|s| - |r|..]
    ensures forall k :: 0 <= k < |s| - |r| ==> IsSpace(s[k])
    ensures r == [] || !IsSpace(r[0])
  {
    if s != [] && IsSpace(s[0]) then
      var r := SkipSpace(s[1..]);
      assert s[1..][|s| - 1 - |r|..] == s[|s| - |r|..];
      r
    else s
  }

  /** The run of non-whitespace characters at the start of `s`. */
  function WordPrefix(s: string): (w: string)
    ensures |w| <= |s| && w == s[..|w|]
    ensures forall k :: 0 <= k < |w| ==> !IsSpace(w[k])
    ensures |w| == |s| || IsSpace(s[|w|])
  {
    if s != [] && !IsSpace(s[0]) then [s[0]] + WordPrefix(s[1..]) else []
  }

  /**
   * One `stream >> word`: skip whitespace, then take a word. When nothing
   * but whitespace is left the word is empty, as is every later one.
   */
  function NextWord(s: string): (r: (string, string))
    ensures forall k :: 0 <= k < |r.0| ==> !IsSpace(r.0[k])
    ensures r.1 == [] || IsSpace(r.1[0])
    ensures r.0 == [] ==> r.1 == []
  {
    var t := SkipSpace(s);
    var w := WordPrefix(t);
    (w, t[|w|..])
  }

  /** A word is read from the front of `s`, after whitespace only, and what follows it is left. */
  lemma {:induction false} NextWordReadsFront(s: string)
    ensures SkipSpace(s) == NextWord(s).0 + NextWord(s).1
    ensures |NextWord(s).0| + |NextWord(s).1| <= |s|
    ensures s[|s| - |NextWord(s).0| - |NextWord(s).1|..] == NextWord(s).0 + NextWord(s).1
    ensures forall k :: 0 <= k < |s| - |NextWord(s).0| - |NextWord(s).1| ==> IsSpace(s[k])
  {
    var t := SkipSpace(s);
    WordThenRest(t);
  }

  /** The word at the front of `t` and the text after it make up `t`. */
  lemma {:induction false} WordThenRest(t: string)
    ensures WordPrefix(t) + t[|WordPrefix(t)|..] == t
  {
    var w := WordPrefix(t);
    assert t == t[..|w|] + t[|w|..];
  }

  /** Method, uri and protocol: the first three words of the line. */
  function RequestLineWords(line: string): (w: (string, string, string))
    ensures forall k :: 0 <= k < |w.0| ==> !IsSpace(w.0[k])
    ensures forall k :: 0 <= k < |w.1| ==> !IsSpace(w.1[k])
    ensures forall k :: 0 <= k < |w.2| ==> !IsSpace(w.2[k])
    ensures w.0 == [] ==> w.1 == [] && w.2 == []
    ensures w.1 == [] ==> w.2 == []
  {
    var (verb, r1) := NextWord(line);
    var (uri, r2) := NextWord(r1);
    var (prot, _) := NextWord(r2);
    (verb, uri, prot)
  }

  /** A word with no whitespace or NUL in it. */
  predicate IsWord(w: string)
  {
    w != [] && forall k :: 0 <= k < |w| ==> !IsSpace(w[k]) && w[k] != '\0'
  }

  /** A word followed by whitespace (or nothing) is read exactly. */
  lemma {:induction false} NextWordOf(w: string, rest: string)
    requires IsWord(w)
    requires rest == [] || IsSpace(rest[0])
    ensures NextWord(w + rest) == (w, rest)
  {
    var s := w + rest;
    assert s[0] == w[0] && !IsSpace(s[0]);
    assert SkipSpace(s) == s;
    var p := WordPrefix(s);
    assert p == s[..|w|] == w;
  }

  /** Reading a word skips any whitespace in front of it. */
  lemma {:induction false} NextWordSkips(s: string)
    ensures NextWord(" " + s) == NextWord(s)
  {
    assert (" " + s)[1..] == s;
  }

  /** The request line "M U P\r" (CR left by getline) is read back as (M, U, P). */
  lemma {:induction false} RequestLineRoundTrip(m: string, u: string, p: string)
    requires IsWord(m) && IsWord(u) && IsWord(p)
    ensures RequestLineWords(m + " " + u + " " + p + "\r") == (m, u, p)
  {
    var r2 := " " + (p + "\r");
    var r1 := " " + (u + r2);
    assert m + " " + u + " " + p + "\r" == m + r1;
    NextWordOf(m, r1);
    assert NextWord(m + r1) == (m, r1);
    NextWordSkips(u + r2);
    NextWordOf(u, r2);
    assert NextWord(r1) == (u, r2);
    NextWordSkips(p + "\r");
    NextWordOf(p, "\r");
    assert NextWord(r2) == (p, "\r");
  }

  /** Nothing but whitespace holds no further word. */
  lemma {:induction false} OnlySpaceLeavesNoWord(s: string)
    requires forall k :: 0 <= k < |s| ==> IsSpace(s[k])
    ensures NextWord(s) == ([], [])
  {
  }

  /** Two words followed only by whitespace: the third word is empty. */
  lemma {:induction false} TwoWordsThenSpace(m: string, u: string, t: string)
    requires IsWord(m) && IsWord(u)
    requires t != [] && forall k :: 0 <= k < |t| ==> IsSpace(t[k])
    ensures RequestLineWords(m + " " + u + t) == (m, u, "")
  {
    var r1 := " " + (u + t);
    assert m + " " + u + t == m + r1;
    NextWordOf(m, r1);
    NextWordSkips(u + t);
    NextWordOf(u, t);
    OnlySpaceLeavesNoWord(t);
  }

  /** A request line with fewer than three words leaves the missing ones empty. */
  lemma {:induction false} TwoWordsLeaveProtocolEmpty(m: string, u: string)
    requires IsWord(m) && IsWord(u)
    ensures RequestLineWords(m + " " + u + "\r") == (m, u, "")
  {
    TwoWordsThenSpace(m, u, "\r");
  }

  // ---------------------------------------------------------------------------
  // Header lines

  /** The header name: the text before the first ':'. */
  function HeaderName(line: string): string
  {
    line[..IndexOf(line, ':')]
  }

  /** The header value: the text after the first ':', leading spaces and tabs removed. */
  function HeaderValue(line: string): string
    requires ':' in line
  {
    TrimLeading(line[IndexOf(line, ':') + 1..])
  }

  /** The name is the line up to, and not including, its first colon (all of it when there is none). */
  lemma {:induction false} HeaderNameBeforeColon(line: string)
    ensures var name := HeaderName(line);
            && name <= line && ':' !in name
            && (|name| < |line| <==> ':' in line)
            && (|name| < |line| ==> line[|name|] == ':')
  {
  }

  /** The value is what follows the name's colon, with only spaces and tabs dropped from its front. */
  lemma {:induction false} HeaderValueFollowsColon(line: string)
    requires ':' in line
    ensures var name, value := HeaderName(line), HeaderValue(line);
            && |name| + 1 + |value| <= |line|
            && line[|line| - |value|..] == value
            && (forall k :: |name| < k < |line| - |value| ==> IsBlank(line[k]))
            && (value == [] || !IsBlank(value[0]))
  {
  }

  /** How the header loop ends. */
  datatype HeaderScan =
    | Ended(headers: map<string, string>, after: string)  // at a "\r" line followed by '\n'
    | Unended(headers: map<string, string>)              // input ran out: tellg() is -1
    | Malformed                                          // a line without ':'

  /**
   * The header loop over the unread text `s`, with the headers read so far
   * in `acc`. A later header of the same name replaces an earlier one. When
   * the blank line is found, `after` is the text that follows it.
   */
  function ScanHeaders(s: string, acc: map<string, string>): (r: HeaderScan)
    ensures r.Ended? ==> |r.after| + 2 <= |s| && s[|s| - |r.after|..] == r.after
    decreases |s|
  {
    if s == [] then Unended(acc)
    else
      var line := GetLine(s);
      if line.text == "\r" then
        if line.atEof then Unended(acc) else Ended(acc, line.rest)
      else if ':' !in line.text then Malformed
      else ScanHeaders(line.rest, acc[HeaderName(line.text) := HeaderValue(line.text)])
  }

  /** A line with a colon is stored under the text before it, and the scan goes on after the line. */
  lemma {:induction false} ScanHeaderLine(s: string, acc: map<string, string>)
    requires s != [] && GetLine(s).text != "\r" && ':' in GetLine(s).text
    ensures var line := GetLine(s).text;
            var colon := IndexOf(line, ':');
            ScanHeaders(s, acc) == ScanHeaders(GetLine(s).rest, acc[line[..colon] := TrimLeading(line[colon + 1..])])
  {
  }

  /** The header loop of respond(), run over the parsed text after the request line. */
  method ReadHeaders(text: string) returns (scan: HeaderScan)
    ensures scan == ScanHeaders(text, map[])
  {
    var unread := text;
    var headers: map<string, string> := map[];
    while unread != []
      invariant ScanHeaders(unread, headers) == ScanHeaders(text, map[])
      decreases |unread|
    {
      var line := GetLine(unread);
      if line.text == "\r" {
        if line.atEof {
          return Unended(headers);
        }
        return Ended(headers, line.rest);
      }
      var colon := IndexOf(line.text, ':');
      if colon == |line.text| {
        assert ':' !in line.text;
        return Malformed;
      }
      var name := line.text[..colon];
      var value := line.text[colon + 1..];
      value := TrimLeading(value);
      ScanHeaderLine(unread, headers);
      headers := headers[name := value];
      unread := line.rest;
    }
    return Unended(headers);
  }

  // ---------------------------------------------------------------------------
  // std::stoul on the Content-Length value

  /** One more than the largest unsigned long (64 bits). */
  const ULongLimit: nat := 0x1_0000_0000_0000_0000

  /**
   * std::stoul: skip whitespace, an optional sign, then decimal digits;
   * None stands for the exception thrown when there are no digits or the
   * magnitude does not fit. A minus sign negates modulo 2^64, as strtoul
   * does. Whatever follows the digits (here, the CR left by getline) is ignored.
   */
  function Stoul(s: string): (r: Option<nat>)
    ensures r.Some? ==> r.value < ULongLimit
  {
    var t := SkipSpace(s);
    var negative := t != [] && t[0] == '-';
    var u := if t != [] && (t[0] == '+' || t[0] == '-') then t[1..] else t;
    var d := DigitPrefix(u);
    if d == [] then None
    else
      var n := DigitsValue(d);
      if n >= ULongLimit then None
      else if negative && n > 0 then Some(ULongLimit - n)
      else Some(n)
  }

  /** stoul reads back what std::to_string wrote, whatever non-digit follows. */
  lemma {:induction false} StoulReadsDecimal(n: nat, rest: string)
    requires n < ULongLimit
    requires rest == [] || !IsDigit(rest[0])
    ensures Stoul(Decimal(n) + rest) == Some(n)
  {
    DecimalRoundTrip(n);
    StoulReadsDigits(Decimal(n), rest);
  }

  /** stoul reads a run of digits followed by a non-digit as the number the digits denote. */
  lemma {:induction false} StoulReadsDigits(d: string, rest: string)
    requires d != [] && AllDigits(d) && DigitsValue(d) < ULongLimit
    requires rest == [] || !IsDigit(rest[0])
    ensures Stoul(d + rest) == Some(DigitsValue(d))
  {
    var s := d + rest;
    assert s[0] == d[0];
    DigitNotSpace(s);
    DigitPrefixOf(d, rest);
  }

  /** A string that starts with a digit has no whitespace for operator>> or stoul to skip. */
  lemma {:induction false} DigitNotSpace(s: string)
    requires s != [] && IsDigit(s[0])
    ensures SkipSpace(s) == s && s[0] != '+' && s[0] != '-'
  {
  }

  // ---------------------------------------------------------------------------
  // respond(), up to the call of route()

  /** The text the istringstream sees: the bytes before the first NUL. */
  function ParsedText(data: string): (text: string)
    ensures |text| <= |data| && text == data[..|text|] && '\0' !in text
  {
    data[..IndexOf(data, '\0')]
  }

  /**
   * The bytes received, and the one further recv, as respond() reads them.
   * A first recv of zero bytes is not an error by itself: parsing then finds
   * no request line and answers 500.
   */
  function Parse(recv: Received, extra: ExtraRead): (p: Parsed)
    ensures recv.RecvError? ==> p == Answered(InternalError)
    ensures p.Answered? ==> p.reply in {BadRequest, InternalError, EmptyPostReply}
    ensures p.Parsed? ==> p.request.verb != [] && p.request.uri != []
    ensures p.Parsed? ==> (p.request.body == [] <==> p.request.verb != "POST")
  {
    match recv
    case RecvError => Answered(InternalError)
    case Received(data) =>
      var text := ParsedText(data);
      if text == [] then Answered(InternalError)
      else
        var first := GetLine(text);
        var (verb, uri, prot) := RequestLineWords(first.text);
        if verb == [] || uri == [] || prot == [] then Answered(BadRequest)
        else HeadersAndBody(verb, uri, first.rest, data[|text|..], extra)
  }

  /**
   * The header loop over the `unread` text after the request line, then the
   * body. When the loop ends at the blank line, tellg() reports the position
   * where `after` begins, and the body copied from there is `after` followed
   * by the bytes from the first NUL on (`tail`); see BodyStartsAtTellg.
   */
  function HeadersAndBody(verb: string, uri: string, unread: string, tail: string, extra: ExtraRead): (p: Parsed)
    ensures p.Answered? ==> p.reply in {BadRequest, InternalError, EmptyPostReply}
    ensures p.Parsed? ==> p.request.verb == verb && p.request.uri == uri
    ensures p.Parsed? ==> (p.request.body == [] <==> verb != "POST")
    ensures p == Undefined ==> ScanHeaders(unread, map[]).Unended?
  {
    match ScanHeaders(unread, map[])
    case Malformed => Answered(BadRequest)
    case Unended(headers) => ReadBody(verb, uri, headers, None, extra)
    case Ended(headers, after) => ReadBody(verb, uri, headers, Some(after + tail), extra)
  }

  /** The reply to a POST without Content-Length. */
  const EmptyPostReply: Reply := Ok("Empty POST request.", "text/plain")

  /**
   * A POST body as the server reads it: it starts with the bytes buffered
   * after the blank line, and whatever the further read adds never takes it
   * past Content-Length.
   */
  predicate BodyWithin(body: string, headers: map<string, string>, buffered: Option<string>)
  {
    && buffered.Some? && buffered.value <= body
    && "Content-Length" in headers && Stoul(headers["Content-Length"]).Some?
    && (|body| > |buffered.value| ==> |body| <= Stoul(headers["Content-Length"]).value)
  }

  /**
   * The largest std::vector<char> libstdc++ allocates (PTRDIFF_MAX): a
   * larger size throws std::length_error, which nothing catches.
   */
  const VectorMaxSize: nat := 0x7FFF_FFFF_FFFF_FFFF

  /**
   * The POST body: no Content-Length gives the 200 "Empty POST request."
   * reply; otherwise the body is `buffered`, the bytes from the position
   * tellg() reports to the end of the buffer (None when tellg() reports -1),
   * and when that is shorter than Content-Length a buffer for the missing
   * bytes is allocated (more than VectorMaxSize of them aborts the process)
   * and exactly one further read is appended (never more bytes than were
   * asked for).
   */
  function ReadBody(verb: string, uri: string, headers: map<string, string>, buffered: Option<string>,
                    extra: ExtraRead): (p: Parsed)
    ensures p.Answered? ==> p.reply in {BadRequest, InternalError, EmptyPostReply}
    ensures p.Parsed? ==> p.request.verb == verb && p.request.uri == uri && p.request.headers == headers
    ensures p.Parsed? ==> (p.request.body == [] <==> verb != "POST")
    ensures p.Parsed? && verb == "POST" ==> BodyWithin(p.request.body, headers, buffered)
    ensures p == Aborted ==> verb == "POST" && "Content-Length" in headers
    ensures p == Undefined ==> verb == "POST" && buffered.None?
  {
    if verb != "POST" then Parsed(Request(verb, uri, headers, ""))
    else if "Content-Length" !in headers then Answered(EmptyPostReply)
    else
      match Stoul(headers["Content-Length"])
      case None => Aborted
      case Some(length) =>
        match buffered
        case None => Undefined
        case Some(inBuffer) =>
          if inBuffer == [] then Answered(BadRequest)
          else if length <= |inBuffer| then Parsed(Request(verb, uri, headers, inBuffer))
          else if length - |inBuffer| > VectorMaxSize then Aborted
          else
            match extra
            case ReadError => Answered(InternalError)
            case ReadBytes(bytes) =>
              var got := bytes[..Min(|bytes|, length - |inBuffer|)];
              if got == [] then Answered(BadRequest)
              else Parsed(Request(verb, uri, headers, inBuffer + got))
  }

  /**
   * The body handed to ReadBody is what respond() copies: the raw buffer
   * from position |text| - |after| on, where `text` is the parsed text and
   * `after` the part of it that follows the blank line.
   */
  lemma {:induction false} BodyStartsAtTellg(data: string)
    requires ParsedText(data) != []
    requires ScanHeaders(GetLine(ParsedText(data)).rest, map[]).Ended?
    ensures var text := ParsedText(data);
            var after := ScanHeaders(GetLine(text).rest, map[]).after;
            |after| <= |text| && data[|text| - |after|..] == after + data[|text|..]
  {
    BodyAfterHead(data, ParsedText(data));
  }

  lemma {:induction false} BodyAfterHead(data: string, text: string)
    requires |text| <= |data| && text == data[..|text|] && text != []
    requires ScanHeaders(GetLine(text).rest, map[]).Ended?
    ensures var after := ScanHeaders(GetLine(text).rest, map[]).after;
            |after| <= |text| && data[|text| - |after|..] == after + data[|text|..]
  {
    HeaderBlockSuffix(text);
    SuffixCopy(data, text, ScanHeaders(GetLine(text).rest, map[]).after);
  }

  /** The text after the blank line is a suffix of the whole parsed text. */
  lemma {:induction false} HeaderBlockSuffix(text: string)
    requires text != []
    requires ScanHeaders(GetLine(text).rest, map[]).Ended?
    ensures var after := ScanHeaders(GetLine(text).rest, map[]).after;
            |after| <= |text| && text[|text| - |after|..] == after
  {
    var rest := GetLine(text).rest;
    GetLineRest(text);
    SuffixOfSuffix(text, rest, ScanHeaders(rest, map[]).after);
  }

  /** What getline leaves unread is a suffix of its input. */
  lemma {:induction false} GetLineRest(s: string)
    requires s != []
    ensures var rest := GetLine(s).rest;
            |rest| <= |s| && s[|s| - |rest|..] == rest
  {
    var l := GetLine(s);
    if !l.atEof {
      assert s[|l.text| + 1..] == l.rest;
    }
  }

  lemma {:induction false} SuffixOfSuffix(s: string, t: string, u: string)
    requires |t| <= |s| && s[|s| - |t|..] == t
    requires |u| <= |t| && t[|t| - |u|..] == u
    ensures |u| <= |s| && s[|s| - |u|..] == u
  {
    assert s[|s| - |u|..] == s[|s| - |t|..][|t| - |u|..];
  }

  /** A suffix of the parsed text is copied from the raw buffer, followed by the rest of it. */
  lemma {:induction false} SuffixCopy(data: string, text: string, after: string)
    requires |text| <= |data| && text == data[..|text|]
    requires |after| <= |text| && text[|text| - |after|..] == after
    ensures data[|text| - |after|..] == after + data[|text|..]
  {
    var start := |text| - |after|;
    assert data[start..|text|] == text[start..];
    assert data[start..] == data[start..|text|] + data[|text|..];
  }

  // ---------------------------------------------------------------------------
  // Requests as a client writes them, and what the parser makes of them

  /** A header a client can write on one line and have read back unchanged. */
  predicate WellFormedHeader(h: (string, string))
  {
    && ':' !in h.0 && '\n' !in h.0 && '\0' !in h.0
    && '\n' !in h.1 && '\0' !in h.1
    && (h.1 == [] || !IsBlank(h.1[0]))
  }

  predicate WellFormedHeaders(hs: seq<(string, string)>)
  {
    forall i :: 0 <= i < |hs| ==> WellFormedHeader(hs[i])
  }

  /** Header lines "Name: value\r\n", in order. */
  function HeaderLines(hs: seq<(string, string)>): string
  {
    if hs == [] then [] else hs[0].0 + ": " + hs[0].1 + "\r\n" + HeaderLines(hs[1..])
  }

  /** The header map the server should build: values keep the CR, the last of a name wins. */
  function FoldHeaders(acc: map<string, string>, hs: seq<(string, string)>): map<string, string>
    decreases |hs|
  {
    if hs == [] then acc else FoldHeaders(acc[hs[0].0 := hs[0].1 + "\r"], hs[1..])
  }

  /** The request line as a client writes it, CRLF included. */
  function RequestLine(verb: string, uri: string, prot: string): string
  {
    verb + " " + uri + " " + prot + "\r\n"
  }

  /** The request line and header block, ended by the blank line. */
  function Head(verb: string, uri: string, prot: string, hs: seq<(string, string)>): string
  {
    RequestLine(verb, uri, prot) + HeaderLines(hs) + "\r\n"
  }

  /** The value of a name is the value of its last occurrence in the list. */
  lemma {:induction false} FoldLastWins(acc: map<string, string>, hs: seq<(string, string)>, i: nat)
    requires i < |hs|
    requires forall j :: i < j < |hs| ==> hs[j].0 != hs[i].0
    ensures hs[i].0 in FoldHeaders(acc, hs) && FoldHeaders(acc, hs)[hs[i].0] == hs[i].1 + "\r"
    decreases |hs|
  {
    if i > 0 {
      FoldLastWins(acc[hs[0].0 := hs[0].1 + "\r"], hs[1..], i - 1);
    } else {
      FoldKeeps(acc[hs[0].0 := hs[0].1 + "\r"], hs[1..], hs[0].0);
    }
  }

  /** Names absent from the list keep the value they had. */
  lemma {:induction false} FoldKeeps(acc: map<string, string>, hs: seq<(string, string)>, name: string)
    requires forall j :: 0 <= j < |hs| ==> hs[j].0 != name
    ensures name in acc ==> name in FoldHeaders(acc, hs) && FoldHeaders(acc, hs)[name] == acc[name]
    ensures name !in acc ==> name !in FoldHeaders(acc, hs)
    decreases |hs|
  {
    if hs != [] {
      FoldKeeps(acc[hs[0].0 := hs[0].1 + "\r"], hs[1..], name);
    }
  }

  /** One client header line "Name: value\r\n" is read as (Name, value + CR). */
  lemma {:induction false} ScanOneHeader(h: (string, string), rest: string, acc: map<string, string>)
    requires WellFormedHeader(h)
    ensures ScanHeaders(h.0 + ": " + h.1 + "\r\n" + rest, acc) == ScanHeaders(rest, acc[h.0 := h.1 + "\r"])
  {
    var line := h.0 + ": " + h.1 + "\r";
    assert h.0 + ": " + h.1 + "\r\n" + rest == line + "\n" + rest;
    GetLineOf(line, rest);
    assert line[|h.0|] == ':';
    HeaderOf(h);
  }

  /** The name and value read from the line "Name: value\r". */
  lemma {:induction false} HeaderOf(h: (string, string))
    requires WellFormedHeader(h)
    ensures var line := h.0 + ": " + h.1 + "\r";
            HeaderName(line) == h.0 && HeaderValue(line) == h.1 + "\r"
  {
    var after := h.1 + "\r";
    assert h.0 + ": " + h.1 + "\r" == h.0 + [':'] + (" " + after);
    IndexOfJoin(h.0, ':', " " + after);
    assert after == [] || !IsBlank(after[0]) by {
      assert after[0] == (if h.1 == [] then '\r' else h.1[0]);
    }
    TrimLeadingBlank(' ', after);
  }

  /** The header loop reads a client's header block back into FoldHeaders. */
  lemma {:induction false} ScanHeaderLines(hs: seq<(string, string)>, rest: string, acc: map<string, string>)
    requires WellFormedHeaders(hs)
    ensures ScanHeaders(HeaderLines(hs) + "\r\n" + rest, acc) == Ended(FoldHeaders(acc, hs), rest)
    decreases |hs|
  {
    if hs == [] {
      assert HeaderLines(hs) + "\r\n" + rest == "\r" + "\n" + rest;
      GetLineOf("\r", rest);
    } else {
      var h := hs[0];
      assert WellFormedHeader(h);
      var tail := HeaderLines(hs[1..]) + "\r\n" + rest;
      assert HeaderLines(hs) + "\r\n" + rest == h.0 + ": " + h.1 + "\r\n" + tail;
      ScanOneHeader(h, tail, acc);
      ScanHeaderLines(hs[1..], rest, acc[h.0 := h.1 + "\r"]);
    }
  }

  /** The header loop stops with Malformed at the first line without ':'. */
  lemma {:induction false} BadLineStopsScan(hs: seq<(string, string)>, bad: string, rest: string,
                                            acc: map<string, string>)
    requires WellFormedHeaders(hs)
    requires ':' !in bad && '\n' !in bad && bad != "\r"
    ensures ScanHeaders(HeaderLines(hs) + bad + "\n" + rest, acc) == Malformed
    decreases |hs|
  {
    if hs == [] {
      assert HeaderLines(hs) + bad + "\n" + rest == bad + "\n" + rest;
      GetLineOf(bad, rest);
    } else {
      var h := hs[0];
      assert WellFormedHeader(h);
      var tail := HeaderLines(hs[1..]) + bad + "\n" + rest;
      assert HeaderLines(hs) + bad + "\n" + rest == h.0 + ": " + h.1 + "\r\n" + tail;
      ScanOneHeader(h, tail, acc);
      BadLineStopsScan(hs[1..], bad, rest, acc[h.0 := h.1 + "\r"]);
    }
  }

  /** The parser sees a NUL-free prefix whole, followed by what it sees of the rest. */
  lemma {:induction false} ParsedTextOfPrefix(head: string, body: string)
    requires '\0' !in head
    ensures ParsedText(head + body) == head + ParsedText(body)
    decreases |head|
  {
    if head != [] {
      assert (head + body)[1..] == head[1..] + body;
      assert (head + body)[0] == head[0];
      ParsedTextOfPrefix(head[1..], body);
      assert IndexOf(head + body, '\0') == 1 + IndexOf(head[1..] + body, '\0');
    } else {
      assert head + body == body;
    }
  }

  predicate WellFormedHead(verb: string, uri: string, prot: string, hs: seq<(string, string)>)
  {
    IsWord(verb) && IsWord(uri) && IsWord(prot) && WellFormedHeaders(hs)
  }

  lemma {:induction false} HeaderLinesHaveNoNul(hs: seq<(string, string)>)
    requires WellFormedHeaders(hs)
    ensures '\0' !in HeaderLines(hs)
    decreases |hs|
  {
    if hs != [] {
      assert WellFormedHeader(hs[0]);
      HeaderLinesHaveNoNul(hs[1..]);
    }
  }

  /**
   * For a client's request head followed by any body bytes (NUL included),
   * parsing reaches ReadBody with the three words, the folded headers and
   * exactly the bytes after the blank line as the buffered body.
   */
  lemma {:induction false} ParseHead(verb: string, uri: string, prot: string, hs: seq<(string, string)>,
                  body: string, extra: ExtraRead)
    requires WellFormedHead(verb, uri, prot, hs)
    ensures Parse(Received(Head(verb, uri, prot, hs) + body), extra)
            == ReadBody(verb, uri, FoldHeaders(map[], hs), Some(body), extra)
  {
    var lines := HeaderLines(hs) + "\r\n";
    var seen := ParsedText(body);
    HeaderLinesHaveNoNul(hs);
    assert Head(verb, uri, prot, hs) + body == RequestLine(verb, uri, prot) + lines + body;
    ParseAfterRequestLine(verb, uri, prot, lines, body, Head(verb, uri, prot, hs) + body, extra);
    assert lines + seen == HeaderLines(hs) + "\r\n" + seen;
    ScanHeaderLines(hs, seen, map[]);
    assert seen + body[|seen|..] == body;
  }

  /**
   * After a request line of three words and NUL-free `lines`, the header
   * loop runs over `lines` and what the parser sees of `body`.
   */
  lemma {:induction false} ParseAfterRequestLine(verb: string, uri: string, prot: string, lines: string, body: string,
                              data: string, extra: ExtraRead)
    requires IsWord(verb) && IsWord(uri) && IsWord(prot) && '\0' !in lines
    requires data == RequestLine(verb, uri, prot) + lines + body
    ensures Parse(Received(data), extra)
            == HeadersAndBody(verb, uri, lines + ParsedText(body), body[|ParsedText(body)|..], extra)
  {
    var unread := lines + ParsedText(body);
    var line := verb + " " + uri + " " + prot + "\r";
    var head := line + "\n" + lines;
    assert data == head + body;
    assert ParsedText(data) == head + ParsedText(body) by {
      RequestLineHasNoNewline(verb, uri, prot);
      assert '\0' !in line + "\n";
      assert '\0' !in head;
      ParsedTextOfPrefix(head, body);
    }
    assert ParsedText(data) == line + "\n" + unread;
    assert data[|ParsedText(data)|..] == body[|ParsedText(body)|..];
    RequestLineHasNoNewline(verb, uri, prot);
    RequestLineRoundTrip(verb, uri, prot);
    ParseRequestLine(data, line, unread, extra);
  }

  /** A request line of three words holds neither a newline nor a NUL. */
  lemma {:induction false} RequestLineHasNoNewline(verb: string, uri: string, prot: string)
    requires IsWord(verb) && IsWord(uri) && IsWord(prot)
    ensures '\n' !in verb + " " + uri + " " + prot + "\r"
    ensures '\0' !in verb + " " + uri + " " + prot + "\r"
  {
    assert IsSpace('\n');
    assert '\n' !in verb && '\n' !in uri && '\n' !in prot;
    assert '\0' !in verb && '\0' !in uri && '\0' !in prot;
    var a := verb + " ";
    assert '\n' !in a && '\0' !in a;
    var b := a + uri;
    assert '\n' !in b && '\0' !in b;
    var c := b + " ";
    assert '\n' !in c && '\0' !in c;
    var d := c + prot;
    assert '\n' !in d && '\0' !in d;
    assert '\n' !in d + "\r" && '\0' !in d + "\r";
  }

  /** A complete request line with three words hands the rest of the text to the header loop. */
  lemma {:induction false} ParseRequestLine(data: string, line: string, unread: string, extra: ExtraRead)
    requires ParsedText(data) == line + "\n" + unread && '\n' !in line
    requires var (verb, uri, prot) := RequestLineWords(line); verb != [] && uri != [] && prot != []
    ensures var (verb, uri, prot) := RequestLineWords(line);
            Parse(Received(data), extra) == HeadersAndBody(verb, uri, unread, data[|ParsedText(data)|..], extra)
  {
    GetLineOf(line, unread);
  }

  /** A GET (or any method but POST) is read back exactly, with an empty body. */
  lemma {:induction false} ParseNonPost(verb: string, uri: string, prot: string, hs: seq<(string, string)>,
                     body: string, extra: ExtraRead)
    requires WellFormedHead(verb, uri, prot, hs) && verb != "POST"
    ensures Parse(Received(Head(verb, uri, prot, hs) + body), extra)
              == Parsed(Request(verb, uri, FoldHeaders(map[], hs), ""))
  {
    ParseHead(verb, uri, prot, hs, body, extra);
  }

  /**
   * What a client's POST turns into: the 200 "Empty POST request." reply
   * without Content-Length, the exception when the value has no digits, 400
   * when nothing follows the blank line, the buffered body when it is long
   * enough, the exception when the missing part is too large for a vector,
   * and otherwise the outcome of one further read.
   */
  lemma {:induction false} ParsePost(uri: string, prot: string, hs: seq<(string, string)>, body: string, extra: ExtraRead)
    requires WellFormedHead("POST", uri, prot, hs)
    ensures var p := Parse(Received(Head("POST", uri, prot, hs) + body), extra);
            var headers := FoldHeaders(map[], hs);
            PostOutcome(p, uri, headers, body, extra)
  {
    ParseHead("POST", uri, prot, hs, body, extra);
    ReadPostBody(uri, FoldHeaders(map[], hs), body, extra);
  }

  /** The outcomes of reading a POST body that follows the blank line, case by case. */
  predicate PostOutcome(p: Parsed, uri: string, headers: map<string, string>, body: string, extra: ExtraRead)
  {
    && ("Content-Length" !in headers ==> p == Answered(EmptyPostReply))
    && ("Content-Length" in headers && Stoul(headers["Content-Length"]).None? ==> p == Aborted)
    && ("Content-Length" in headers && Stoul(headers["Content-Length"]).Some? ==>
          var length := Stoul(headers["Content-Length"]).value;
          && (body == [] ==> p == Answered(BadRequest))
          && (body != [] && length <= |body| ==> p == Parsed(Request("POST", uri, headers, body)))
          && (body != [] && length - |body| > VectorMaxSize ==> p == Aborted)
          && (body != [] && 0 < length - |body| <= VectorMaxSize && extra == ReadError ==> p == Answered(InternalError))
          && (body != [] && 0 < length - |body| <= VectorMaxSize && extra == ReadBytes([]) ==> p == Answered(BadRequest))
          && (body != [] && 0 < length - |body| <= VectorMaxSize && extra.ReadBytes? && extra.bytes != [] ==>
                p == Parsed(Request("POST", uri, headers,
                                    body + extra.bytes[..Min(|extra.bytes|, length - |body|)]))))
  }

  /** ReadBody on a POST whose buffered bytes are known. */
  lemma {:induction false} ReadPostBody(uri: string, headers: map<string, string>, body: string, extra: ExtraRead)
    ensures PostOutcome(ReadBody("POST", uri, headers, Some(body), extra), uri, headers, body, extra)
  {
  }

  /**
   * Header line `i` is the last Content-Length line, and its value is the
   * number `n` written with std::to_string.
   */
  predicate LastContentLength(hs: seq<(string, string)>, i: nat, n: nat)
  {
    && i < |hs|
    && hs[i] == ("Content-Length", Decimal(n))
    && forall j :: i < j < |hs| ==> hs[j].0 != "Content-Length"
  }

  /** The last Content-Length line a client writes is read back as its number. */
  lemma {:induction false} ContentLengthReadBack(hs: seq<(string, string)>, i: nat, n: nat)
    requires n < ULongLimit && LastContentLength(hs, i, n)
    ensures var headers := FoldHeaders(map[], hs);
            "Content-Length" in headers && Stoul(headers["Content-Length"]) == Some(n)
  {
    FoldLastWins(map[], hs, i);
    StoulReadsDecimal(n, "\r");
  }

  /** A failed first recv and an empty (or NUL-first) buffer are answered with 500. */
  lemma {:induction false} NoRequestLineIs500(recv: Received, extra: ExtraRead)
    requires recv.Received? ==> recv.bytes == [] || recv.bytes[0] == '\0'
    ensures Parse(recv, extra) == Answered(InternalError)
  {
  }

  /** A request line missing its protocol is answered with 400, whatever follows. */
  lemma {:induction false} MissingProtocolIs400(verb: string, uri: string, rest: string, extra: ExtraRead)
    requires IsWord(verb) && IsWord(uri)
    ensures Parse(Received(verb + " " + uri + "\r\n" + rest), extra) == Answered(BadRequest)
  {
    var line := verb + " " + uri + "\r";
    assert '\0' !in line + "\n";
    assert verb + " " + uri + "\r\n" + rest == (line + "\n") + rest;
    ParsedTextOfPrefix(line + "\n", rest);
    assert ParsedText((line + "\n") + rest) == line + "\n" + ParsedText(rest);
    GetLineOf(line, ParsedText(rest));
    TwoWordsLeaveProtocolEmpty(verb, uri);
  }

  /** A header line without ':' is answered with 400. */
  lemma {:induction false} HeaderWithoutColonIs400(verb: string, uri: string, prot: string, hs: seq<(string, string)>,
                                bad: string, rest: string, extra: ExtraRead)
    requires IsWord(verb) && IsWord(uri) && IsWord(prot) && WellFormedHeaders(hs)
    requires ':' !in bad && '\n' !in bad && '\0' !in bad && bad != "\r"
    ensures Parse(Received(RequestLine(verb, uri, prot) + HeaderLines(hs) + bad + "\n" + rest), extra)
              == Answered(BadRequest)
  {
    var lines := HeaderLines(hs) + bad + "\n";
    HeaderLinesHaveNoNul(hs);
    assert RequestLine(verb, uri, prot) + HeaderLines(hs) + bad + "\n" + rest
           == RequestLine(verb, uri, prot) + lines + rest;
    ParseAfterRequestLine(verb, uri, prot, lines, rest, RequestLine(verb, uri, prot) + lines + rest, extra);
    assert lines + ParsedText(rest) == HeaderLines(hs) + bad + "\n" + ParsedText(rest);
    BadLineStopsScan(hs, bad, ParsedText(rest), map[]);
  }
}
