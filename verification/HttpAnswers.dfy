// What process_read answers to lines that are not well-formed, and an example
// of a request in full.
module HttpAnswers {
  import opened CStrings
  import opened HttpSpec
  import opened HttpSplitting
  import opened HttpRoundTrip
  import opened HttpText
  import opened HttpNoBody
  import opened HttpBody
  import opened Options

  // text is a request line in the printed form, with a path.
  ghost predicate Acceptable(text: seq<char>) {
    exists l: Line, at: nat :: text == l.Text() && l.WellFormed() && HasPath(l.target, at)
  }

  lemma AcceptableIsAccepted(text: seq<char>)
    ensures PartsOf(text).code == if Acceptable(text) then NoRequest else BadRequest
  {
    if PartsOf(text).code.NoRequest? {
      hide PartsOf;
      var l, at := AcceptedLine(text);
    }
    if l: Line, at: nat :| text == l.Text() && l.WellFormed() && HasPath(l.target, at) {
      RequestLineRoundTrip(l, at);
    }
  }

  // BadRequest is an answer to a request line only.
  lemma {:induction false} OnlyRequestLinesAreBad(c: Conn, ok: bool)
    requires Ok(c)
    ensures ProcessLoop(c, ok).1.BadRequest? ==> c.state.RequestLine? && ProcessLoop(c, ok).0.state.RequestLine?
    ensures !c.state.RequestLine? ==> !ProcessLoop(c, ok).0.state.RequestLine?
    decreases |c.buf| - c.checked, if ok then 1 else 0
  {
    hide ParseLine, ParseRequestLine, ParseHeaders, ParseContent, CStr;
    if c.state.Content? && ok {
      OnlyRequestLinesAreBad(ParseContent(c.(start := c.checked), c.start).0, false);
    } else {
      var (c1, status) := ParseLine(c);
      if status.LineOk? {
        var c2 := c1.(start := c1.checked);
        match c2.state
        case RequestLine =>
          OnlyRequestLinesAreBad(ParseRequestLine(c2, c1.start).0, true);
        case Header =>
          OnlyRequestLinesAreBad(ParseHeaders(c2, c1.start).0, true);
        case Content =>
          OnlyRequestLinesAreBad(ParseContent(c2, c1.start).0, false);
      }
    }
  }

  // The first line of a stream, up to a NUL in it, decides: the answer is
  // BadRequest if and only if it is not an acceptable request line.
  lemma FirstLineDecides(line: seq<char>, rest: seq<char>)
    requires forall i :: 0 <= i < |line| ==> line[i] != CR && line[i] != LF
    ensures ProcessRead(Extend(INIT, line + CRLF + rest)).1.BadRequest? <==> !Acceptable(CStr(line, 0))
  {
    hide ParseLine, CStr, PartsOf, Acceptable, Erase;
    var w := line + CRLF + rest;
    var c := Extend(INIT, w);
    assert c.buf == w;
    ScannerAnswers(c, |line|);
    var c1 := ParseLine(c).0;
    var c2 := c1.(start := c1.checked);
    assert c2.buf[0..|line|] == line;
    TextOfLine(c2.buf, 0, line);
    AcceptableIsAccepted(CStr(line, 0));
    OnlyRequestLinesAreBad(ParseRequestLine(c2, 0).0, true);
  }

  lemma PlainLineIsItsText(line: seq<char>)
    requires PlainText(line)
    ensures CStr(line, 0) == line
  {
    NoEndBefore(line, 0);
  }

  lemma {:induction false} BodyIsNeverBad(c: Conn, pieces: seq<seq<char>>)
    requires Ok(c) && !c.state.RequestLine?
    ensures !Feed(c, pieces).1.BadRequest?
    decreases |pieces|
  {
    hide ProcessLoop;
    if pieces != [] {
      OnlyRequestLinesAreBad(Extend(c, pieces[0]), true);
      BodyIsNeverBad(ProcessRead(Extend(c, pieces[0])).0, pieces[1..]);
    }
  }

  // The answer BadRequest does not depend on the splitting of the bytes.
  lemma {:induction false} BadInPieces(c: Conn, pieces: seq<seq<char>>)
    requires Settled(c)
    ensures Feed(c, pieces).1.BadRequest? <==> ProcessRead(Extend(c, Flatten(pieces))).1.BadRequest?
    decreases |pieces|
  {
    hide ProcessLoop;
    if pieces == [] {
      assert c.buf + [] == c.buf;
    } else {
      var d, rest := Extend(c, pieces[0]), Flatten(pieces[1..]);
      assert d.buf + rest == c.buf + Flatten(pieces);
      LoopResumes(d, rest);
      ReadSettles(d);
      OnlyRequestLinesAreBad(d, true);
      OnlyRequestLinesAreBad(Extend(d, rest), true);
      var (c1, code) := ProcessRead(d);
      if c1.state.Content? {
        BodyIsNeverBad(c1, pieces[1..]);
      } else if code.NoRequest? {
        BadInPieces(c1, pieces[1..]);
      }
    }
  }

  lemma FirstLineInPieces(line: seq<char>, rest: seq<char>, pieces: seq<seq<char>>)
    requires Flatten(pieces) == line + CRLF + rest
    requires forall i :: 0 <= i < |line| ==> line[i] != CR && line[i] != LF
    ensures Feed(INIT, pieces).1.BadRequest? <==> !Acceptable(CStr(line, 0))
  {
    hide ProcessRead, Feed, Acceptable;
    InitIsSettled();
    FirstLineDecides(line, rest);
    BadInPieces(INIT, pieces);
  }

  // Once a line outside a body is bad, or is not finished, there is no answer;
  // and for a bad line none ever comes.
  lemma NoAnswerWithoutLine(c: Conn)
    requires Ok(c) && !c.state.Content? && !ParseLine(c).1.LineOk?
    ensures ProcessRead(c) == (ParseLine(c).0, NoRequest)
  {
    hide ParseLine;
  }

  lemma BadLineIsNeverAnswered(c: Conn, pieces: seq<seq<char>>)
    requires Settled(c) && ParseLine(c).1.LineBad?
    ensures Feed(c, pieces).1.NoRequest?
  {
    hide ProcessRead, Feed, ParseLine;
    var more := Flatten(pieces);
    ParseLineResumes(c, more);
    BadLineStays(c, more);
    NoAnswerWithoutLine(Extend(c, more));
    StaysOutside(Extend(c, more));
    SplittingIsIrrelevant(c, pieces);
  }

  lemma StaysOutside(c: Conn)
    requires Ok(c)
    ensures ParseLine(c).0.state == c.state
  {
  }

  // What a positive length makes of a body that comes in one read: the end mark
  // stands behind its n bytes, and everything else behind the head is as sent.
  lemma BodyInOneRead(l: Line, at: nat, headers: seq<seq<char>>, n: int, s: seq<char>)
    requires AnnouncesBody(l, at, headers, n) && 0 < n <= |s| && |PrintHead(l, headers)| + n <= INT_MAX
    ensures var h := |PrintHead(l, headers)|; var (c, code) := ProcessRead(Extend(INIT, PrintHead(l, headers) + s));
      code.GetRequest? && |c.buf| == h + |s| && c.buf[h..] == if n < |s| then s[n := '\0'] else s
  {
    hide ProcessLoop, PrintHead, HasRead, Passed, Int32, Stop, MeaningOf;
    var c := HeadIsDone(l, at, headers, n, s, |s|);
    assert s[..|s|] == s;
    HeadIsWhole(c, l, at, headers);
    var d := Extend(c, s);
    LoopInBody(d);
    assert Int32(n + d.checked) == n + d.checked;
    assert d.buf[|PrintHead(l, headers)|..] == s;
  }

  lemma HeadIsWhole(c: Conn, l: Line, at: nat, headers: seq<seq<char>>)
    requires at <= |l.target| && HasRead(c, l, at, headers)
    ensures c.start == c.checked == |PrintHead(l, headers)|
  {
  }

  // ---------- an example, byte by byte ----------

  const EXAMPLE_TEXT := "GET / HTTP/1.1\r\n" + "HOST: localhost\r\n" + "Connection:\tKeep-Alive\r\n" + "\r\n"

  const EXAMPLE_LINE := Line("GET", " ", "/", " ", "HTTP/1.1")
  const HOST_LINE := "HOST: localhost"
  const CONNECTION_LINE := "Connection:\tKeep-Alive"

  lemma ExampleIsRead()
    ensures var (c, code) := ProcessRead(Extend(INIT, EXAMPLE_TEXT));
      && code == GetRequest && c.linger && c.contentLength == 0 && c.checked == |EXAMPLE_TEXT|
      && c.url.Some? && c.url.value < |c.buf| && CStr(c.buf, c.url.value) == "/"
      && c.host.Some? && c.host.value < |c.buf| && CStr(c.buf, c.host.value) == "localhost"
  {
    hide ProcessRead, MeaningOf, PlainHeaders, PlainText, PrintHead, CStr;
    var headers := [HOST_LINE, CONNECTION_LINE];
    ExampleHeaders();
    ExampleText();
    ExampleLine();
    var c := HeadIsRead(EXAMPLE_LINE, 0, headers, []);
    assert EXAMPLE_TEXT + [] == EXAMPLE_TEXT;
    assert c.buf[..c.checked] == c.buf;
    assert EXAMPLE_LINE.target[0..] == "/";
  }

  lemma HostLine(f: Fields)
    ensures PlainText(HOST_LINE) && Header1(HOST_LINE, f) == f.(host := Some("localhost"))
  {
    hide Header1;
    HostHeader("HOST:", " ", "localhost", f);
    assert "HOST:" + " " + "localhost" == HOST_LINE;
  }

  lemma ConnectionLine(f: Fields)
    ensures PlainText(CONNECTION_LINE) && Header1(CONNECTION_LINE, f) == f.(linger := true)
  {
    hide Header1;
    ConnectionHeader("Connection:", "\t", "Keep-Alive", f);
    assert "Connection:" + "\t" + "Keep-Alive" == CONNECTION_LINE;
  }

  lemma ExampleHeaders()
    ensures PlainHeaders([HOST_LINE, CONNECTION_LINE])
    ensures MeaningOf([HOST_LINE, CONNECTION_LINE]) == Fields(true, 0, Some("localhost"))
  {
    hide Header1, PlainText;
    var f := Fields(false, 0, None);
    HostLine(f);
    ConnectionLine(f.(host := Some("localhost")));
    TwoHeaders(HOST_LINE, CONNECTION_LINE, f);
  }

  lemma TwoHeaders(g: seq<char>, h: seq<char>, f: Fields)
    ensures Meaning([g, h], f) == Header1(h, Header1(g, f))
  {
    hide Header1;
    assert [g, h][1..] == [h] && [h][1..] == [];
    assert Meaning([h], Header1(g, f)) == Meaning([], Header1(h, Header1(g, f)));
  }

  lemma PrintTwo(l: Line, g: seq<char>, h: seq<char>)
    ensures PrintHead(l, [g, h]) == (l.Text() + CRLF) + (g + CRLF) + (h + CRLF) + CRLF
  {
    assert [g, h][1..] == [h] && [h][1..] == [];
    assert Print([h]) == h + CRLF + Print([]);
    assert Print([g, h]) == g + CRLF + (h + CRLF + CRLF);
  }

  lemma ExampleText()
    ensures PrintHead(EXAMPLE_LINE, [HOST_LINE, CONNECTION_LINE]) == EXAMPLE_TEXT
  {
    hide PrintHead, Print, Line.Text;
    PrintTwo(EXAMPLE_LINE, HOST_LINE, CONNECTION_LINE);
    ExampleParts();
  }

  lemma ExampleParts()
    ensures EXAMPLE_LINE.Text() + CRLF == "GET / HTTP/1.1\r\n" && CRLF == "\r\n"
    ensures HOST_LINE + CRLF == "HOST: localhost\r\n"
    ensures CONNECTION_LINE + CRLF == "Connection:\tKeep-Alive\r\n"
  {
  }

  lemma ExampleLine()
    ensures EXAMPLE_LINE.WellFormed() && HasPath(EXAMPLE_LINE.target, 0) && PlainText(EXAMPLE_LINE.target)
  {
    CaseIsIgnored(EXAMPLE_LINE.verb, "GET");
    CaseIsIgnored(EXAMPLE_LINE.version, "HTTP/1.1");
    CaseIsIgnored(EXAMPLE_LINE.target, "http://");
  }
}
