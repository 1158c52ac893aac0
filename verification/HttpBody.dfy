// Requests with a body.  Here the splitting of the bytes does matter: while the
// body is incomplete, the loop test of process_read runs the line scanner over
// the part that has arrived, and bytes that the scanner has passed are no longer
// counted.
module HttpBody {
  import opened CStrings
  import opened HttpSpec
  import opened HttpSplitting
  import opened HttpRoundTrip
  import opened Options

  // Where the scanner stands in the end when it starts at index i of a buffer:
  // it passes any number of lines that end in CRLF, and what follows them up to
  // the next line end.
  function Stop(buf: seq<char>, i: nat): (r: nat)
    requires i <= |buf|
    ensures i <= r <= |buf|
    decreases |buf| - i
  {
    var j := Scan(buf, i);
    if j + 1 < |buf| && buf[j] == CR && buf[j + 1] == LF then Stop(buf, j + 2) else j
  }

  // How far the scanner has gone when pos bytes of w have been parsed.  The
  // first h bytes of w are the head of a request.
  function Passed(w: seq<char>, h: nat, pos: nat): (r: nat)
    requires pos <= |w|
    ensures h <= r && r <= if pos >= h then pos else h
  {
    if pos <= h then h else Stop(w[..pos], h)
  }

  // The test of parse_content, made at index i and again behind each line that
  // the scanner then passes, finds enough bytes for a body of length n.  The sum
  // is one of ints.
  predicate Enough(buf: seq<char>, i: nat, n: int)
    requires i <= |buf|
    decreases |buf| - i
  {
    |buf| >= Int32(n + i) ||
    var j := Scan(buf, i);
    j + 1 < |buf| && buf[j] == CR && buf[j + 1] == LF && Enough(buf, j + 2, n)
  }

  // pos bytes of w have been parsed, and the pieces are still to come.  When one
  // of them has come, the bytes are enough, as seen from where the scanner stood
  // before it.
  predicate Recognised(w: seq<char>, h: nat, n: int, pos: nat, pieces: seq<seq<char>>)
    requires pos + |Flatten(pieces)| <= |w|
    decreases |pieces|
  {
    pieces != [] &&
    var next := pos + |pieces[0]|;
    (next >= h && Enough(w[..next], Passed(w, h, pos), n)) || Recognised(w, h, n, next, pieces[1..])
  }

  // ---------- the body ----------

  lemma {:induction false} ScanSame(a: seq<char>, b: seq<char>, i: nat)
    requires i <= |a| == |b| && a[i..] == b[i..]
    ensures Scan(a, i) == Scan(b, i)
    decreases |a| - i
  {
    if i < |a| {
      assert a[i] == a[i..][0] == b[i];
      assert a[i + 1..] == a[i..][1..] == b[i + 1..];
      ScanSame(a, b, i + 1);
    }
  }

  lemma {:induction false} StopResumes(buf: seq<char>, more: seq<char>, i: nat)
    requires i <= |buf|
    ensures Stop(buf + more, i) == Stop(buf + more, Stop(buf, i))
    decreases |buf| - i
  {
    ScanResumes(buf, more, i);
    hide Scan;
    var j := Scan(buf, i);
    if j + 1 < |buf| && buf[j] == CR && buf[j + 1] == LF {
      StopResumes(buf, more, j + 2);
    }
  }

  lemma PassedResumes(w: seq<char>, h: nat, pos: nat, next: nat)
    requires h <= pos <= next <= |w|
    ensures Passed(w, h, pos) <= pos && Passed(w, h, next) == Stop(w[..next], Passed(w, h, pos))
  {
    assert w[..next] == w[..pos] + w[pos..next];
    StopResumes(w[..pos], w[pos..next], h);
  }

  // From the scanner's position on, c holds the bytes of w up to pos.
  predicate Holding(c: Conn, w: seq<char>, pos: nat) {
    && Ok(c) && c.state.Content? && |c.buf| == pos <= |w| && c.buf[c.checked..] == w[c.checked..pos]
    && (c.checked > 0 ==> c.buf[c.checked - 1] != CR)
  }

  lemma SameFrom(buf: seq<char>, w: seq<char>, i: nat, pos: nat)
    requires i <= |buf| == pos <= |w| && buf[i..] == w[i..pos]
    ensures forall k :: i <= k < pos ==> buf[k] == w[k]
    ensures forall j :: i <= j <= pos ==> buf[j..] == w[j..pos]
    ensures Scan(buf, i) == Scan(w[..pos], i)
  {
    forall k | i <= k < pos ensures buf[k] == w[k] {
      assert buf[k] == buf[i..][k - i];
    }
    assert w[..pos][i..] == buf[i..];
    ScanSame(buf, w[..pos], i);
  }

  // The scanner's next line in the buffer is the next line of w.
  lemma SameLine(buf: seq<char>, w: seq<char>, i: nat, pos: nat)
    requires i <= |buf| == pos <= |w| && buf[i..] == w[i..pos] && (i > 0 ==> buf[i - 1] != CR)
    ensures var (status, e) := LineStop(buf, i); var j := Scan(w[..pos], i);
      && (status.LineOk? <==> j + 1 < pos && w[j] == CR && w[j + 1] == LF)
      && e == (if status.LineOk? then j + 2 else j)
      && (!status.LineOk? && e > 0 ==> buf[e - 1] != CR)
  {
    hide Scan;
    SameFrom(buf, w, i, pos);
    ScanSkipsPlain(buf, i);
  }

  // One run of the line scanner.
  lemma OneLine(c: Conn, w: seq<char>, pos: nat)
    requires Holding(c, w, pos)
    ensures var (c1, status) := ParseLine(c); var j := Scan(w[..pos], c.checked);
      && Holding(c1, w, pos) && c1.contentLength == c.contentLength
      && (status.LineOk? <==> j + 1 < pos && w[j] == CR && w[j + 1] == LF)
      && c1.checked == if status.LineOk? then j + 2 else j
  {
    hide Scan, LineStop;
    SameLine(c.buf, w, c.checked, pos);
    SameFrom(c.buf, w, c.checked, pos);
    var (c1, status) := ParseLine(c);
    assert c1.buf[c1.checked..] == c.buf[c1.checked..];
  }

  lemma StopHere(buf: seq<char>, i: nat)
    requires i <= |buf|
    ensures var j := Scan(buf, i);
      Stop(buf, i) == if j + 1 < |buf| && buf[j] == CR && buf[j + 1] == LF then Stop(buf, j + 2) else j
  {
  }

  lemma EnoughHere(buf: seq<char>, i: nat, n: int)
    requires i <= |buf| && |buf| < Int32(n + i)
    ensures var j := Scan(buf, i);
      Enough(buf, i, n) <==> j + 1 < |buf| && buf[j] == CR && buf[j + 1] == LF && Enough(buf, j + 2, n)
  {
  }

  // The two ways into the loop when a body is to come.
  lemma LoopInBody(c: Conn)
    requires Ok(c) && c.state.Content?
    ensures var (c1, code) := ParseContent(c.(start := c.checked), c.start);
      ProcessLoop(c, true) == if code.GetRequest? then (c1, GetRequest) else ProcessLoop(c1, false)
  {
    hide ParseLine, ParseContent;
  }

  lemma LoopScans(c: Conn)
    requires Ok(c) && c.state.Content?
    ensures var (c1, status) := ParseLine(c);
      ProcessLoop(c, false) ==
        if !status.LineOk? then (c1, NoRequest)
        else
          var (c2, code) := ParseContent(c1.(start := c1.checked), c1.start);
          if code.GetRequest? then (c2, GetRequest) else ProcessLoop(c2, false)
  {
    hide ParseLine, ParseContent;
  }

  lemma ContentTest(c: Conn, p: nat)
    requires Ok(c)
    ensures |c.buf| < Int32(c.contentLength + c.checked) ==> ParseContent(c, p) == (c, NoRequest)
    ensures |c.buf| >= Int32(c.contentLength + c.checked) ==> ParseContent(c, p).1.GetRequest?
  {
    hide Int32;
  }

  // As long as the bytes do not suffice, the loop scans on to where the scanner
  // stops.
  lemma {:induction false} ScansOn(c: Conn, w: seq<char>, pos: nat)
    requires Holding(c, w, pos) && pos < Int32(c.contentLength + c.checked)
    ensures var (c1, code) := ProcessLoop(c, false);
      && code == (if Enough(w[..pos], c.checked, c.contentLength) then GetRequest else NoRequest)
      && (code.NoRequest? ==> Holding(c1, w, pos) && c1.contentLength == c.contentLength)
      && (code.NoRequest? ==> c1.checked == Stop(w[..pos], c.checked))
    decreases |c.buf| - c.checked
  {
    hide ParseLine, ParseContent, ProcessLoop, Scan, Stop, Enough, Int32;
    OneLine(c, w, pos);
    StopHere(w[..pos], c.checked);
    EnoughHere(w[..pos], c.checked, c.contentLength);
    LoopScans(c);
    var (c1, status) := ParseLine(c);
    if status.LineOk? {
      var c2 := c1.(start := c1.checked);
      ContentTest(c2, c1.start);
      if pos >= Int32(c2.contentLength + c2.checked) {
        EnoughAtOnce(w[..pos], c2.checked, c2.contentLength);
      } else {
        StartIsFree(c1, w, pos, c1.checked);
        ScansOn(c2, w, pos);
      }
    }
  }

  lemma EnoughAtOnce(buf: seq<char>, i: nat, n: int)
    requires i <= |buf| && |buf| >= Int32(n + i)
    ensures Enough(buf, i, n)
  {
  }

  lemma StartIsFree(c: Conn, w: seq<char>, pos: nat, start: nat)
    requires Holding(c, w, pos) && start <= c.checked
    ensures Holding(c.(start := start), w, pos)
  {
  }

  // The head and pos - h bytes behind it have been parsed.
  predicate Reading(c: Conn, w: seq<char>, h: nat, n: int, pos: nat) {
    h <= pos <= |w| && Holding(c, w, pos) && c.contentLength == n && c.checked == Passed(w, h, pos)
  }

  // One more piece.
  lemma OnePiece(c: Conn, w: seq<char>, h: nat, n: int, pos: nat, next: nat)
    requires Reading(c, w, h, n, pos) && pos <= next <= |w|
    ensures var (c1, code) := ProcessRead(Extend(c, w[pos..next]));
      && code == (if Enough(w[..next], Passed(w, h, pos), n) then GetRequest else NoRequest)
      && (code.NoRequest? ==> Reading(c1, w, h, n, next))
  {
    hide ParseContent, ProcessLoop, Stop, Enough, Int32;
    var d := Extend(c, w[pos..next]);
    assert d.buf[d.checked..] == w[d.checked..pos] + w[pos..next] == w[d.checked..next];
    PassedResumes(w, h, pos, next);
    var d0 := d.(start := d.checked);
    LoopInBody(d);
    ContentTest(d0, d.start);
    if next < Int32(n + d.checked) {
      ScansOn(d0, w, next);
      StopAtHead(w, h, next);
    } else {
      EnoughAtOnce(w[..next], d.checked, n);
    }
  }

  lemma StopAtHead(w: seq<char>, h: nat, next: nat)
    requires h <= next <= |w|
    ensures Passed(w, h, next) == Stop(w[..next], h)
  {
  }

  lemma NextPiece(w: seq<char>, pos: nat, pieces: seq<seq<char>>)
    requires pieces != [] && pos <= |w| && Flatten(pieces) == w[pos..]
    ensures var next := pos + |pieces[0]|;
      next <= |w| && pieces[0] == w[pos..next] && Flatten(pieces[1..]) == w[next..]
  {
    var next := pos + |pieces[0]|;
    assert w[pos..] == pieces[0] + Flatten(pieces[1..]);
    assert pieces[0] == w[pos..][..|pieces[0]|] == w[pos..next];
    assert Flatten(pieces[1..]) == w[pos..][|pieces[0]|..] == w[next..];
  }

  lemma {:induction false} BodyInPieces(c: Conn, w: seq<char>, h: nat, n: int, pos: nat, pieces: seq<seq<char>>)
    requires Reading(c, w, h, n, pos) && Flatten(pieces) == w[pos..]
    ensures Feed(c, pieces).1 == if Recognised(w, h, n, pos, pieces) then GetRequest else NoRequest
    decreases |pieces|
  {
    hide ProcessRead, Passed, Enough;
    if pieces != [] {
      NextPiece(w, pos, pieces);
      var next := pos + |pieces[0]|;
      OnePiece(c, w, h, n, pos, next);
      var (c1, code) := ProcessRead(Extend(c, pieces[0]));
      if code.NoRequest? {
        BodyInPieces(c1, w, h, n, next, pieces[1..]);
      }
    }
  }

  // ---------- the head ----------

  // If the parser gets to a body at all, it gets there in the same way with
  // more bytes.
  lemma {:induction false} EntersBody(c: Conn, more: seq<char>) returns (e: Conn)
    requires Ok(c) && !c.state.Content? && ProcessLoop(c, true).0.state.Content?
    ensures Ok(e) && e.state.Content? && |e.buf| == |c.buf|
    ensures ProcessLoop(Extend(c, more), true) == ProcessLoop(Extend(e, more), true)
    decreases |c.buf| - c.checked
  {
    hide ParseLine, ParseRequestLine, ParseHeaders, ParseContent, CStr;
    ParseLineResumes(c, more);
    var (c1, status) := ParseLine(c);
    var p := c1.start;
    var c2 := c1.(start := c1.checked);
    assert Extend(c1, more).(start := c1.checked) == Extend(c2, more);
    LineIsTerminated(c2.buf, p, c2.checked);
    if c2.state.RequestLine? {
      RequestLineExtends(c2, more, p);
      e := EntersBody(ParseRequestLine(c2, p).0, more);
    } else {
      HeadersExtend(c2, more, p);
      var c3 := ParseHeaders(c2, p).0;
      if c3.state.Content? {
        e := c3;
      } else {
        e := EntersBody(c3, more);
      }
    }
  }

  lemma {:induction false} BodyKeepsLength(c: Conn, ok: bool)
    requires Ok(c) && c.state.Content?
    ensures ProcessLoop(c, ok).0.contentLength == c.contentLength
    decreases |c.buf| - c.checked, if ok then 1 else 0
  {
    if ok {
      BodyKeepsLength(ParseContent(c.(start := c.checked), c.start).0, false);
    } else {
      var (c1, status) := ParseLine(c);
      if status.LineOk? {
        BodyKeepsLength(ParseContent(c1.(start := c1.checked), c1.start).0, false);
      }
    }
  }

  lemma AllAtOnce(c: Conn)
    requires Ok(c) && c.state.Content? && |c.buf| >= Int32(c.contentLength + c.checked)
    ensures ProcessLoop(c, true).1.GetRequest? && ProcessLoop(c, true).0.checked == c.checked
    ensures ProcessLoop(c, true).0.contentLength == c.contentLength && ProcessLoop(c, true).0.state.Content?
  {
    hide ProcessLoop, ParseLine, Int32;
    LoopInBody(c);
  }

  lemma {:induction false} LengthIsInt(headers: seq<seq<char>>, f: Fields)
    requires -INT_MAX - 1 <= f.contentLength <= INT_MAX
    ensures -INT_MAX - 1 <= Meaning(headers, f).contentLength <= INT_MAX
    decreases |headers|
  {
    if headers != [] {
      LengthIsInt(headers[1..], Header1(headers[0], f));
    }
  }

  lemma Int32IsLess(x: int)
    requires x >= -INT_MAX - 1
    ensures Int32(x) <= x
  {
  }

  // The head of a request that announces a body of n bytes.
  predicate AnnouncesBody(l: Line, at: nat, headers: seq<seq<char>>, n: int) {
    && l.WellFormed() && HasPath(l.target, at) && PlainText(l.target) && PlainHeaders(headers)
    && n != 0 && n == MeaningOf(headers).contentLength
  }

  lemma AnnouncedIsInt(l: Line, at: nat, headers: seq<seq<char>>, n: int)
    requires AnnouncesBody(l, at, headers, n)
    ensures -INT_MAX - 1 <= n <= INT_MAX && n != 0
  {
    LengthIsInt(headers, Fields(false, 0, None));
  }

  // With enough bytes behind it, the head takes the parser to a result.
  lemma HeadAndBody(l: Line, at: nat, headers: seq<seq<char>>, n: int, body: seq<char>)
    requires AnnouncesBody(l, at, headers, n) && |body| >= n
    ensures var (c, code) := ProcessRead(Extend(INIT, PrintHead(l, headers) + body));
      code.GetRequest? && c.state.Content? && c.checked == |PrintHead(l, headers)| && c.contentLength == n
    ensures n >= -INT_MAX - 1
  {
    LengthIsInt(headers, Fields(false, 0, None));
    hide ProcessLoop, MeaningOf, PrintHead, Int32;
    var whole := HeadIsRead(l, at, headers, body);
    Int32IsLess(n + whole.checked);
    AllAtOnce(whole.(state := Content));
  }

  // No proper part of the head takes the parser to the body or to a result.
  lemma PartOfHead(l: Line, at: nat, headers: seq<seq<char>>, n: int, p: seq<char>)
    requires AnnouncesBody(l, at, headers, n) && p <= PrintHead(l, headers) && p != PrintHead(l, headers)
    ensures var (c, code) := ProcessRead(Extend(INIT, p)); code.NoRequest? && !c.state.Content?
  {
    hide ProcessLoop, AnnouncesBody, PrintHead, Int32;
    var body := seq(if n > 0 then n else 0, _ => ' ');
    var more := PrintHead(l, headers)[|p|..] + body;
    assert p + more == PrintHead(l, headers) + body;
    HeadAndBody(l, at, headers, n, body);
    var d := Extend(INIT, p);
    assert Extend(d, more) == Extend(INIT, PrintHead(l, headers) + body);
    if ProcessLoop(d, true).0.state.Content? {
      var e := EntersBody(d, more);
      BodyKeepsLength(Extend(e, more), true);
      Int32IsLess(e.contentLength + e.checked);
      AllAtOnce(Extend(e, more));
    } else {
      LoopResumes(d, more);
    }
  }

  // What is left to do after a call of process_read.
  function Continue(r: (Conn, HttpCode), pieces: seq<seq<char>>): (Conn, HttpCode)
    requires Ok(r.0)
  {
    if r.1.NoRequest? then Feed(r.0, pieces) else r
  }

  // p has been parsed without a result, and is not the whole head.  Then some
  // piece completes the head, together with k bytes behind it, and it is as if
  // all bytes up to there had come at once.
  lemma {:induction false} HeadInPieces(l: Line, at: nat, headers: seq<seq<char>>, n: int, s: seq<char>,
                                        p: seq<char>, c: Conn, pieces: seq<seq<char>>)
    returns (k: nat, rest: seq<seq<char>>)
    requires AnnouncesBody(l, at, headers, n) && |p| < |PrintHead(l, headers)|
    requires p + Flatten(pieces) == PrintHead(l, headers) + s && (c, NoRequest) == ProcessRead(Extend(INIT, p))
    requires !c.state.Content?
    ensures k <= |s| && Flatten(rest) == s[k..] && |rest| < |pieces|
    ensures Feed(c, pieces) == Continue(ProcessRead(Extend(INIT, PrintHead(l, headers) + s[..k])), rest)
    ensures var head := PrintHead(l, headers); var h, w := |head|, head + s;
      Recognised(w, h, n, |p|, pieces) <==> Enough(w[..h + k], h, n) || Recognised(w, h, n, h + k, rest)
    decreases |pieces|
  {
    hide ProcessLoop, AnnouncesBody, PrintHead, Stop, Enough;
    var head := PrintHead(l, headers);
    assert pieces != [];
    var x, others := pieces[0], pieces[1..];
    var q := p + x;
    assert q + Flatten(others) == head + s;
    assert Extend(Extend(INIT, p), x) == Extend(INIT, q);
    LoopResumes(Extend(INIT, p), x);
    if |q| < |head| {
      assert q == (head + s)[..|q|] == head[..|q|];
      PartOfHead(l, at, headers, n, q);
      k, rest := HeadInPieces(l, at, headers, n, s, q, ProcessRead(Extend(c, x)).0, others);
    } else {
      k, rest := |q| - |head|, others;
      assert q == (head + s)[..|q|] == head + s[..k];
      assert Flatten(rest) == (head + s)[|q|..] == s[k..];
    }
  }

  // The same for a whole request, from the beginning.
  lemma HeadArrives(l: Line, at: nat, headers: seq<seq<char>>, n: int, s: seq<char>, pieces: seq<seq<char>>)
    returns (k: nat, rest: seq<seq<char>>)
    requires AnnouncesBody(l, at, headers, n) && Flatten(pieces) == PrintHead(l, headers) + s
    ensures k <= |s| && Flatten(rest) == s[k..]
    ensures Feed(INIT, pieces) == Continue(ProcessRead(Extend(INIT, PrintHead(l, headers) + s[..k])), rest)
    ensures var head := PrintHead(l, headers); var h, w := |head|, head + s;
      Recognised(w, h, n, 0, pieces) <==> Enough(w[..h + k], h, n) || Recognised(w, h, n, h + k, rest)
  {
    hide ProcessLoop, MeaningOf, PrintHead, Recognised;
    InitIsSettled();
    assert Extend(INIT, []) == INIT;
    HeadIsNotEmpty(l, headers);
    k, rest := HeadInPieces(l, at, headers, n, s, [], INIT, pieces);
  }

  // The state in which the head has been parsed, and the k bytes behind it not
  // yet.
  lemma HeadIsDone(l: Line, at: nat, headers: seq<seq<char>>, n: int, s: seq<char>, k: nat) returns (c: Conn)
    requires AnnouncesBody(l, at, headers, n) && k <= |s|
    ensures var head := PrintHead(l, headers);
      Reading(c, head + s, |head|, n, |head|) && HasRead(c, l, at, headers)
      && ProcessRead(Extend(INIT, head + s[..k])) == ProcessRead(Extend(c, s[..k]))
  {
    hide ProcessLoop, MeaningOf, PrintHead, Stop, Holds;
    var d := HeadIsRead(l, at, headers, s[..k]);
    c := d.(state := Content, buf := d.buf[..d.checked]);
    assert d.buf == d.buf[..d.checked] + s[..k];
    assert Extend(c, s[..k]) == d.(state := Content);
    assert c.buf[..c.checked] == d.buf[..d.checked];
  }

  // For every well-formed head that announces a body, of whatever length,
  // whatever bytes s follow it and in whatever pieces all of them arrive: the
  // request is recognised if and only if after some piece the bytes are enough.
  lemma RequestAndMore(l: Line, at: nat, headers: seq<seq<char>>, n: int, s: seq<char>, pieces: seq<seq<char>>)
    requires AnnouncesBody(l, at, headers, n) && Flatten(pieces) == PrintHead(l, headers) + s
    ensures var head := PrintHead(l, headers);
      Feed(INIT, pieces).1 == if Recognised(head + s, |head|, n, 0, pieces) then GetRequest else NoRequest
  {
    hide ProcessRead, AnnouncesBody, PrintHead, Recognised, Enough, HasRead, Passed, Stop, StrEnd, Int32;
    var head := PrintHead(l, headers);
    var h, w := |head|, head + s;
    var k, rest := HeadArrives(l, at, headers, n, s, pieces);
    var c := HeadIsDone(l, at, headers, n, s, k);
    assert s[..k] == w[h..h + k] && s[k..] == w[h + k..];
    OnePiece(c, w, h, n, h, h + k);
    var (c1, code) := ProcessRead(Extend(c, s[..k]));
    if code.NoRequest? {
      BodyInPieces(c1, w, h, n, h + k, rest);
    }
  }

  lemma HeadIsNotEmpty(l: Line, headers: seq<seq<char>>)
    ensures |PrintHead(l, headers)| > 0
  {
  }

  // ---------- the parts of a request with a body ----------

  // d has at least the first h bytes of c, and the same fields.
  predicate KeepsHead(c: Conn, d: Conn, h: nat) {
    && h <= |c.buf| && h <= |d.buf| && d.buf[..h] == c.buf[..h]
    && d.url == c.url && d.version == c.version && d.host == c.host && d.linger == c.linger
    && d.contentLength == c.contentLength && InBody(d, h)
  }

  // The parser is behind a head of h bytes.
  predicate InBody(c: Conn, h: nat) {
    && Ok(c) && c.state.Content? && h <= c.start && (c.checked > 0 ==> c.buf[c.checked - 1] != CR)
  }

  lemma LineKeepsHead(c: Conn, h: nat)
    requires InBody(c, h)
    ensures var (c1, status) := ParseLine(c);
      KeepsHead(c, c1, h) && (status.LineOk? ==> KeepsHead(c, c1.(start := c1.checked), h))
  {
    hide Scan;
    LineStopCuts(c.buf, c.checked);
  }

  lemma ContentKeepsHead(c: Conn, p: nat, h: nat)
    requires InBody(c, h) && h <= p && c.contentLength > 0
    ensures KeepsHead(c, ParseContent(c, p).0, h)
  {
    hide Int32;
  }

  lemma {:induction false} LoopKeepsHead(c: Conn, ok: bool, h: nat)
    requires InBody(c, h) && c.contentLength > 0
    ensures KeepsHead(c, ProcessLoop(c, ok).0, h)
    decreases |c.buf| - c.checked, if ok then 1 else 0
  {
    hide ParseLine, ParseContent;
    if ok {
      var c1 := c.(start := c.checked);
      ContentKeepsHead(c1, c.start, h);
      LoopKeepsHead(ParseContent(c1, c.start).0, false, h);
    } else {
      LineKeepsHead(c, h);
      var (c1, status) := ParseLine(c);
      if status.LineOk? {
        var c2 := c1.(start := c1.checked);
        ContentKeepsHead(c2, c1.start, h);
        LoopKeepsHead(ParseContent(c2, c1.start).0, false, h);
      }
    }
  }

  lemma {:induction false} FeedKeepsHead(c: Conn, pieces: seq<seq<char>>, h: nat)
    requires InBody(c, h) && c.contentLength > 0
    ensures KeepsHead(c, Feed(c, pieces).0, h)
    decreases |pieces|
  {
    hide ProcessLoop;
    if pieces != [] {
      var d := Extend(c, pieces[0]);
      assert d.buf[..h] == c.buf[..h];
      LoopKeepsHead(d, true, h);
      FeedKeepsHead(ProcessRead(d).0, pieces[1..], h);
    }
  }

  lemma FieldsAreKept(c: Conn, d: Conn, l: Line, at: nat, headers: seq<seq<char>>)
    requires at <= |l.target| && HasRead(c, l, at, headers) && KeepsHead(c, d, |PrintHead(l, headers)|)
    ensures HasFields(d, l, at, headers)
  {
    hide PrintHead, MeaningOf, Holds, InBody;
  }

  // The state before the bytes behind the head, from which they are fed.
  lemma FedFromHead(l: Line, at: nat, headers: seq<seq<char>>, n: int, s: seq<char>, pieces: seq<seq<char>>)
    returns (c: Conn, next: seq<seq<char>>)
    requires AnnouncesBody(l, at, headers, n) && Flatten(pieces) == PrintHead(l, headers) + s
    ensures HasRead(c, l, at, headers) && InBody(c, |PrintHead(l, headers)|) && c.contentLength == n
    ensures Feed(INIT, pieces) == Feed(c, next)
  {
    hide ProcessRead, PrintHead, Recognised, Enough, Passed, AnnouncesBody, HasFields, Feed;
    var k, rest := HeadArrives(l, at, headers, n, s, pieces);
    c := HeadIsDone(l, at, headers, n, s, k);
    next := [s[..k]] + rest;
    assert next[1..] == rest;
    FeedsOn(c, next);
  }

  // With a positive length, the parser ends up with the parts of the head that
  // was sent, whatever follows it and in whatever pieces.
  lemma FieldsOfRequest(l: Line, at: nat, headers: seq<seq<char>>, n: int, s: seq<char>, pieces: seq<seq<char>>)
    requires AnnouncesBody(l, at, headers, n) && n > 0 && Flatten(pieces) == PrintHead(l, headers) + s
    ensures HasFields(Feed(INIT, pieces).0, l, at, headers)
  {
    hide PrintHead, HasFields, HasRead, InBody, Feed, KeepsHead, MeaningOf;
    var c, next := FedFromHead(l, at, headers, n, s, pieces);
    assert Ok(c) by {
      BodyIsOk(c, |PrintHead(l, headers)|);
    }
    FeedKeepsHead(c, next, |PrintHead(l, headers)|);
    FieldsAreKept(c, Feed(c, next).0, l, at, headers);
  }

  lemma BodyIsOk(c: Conn, h: nat)
    requires InBody(c, h)
    ensures Ok(c)
  {
  }

  lemma FeedsOn(c: Conn, pieces: seq<seq<char>>)
    requires Ok(c) && pieces != []
    ensures Feed(c, pieces) == Continue(ProcessRead(Extend(c, pieces[0])), pieces[1..])
  {
  }

  lemma {:induction false} NoEndBefore(buf: seq<char>, p: nat)
    requires p <= |buf|
    ensures forall k :: p <= k < StrEnd(buf, p) ==> buf[k] != NUL
    decreases |buf| - p
  {
    if p < |buf| && buf[p] != NUL {
      NoEndBefore(buf, p + 1);
    }
  }

  // A string end at index i, and a string that stands at u.
  lemma CutOrNot(pre: seq<char>, u: nat, text: seq<char>, i: nat)
    requires u + |text| < |pre| && CStr(pre, u) == text && i < |pre|
    ensures CStr(pre[i := NUL], u) == if u <= i < u + |text| then text[..i - u] else text
  {
    hide StrEnd;
    var e := u + |text|;
    NoEndBefore(pre, u);
    if u <= i < e {
      StrEndFinds(pre[i := NUL], u, i);
      assert pre[i := NUL][u..i] == pre[u..e][..i - u];
    } else {
      StrEndFinds(pre[i := NUL], u, e);
      assert pre[i := NUL][u..e] == pre[u..e];
    }
  }

  // With a negative length the request is recognised as soon as its head is
  // complete, and the end mark falls n bytes before the end of the head.  If
  // that is within the url, the url is cut off there.
  lemma NegativeLength(l: Line, at: nat, headers: seq<seq<char>>, n: int, s: seq<char>, pieces: seq<seq<char>>)
    returns (c: Conn)
    requires AnnouncesBody(l, at, headers, n) && n < 0 && Flatten(pieces) == PrintHead(l, headers) + s
    ensures HasRead(c, l, at, headers)
    ensures var i := |PrintHead(l, headers)| + n; var buf := if i >= 0 then c.buf[i := NUL] else c.buf;
      Feed(INIT, pieces) == (c.(state := Content, buf := buf), GetRequest)
    ensures var h := |PrintHead(l, headers)|; var i, u, path := h + n, c.url.value, l.target[at..];
      i >= 0 ==> CStr(c.buf[i := NUL][..h], u) == if u <= i < u + |path| then path[..i - u] else path
  {
    hide ProcessLoop, MeaningOf, PrintHead, Int32, Feed, CStr;
    var h := |PrintHead(l, headers)|;
    var k, rest := HeadArrives(l, at, headers, n, s, pieces);
    c := HeadIsRead(l, at, headers, s[..k]);
    HeadAndBody(l, at, headers, n, s[..k]);
    Int32IsLess(n + h);
    AtHeadEnd(c.(state := Content), h);
    if h + n >= 0 {
      CutOrNot(c.buf[..h], c.url.value, l.target[at..], h + n);
      assert c.buf[h + n := NUL][..h] == c.buf[..h][h + n := NUL];
    }
  }

  lemma AtHeadEnd(c: Conn, h: nat)
    requires Ok(c) && c.state.Content? && c.start == c.checked == h && |c.buf| >= Int32(c.contentLength + h)
    requires c.contentLength < 0
    ensures var i := h + c.contentLength;
      ProcessLoop(c, true) == (if i >= 0 then c.(buf := c.buf[i := NUL]) else c, GetRequest)
  {
    hide ProcessLoop, Int32;
    LoopInBody(c);
    assert c.(start := c.checked) == c;
  }

  // ---------- lengths, and what they mean ----------

  // Where no sum overflows, the bytes are enough when there are n of them.
  lemma {:induction false} EnoughIsOnce(buf: seq<char>, i: nat, n: int)
    requires i <= |buf| && -INT_MAX - 1 <= n && |buf| + n <= INT_MAX
    ensures Enough(buf, i, n) <==> |buf| >= i + n
    decreases |buf| - i
  {
    hide Int32, Scan;
    var j := Scan(buf, i);
    assert Int32(n + i) == n + i;
    if j + 1 < |buf| && buf[j] == CR && buf[j + 1] == LF {
      EnoughIsOnce(buf, j + 2, n);
    }
  }

  // Where already the first sum overflows, the request is recognised as soon as
  // its head is complete.
  lemma HugeLength(l: Line, at: nat, headers: seq<seq<char>>, n: int, s: seq<char>, pieces: seq<seq<char>>)
    requires AnnouncesBody(l, at, headers, n) && Flatten(pieces) == PrintHead(l, headers) + s
    requires |PrintHead(l, headers)| <= INT_MAX < |PrintHead(l, headers)| + n
    ensures Feed(INIT, pieces).1 == GetRequest
  {
    hide ProcessRead, PrintHead, Recognised, Enough, Feed, Int32, AnnouncesBody;
    AnnouncedIsInt(l, at, headers, n);
    var head := PrintHead(l, headers);
    var k, _ := HeadArrives(l, at, headers, n, s, pieces);
    RequestAndMore(l, at, headers, n, s, pieces);
    SumOverflows(n + |head|);
    EnoughAtOnce((head + s)[..|head| + k], |head|, n);
  }

  lemma SumOverflows(x: int)
    requires INT_MAX < x <= 2 * INT_MAX
    ensures Int32(x) < 0
  {
  }

  lemma {:induction false} NeverComplete(w: seq<char>, h: nat, n: int, pos: nat, pieces: seq<seq<char>>)
    requires pos + |Flatten(pieces)| <= |w| < h + n && -INT_MAX - 1 <= n && |w| + n <= INT_MAX
    ensures !Recognised(w, h, n, pos, pieces)
    decreases |pieces|
  {
    hide Passed, Enough;
    if pieces != [] {
      var next := pos + |pieces[0]|;
      if next >= h {
        EnoughIsOnce(w[..next], Passed(w, h, pos), n);
      }
      NeverComplete(w, h, n, next, pieces[1..]);
    }
  }

  lemma InOnePiece(l: Line, at: nat, headers: seq<seq<char>>, n: int, s: seq<char>)
    requires AnnouncesBody(l, at, headers, n)
    ensures var head := PrintHead(l, headers);
      ProcessRead(Extend(INIT, head + s)).1 == if Enough(head + s, |head|, n) then GetRequest else NoRequest
  {
    hide ProcessRead, PrintHead, Enough, HasRead, AnnouncesBody;
    var head := PrintHead(l, headers);
    var h, w := |head|, head + s;
    var c := HeadIsDone(l, at, headers, n, s, |s|);
    assert s[..|s|] == s == w[h..|w|] && w[..|w|] == w;
    OnePiece(c, w, h, n, h, |w|);
  }

  // In pieces a request with a body has the result that it has in one piece if
  // and only if the two conditions agree.  That is, short of overflow: if and
  // only if the body is incomplete anyway, or recognised in these pieces.
  lemma BodyMaySplitIff(l: Line, at: nat, headers: seq<seq<char>>, n: int, s: seq<char>, pieces: seq<seq<char>>)
    requires AnnouncesBody(l, at, headers, n) && Flatten(pieces) == PrintHead(l, headers) + s
    ensures var head := PrintHead(l, headers); var h, w := |head|, head + s;
      var same := Feed(INIT, pieces).1 == ProcessRead(Extend(INIT, w)).1;
      && (same <==> (Enough(w, h, n) <==> Recognised(w, h, n, 0, pieces)))
      && (|w| + n <= INT_MAX ==> (same <==> |s| < n || Recognised(w, h, n, 0, pieces)))
  {
    hide ProcessRead, PrintHead, Recognised, Enough, Feed, AnnouncesBody;
    AnnouncedIsInt(l, at, headers, n);
    var head := PrintHead(l, headers);
    RequestAndMore(l, at, headers, n, s, pieces);
    InOnePiece(l, at, headers, n, s);
    if |head + s| + n <= INT_MAX {
      EnoughIsOnce(head + s, |head|, n);
      if |s| < n {
        NeverComplete(head + s, |head|, n, 0, pieces);
      }
    }
  }

  // ---------- a body with nothing behind it ----------

  // The scanner does not move over the first k bytes of b.
  predicate Stuck(b: seq<char>, k: nat)
    requires k <= |b|
  {
    k == 0 || b[0] == LF || (b[0] == CR && (k == 1 || b[1] != LF))
  }

  // Wherever a piece ends within the body b, the scanner is stuck.
  predicate StuckAtEnds(b: seq<char>, h: nat, pos: nat, pieces: seq<seq<char>>)
    decreases |pieces|
  {
    pieces == [] ||
    var next := pos + |pieces[0]|;
    (h <= next < h + |b| ==> Stuck(b, next - h)) && StuckAtEnds(b, h, next, pieces[1..])
  }

  lemma PassedIsStuck(w: seq<char>, h: nat, b: seq<char>, pos: nat)
    requires h <= pos <= |w| == h + |b| && w[h..] == b
    ensures Passed(w, h, pos) == h <==> Stuck(b, pos - h)
  {
    assert forall i :: 0 <= i < |b| ==> w[h + i] == b[i];
  }

  lemma {:induction false} NoEndsLeft(b: seq<char>, h: nat, pos: nat, pieces: seq<seq<char>>)
    requires pos >= h + |b|
    ensures StuckAtEnds(b, h, pos, pieces)
    decreases |pieces|
  {
    if pieces != [] {
      NoEndsLeft(b, h, pos + |pieces[0]|, pieces[1..]);
    }
  }

  // Once the scanner has passed bytes of the body, the rest never suffices.
  lemma {:induction false} NeverEnough(w: seq<char>, h: nat, n: nat, pos: nat, pieces: seq<seq<char>>)
    requires h <= pos && pos + |Flatten(pieces)| <= |w| == h + n && |w| + n <= INT_MAX && Passed(w, h, pos) > h
    ensures !Recognised(w, h, n, pos, pieces)
    decreases |pieces|
  {
    hide Passed, Enough;
    if pieces != [] {
      var next := pos + |pieces[0]|;
      PassedResumes(w, h, pos, next);
      EnoughIsOnce(w[..next], Passed(w, h, pos), n);
      NeverEnough(w, h, n, next, pieces[1..]);
    }
  }

  lemma {:induction false} RecognisedIffStuck(w: seq<char>, h: nat, b: seq<char>, pos: nat, pieces: seq<seq<char>>)
    requires pos + |Flatten(pieces)| == |w| == h + |b| && w[h..] == b && pos < |w| && Passed(w, h, pos) == h
    requires |w| + |b| <= INT_MAX
    ensures Recognised(w, h, |b|, pos, pieces) <==> StuckAtEnds(b, h, pos, pieces)
    decreases |pieces|
  {
    hide Stop, Stuck, Enough;
    var next := pos + |pieces[0]|;
    if next >= h {
      EnoughIsOnce(w[..next], h, |b|);
    }
    if next == |w| {
      NoEndsLeft(b, h, next, pieces[1..]);
    } else {
      if next >= h {
        PassedIsStuck(w, h, b, next);
      }
      if Passed(w, h, next) == h {
        RecognisedIffStuck(w, h, b, next, pieces[1..]);
      } else {
        NeverEnough(w, h, |b|, next, pieces[1..]);
      }
    }
  }

  // So a request with a body and nothing behind it is recognised if and only if
  // the scanner is stuck wherever a piece ends within the body.  Sent in one
  // piece it always is.  (The buffer of the source is far shorter than INT_MAX.)
  lemma RequestWithBody(l: Line, at: nat, headers: seq<seq<char>>, b: seq<char>, pieces: seq<seq<char>>)
    requires AnnouncesBody(l, at, headers, |b|) && Flatten(pieces) == PrintHead(l, headers) + b
    requires |PrintHead(l, headers)| + 2 * |b| <= INT_MAX
    ensures ProcessRead(Extend(INIT, PrintHead(l, headers) + b)).1 == GetRequest
    ensures Feed(INIT, pieces).1 == if StuckAtEnds(b, |PrintHead(l, headers)|, 0, pieces) then GetRequest else NoRequest
  {
    hide ProcessRead, MeaningOf, PrintHead, Recognised;
    HeadAndBody(l, at, headers, |b|, b);
    RequestAndMore(l, at, headers, |b|, b, pieces);
    var head := PrintHead(l, headers);
    assert (head + b)[|head|..] == b;
    RecognisedIffStuck(head + b, |head|, b, 0, pieces);
  }

  const EXAMPLE := Line("GET", " ", "/", " ", "HTTP/1.1")

  // An example: the body "ab" in two reads is never recognised.
  lemma SplitBodyIsMissed() returns (pieces: seq<seq<char>>)
    ensures ProcessRead(Extend(INIT, Flatten(pieces))).1 == GetRequest
    ensures Feed(INIT, pieces).1 == NoRequest
  {
    hide ProcessRead, Feed, Flatten, PrintHead, AnnouncesBody;
    ExampleAnnounces();
    var head := PrintHead(EXAMPLE, ["Content-Length: 2"]);
    pieces := [head + "a", "b"];
    FlattenTwo(head + "a", "b");
    assert head + "a" + "b" == head + "ab";
    ExampleIsShort();
    RequestWithBody(EXAMPLE, 0, ["Content-Length: 2"], "ab", pieces);
    assert !Stuck("ab", 1);
  }

  lemma ExampleIsShort()
    ensures |PrintHead(EXAMPLE, ["Content-Length: 2"])| == 37
  {
    assert ["Content-Length: 2"][1..] == [];
  }

  lemma ExampleAnnounces()
    ensures AnnouncesBody(EXAMPLE, 0, ["Content-Length: 2"], 2)
  {
    ExampleLength();
    hide MeaningOf;
    assert EXAMPLE.WellFormed() && HasPath(EXAMPLE.target, 0);
    assert PlainText("Content-Length: 2");
  }

  lemma FlattenTwo(a: seq<char>, b: seq<char>)
    ensures Flatten([a, b]) == a + b
  {
    assert [a, b][1..] == [b];
    assert [b][1..] == [] && Flatten([b]) == b + Flatten([]);
    assert b + Flatten([]) == b;
  }

  lemma ExampleLength()
    ensures MeaningOf(["Content-Length: 2"]).contentLength == 2
  {
    var h := "Content-Length: 2";
    SkipBlanksSkips(h, 15, 16);
    assert h[..15] == "Content-Length:" && h[16..] == "2";
    assert Lower(h[3]) != Lower("Connection:"[3]) && h[..11][3] == h[3];
    assert Atoi("2") == 2;
    assert ["Content-Length: 2"][1..] == [];
  }
}
