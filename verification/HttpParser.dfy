// C strings inside a buffer, and the library calls the parser makes on them.
module CStrings {
  import opened Options

  const NUL := '\0'
  const CR := '\r'
  const LF := '\n'

  predicate IsBlank(ch: char) {
    ch == ' ' || ch == '\t'
  }

  // The first index from i on at which s ends or holds a NUL.
  function StrEnd(s: seq<char>, i: nat): (e: nat)
    requires i <= |s|
    ensures i <= e <= |s| && (e < |s| ==> s[e] == NUL)
    decreases |s| - i
  {
    if i == |s| || s[i] == NUL then i else StrEnd(s, i + 1)
  }

  // The string that starts at index p of a buffer.
  function CStr(buf: seq<char>, p: nat): (text: seq<char>)
    requires p <= |buf|
    ensures p + |text| <= |buf|
  {
    buf[p..StrEnd(buf, p)]
  }

  // strpbrk(text + i, " \t")
  function FindBlank(text: seq<char>, i: nat): (r: Option<nat>)
    requires i <= |text|
    ensures r.Some? ==> i <= r.value < |text| && IsBlank(text[r.value])
    decreases |text| - i
  {
    if i == |text| then None else if IsBlank(text[i]) then Some(i) else FindBlank(text, i + 1)
  }

  // i + strspn(text + i, " \t")
  function SkipBlanks(text: seq<char>, i: nat): (j: nat)
    requires i <= |text|
    ensures i <= j <= |text| && (j < |text| ==> !IsBlank(text[j]))
    decreases |text| - i
  {
    if i < |text| && IsBlank(text[i]) then SkipBlanks(text, i + 1) else i
  }

  // strchr(text + i, ch)
  function FindChar(text: seq<char>, i: nat, ch: char): (r: Option<nat>)
    requires i <= |text|
    ensures r.Some? ==> i <= r.value < |text| && text[r.value] == ch
    decreases |text| - i
  {
    if i == |text| then None else if text[i] == ch then Some(i) else FindChar(text, i + 1, ch)
  }

  function Lower(ch: char): char {
    if 'A' <= ch <= 'Z' then ((ch as int) - ('A' as int) + ('a' as int)) as char else ch
  }

  // strcasecmp(s, t) == 0
  predicate EqNoCase(s: seq<char>, t: seq<char>) {
    |s| == |t| && forall i :: 0 <= i < |s| ==> Lower(s[i]) == Lower(t[i])
  }

  // strncasecmp(s, t, strlen(t)) == 0
  predicate PrefixNoCase(s: seq<char>, t: seq<char>) {
    |s| >= |t| && EqNoCase(s[..|t|], t)
  }

  const INT_MAX := 0x7fff_ffff

  // What is left of x in a 32-bit int, in two's complement.
  function Int32(x: int): (r: int)
    ensures -INT_MAX - 1 <= r <= INT_MAX
    ensures -INT_MAX - 1 <= x <= INT_MAX ==> r == x
    ensures (x - r) % 0x1_0000_0000 == 0
  {
    (x + INT_MAX + 1) % (2 * INT_MAX + 2) - INT_MAX - 1
  }

  // atol followed by the conversion of a 64-bit long to a 32-bit int.
  function Atoi(s: seq<char>): (r: int)
    ensures -INT_MAX - 1 <= r <= INT_MAX
  {
    var i := SkipSpace(s, 0);
    var negative := i < |s| && s[i] == '-';
    var j := if i < |s| && (s[i] == '-' || s[i] == '+') then i + 1 else i;
    var v: int := Digits(s, j, 0);
    var long := if negative then (if v > 0x8000_0000_0000_0000 then -0x8000_0000_0000_0000 else -v)
                else if v > 0x7fff_ffff_ffff_ffff then 0x7fff_ffff_ffff_ffff else v;
    Int32(long)
  }

  function SkipSpace(s: seq<char>, i: nat): (j: nat)
    requires i <= |s|
    ensures i <= j <= |s|
    decreases |s| - i
  {
    if i < |s| && (s[i] == ' ' || '\t' <= s[i] <= '\r') then SkipSpace(s, i + 1) else i
  }

  function Digits(s: seq<char>, i: nat, acc: nat): nat
    requires i <= |s|
    decreases |s| - i
  {
    if i < |s| && '0' <= s[i] <= '9' then Digits(s, i + 1, 10 * acc + (s[i] as int - '0' as int)) else acc
  }

  // Appending to a buffer does not change a string that ends before its end.
  lemma {:induction false} CStrExtends(buf: seq<char>, more: seq<char>, p: nat)
    requires p <= |buf| && p + |CStr(buf, p)| < |buf|
    ensures CStr(buf + more, p) == CStr(buf, p)
  {
    StrEndExtends(buf, more, p);
  }

  lemma {:induction false} StrEndExtends(buf: seq<char>, more: seq<char>, p: nat)
    requires p <= |buf| && StrEnd(buf, p) < |buf|
    ensures StrEnd(buf + more, p) == StrEnd(buf, p)
    decreases |buf| - p
  {
    if buf[p] != NUL {
      StrEndExtends(buf, more, p + 1);
    }
  }
}

// The request parser of epoll/http_conn.cpp as functions of its state.
module HttpSpec {
  import opened CStrings
  import opened Options

  datatype CheckState = RequestLine | Header | Content
  datatype LineStatus = LineOk | LineBad | LineOpen
  datatype Method = Get | Head

  // The results of the parser.  FoundRequest stands for the call of
  // do_request, whose answer depends on the file system only.
  datatype HttpCode = NoRequest | BadRequest | GetRequest

  // buf holds the bytes read so far.
  datatype Conn = Conn(
    buf: seq<char>, start: nat, checked: nat, state: CheckState, verb: Method,
    url: Option<nat>, version: Option<nat>, host: Option<nat>, contentLength: int, linger: bool)

  const INIT := Conn([], 0, 0, RequestLine, Get, None, None, None, 0, false)

  predicate Ok(c: Conn) {
    c.start <= c.checked <= |c.buf|
  }

  // ---------- the line scanner ----------

  function Scan(buf: seq<char>, i: nat): (j: nat)
    requires i <= |buf|
    ensures i <= j <= |buf| && (j < |buf| ==> buf[j] == CR || buf[j] == LF)
    decreases |buf| - i
  {
    if i == |buf| || buf[i] == CR || buf[i] == LF then i else Scan(buf, i + 1)
  }

  // What the scanner finds from index i on, and where it then stands.
  function LineStop(buf: seq<char>, i: nat): (r: (LineStatus, nat))
    requires i <= |buf|
    ensures i <= r.1 <= |buf| && (r.0.LineOk? ==> i < r.1 && r.1 >= 2)
  {
    var j := Scan(buf, i);
    if j == |buf| then (LineOpen, j)
    else if buf[j] == CR then
      if j + 1 == |buf| then (LineOpen, j) else if buf[j + 1] == LF then (LineOk, j + 2) else (LineBad, j)
    else if j > 1 && buf[j - 1] == CR then (LineOk, j + 1)
    else (LineBad, j)
  }

  // Overwrites index p + o with the end-of-string mark.
  function Erase(buf: seq<char>, p: nat, o: Option<nat>): (r: seq<char>)
    ensures |r| == |buf|
  {
    if o.Some? && p + o.value < |buf| then buf[p + o.value := NUL] else buf
  }

  // epoll/http_conn.cpp:95; the two line-end bytes of a finished line are erased
  function ParseLine(c: Conn): (r: (Conn, LineStatus))
    requires Ok(c)
    ensures Ok(r.0) && |r.0.buf| == |c.buf| && c.checked <= r.0.checked && r.0.state == c.state && r.0.start == c.start
    ensures r.1.LineOk? ==> c.checked < r.0.checked && r.0.buf[r.0.checked - 1] == NUL
    ensures r.0.contentLength == c.contentLength
  {
    var (status, e) := LineStop(c.buf, c.checked);
    var buf := if status.LineOk? then Erase(Erase(c.buf, e - 2, Some(0)), e - 1, Some(0)) else c.buf;
    (c.(checked := e, buf := buf), status)
  }

  // ---------- the lines of a request ----------

  function FirstBlank(text: seq<char>): (r: Option<nat>)
    ensures r.Some? ==> r.value < |text|
  {
    FindBlank(text, 0)
  }

  predicate SaysGet(text: seq<char>) {
    FirstBlank(text).Some? && EqNoCase(text[..FirstBlank(text).value], "GET")
  }

  // where the target begins, in a line that says GET
  function TargetAt(text: seq<char>): (u: nat)
    requires SaysGet(text)
    ensures u <= |text|
  {
    SkipBlanks(text, FirstBlank(text).value + 1)
  }

  function SecondBlank(text: seq<char>): (r: Option<nat>)
    ensures r.Some? ==> SaysGet(text) && TargetAt(text) < r.value < |text|
  {
    if SaysGet(text) then FindBlank(text, TargetAt(text)) else None
  }

  datatype RequestParts = RequestParts(code: HttpCode, url: Option<nat>, version: Option<nat>)

  // The verdict on a request line, with the places of url and version in it.
  function PartsOf(text: seq<char>): RequestParts {
    if FirstBlank(text).None? then RequestParts(BadRequest, None, None)
    else if !SaysGet(text) then RequestParts(BadRequest, Some(FirstBlank(text).value + 1), None)
    else
      var u := TargetAt(text);
      if SecondBlank(text).None? then RequestParts(BadRequest, Some(u), None)
      else
        var v := SecondBlank(text).value;
        var w := SkipBlanks(text, v + 1);
        if !EqNoCase(text[w..], "HTTP/1.1") then RequestParts(BadRequest, Some(u), Some(w))
        else
          var target := text[u..v];
          var slash := if PrefixNoCase(target, "http://") then FindChar(target, 7, '/') else Some(0);
          if slash.None? then RequestParts(BadRequest, None, Some(w))
          else
            var code := if target[slash.value] == '/' then NoRequest else BadRequest;
            RequestParts(code, Some(u + slash.value), Some(w))
  }

  function Shift(o: Option<nat>, p: nat): Option<nat> {
    if o.Some? then Some(o.value + p) else None
  }

  // epoll/http_conn.cpp:160; the line starts at p
  function ParseRequestLine(c: Conn, p: nat): (r: (Conn, HttpCode))
    requires Ok(c) && p <= |c.buf|
    ensures |r.0.buf| == |c.buf| && r.0.start == c.start && r.0.checked == c.checked
    ensures r.0.state == (if r.1.NoRequest? then Header else c.state)
  {
    var text := CStr(c.buf, p);
    var parts := PartsOf(text);
    (c.(buf := Erase(Erase(c.buf, p, FirstBlank(text)), p, SecondBlank(text)),
        url := Shift(parts.url, p), version := if SaysGet(text) then Shift(parts.version, p) else c.version,
        verb := if SaysGet(text) then Get else c.verb,
        state := if parts.code.NoRequest? then Header else c.state), parts.code)
  }

  // epoll/http_conn.cpp:207
  function ParseHeaders(c: Conn, p: nat): (r: (Conn, HttpCode))
    requires Ok(c) && p <= |c.buf|
    ensures r.0.buf == c.buf && r.0.start == c.start && r.0.checked == c.checked
    ensures !r.1.BadRequest? && (r.0.state == c.state || (r.0.state.Content? && r.1.NoRequest?))
  {
    var text := CStr(c.buf, p);
    if text == [] then
      if c.verb.Head? then (c, GetRequest)
      else if c.contentLength != 0 then (c.(state := Content), NoRequest)
      else (c, GetRequest)
    else if PrefixNoCase(text, "Connection:") then
      (if EqNoCase(text[SkipBlanks(text, 11)..], "keep-alive") then c.(linger := true) else c, NoRequest)
    else if PrefixNoCase(text, "Content-Length:") then
      (c.(contentLength := Atoi(text[SkipBlanks(text, 15)..])), NoRequest)
    else if PrefixNoCase(text, "Host:") then
      (c.(host := Some(p + SkipBlanks(text, 5))), NoRequest)
    else (c, NoRequest)
  }

  // epoll/http_conn.cpp:254; the sum is one of ints, and a terminator that falls
  // outside the bytes read is not recorded
  function ParseContent(c: Conn, p: nat): (r: (Conn, HttpCode))
    requires Ok(c)
    ensures |r.0.buf| == |c.buf| && r.0.start == c.start && r.0.checked == c.checked && r.0.state == c.state
    ensures !r.1.BadRequest?
  {
    if |c.buf| >= Int32(c.contentLength + c.checked) then
      var at := p + c.contentLength;
      (if 0 <= at < |c.buf| then c.(buf := c.buf[at := NUL]) else c, GetRequest)
    else (c, NoRequest)
  }

  // epoll/http_conn.cpp:265 from the loop test on; ok says that line_status is
  // LINE_OK
  function ProcessLoop(c: Conn, ok: bool): (r: (Conn, HttpCode))
    requires Ok(c)
    ensures Ok(r.0) && |r.0.buf| == |c.buf|
    ensures c.state.Content? ==> r.0.state.Content?
    decreases |c.buf| - c.checked, if ok then 1 else 0
  {
    if c.state.Content? && ok then
      var (c1, code) := ParseContent(c.(start := c.checked), c.start);
      if code.GetRequest? then (c1, GetRequest) else ProcessLoop(c1, false)
    else
      var (c1, status) := ParseLine(c);
      if !status.LineOk? then (c1, NoRequest)
      else
        var p := c1.start;
        var c2 := c1.(start := c1.checked);
        match c2.state
        case RequestLine =>
          var (c3, code) := ParseRequestLine(c2, p);
          if code.BadRequest? then (c3, BadRequest) else ProcessLoop(c3, true)
        case Header =>
          var (c3, code) := ParseHeaders(c2, p);
          if code.GetRequest? then (c3, GetRequest) else ProcessLoop(c3, true)
        case Content =>
          var (c3, code) := ParseContent(c2, p);
          if code.GetRequest? then (c3, GetRequest) else ProcessLoop(c3, false)
  }

  function ProcessRead(c: Conn): (r: (Conn, HttpCode))
    requires Ok(c)
    ensures Ok(r.0) && |r.0.buf| == |c.buf|
  {
    ProcessLoop(c, true)
  }

  // read() has appended more bytes
  function Extend(c: Conn, more: seq<char>): Conn {
    c.(buf := c.buf + more)
  }
}

// How the parser behaves when the bytes of a request arrive in pieces.
module HttpSplitting {
  import opened CStrings
  import opened HttpSpec
  import opened Options

  lemma {:induction false} ScanResumes(buf: seq<char>, more: seq<char>, i: nat)
    requires i <= |buf|
    ensures Scan(buf + more, i) == Scan(buf + more, Scan(buf, i))
    ensures Scan(buf, i) < |buf| ==> Scan(buf + more, i) == Scan(buf, i)
    decreases |buf| - i
  {
    if i < |buf| && buf[i] != CR && buf[i] != LF {
      ScanResumes(buf, more, i + 1);
    }
  }

  lemma LineStopResumes(buf: seq<char>, more: seq<char>, i: nat)
    requires i <= |buf|
    ensures var (status, e) := LineStop(buf, i);
      LineStop(buf + more, i) == if status.LineOk? then (status, e) else LineStop(buf + more, e)
  {
    ScanResumes(buf, more, i);
  }

  // A finished line is not affected by later bytes; an unfinished or bad one is
  // taken up again where the scanner stopped.
  lemma ParseLineResumes(c: Conn, more: seq<char>)
    requires Ok(c)
    ensures var (c1, status) := ParseLine(c);
      if status.LineOk? then ParseLine(Extend(c, more)) == (Extend(c1, more), LineOk)
      else ParseLine(Extend(c, more)) == ParseLine(Extend(c1, more))
  {
    hide LineStop, Erase;
    LineStopResumes(c.buf, more, c.checked);
    var (status, e) := LineStop(c.buf, c.checked);
    if status.LineOk? {
      EraseExtends(c.buf, more, e - 2, Some(0));
      EraseExtends(Erase(c.buf, e - 2, Some(0)), more, e - 1, Some(0));
    }
  }

  lemma EraseExtends(buf: seq<char>, more: seq<char>, p: nat, o: Option<nat>)
    requires o.Some? ==> p + o.value < |buf|
    ensures Erase(buf + more, p, o) == Erase(buf, p, o) + more
  {
  }

  lemma RequestLineExtends(c: Conn, more: seq<char>, p: nat)
    requires Ok(c) && p < |c.buf| && p + |CStr(c.buf, p)| < |c.buf|
    ensures var (c1, code) := ParseRequestLine(c, p);
      ParseRequestLine(Extend(c, more), p) == (Extend(c1, more), code)
  {
    CStrExtends(c.buf, more, p);
    var text := CStr(c.buf, p);
    EraseExtends(c.buf, more, p, FirstBlank(text));
    EraseExtends(Erase(c.buf, p, FirstBlank(text)), more, p, SecondBlank(text));
  }

  lemma HeadersExtend(c: Conn, more: seq<char>, p: nat)
    requires Ok(c) && p < |c.buf| && p + |CStr(c.buf, p)| < |c.buf|
    ensures var (c1, code) := ParseHeaders(c, p);
      ParseHeaders(Extend(c, more), p) == (Extend(c1, more), code)
  {
    CStrExtends(c.buf, more, p);
  }

  lemma {:induction false} LineIsTerminated(buf: seq<char>, p: nat, e: nat)
    requires p < e <= |buf| && buf[e - 1] == NUL
    ensures p + |CStr(buf, p)| < e
    decreases e - p
  {
    if buf[p] != NUL {
      LineIsTerminated(buf, p + 1, e);
    }
  }

  // Parsing, and then parsing again with more bytes, is parsing with more bytes
  // at once, as long as no body is involved.
  lemma {:induction false} LoopResumes(c: Conn, more: seq<char>)
    requires Ok(c) && !c.state.Content?
    ensures var (c1, code) := ProcessLoop(c, true);
      if c1.state.Content? then ProcessLoop(Extend(c, more), true).0.state.Content?
      else if code.NoRequest? then ProcessLoop(Extend(c, more), true) == ProcessLoop(Extend(c1, more), true)
      else ProcessLoop(Extend(c, more), true) == (Extend(c1, more), code)
    decreases |c.buf| - c.checked
  {
    hide ParseLine, ParseRequestLine, ParseHeaders, ParseContent, CStr;
    ParseLineResumes(c, more);
    var (c1, status) := ParseLine(c);
    if status.LineOk? {
      var p := c1.start;
      var c2 := c1.(start := c1.checked);
      assert Extend(c1, more).(start := c1.checked) == Extend(c2, more);
      LineIsTerminated(c2.buf, p, c2.checked);
      if c2.state.RequestLine? {
        RequestLineExtends(c2, more, p);
        var (c3, code) := ParseRequestLine(c2, p);
        if !code.BadRequest? {
          LoopResumes(c3, more);
        }
      } else {
        HeadersExtend(c2, more, p);
        var (c3, code) := ParseHeaders(c2, p);
        if !code.GetRequest? && !c3.state.Content? {
          LoopResumes(c3, more);
        }
      }
    }
  }

  // Nothing before the scanner's position is a CR or LF any more.
  predicate Clean(c: Conn) {
    c.checked <= |c.buf| && forall k :: 0 <= k < c.checked ==> c.buf[k] != CR && c.buf[k] != LF
  }

  lemma {:induction false} ScanSkipsPlain(buf: seq<char>, i: nat)
    requires i <= |buf|
    ensures forall k :: i <= k < Scan(buf, i) ==> buf[k] != CR && buf[k] != LF
    decreases |buf| - i
  {
    if i < |buf| && buf[i] != CR && buf[i] != LF {
      ScanSkipsPlain(buf, i + 1);
    }
  }

  // What the scanner passes over from index i on: plain characters and at most
  // one CRLF at the end.  An LF that it meets is always bad.
  lemma LineStopCuts(buf: seq<char>, i: nat)
    requires i <= |buf| && (i > 0 ==> buf[i - 1] != CR)
    ensures var (status, e) := LineStop(buf, i); var plain := if status.LineOk? then e - 2 else e;
      && i <= plain && (forall k :: i <= k < plain ==> buf[k] != CR && buf[k] != LF)
      && (status.LineOk? ==> buf[e - 2] == CR && buf[e - 1] == LF)
      && (status.LineBad? ==> e < |buf| && (buf[e] == CR || buf[e] == LF))
      && (Scan(buf, i) < |buf| && buf[Scan(buf, i)] == LF ==> status.LineBad?)
  {
    hide Scan;
    ScanSkipsPlain(buf, i);
  }

  // A finished line is what stands between two line ends and does not contain
  // one; a line end that consists of an LF alone is always bad.
  lemma ScannerCutsLines(c: Conn)
    requires Ok(c) && Clean(c)
    ensures var (c1, status) := ParseLine(c); var line := c.buf[c.checked..c1.checked];
      && Clean(c1)
      && (status.LineOk? ==> |line| >= 2 && line[|line| - 2..] == [CR, LF])
      && (status.LineOk? ==> forall k :: 0 <= k < |line| - 2 ==> line[k] != CR && line[k] != LF)
      && (status.LineBad? ==> c1.checked < |c.buf| && (c.buf[c1.checked] == CR || c.buf[c1.checked] == LF))
      && (var j := Scan(c.buf, c.checked); j < |c.buf| && c.buf[j] == LF ==> status.LineBad?)
  {
    hide Scan, LineStop;
    LineStopCuts(c.buf, c.checked);
  }

  // The answer of the scanner, by the first line end behind its position.
  lemma ScannerAnswers(c: Conn, j: nat)
    requires Ok(c) && Clean(c) && c.checked <= j <= |c.buf|
    requires forall k :: c.checked <= k < j ==> c.buf[k] != '\r' && c.buf[k] != '\n'
    requires j < |c.buf| ==> c.buf[j] == '\r' || c.buf[j] == '\n'
    ensures var (c1, status) := ParseLine(c);
      && (j == |c.buf| || (c.buf[j] == '\r' && j + 1 == |c.buf|) ==> (c1, status) == (c.(checked := j), LineOpen))
      && (j < |c.buf| && (c.buf[j] == '\n' || (j + 1 < |c.buf| && c.buf[j + 1] != '\n')) ==>
          (c1, status) == (c.(checked := j), LineBad))
      && (j + 1 < |c.buf| && c.buf[j] == '\r' && c.buf[j + 1] == '\n' ==>
          (c1, status) == (c.(checked := j + 2, buf := c.buf[j := '\0'][j + 1 := '\0']), LineOk))
  {
    ScanStopsAt(c.buf, c.checked, j);
  }

  lemma {:induction false} ScanStopsAt(buf: seq<char>, i: nat, j: nat)
    requires i <= j <= |buf| && (j < |buf| ==> buf[j] == CR || buf[j] == LF)
    requires forall k :: i <= k < j ==> buf[k] != CR && buf[k] != LF
    ensures Scan(buf, i) == j
    decreases j - i
  {
    if i < j {
      ScanStopsAt(buf, i + 1, j);
    }
  }

  // A bad line stays bad: no later byte gets the scanner past it.
  lemma BadLineStays(c: Conn, more: seq<char>)
    requires Ok(c) && ParseLine(c).1.LineBad?
    ensures var c1 := ParseLine(c).0; ParseLine(Extend(c1, more)) == (Extend(c1, more), LineBad)
  {
    ScanResumes(c.buf, more, c.checked);
  }

  lemma ErasingStaysClean(c: Conn, p: nat)
    requires Ok(c) && Clean(c) && p <= |c.buf|
    ensures Clean(ParseRequestLine(c, p).0) && Clean(ParseContent(c, p).0)
  {
    hide CStr, PartsOf;
  }

  lemma {:induction false} RunStaysClean(c: Conn, ok: bool)
    requires Ok(c) && Clean(c)
    ensures Clean(ProcessLoop(c, ok).0)
    decreases |c.buf| - c.checked, if ok then 1 else 0
  {
    hide ParseLine, ParseRequestLine, ParseHeaders, ParseContent;
    if c.state.Content? && ok {
      ErasingStaysClean(c.(start := c.checked), c.start);
      var (c1, code) := ParseContent(c.(start := c.checked), c.start);
      if !code.GetRequest? {
        RunStaysClean(c1, false);
      }
    } else {
      ScannerCutsLines(c);
      var (c1, status) := ParseLine(c);
      var c2 := c1.(start := c1.checked);
      ErasingStaysClean(c2, c1.start);
      if status.LineOk? {
        match c2.state
        case RequestLine =>
          var (c3, code) := ParseRequestLine(c2, c1.start);
          if !code.BadRequest? {
            RunStaysClean(c3, true);
          }
        case Header =>
          var (c3, code) := ParseHeaders(c2, c1.start);
          if !code.GetRequest? {
            RunStaysClean(c3, true);
          }
        case Content =>
          var (c3, code) := ParseContent(c2, c1.start);
          if !code.GetRequest? {
            RunStaysClean(c3, false);
          }
      }
    }
  }

  // process_read after each read, until there is a result
  function Feed(c: Conn, chunks: seq<seq<char>>): (r: (Conn, HttpCode))
    requires Ok(c)
    ensures Ok(r.0)
    decreases |chunks|
  {
    if chunks == [] then (c, NoRequest)
    else
      var (c1, code) := ProcessRead(Extend(c, chunks[0]));
      if code.NoRequest? then Feed(c1, chunks[1..]) else (c1, code)
  }

  function Flatten(chunks: seq<seq<char>>): seq<char> {
    if chunks == [] then [] else chunks[0] + Flatten(chunks[1..])
  }

  // Parsing again without new bytes changes nothing.
  predicate Settled(c: Conn) {
    Ok(c) && !c.state.Content? && ProcessRead(c) == (c, NoRequest)
  }

  lemma ReadSettles(c: Conn)
    requires Ok(c) && !c.state.Content?
    ensures var (c1, code) := ProcessRead(c); code.NoRequest? && !c1.state.Content? ==> Settled(c1)
  {
    LoopResumes(c, []);
    assert c.buf + [] == c.buf;
    var (c1, code) := ProcessRead(c);
    assert c1.buf + [] == c1.buf;
  }

  // What two runs over the same bytes agree on when one of them may not have
  // received all of the bytes yet: everything, up to those bytes.
  ghost predicate Agree(piecewise: (Conn, HttpCode), once: (Conn, HttpCode)) {
    && piecewise.1 == once.1
    && (if once.1.NoRequest? then piecewise.0 == once.0 else exists rest :: Extend(piecewise.0, rest) == once.0)
  }

  // However the bytes of a request without a body are split into reads, the
  // result is the one that a single read of all of them gives, and so is the
  // whole state of the parser, apart from the bytes that had not arrived yet.
  lemma {:induction false} SplittingIsIrrelevant(c: Conn, chunks: seq<seq<char>>)
    requires Settled(c)
    requires !ProcessRead(Extend(c, Flatten(chunks))).0.state.Content?
    ensures Agree(Feed(c, chunks), ProcessRead(Extend(c, Flatten(chunks))))
    decreases |chunks|
  {
    hide ProcessLoop;
    if chunks == [] {
      assert c.buf + [] == c.buf;
    } else {
      var rest := Flatten(chunks[1..]);
      var d := Extend(c, chunks[0]);
      assert d.buf + rest == c.buf + Flatten(chunks);
      LoopResumes(d, rest);
      ReadSettles(d);
      var (c1, code) := ProcessRead(d);
      if code.NoRequest? {
        SplittingIsIrrelevant(c1, chunks[1..]);
      }
    }
  }
}
