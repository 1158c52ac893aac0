// The connection object of epoll/http_conn.h: the parser as it works in place
// on its buffer.  Pointers into the buffer are indices, and NULL is None.
module HttpConnection {
  import opened CStrings
  import opened HttpSpec
  import opened HttpSplitting
  import opened Options

  const READ_BUFFER_SIZE := 2048

  // ---------- what one '\0' in the middle does to a string ----------

  lemma {:induction false} StrEndOnPlain(buf: seq<char>, p: nat, q: nat)
    requires p <= |buf| && p <= q <= StrEnd(buf, p)
    ensures StrEnd(buf, q) == StrEnd(buf, p)
    decreases q - p
  {
    if p < q {
      StrEndOnPlain(buf, p + 1, q);
    }
  }

  // text + k as a string
  lemma Suffix(buf: seq<char>, p: nat, k: nat)
    requires p <= |buf| && k <= |CStr(buf, p)|
    ensures CStr(buf, p + k) == CStr(buf, p)[k..]
  {
    StrEndOnPlain(buf, p, p + k);
  }

  lemma {:induction false} StrEndCut(buf: seq<char>, p: nat, i: nat)
    requires p <= |buf| && p <= i < StrEnd(buf, p)
    ensures StrEnd(buf[i := NUL], p) == i
    decreases i - p
  {
    if p < i {
      StrEndCut(buf, p + 1, i);
    }
  }

  lemma {:induction false} StrEndBehind(buf: seq<char>, p: nat, i: nat)
    requires i < p <= |buf|
    ensures StrEnd(buf[i := NUL], p) == StrEnd(buf, p)
    decreases |buf| - p
  {
    if p < |buf| && buf[p] != NUL {
      StrEndBehind(buf, p + 1, i);
    }
  }

  lemma SlicesBesides(buf: seq<char>, p: nat, i: nat, end: nat)
    requires p <= i < end <= |buf|
    ensures buf[i := NUL][p..i] == buf[p..end][..i - p]
    ensures buf[i := NUL][i + 1..end] == buf[p..end][i - p + 1..]
  {
    var text, behind := buf[p..end], buf[i := NUL][i + 1..end];
    var tail := text[i - p + 1..];
    forall j | 0 <= j < |behind| ensures behind[j] == tail[j] {
    }
  }

  // Writing '\0' over text[k] leaves text[..k] in front and text[k + 1..] behind.
  lemma CutString(buf: seq<char>, p: nat, k: nat)
    requires p <= |buf| && k < |CStr(buf, p)|
    ensures CStr(buf[p + k := NUL], p) == CStr(buf, p)[..k]
    ensures CStr(buf[p + k := NUL], p + k + 1) == CStr(buf, p)[k + 1..]
  {
    StrEndCut(buf, p, p + k);
    StrEndBehind(buf, p + k + 1, p + k);
    StrEndOnPlain(buf, p, p + k + 1);
    hide StrEnd;
    SlicesBesides(buf, p, p + k, StrEnd(buf, p));
  }

  lemma {:induction false} FindBlankFrom(text: seq<char>, k: nat, i: nat)
    requires k <= i <= |text|
    ensures FindBlank(text, i) == Shift(FindBlank(text[k..], i - k), k)
    decreases |text| - i
  {
    if i < |text| && !IsBlank(text[i]) {
      FindBlankFrom(text, k, i + 1);
    }
  }

  lemma {:induction false} SkipBlanksFrom(text: seq<char>, k: nat, i: nat)
    requires k <= i <= |text|
    ensures SkipBlanks(text, i) == SkipBlanks(text[k..], i - k) + k
    decreases |text| - i
  {
    if i < |text| && IsBlank(text[i]) {
      SkipBlanksFrom(text, k, i + 1);
    }
  }

  lemma {:induction false} FindCharFrom(text: seq<char>, k: nat, i: nat, ch: char)
    requires k <= i <= |text|
    ensures FindChar(text, i, ch) == Shift(FindChar(text[k..], i - k, ch), k)
    decreases |text| - i
  {
    if i < |text| && text[i] != ch {
      FindCharFrom(text, k, i + 1, ch);
    }
  }

  lemma CStrIsThere(buf: seq<char>, p: nat)
    requires p <= |buf|
    ensures p + |CStr(buf, p)| <= |buf| && forall k :: 0 <= k < |CStr(buf, p)| ==> buf[p + k] == CStr(buf, p)[k]
  {
  }

  // ---------- the library calls, on places in a buffer ----------

  function Strpbrk(buf: seq<char>, p: nat): (r: Option<nat>)
    requires p <= |buf|
    ensures r.Some? ==> p <= r.value < |buf|
  {
    Shift(FindBlank(CStr(buf, p), 0), p)
  }

  function Strspn(buf: seq<char>, p: nat): (n: nat)
    requires p <= |buf|
    ensures p + n <= |buf|
  {
    SkipBlanks(CStr(buf, p), 0)
  }

  function Strchr(buf: seq<char>, p: nat, ch: char): (r: Option<nat>)
    requires p <= |buf|
    ensures r.Some? ==> p <= r.value < |buf|
  {
    Shift(FindChar(CStr(buf, p), 0, ch), p)
  }

  // ---------- the steps of parse_request_line ----------

  // The line text at p, once the blank behind its first word is erased.
  lemma VerbIsCut(b0: seq<char>, p: nat, line: seq<char>)
    requires p <= |b0| && line == CStr(b0, p) && FirstBlank(line).Some?
    ensures var i := FirstBlank(line).value; var b1 := b0[p + i := NUL];
      && Strpbrk(b0, p) == Some(p + i)
      && EqNoCase(CStr(b1, p), "GET") == SaysGet(line)
      && CStr(b1, p + i + 1) == line[i + 1..]
  {
    CutString(b0, p, FirstBlank(line).value);
  }

  // m_url skips the blanks in front of the target and finds the blank behind.
  lemma TargetIsFound(b1: seq<char>, p: nat, line: seq<char>)
    requires SaysGet(line) && p + |line| <= |b1|
    requires CStr(b1, p + FirstBlank(line).value + 1) == line[FirstBlank(line).value + 1..]
    ensures var i, u := FirstBlank(line).value, TargetAt(line);
      && p + i + 1 + Strspn(b1, p + i + 1) == p + u
      && CStr(b1, p + u) == line[u..]
      && Strpbrk(b1, p + u) == Shift(SecondBlank(line), p)
  {
    hide CStr, SkipBlanks, FindBlank, EqNoCase;
    var i, u := FirstBlank(line).value, TargetAt(line);
    SkipBlanksFrom(line, i + 1, i + 1);
    Suffix(b1, p + i + 1, u - (i + 1));
    SliceTwice(line, i + 1, u - (i + 1));
    FindBlankFrom(line, u, u);
  }

  // Erasing text[k] of the string at p, and skipping the blanks behind.
  lemma NextWord(b: seq<char>, p: nat, text: seq<char>, k: nat)
    requires p <= |b| && CStr(b, p) == text && k < |text|
    ensures var b1 := b[p + k := NUL]; var w := SkipBlanks(text, k + 1);
      && CStr(b1, p) == text[..k]
      && p + k + 1 + Strspn(b1, p + k + 1) == p + w
      && CStr(b1, p + w) == text[w..]
  {
    hide CStr, SkipBlanks;
    CutString(b, p, k);
    SkipBlanksFrom(text, k + 1, k + 1);
    Suffix(b[p + k := NUL], p + k + 1, SkipBlanks(text, k + 1) - (k + 1));
  }

  // The blank behind the target is erased, and m_version skips further ones.
  lemma VersionIsFound(b1: seq<char>, p: nat, line: seq<char>, u: nat, v: nat)
    requires u < v < |line| && p + |line| <= |b1| && CStr(b1, p + u) == line[u..]
    ensures var b2 := b1[p + v := NUL]; var w := SkipBlanks(line, v + 1);
      && CStr(b2, p + u) == line[u..v]
      && p + v + 1 + Strspn(b2, p + v + 1) == p + w
      && CStr(b2, p + w) == line[w..]
  {
    hide SkipBlanks, CStr, Strspn;
    var tail := line[u..];
    var w := SkipBlanks(tail, v - u + 1);
    NextWord(b1, p + u, tail, v - u);
    SkipBlanksFrom(line, u, v + 1);
    SliceTwice(line, u, v - u);
    SliceTwice(line, u, w);
  }

  lemma SliceTwice(s: seq<char>, i: nat, k: nat)
    requires i + k <= |s|
    ensures s[i..][k..] == s[i + k..] && s[i..][..k] == s[i..i + k]
  {
  }

  // The value of a header: behind its first k characters and further blanks.
  lemma ValueIsFound(b: seq<char>, p: nat, text: seq<char>, k: nat)
    requires p <= |b| && CStr(b, p) == text && k <= |text|
    ensures p + |text| <= |b|
    ensures p + k + Strspn(b, p + k) == p + SkipBlanks(text, k)
    ensures CStr(b, p + SkipBlanks(text, k)) == text[SkipBlanks(text, k)..]
  {
    Suffix(b, p, k);
    SkipBlanksFrom(text, k, k);
    Suffix(b, p, SkipBlanks(text, k));
  }

  // Behind "http://" the path starts at the next slash.
  lemma PathIsFound(b2: seq<char>, at: nat, target: seq<char>)
    requires at <= |b2| && CStr(b2, at) == target && PrefixNoCase(target, "http://")
    ensures Strchr(b2, at + 7, '/') == Shift(FindChar(target, 7, '/'), at)
  {
    Suffix(b2, at, 7);
    FindCharFrom(target, 7, 7, '/');
  }

  // What the scanner does at index i, one exit of its loop after the other.
  lemma LineStopHere(buf: seq<char>, i: nat)
    requires i <= |buf|
    ensures LineStop(buf, i) ==
      if i == |buf| then (LineOpen, i)
      else if buf[i] == CR then
        if i + 1 == |buf| then (LineOpen, i) else if buf[i + 1] == LF then (LineOk, i + 2) else (LineBad, i)
      else if buf[i] == LF then
        if i > 1 && buf[i - 1] == CR then (LineOk, i + 1) else (LineBad, i)
      else LineStop(buf, i + 1)
  {
  }

  class HttpConn {
    const m_read_buf: array<char>
    var m_read_idx: nat
    var m_checked_idx: nat
    var m_start_line: nat
    var m_check_state: CheckState
    var m_method: Method
    var m_url: Option<nat>
    var m_version: Option<nat>
    var m_host: Option<nat>
    var m_content_length: int
    var m_linger: bool

    ghost predicate Valid()
      reads this
    {
      m_start_line <= m_checked_idx <= m_read_idx <= m_read_buf.Length == READ_BUFFER_SIZE
    }

    ghost function State(): (c: Conn)
      requires Valid()
      reads this, m_read_buf
      ensures HttpSpec.Ok(c)
    {
      Conn(m_read_buf[..m_read_idx], m_start_line, m_checked_idx, m_check_state, m_method,
           m_url, m_version, m_host, m_content_length, m_linger)
    }

    // epoll/http_conn.cpp:76
    constructor ()
      ensures Valid() && fresh(m_read_buf) && m_read_buf.Length == 2048 && State() == HttpSpec.INIT
    {
      m_read_buf := new char[READ_BUFFER_SIZE](_ => NUL);
      m_read_idx, m_checked_idx, m_start_line := 0, 0, 0;
      m_check_state, m_method := RequestLine, Get;
      m_url, m_version, m_host := None, None, None;
      m_content_length, m_linger := 0, false;
    }

    // epoll/http_conn.cpp:131.  pending are the bytes that the socket holds; a
    // recv may return any part of them.  Behind them the socket would block, or
    // it is closed or broken.  A recv without room returns 0 if there are bytes
    // left, and otherwise what it would return with room.
    method Read(pending: seq<char>, blocks: bool) returns (ok: bool)
      requires Valid()
      modifies m_read_buf, this`m_read_idx
      ensures Valid()
      ensures ok <==> blocks && old(m_read_idx) < READ_BUFFER_SIZE && old(m_read_idx) + |pending| <= READ_BUFFER_SIZE
      ensures old(m_read_idx) + |pending| <= READ_BUFFER_SIZE ==> State() == Extend(old(State()), pending)
      ensures old(m_read_idx) + |pending| > READ_BUFFER_SIZE ==>
        State() == Extend(old(State()), pending[..READ_BUFFER_SIZE - old(m_read_idx)])
    {
      if m_read_idx >= READ_BUFFER_SIZE {
        assert m_read_idx + |pending| <= READ_BUFFER_SIZE ==> pending == [];
        return false;
      }
      var got := 0;
      while true
        invariant 0 <= got <= |pending| && m_read_idx == old(m_read_idx) + got <= READ_BUFFER_SIZE
        invariant m_read_buf[..m_read_idx] == old(m_read_buf[..m_read_idx]) + pending[..got]
        decreases |pending| - got
      {
        var bytes_read := Recv(|pending| - got, blocks, READ_BUFFER_SIZE - m_read_idx);
        if bytes_read == -1 {
          if blocks {
            break;
          }
          return false;
        } else if bytes_read == 0 {
          return false;
        }
        Store(pending[got..got + bytes_read]);
        assert pending[..got + bytes_read] == pending[..got] + pending[got..got + bytes_read];
        got := got + bytes_read;
      }
      return true;
    }

    method Store(bytes: seq<char>)
      requires Valid() && m_read_idx + |bytes| <= READ_BUFFER_SIZE
      modifies m_read_buf, this`m_read_idx
      ensures Valid() && m_read_idx == old(m_read_idx) + |bytes|
      ensures m_read_buf[..m_read_idx] == old(m_read_buf[..m_read_idx]) + bytes
    {
      forall i | 0 <= i < |bytes| {
        m_read_buf[m_read_idx + i] := bytes[i];
      }
      m_read_idx := m_read_idx + |bytes|;
    }

    // One recv: any positive number of the bytes there are, if they fit; -1 with
    // EAGAIN if the socket would block; 0 or another error if it is closed or
    // broken.
    method Recv(available: nat, blocks: bool, room: nat) returns (n: int)
      ensures available > 0 && room > 0 ==> 0 < n <= available && n <= room
      ensures available > 0 && room == 0 ==> n == 0
      ensures available == 0 ==> if blocks then n == -1 else n == 0 || n == -1
    {
      if available == 0 {
        var broken: bool := *;
        n := if blocks || broken then -1 else 0;
      } else if room == 0 {
        n := 0;
      } else {
        n :| 0 < n <= available && n <= room;
      }
    }

    // Ends a line in front of index e by erasing its two last bytes.
    method EndLine(e: nat)
      requires Valid() && 2 <= e <= m_read_idx
      modifies m_read_buf
      ensures m_read_buf[..m_read_idx] == Erase(Erase(old(m_read_buf[..m_read_idx]), e - 2, Some(0)), e - 1, Some(0))
    {
      m_read_buf[e - 2] := NUL;
      m_read_buf[e - 1] := NUL;
      assert m_read_buf[..m_read_idx] == old(m_read_buf[..m_read_idx])[e - 2 := NUL][e - 1 := NUL];
    }

    // epoll/http_conn.cpp:95
    method ParseLine() returns (status: LineStatus)
      requires Valid()
      modifies m_read_buf, this`m_checked_idx
      ensures Valid() && (State(), status) == HttpSpec.ParseLine(old(State()))
    {
      hide Erase, LineStop;
      ghost var buf := m_read_buf[..m_read_idx];
      while m_checked_idx < m_read_idx
        invariant Valid() && old(m_checked_idx) <= m_checked_idx && m_read_buf[..m_read_idx] == buf
        invariant LineStop(buf, m_checked_idx) == LineStop(buf, old(m_checked_idx))
      {
        var temp := m_read_buf[m_checked_idx];
        assert temp == buf[m_checked_idx];
        LineStopHere(buf, m_checked_idx);
        if temp == CR {
          if m_checked_idx + 1 == m_read_idx {
            return LineOpen;
          } else if m_read_buf[m_checked_idx + 1] == LF {
            m_checked_idx := m_checked_idx + 2;
            EndLine(m_checked_idx);
            return LineOk;
          }
          return LineBad;
        } else if temp == LF {
          if m_checked_idx > 1 && m_read_buf[m_checked_idx - 1] == CR {
            m_checked_idx := m_checked_idx + 1;
            EndLine(m_checked_idx);
            return LineOk;
          }
          return LineBad;
        }
        m_checked_idx := m_checked_idx + 1;
      }
      LineStopHere(buf, m_checked_idx);
      return LineOpen;
    }

    // ---------- the three kinds of lines ----------

    // *(m_read_buf + at) = '\0'
    method Mark(at: nat)
      requires Valid() && at < m_read_idx
      modifies m_read_buf
      ensures m_read_buf[..m_read_idx] == old(m_read_buf[..m_read_idx])[at := NUL]
    {
      m_read_buf[at] := NUL;
    }

    // epoll/http_conn.cpp:192-204
    method CheckTarget(ghost text: nat, ghost line: seq<char>) returns (code: HttpCode)
      requires Valid() && SecondBlank(line).Some? && text + |line| <= m_read_idx
      requires m_url == Some(text + TargetAt(line))
      requires CStr(m_read_buf[..m_read_idx], m_url.value) == line[TargetAt(line)..SecondBlank(line).value]
      requires EqNoCase(line[SkipBlanks(line, SecondBlank(line).value + 1)..], "HTTP/1.1")
      modifies this`m_url, this`m_check_state
      ensures m_url == Shift(PartsOf(line).url, text) && code == PartsOf(line).code
      ensures m_check_state == if code.NoRequest? then Header else old(m_check_state)
    {
      hide FindBlank, SkipBlanks, EqNoCase, CStr, FindChar;
      ghost var buf := m_read_buf[..m_read_idx];
      ghost var target := line[TargetAt(line)..SecondBlank(line).value];
      assert forall k :: 0 <= k < |target| ==> buf[m_url.value + k] == target[k] by {
        CStrIsThere(buf, m_url.value);
      }
      if PrefixNoCase(CStr(m_read_buf[..m_read_idx], m_url.value), "http://") {
        PathIsFound(buf, m_url.value, target);
        m_url := Some(m_url.value + 7);
        m_url := Strchr(m_read_buf[..m_read_idx], m_url.value, '/');
      }
      if m_url == None || m_read_buf[m_url.value] != '/' {
        return BadRequest;
      }
      m_check_state := Header;
      return NoRequest;
    }

    // epoll/http_conn.cpp:179-204
    method ParseTarget(ghost text: nat, ghost line: seq<char>) returns (code: HttpCode)
      requires Valid() && SaysGet(line) && text + |line| <= m_read_idx
      requires m_url == Some(text + FirstBlank(line).value + 1)
      requires CStr(m_read_buf[..m_read_idx], m_url.value) == line[FirstBlank(line).value + 1..]
      modifies m_read_buf, this`m_url, this`m_version, this`m_check_state
      ensures m_read_buf[..m_read_idx] == Erase(old(m_read_buf[..m_read_idx]), text, SecondBlank(line))
      ensures m_url == Shift(PartsOf(line).url, text) && m_version == Shift(PartsOf(line).version, text)
      ensures code == PartsOf(line).code
      ensures m_check_state == if code.NoRequest? then Header else old(m_check_state)
    {
      hide FindBlank, SkipBlanks, EqNoCase, CStr, FindChar, Strpbrk, Strspn, Strchr, TargetAt, FirstBlank;
      ghost var b1 := m_read_buf[..m_read_idx];
      TargetIsFound(b1, text, line);
      m_url := Some(m_url.value + Strspn(m_read_buf[..m_read_idx], m_url.value));
      m_version := Strpbrk(m_read_buf[..m_read_idx], m_url.value);
      if m_version == None {
        return BadRequest;
      }
      VersionIsFound(b1, text, line, TargetAt(line), SecondBlank(line).value);
      Mark(m_version.value);
      m_version := Some(m_version.value + 1);
      m_version := Some(m_version.value + Strspn(m_read_buf[..m_read_idx], m_version.value));
      if !EqNoCase(CStr(m_read_buf[..m_read_idx], m_version.value), "HTTP/1.1") {
        return BadRequest;
      }
      code := CheckTarget(text, line);
    }

    // epoll/http_conn.cpp:160
    method ParseRequestLine(text: nat) returns (code: HttpCode)
      requires Valid() && text <= m_read_idx
      modifies m_read_buf, this`m_url, this`m_version, this`m_method, this`m_check_state
      ensures Valid() && (State(), code) == HttpSpec.ParseRequestLine(old(State()), text)
    {
      hide FindBlank, SkipBlanks, EqNoCase, CStr, FindChar, SecondBlank, TargetAt;
      ghost var line := CStr(m_read_buf[..m_read_idx], text);
      m_url := Strpbrk(m_read_buf[..m_read_idx], text);
      if m_url == None {
        return BadRequest;
      }
      VerbIsCut(m_read_buf[..m_read_idx], text, line);
      Mark(m_url.value);
      m_url := Some(m_url.value + 1);
      if EqNoCase(CStr(m_read_buf[..m_read_idx], text), "GET") {
        m_method := Get;
      } else {
        return BadRequest;
      }
      code := ParseTarget(text, line);
    }

    // epoll/http_conn.cpp:207
    method ParseHeaders(line: nat) returns (code: HttpCode)
      requires Valid() && line <= m_read_idx
      modifies this`m_check_state, this`m_linger, this`m_content_length, this`m_host
      ensures Valid() && (State(), code) == HttpSpec.ParseHeaders(old(State()), line)
    {
      hide SkipBlanks, EqNoCase, CStr, Atoi;
      var text := line;
      ghost var s := CStr(m_read_buf[..m_read_idx], line);
      if CStr(m_read_buf[..m_read_idx], text) == [] {
        if m_method == Head {
          return GetRequest;
        }
        if m_content_length != 0 {
          m_check_state := Content;
          return NoRequest;
        }
        return GetRequest;
      } else if PrefixNoCase(CStr(m_read_buf[..m_read_idx], text), "Connection:") {
        ValueIsFound(m_read_buf[..m_read_idx], line, s, 11);
        text := text + 11;
        text := text + Strspn(m_read_buf[..m_read_idx], text);
        if EqNoCase(CStr(m_read_buf[..m_read_idx], text), "keep-alive") {
          m_linger := true;
        }
      } else if PrefixNoCase(CStr(m_read_buf[..m_read_idx], text), "Content-Length:") {
        ValueIsFound(m_read_buf[..m_read_idx], line, s, 15);
        text := text + 15;
        text := text + Strspn(m_read_buf[..m_read_idx], text);
        m_content_length := Atoi(CStr(m_read_buf[..m_read_idx], text));
      } else if PrefixNoCase(CStr(m_read_buf[..m_read_idx], text), "Host:") {
        ValueIsFound(m_read_buf[..m_read_idx], line, s, 5);
        text := text + 5;
        text := text + Strspn(m_read_buf[..m_read_idx], text);
        m_host := Some(text);
      }
      return NoRequest;
    }

    // epoll/http_conn.cpp:254.  The end-of-string mark may fall behind the bytes
    // received, and then it is not part of the state of the parser.
    method ParseContent(text: nat) returns (code: HttpCode)
      requires Valid()
      modifies m_read_buf
      ensures Valid() && (State(), code) == HttpSpec.ParseContent(old(State()), text)
      ensures forall i :: 0 <= i < READ_BUFFER_SIZE ==>
        m_read_buf[i] == if code.GetRequest? && i == text + m_content_length then NUL else old(m_read_buf[i])
    {
      if m_read_idx >= Int32(m_content_length + m_checked_idx) {
        if 0 <= text + m_content_length < READ_BUFFER_SIZE {
          m_read_buf[text + m_content_length] := NUL;
        }
        return GetRequest;
      }
      return NoRequest;
    }

    // epoll/http_conn.cpp:265
    method ProcessRead() returns (ret: HttpCode)
      requires Valid()
      modifies this, m_read_buf
      ensures Valid() && (State(), ret) == HttpSpec.ProcessRead(old(State()))
    {
      hide HttpSpec.ParseLine, HttpSpec.ParseRequestLine, HttpSpec.ParseHeaders, HttpSpec.ParseContent;
      var line_status := LineOk;
      ret := NoRequest;
      while true
        invariant Valid() && m_read_idx == old(m_read_idx)
        invariant ProcessLoop(State(), line_status.LineOk?) == ProcessLoop(old(State()), true)
        decreases m_read_idx - m_checked_idx, if line_status.LineOk? then 1 else 0
      {
        if !(m_check_state == Content && line_status == LineOk) {
          line_status := ParseLine();
          if line_status != LineOk {
            break;
          }
        }
        var text := m_start_line;
        m_start_line := m_checked_idx;
        match m_check_state
        case RequestLine =>
          ret := ParseRequestLine(text);
          if ret == BadRequest {
            return BadRequest;
          }
        case Header =>
          ret := ParseHeaders(text);
          if ret == BadRequest {
            return BadRequest;
          } else if ret == GetRequest {
            return GetRequest;
          }
        case Content =>
          ret := ParseContent(text);
          if ret == GetRequest {
            return GetRequest;
          }
          line_status := LineOpen;
      }
      return NoRequest;
    }

    // epoll/webserver.cpp:187-191 and epoll/http_conn.cpp:532-539: each piece
    // that arrives is read and parsed, until there is a result or a read fails.
    method Serve(pieces: seq<seq<char>>) returns (result: Option<HttpCode>)
      requires Valid()
      modifies this, m_read_buf
      ensures Valid()
      ensures Fit(READ_BUFFER_SIZE - old(m_read_idx), pieces) ==>
        result.Some? && (State(), result.value) == Feed(old(State()), pieces)
    {
      hide HttpSpec.ProcessRead;
      ghost var fits := Fit(READ_BUFFER_SIZE - m_read_idx, pieces);
      var i := 0;
      while i < |pieces|
        invariant 0 <= i <= |pieces| && Valid()
        invariant fits ==> Fit(READ_BUFFER_SIZE - m_read_idx, pieces[i..])
        invariant fits ==> Feed(State(), pieces[i..]) == Feed(old(State()), pieces)
      {
        assert pieces[i..][1..] == pieces[i + 1..];
        var ok := Read(pieces[i], true);
        if !ok {
          return None;
        }
        var code := ProcessRead();
        if code != NoRequest {
          return Some(code);
        }
        i := i + 1;
      }
      return Some(NoRequest);
    }
  }

  // Each read finds some room, and its piece fits in.
  predicate Fit(room: int, pieces: seq<seq<char>>) {
    pieces == [] || (room > 0 && |pieces[0]| <= room && Fit(room - |pieces[0]|, pieces[1..]))
  }

  // That is so for any pieces that leave some room, and for any but empty ones
  // that fill it.
  lemma {:induction false} ShortPiecesFit(room: int, pieces: seq<seq<char>>)
    requires |Flatten(pieces)| <= room
    requires |Flatten(pieces)| < room || forall i :: 0 <= i < |pieces| ==> pieces[i] != []
    ensures Fit(room, pieces)
    decreases |pieces|
  {
    if pieces != [] {
      ShortPiecesFit(room - |pieces[0]|, pieces[1..]);
    }
  }
}
