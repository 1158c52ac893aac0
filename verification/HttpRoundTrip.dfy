// What the parser makes of a well-formed request.
module HttpRoundTrip {
  import opened CStrings
  import opened HttpSpec
  import opened HttpSplitting
  import opened Options

  const CRLF := [CR, LF]

  predicate Blanks(s: seq<char>) {
    forall i :: 0 <= i < |s| ==> s[i] == ' ' || s[i] == '\t'
  }

  predicate NoBlank(s: seq<char>) {
    forall i :: 0 <= i < |s| ==> s[i] != ' ' && s[i] != '\t'
  }

  lemma {:induction false} FindBlankFinds(text: seq<char>, i: nat, j: nat)
    requires i <= j <= |text| && (j < |text| ==> IsBlank(text[j]))
    requires forall k :: i <= k < j ==> !IsBlank(text[k])
    ensures FindBlank(text, i) == if j < |text| then Some(j) else None
    decreases j - i
  {
    if i < j {
      FindBlankFinds(text, i + 1, j);
    }
  }

  lemma {:induction false} SkipBlanksSkips(text: seq<char>, i: nat, j: nat)
    requires i <= j <= |text| && (j < |text| ==> !IsBlank(text[j]))
    requires forall k :: i <= k < j ==> IsBlank(text[k])
    ensures SkipBlanks(text, i) == j
    decreases j - i
  {
    if i < j {
      SkipBlanksSkips(text, i + 1, j);
    }
  }

  lemma {:induction false} FindCharFinds(text: seq<char>, i: nat, j: nat, ch: char)
    requires i <= j < |text| && text[j] == ch
    requires forall k :: i <= k < j ==> text[k] != ch
    ensures FindChar(text, i, ch) == Some(j)
    decreases j - i
  {
    if i < j {
      FindCharFinds(text, i + 1, j, ch);
    }
  }

  lemma {:induction false} FindBlankIsFirst(text: seq<char>, i: nat)
    requires i <= |text|
    ensures var r := FindBlank(text, i);
      forall k :: i <= k < (if r.Some? then r.value else |text|) ==> !IsBlank(text[k])
    decreases |text| - i
  {
    if i < |text| && !IsBlank(text[i]) {
      FindBlankIsFirst(text, i + 1);
    }
  }

  lemma {:induction false} SkipBlanksIsBlank(text: seq<char>, i: nat)
    requires i <= |text|
    ensures forall k :: i <= k < SkipBlanks(text, i) ==> IsBlank(text[k])
    decreases |text| - i
  {
    if i < |text| && IsBlank(text[i]) {
      SkipBlanksIsBlank(text, i + 1);
    }
  }

  // A request line in its parts: verb, blanks, target, blanks, version.
  datatype Line = Line(verb: seq<char>, gap: seq<char>, target: seq<char>, gap2: seq<char>, version: seq<char>) {
    function Text(): seq<char> {
      verb + gap + target + gap2 + version
    }

    predicate WellFormed() {
      && EqNoCase(verb, "GET") && EqNoCase(version, "HTTP/1.1")
      && gap != [] && Blanks(gap) && gap2 != [] && Blanks(gap2) && target != [] && NoBlank(target)
    }
  }

  // Where the path starts in a target: at once, or behind "http://authority".
  predicate HasPath(target: seq<char>, at: nat) {
    && at < |target| && target[at] == '/'
    && if PrefixNoCase(target, "http://") then at >= 7 && forall k :: 7 <= k < at ==> target[k] != '/' else at == 0
  }

  lemma NoBlankInGet(s: seq<char>, t: seq<char>)
    requires EqNoCase(s, t) && (t == "GET" || t == "HTTP/1.1")
    ensures NoBlank(s)
  {
    forall i | 0 <= i < |s| ensures !IsBlank(s[i]) {
      assert Lower(s[i]) == Lower(t[i]) && !IsBlank(Lower(t[i]));
    }
  }

  // Parsing the text of a well-formed line finds its parts again.
  lemma LinePlaces(l: Line)
    requires l.WellFormed()
    ensures FirstBlank(l.Text()) == Some(|l.verb|) && SaysGet(l.Text())
    ensures TargetAt(l.Text()) == |l.verb + l.gap|
    ensures SecondBlank(l.Text()) == Some(|l.verb + l.gap + l.target|)
    ensures SkipBlanks(l.Text(), |l.verb + l.gap + l.target|) == |l.verb + l.gap + l.target + l.gap2|
  {
    var text := l.Text();
    NoBlankInGet(l.verb, "GET");
    NoBlankInGet(l.version, "HTTP/1.1");
    FindBlankFinds(text, 0, |l.verb|);
    assert text[..|l.verb|] == l.verb;
    SkipBlanksSkips(text, |l.verb| + 1, |l.verb + l.gap|);
    FindBlankFinds(text, |l.verb + l.gap|, |l.verb + l.gap + l.target|);
    SkipBlanksSkips(text, |l.verb + l.gap + l.target|, |l.verb + l.gap + l.target + l.gap2|);
  }

  lemma RequestLineRoundTrip(l: Line, at: nat)
    requires l.WellFormed() && HasPath(l.target, at)
    ensures var u, w := |l.verb + l.gap| + at, |l.verb + l.gap + l.target + l.gap2|;
      PartsOf(l.Text()) == RequestParts(NoRequest, Some(u), Some(w))
  {
    LinePlaces(l);
    var text := l.Text();
    var u, v, w := |l.verb + l.gap|, |l.verb + l.gap + l.target|, |l.verb + l.gap + l.target + l.gap2|;
    assert text[u..v] == l.target && text[w..] == l.version;
    if PrefixNoCase(l.target, "http://") {
      FindCharFinds(l.target, 7, at, '/');
    }
    SkipBlanksSkips(text, v + 1, w);
  }

  function Cut(text: seq<char>, i: nat, u: nat, v: nat, w: nat): Line
    requires i <= u <= v <= w <= |text|
  {
    Line(text[..i], text[i..u], text[u..v], text[v..w], text[w..])
  }

  lemma CutJoins(text: seq<char>, i: nat, u: nat, v: nat, w: nat)
    requires i <= u <= v <= w <= |text|
    ensures Cut(text, i, u, v, w).Text() == text
  {
    assert text[..i] + text[i..u] == text[..u];
    assert text[..u] + text[u..v] == text[..v];
    assert text[..v] + text[v..w] == text[..w];
  }

  lemma PathIsFound(target: seq<char>) returns (at: nat)
    requires target != []
    requires var slash := if PrefixNoCase(target, "http://") then FindChar(target, 7, '/') else Some(0);
      slash.Some? && target[slash.value] == '/'
    ensures HasPath(target, at)
  {
    if PrefixNoCase(target, "http://") {
      at := FindChar(target, 7, '/').value;
      FindCharIsFirst(target, 7, '/');
    } else {
      at := 0;
    }
  }

  // Conversely, nothing else is accepted.
  lemma AcceptedLine(text: seq<char>) returns (l: Line, at: nat)
    requires PartsOf(text).code.NoRequest?
    ensures text == l.Text() && l.WellFormed() && HasPath(l.target, at)
  {
    hide FindBlank, SkipBlanks, FindChar, EqNoCase, HasPath, Lower, Line.Text;
    var i, u, v := FirstBlank(text).value, TargetAt(text), SecondBlank(text).value;
    var w := SkipBlanks(text, v + 1);
    l := Cut(text, i, u, v, w);
    CutJoins(text, i, u, v, w);
    assert Blanks(l.gap) && l.gap != [] by {
      SkipBlanksIsBlank(text, i + 1);
    }
    assert Blanks(l.gap2) && l.gap2 != [] by {
      SkipBlanksIsBlank(text, v + 1);
    }
    assert NoBlank(l.target) by {
      FindBlankIsFirst(text, u);
    }
    at := PathIsFound(l.target);
  }

  lemma {:induction false} FindCharIsFirst(text: seq<char>, i: nat, ch: char)
    requires i <= |text|
    ensures var r := FindChar(text, i, ch); forall k :: i <= k < (if r.Some? then r.value else |text|) ==> text[k] != ch
    decreases |text| - i
  {
    if i < |text| && text[i] != ch {
      FindCharIsFirst(text, i + 1, ch);
    }
  }

  // ---------- whole requests ----------

  predicate PlainText(s: seq<char>) {
    forall i :: 0 <= i < |s| ==> s[i] != CR && s[i] != LF && s[i] != NUL
  }

  function Print(headers: seq<seq<char>>): seq<char> {
    if headers == [] then CRLF else headers[0] + CRLF + Print(headers[1..])
  }

  predicate PlainHeaders(headers: seq<seq<char>>) {
    forall h :: h in headers ==> h != [] && PlainText(h)
  }

  // What a list of header lines says about the request, whatever the buffer.
  datatype Fields = Fields(linger: bool, contentLength: int, host: Option<seq<char>>)

  function Meaning(headers: seq<seq<char>>, f: Fields): Fields {
    if headers == [] then f else Meaning(headers[1..], Header1(headers[0], f))
  }

  function Header1(h: seq<char>, f: Fields): Fields {
    if PrefixNoCase(h, "Connection:") then
      (if EqNoCase(h[SkipBlanks(h, 11)..], "keep-alive") then f.(linger := true) else f)
    else if PrefixNoCase(h, "Content-Length:") then f.(contentLength := Atoi(h[SkipBlanks(h, 15)..]))
    else if PrefixNoCase(h, "Host:") then f.(host := Some(h[SkipBlanks(h, 5)..]))
    else f
  }

  // The string at a place in the finished part pre of the buffer.
  predicate Holds(at: Option<nat>, pre: seq<char>, text: Option<seq<char>>) {
    && at.Some? == text.Some?
    && (at.Some? ==> at.value + |text.value| < |pre| && CStr(pre, at.value) == text.value)
  }

  lemma {:induction false} StrEndFinds(buf: seq<char>, i: nat, j: nat)
    requires i <= j < |buf| && buf[j] == NUL && forall k :: i <= k < j ==> buf[k] != NUL
    ensures StrEnd(buf, i) == j
    decreases j - i
  {
    if i < j {
      StrEndFinds(buf, i + 1, j);
    }
  }

  const ENDS := [NUL, NUL]

  // The scanner cuts off exactly the next CRLF-terminated line.
  lemma NextLine(c: Conn, pre: seq<char>, line: seq<char>, rest: seq<char>)
    requires Ok(c) && c.start == c.checked == |pre| && c.buf == pre + line + CRLF + rest && PlainText(line)
    ensures ParseLine(c) == (c.(buf := pre + line + ENDS + rest, checked := |pre + line| + 2), LineOk)
    ensures CStr(pre + line + ENDS + rest, |pre|) == line
  {
    var j := |pre + line|;
    ScanStopsAt(c.buf, |pre|, j);
    assert c.buf[j := NUL][j + 1 := NUL] == pre + line + ENDS + rest;
    StrEndFinds(pre + line + ENDS + rest, |pre|, j);
  }

  lemma HoldsOn(at: Option<nat>, pre: seq<char>, text: Option<seq<char>>, more: seq<char>)
    requires Holds(at, pre, text)
    ensures Holds(at, pre + more, text)
  {
    if at.Some? {
      CStrExtends(pre, more, at.value);
    }
  }

  lemma HoldsNew(pre: seq<char>, line: seq<char>, i: nat)
    requires i <= |line| && PlainText(line)
    ensures Holds(Some(|pre| + i), pre + line + ENDS, Some(line[i..]))
  {
    StrEndFinds(pre + line + ENDS, |pre| + i, |pre + line|);
  }

  // A parser that has dealt with everything before index |pre|.
  predicate Between(c: Conn, pre: seq<char>, todo: seq<char>, f: Fields) {
    && c.buf == pre + todo && c.start == c.checked == |pre| && c.state.Header? && c.verb.Get?
    && c.linger == f.linger && c.contentLength == f.contentLength && Holds(c.host, pre, f.host)
  }

  lemma OneHeader(c: Conn, pre: seq<char>, h: seq<char>, rest: seq<char>, f: Fields) returns (c1: Conn)
    requires Ok(c) && Between(c, pre, h + CRLF + rest, f) && PlainText(h) && h != []
    ensures Ok(c1) && Between(c1, pre + h + ENDS, rest, Header1(h, f)) && c1.url == c.url && c1.version == c.version
    ensures ProcessLoop(c, true) == ProcessLoop(c1, true)
  {
    hide ParseLine, CStr, Atoi, PrefixNoCase, EqNoCase, SkipBlanks;
    assert pre + (h + CRLF + rest) == pre + h + CRLF + rest;
    NextLine(c, pre, h, rest);
    var c2 := c.(buf := pre + h + ENDS + rest, checked := |pre + h| + 2, start := |pre + h| + 2);
    c1 := ParseHeaders(c2, |pre|).0;
    HoldsOn(c.host, pre, f.host, h + ENDS);
    assert pre + (h + ENDS) == pre + h + ENDS;
    if PrefixNoCase(h, "Host:") {
      HoldsNew(pre, h, SkipBlanks(h, 5));
    }
  }

  // Header lines are read in order, whatever they are and however many; the
  // last Host and the last Content-Length count.
  lemma {:induction false} HeadersAreRead(c: Conn, pre: seq<char>, headers: seq<seq<char>>, rest: seq<char>, f: Fields)
    returns (c1: Conn, pre1: seq<char>)
    requires Ok(c) && Between(c, pre, Print(headers) + rest, f) && PlainHeaders(headers)
    ensures Ok(c1) && Between(c1, pre1, CRLF + rest, Meaning(headers, f)) && c1.url == c.url && c1.version == c.version
    ensures pre <= pre1 && |pre1| + 2 == |pre + Print(headers)|
    ensures ProcessLoop(c, true) == ProcessLoop(c1, true)
    decreases |headers|
  {
    hide ProcessLoop, Header1, Holds;
    if headers == [] {
      c1, pre1 := c, pre;
    } else {
      var h := headers[0];
      var todo := Print(headers[1..]) + rest;
      assert Print(headers) + rest == h + CRLF + todo;
      var c2 := OneHeader(c, pre, h, todo, f);
      c1, pre1 := HeadersAreRead(c2, pre + h + ENDS, headers[1..], rest, Header1(h, f));
      assert pre <= pre + h + ENDS;
    }
  }

  // The blank line behind the headers: without a body it ends the request, and
  // otherwise the parser goes on to the body.
  lemma BlankLine(c: Conn, pre: seq<char>, rest: seq<char>, f: Fields)
    requires Ok(c) && Between(c, pre, CRLF + rest, f)
    ensures var c1 := c.(buf := pre + ENDS + rest, checked := |pre| + 2, start := |pre| + 2);
      ProcessLoop(c, true) ==
        if f.contentLength == 0 then (c1, GetRequest) else ProcessLoop(c1.(state := Content), true)
  {
    hide ParseLine, CStr;
    assert pre + (CRLF + rest) == pre + [] + CRLF + rest;
    assert pre + [] + ENDS + rest == pre + ENDS + rest;
    NextLine(c, pre, [], rest);
  }

  lemma LineIsPlain(l: Line)
    requires l.WellFormed() && PlainText(l.target)
    ensures PlainText(l.Text()) && PlainText(l.version)
  {
    PlainInGet(l.verb, "GET");
    PlainInGet(l.version, "HTTP/1.1");
  }

  lemma PlainInGet(s: seq<char>, t: seq<char>)
    requires EqNoCase(s, t) && (t == "GET" || t == "HTTP/1.1")
    ensures PlainText(s)
  {
    forall i | 0 <= i < |s| ensures s[i] != CR && s[i] != LF && s[i] != NUL {
      assert Lower(s[i]) == Lower(t[i]) && PlainText([Lower(t[i])]);
    }
  }

  // The line as parse_request_line leaves it: the blanks behind verb and
  // target are string ends now.
  function Marked(l: Line): seq<char>
    requires l.gap != [] && l.gap2 != []
  {
    l.verb + [NUL] + l.gap[1..] + l.target + [NUL] + l.gap2[1..] + l.version + ENDS
  }

  lemma LineIsMarked(l: Line, rest: seq<char>)
    requires l.WellFormed()
    ensures Erase(Erase(l.Text() + ENDS + rest, 0, FirstBlank(l.Text())), 0, SecondBlank(l.Text())) == Marked(l) + rest
  {
    hide FirstBlank, SecondBlank, EqNoCase, NoBlank, Blanks, Erase;
    LinePlaces(l);
    var tail := l.version + ENDS + rest;
    assert l.Text() + ENDS + rest == l.verb + l.gap + (l.target + l.gap2 + tail);
    EraseFirst(l.verb, l.gap, l.target + l.gap2 + tail);
    var front := l.verb + [NUL] + l.gap[1..] + l.target;
    assert l.verb + [NUL] + l.gap[1..] + (l.target + l.gap2 + tail) == front + l.gap2 + tail;
    EraseFirst(front, l.gap2, tail);
  }

  lemma EraseFirst(a: seq<char>, x: seq<char>, b: seq<char>)
    requires x != []
    ensures Erase(a + x + b, 0, Some(|a|)) == a + [NUL] + x[1..] + b
  {
  }

  lemma MarkedHolds(l: Line, at: nat)
    requires l.WellFormed() && PlainText(l.target) && at < |l.target|
    ensures Holds(Some(|l.verb + l.gap| + at), Marked(l), Some(l.target[at..]))
    ensures Holds(Some(|l.verb + l.gap + l.target + l.gap2|), Marked(l), Some(l.version))
  {
    LineIsPlain(l);
    var m := Marked(l);
    StrEndFinds(m, |l.verb + l.gap| + at, |l.verb + l.gap + l.target|);
    StrEndFinds(m, |l.verb + l.gap + l.target + l.gap2|, |l.Text()|);
    assert m[|l.verb + l.gap| + at..|l.verb + l.gap + l.target|] == l.target[at..];
    assert m[|l.verb + l.gap + l.target + l.gap2|..|l.Text()|] == l.version;
  }

  lemma FirstLine(l: Line, at: nat, rest: seq<char>) returns (c1: Conn)
    requires l.WellFormed() && HasPath(l.target, at) && PlainText(l.target)
    ensures Ok(c1) && Between(c1, Marked(l), rest, Fields(false, 0, None)) && |Marked(l)| == |l.Text()| + 2
    ensures ProcessRead(Extend(INIT, l.Text() + CRLF + rest)) == ProcessLoop(c1, true)
    ensures Holds(c1.url, Marked(l), Some(l.target[at..])) && Holds(c1.version, Marked(l), Some(l.version))
  {
    hide ParseLine, CStr, Erase, PartsOf, Marked, FirstBlank, SecondBlank, Holds;
    var text := l.Text();
    var c := Extend(INIT, text + CRLF + rest);
    LineIsPlain(l);
    assert [] + text + CRLF + rest == c.buf && [] + text + ENDS + rest == text + ENDS + rest && [] + text == text;
    NextLine(c, [], text, rest);
    var c2 := c.(buf := text + ENDS + rest, checked := |text| + 2, start := |text| + 2);
    RequestLineRoundTrip(l, at);
    LineIsMarked(l, rest);
    MarkedHolds(l, at);
    LinePlaces(l);
    c1 := ParseRequestLine(c2, 0).0;
    assert Holds(c1.host, Marked(l), None) by {
      NothingHeld(Marked(l));
    }
    MarkedLength(l);
  }

  lemma NothingHeld(pre: seq<char>)
    ensures Holds(None, pre, None)
  {
  }

  lemma MarkedLength(l: Line)
    requires l.WellFormed()
    ensures |Marked(l)| == |l.Text()| + 2
  {
  }

  function PrintHead(l: Line, headers: seq<seq<char>>): seq<char> {
    l.Text() + CRLF + Print(headers)
  }

  function MeaningOf(headers: seq<seq<char>>): Fields {
    Meaning(headers, Fields(false, 0, None))
  }

  // The parser has found the parts of the head of a request.
  predicate HasFields(c: Conn, l: Line, at: nat, headers: seq<seq<char>>)
    requires at <= |l.target|
  {
    var n, m := |PrintHead(l, headers)|, MeaningOf(headers);
    && n <= |c.buf| && c.linger == m.linger && c.contentLength == m.contentLength
    && Holds(c.url, c.buf[..n], Some(l.target[at..])) && Holds(c.version, c.buf[..n], Some(l.version))
    && Holds(c.host, c.buf[..n], m.host)
  }

  // And it has gone through that head and no further.
  predicate HasRead(c: Conn, l: Line, at: nat, headers: seq<seq<char>>)
    requires at <= |l.target|
  {
    HasFields(c, l, at, headers) && c.start == c.checked == |PrintHead(l, headers)|
  }

  lemma HeadIsRead(l: Line, at: nat, headers: seq<seq<char>>, rest: seq<char>) returns (c: Conn)
    requires l.WellFormed() && HasPath(l.target, at) && PlainText(l.target) && PlainHeaders(headers)
    ensures Ok(c) && HasRead(c, l, at, headers) && |c.buf| == c.checked + |rest| && c.state.Header?
    ensures c.buf[c.checked - 1] == NUL && c.buf[c.checked..] == rest
    ensures ProcessRead(Extend(INIT, PrintHead(l, headers) + rest)) ==
      if MeaningOf(headers).contentLength == 0 then (c, GetRequest) else ProcessLoop(c.(state := Content), true)
  {
    hide ProcessLoop, ProcessRead, Holds, Meaning, Marked;
    var todo := Print(headers) + rest;
    assert PrintHead(l, headers) + rest == l.Text() + CRLF + todo;
    var c1 := FirstLine(l, at, todo);
    var c2, pre := HeadersAreRead(c1, Marked(l), headers, rest, Fields(false, 0, None));
    BlankLine(c2, pre, rest, MeaningOf(headers));
    c := c2.(buf := pre + ENDS + rest, checked := |pre| + 2, start := |pre| + 2);
    var more := pre[|Marked(l)|..] + ENDS;
    assert c.buf[..|pre| + 2] == pre + ENDS == Marked(l) + more;
    HoldsOn(c.url, Marked(l), Some(l.target[at..]), more);
    HoldsOn(c.version, Marked(l), Some(l.version), more);
    HoldsOn(c.host, pre, MeaningOf(headers).host, ENDS);
  }

  // The whole of a request without a body: its request line, any header lines,
  // a blank line; rest is what the client sends after it.
  lemma RequestRoundTrip(l: Line, at: nat, headers: seq<seq<char>>, rest: seq<char>)
    requires l.WellFormed() && HasPath(l.target, at) && PlainText(l.target) && PlainHeaders(headers)
    requires MeaningOf(headers).contentLength == 0
    ensures var (c, code) := ProcessRead(Extend(INIT, PrintHead(l, headers) + rest));
      code == GetRequest && HasRead(c, l, at, headers)
  {
    hide ProcessRead, HasRead;
    var c := HeadIsRead(l, at, headers, rest);
  }

  // And the same comes out of it when the bytes arrive in any other pieces.
  lemma RequestInPieces(l: Line, at: nat, headers: seq<seq<char>>, rest: seq<char>, chunks: seq<seq<char>>)
    requires l.WellFormed() && HasPath(l.target, at) && PlainText(l.target) && PlainHeaders(headers)
    requires MeaningOf(headers).contentLength == 0 && Flatten(chunks) == PrintHead(l, headers) + rest
    ensures var (c, code) := Feed(INIT, chunks);
      code == GetRequest && HasRead(c, l, at, headers)
  {
    hide ProcessRead, Feed, HasRead;
    var once := HeadIsRead(l, at, headers, rest);
    InitIsSettled();
    SplittingIsIrrelevant(INIT, chunks);
    assert ProcessRead(Extend(INIT, Flatten(chunks))) == (once, GetRequest);
    var (c, code) := Feed(INIT, chunks);
    var late :| Extend(c, late) == once;
    ReadWithoutRest(c, late, l, at, headers);
  }

  lemma ReadWithoutRest(c: Conn, late: seq<char>, l: Line, at: nat, headers: seq<seq<char>>)
    requires Ok(c) && at <= |l.target| && HasRead(Extend(c, late), l, at, headers)
    ensures HasRead(c, l, at, headers)
  {
    var n := c.checked;
    assert (c.buf + late)[..n] == c.buf[..n];
  }

  lemma InitIsSettled()
    ensures Settled(INIT)
  {
  }
}
