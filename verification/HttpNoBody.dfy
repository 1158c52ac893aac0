// Which streams of bytes lead the parser to a body at all, said of the bytes.
module HttpNoBody {
  import opened CStrings
  import opened HttpSpec
  import opened HttpSplitting
  import opened HttpBody
  import opened HttpRoundTrip

  // w[i..e] is a line of w, between two CRLFs or between the start and a CRLF.
  ghost predicate IsLine(w: seq<char>, i: int, e: int) {
    && 0 <= i <= e && e + 1 < |w| && w[e] == CR && w[e + 1] == LF
    && (i == 0 || (i >= 2 && w[i - 2] == CR && w[i - 1] == LF))
    && forall k :: i <= k < e ==> w[k] != CR && w[k] != LF
  }

  // The line, up to a NUL in it, begins with Content-Length and has another
  // value than zero.
  ghost predicate AnnouncesLength(line: seq<char>) {
    var text := CStr(line, 0);
    PrefixNoCase(text, "Content-Length:") && Atoi(text[SkipBlanks(text, 15)..]) != 0
  }

  // No line before the first empty one does so.
  ghost predicate NoLength(w: seq<char>) {
    forall i, e :: IsLine(w, i, e) && (forall j :: 0 <= j < i ==> !IsLine(w, j, j)) ==> !AnnouncesLength(w[i..e])
  }

  // The parser stands at the beginning of a line of w, with no empty line and
  // no length before.
  ghost predicate AtLine(c: Conn, w: seq<char>) {
    && Ok(c) && !c.state.Content? && c.contentLength == 0 && c.start == c.checked
    && |c.buf| == |w| && c.buf[c.checked..] == w[c.checked..]
    && (c.checked == 0 || (c.checked >= 2 && w[c.checked - 2] == CR && w[c.checked - 1] == LF))
    && (c.checked > 0 ==> c.buf[c.checked - 1] != CR)
    && forall j :: 0 <= j < c.checked ==> !IsLine(w, j, j)
  }

  lemma {:induction false} StrEndFrom(a: seq<char>, p: nat, line: seq<char>, k: nat)
    requires k <= |line| && p + |line| < |a| && a[p + |line|] == NUL
    requires forall i :: 0 <= i < |line| ==> a[p + i] == line[i]
    ensures StrEnd(a, p + k) == p + StrEnd(line, k)
    decreases |line| - k
  {
    if k < |line| && line[k] != NUL {
      StrEndFrom(a, p, line, k + 1);
    }
  }

  lemma TextOfLine(a: seq<char>, p: nat, line: seq<char>)
    requires p + |line| < |a| && a[p..p + |line|] == line && a[p + |line|] == NUL
    ensures CStr(a, p) == CStr(line, 0)
  {
    forall i | 0 <= i < |line| ensures a[p + i] == line[i] {
      assert a[p + i] == a[p..p + |line|][i];
    }
    StrEndFrom(a, p, line, 0);
  }

  // The next line that the scanner finishes.
  lemma LineIsNext(c: Conn, w: seq<char>) returns (e: nat)
    requires AtLine(c, w) && ParseLine(c).1.LineOk?
    ensures var c1 := ParseLine(c).0;
      && IsLine(w, c.checked, e) && c1.checked == e + 2 && c1.buf[e + 1] == NUL && c1.buf[e + 2..] == w[e + 2..]
      && CStr(c1.buf, c.checked) == CStr(w[c.checked..e], 0)
  {
    hide Scan, LineStop, CStr;
    var i, c1 := c.checked, ParseLine(c).0;
    assert w[..|w|] == w;
    SameLine(c.buf, w, i, |w|);
    SameFrom(c.buf, w, i, |w|);
    ScanSkipsPlain(c.buf, i);
    e := Scan(w, i);
    assert c1.buf[e + 2..] == c.buf[e + 2..];
    assert c1.buf[i..e] == c.buf[i..e] == w[i..e];
    TextOfLine(c1.buf, i, w[i..e]);
  }

  // Behind a line that is not empty the parser stands at a line again.
  lemma NextLineStarts(c: Conn, w: seq<char>, e: nat, d: Conn)
    requires AtLine(c, w) && IsLine(w, c.checked, e) && e > c.checked
    requires Ok(d) && !d.state.Content? && d.contentLength == 0 && d.start == d.checked == e + 2
    requires |d.buf| == |w| && d.buf[e + 2..] == w[e + 2..] && d.buf[e + 1] == NUL
    ensures AtLine(d, w)
  {
    forall j | 0 <= j < e + 2 ensures !IsLine(w, j, j) {
      if j == e {
        assert w[e - 1] != LF;
      }
    }
  }

  lemma ErasedBefore(c: Conn, p: nat, e: nat)
    requires Ok(c) && p <= |c.buf| && p + |CStr(c.buf, p)| <= e < |c.buf|
    ensures ParseRequestLine(c, p).0.buf[e..] == c.buf[e..]
    ensures ParseRequestLine(c, p).0.contentLength == c.contentLength
    ensures !ParseRequestLine(c, p).1.GetRequest?
    ensures ParseRequestLine(c, p).1.NoRequest? ==> CStr(c.buf, p) != []
  {
    hide CStr;
  }

  lemma {:induction false} StaysOutOfBody(c: Conn, w: seq<char>)
    requires AtLine(c, w) && NoLength(w)
    ensures !ProcessLoop(c, true).0.state.Content?
    decreases |w| - c.checked
  {
    hide ParseLine, ParseRequestLine, CStr, AtLine, NoLength, Atoi, EqNoCase;
    assert Ok(c) && !c.state.Content? && c.start == c.checked && c.contentLength == 0 by {
      AtLineIsOk(c, w);
    }
    var (c1, status) := ParseLine(c);
    if status.LineOk? {
      var p, c2 := c.checked, c1.(start := c1.checked);
      var e := LineIsNext(c, w);
      assert !AnnouncesLength(w[p..e]) by {
        LineHasNoLength(c, w, e);
      }
      assert CStr(c2.buf, p) != [] ==> e > p;
      if c2.state.RequestLine? {
        ErasedBefore(c2, p, e + 1);
        var (c3, code) := ParseRequestLine(c2, p);
        if code.NoRequest? {
          NextLineStarts(c, w, e, c3);
          StaysOutOfBody(c3, w);
        }
      } else {
        var (c3, code) := ParseHeaders(c2, p);
        if code.NoRequest? {
          NextLineStarts(c, w, e, c3);
          StaysOutOfBody(c3, w);
        }
      }
    }
  }

  lemma AtLineIsOk(c: Conn, w: seq<char>)
    requires AtLine(c, w)
    ensures Ok(c) && !c.state.Content? && c.start == c.checked && c.contentLength == 0
  {
  }

  lemma LineHasNoLength(c: Conn, w: seq<char>, e: nat)
    requires AtLine(c, w) && NoLength(w) && IsLine(w, c.checked, e)
    ensures !AnnouncesLength(w[c.checked..e])
  {
  }

  // So for any bytes whatever, well-formed or not and complete or not, among
  // whose lines up to the first empty one none announces a length: however they
  // are split into reads, the parser gives what it gives for all of them at once.
  lemma PlainStreamsMaySplit(pieces: seq<seq<char>>)
    requires NoLength(Flatten(pieces))
    ensures Agree(Feed(INIT, pieces), ProcessRead(Extend(INIT, Flatten(pieces))))
  {
    hide Feed, ProcessLoop, NoLength;
    InitIsSettled();
    var w := Flatten(pieces);
    assert Extend(INIT, w).buf == w;
    StaysOutOfBody(Extend(INIT, w), w);
    SplittingIsIrrelevant(INIT, pieces);
  }
}
