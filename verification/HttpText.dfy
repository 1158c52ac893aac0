// What the library calls of the parser, and the header lines, mean.
module HttpText {
  import opened CStrings
  import opened HttpSpec
  import opened HttpRoundTrip
  import opened Options

  // ---------- letters ----------

  // The same character, or the same letter in the other case.
  predicate SameLetter(a: char, b: char) {
    || a == b
    || ('A' <= a <= 'Z' && b as int == a as int + 32)
    || ('A' <= b <= 'Z' && a as int == b as int + 32)
  }

  // s begins with t, the case of letters apart.
  predicate Begins(s: seq<char>, t: seq<char>) {
    |s| >= |t| && forall i :: 0 <= i < |t| ==> SameLetter(s[i], t[i])
  }

  // The comparisons ignore the case of letters and nothing else.
  lemma CaseIsIgnored(s: seq<char>, t: seq<char>)
    ensures EqNoCase(s, t) <==> Begins(s, t) && |s| == |t|
    ensures PrefixNoCase(s, t) <==> Begins(s, t)
  {
    forall a: char, b: char ensures Lower(a) == Lower(b) <==> SameLetter(a, b) {
    }
    if |s| >= |t| {
      forall i | 0 <= i < |t| ensures s[..|t|][i] == s[i] {
      }
      if PrefixNoCase(s, t) {
        forall i | 0 <= i < |t| ensures SameLetter(s[i], t[i]) {
          assert Lower(s[..|t|][i]) == Lower(t[i]);
        }
      }
    }
  }

  // ---------- numbers ----------

  predicate IsDigit(ch: char) {
    '0' <= ch <= '9'
  }

  predicate AllDigits(s: seq<char>) {
    forall i :: 0 <= i < |s| ==> IsDigit(s[i])
  }

  predicate IsSpace(ch: char) {
    ch == ' ' || ch == '\t' || ch == '\n' || ch == 11 as char || ch == 12 as char || ch == '\r'
  }

  predicate AllSpace(s: seq<char>) {
    forall i :: 0 <= i < |s| ==> IsSpace(s[i])
  }

  // The number that a string of decimal digits denotes.
  function Value(ds: seq<char>): nat
    requires AllDigits(ds)
  {
    if ds == [] then 0 else 10 * Value(ds[..|ds| - 1]) + (ds[|ds| - 1] as int - '0' as int)
  }

  function Decimal(n: nat): (ds: seq<char>)
    ensures ds != [] && AllDigits(ds)
  {
    if n < 10 then [('0' as int + n) as char] else Decimal(n / 10) + [('0' as int + n % 10) as char]
  }

  lemma {:induction false} DecimalHasValue(n: nat)
    ensures Value(Decimal(n)) == n
  {
    if n >= 10 {
      DecimalHasValue(n / 10);
      var ds := Decimal(n);
      assert ds[..|ds| - 1] == Decimal(n / 10);
    }
  }

  lemma {:induction false} DigitsGoOn(s: seq<char>, i: nat, k: nat, j: nat)
    requires i <= k <= j <= |s| && AllDigits(s[i..j]) && AllDigits(s[i..k]) && (j < |s| ==> !IsDigit(s[j]))
    ensures Digits(s, k, Value(s[i..k])) == Value(s[i..j])
    decreases j - k
  {
    if k < j {
      assert s[k] == s[i..j][k - i];
      assert s[i..k + 1][..k - i] == s[i..k];
      DigitsGoOn(s, i, k + 1, j);
    }
  }

  lemma {:induction false} SkipSpaceSkips(s: seq<char>, i: nat, j: nat)
    requires i <= j <= |s| && (j < |s| ==> !IsSpace(s[j])) && forall k :: i <= k < j ==> IsSpace(s[k])
    ensures SkipSpace(s, i) == j
    decreases j - i
  {
    if i < j {
      SkipSpaceSkips(s, i + 1, j);
    }
  }

  // The range of a 64-bit long.
  function Clamp(v: int): int {
    if v < -0x8000_0000_0000_0000 then -0x8000_0000_0000_0000
    else if v > 0x7fff_ffff_ffff_ffff then 0x7fff_ffff_ffff_ffff
    else v
  }

  // White space, a sign, digits, and anything else behind: the number is read,
  // kept within a long, and cut to an int.  Without digits it is zero.
  lemma AtoiReads(space: seq<char>, sign: seq<char>, ds: seq<char>, tail: seq<char>)
    requires AllSpace(space) && AllDigits(ds) && (tail != [] ==> !IsDigit(tail[0]))
    requires sign == "" || sign == "+" || sign == "-"
    requires sign == "" && ds == [] && tail != [] ==> !IsSpace(tail[0]) && tail[0] != '+' && tail[0] != '-'
    ensures Atoi(space + sign + ds + tail) == Int32(Clamp(if sign == "-" then 0 - Value(ds) else Value(ds)))
  {
    hide Int32, Value;
    var s := space + sign + ds + tail;
    var i, j, e := |space|, |space + sign|, |space + sign + ds|;
    if sign == "" && ds == [] {
      assert s == space + tail;
    }
    SkipSpaceSkips(s, 0, i);
    assert s[j..e] == ds && s[j..j] == [];
    DigitsGoOn(s, j, j, e);
    NothingIsZero();
  }

  lemma NothingIsZero()
    ensures Value([]) == 0
  {
  }

  // In particular, a printed number that is an int is read back.
  lemma AtoiOfDecimal(space: seq<char>, n: nat, tail: seq<char>)
    requires AllSpace(space) && n <= INT_MAX && (tail != [] ==> !IsDigit(tail[0]))
    ensures Atoi(space + Decimal(n) + tail) == n
    ensures Atoi(space + "-" + Decimal(n) + tail) == 0 - n
  {
    hide Atoi, Value;
    DecimalHasValue(n);
    AtoiReads(space, "", Decimal(n), tail);
    AtoiReads(space, "-", Decimal(n), tail);
    assert space + "" + Decimal(n) + tail == space + Decimal(n) + tail;
  }

  // ---------- header lines ----------

  // name, blanks, and a value that does not begin with a blank
  predicate IsHeader(name: seq<char>, gap: seq<char>, value: seq<char>, meant: seq<char>) {
    Begins(name, meant) && |name| == |meant| && Blanks(gap) && (value != [] ==> value[0] != ' ' && value[0] != '\t')
  }

  lemma HeaderParts(name: seq<char>, gap: seq<char>, value: seq<char>, meant: seq<char>)
    requires IsHeader(name, gap, value, meant)
    ensures var h := name + gap + value;
      PrefixNoCase(h, meant) && SkipBlanks(h, |meant|) == |name + gap| && h[|name + gap|..] == value
    ensures forall i :: 0 <= i < |meant| ==> SameLetter((name + gap + value)[i], meant[i])
  {
    var h := name + gap + value;
    CaseIsIgnored(h, meant);
    SkipBlanksSkips(h, |name|, |name + gap|);
  }

  lemma ConnectionHeader(name: seq<char>, gap: seq<char>, value: seq<char>, f: Fields)
    requires IsHeader(name, gap, value, "Connection:")
    ensures Header1(name + gap + value, f) ==
      if Begins(value, "keep-alive") && |value| == 10 then f.(linger := true) else f
  {
    hide SkipBlanks, PrefixNoCase, EqNoCase, Atoi;
    HeaderParts(name, gap, value, "Connection:");
    CaseIsIgnored(value, "keep-alive");
  }

  lemma LengthHeader(name: seq<char>, gap: seq<char>, value: seq<char>, f: Fields)
    requires IsHeader(name, gap, value, "Content-Length:")
    ensures Header1(name + gap + value, f) == f.(contentLength := Atoi(value))
  {
    hide SkipBlanks, PrefixNoCase, EqNoCase, Atoi;
    var h := name + gap + value;
    HeaderParts(name, gap, value, "Content-Length:");
    CaseIsIgnored(h, "Connection:");
    assert SameLetter(h[3], "Content-Length:"[3]) && !SameLetter(h[3], "Connection:"[3]);
  }

  lemma HostHeader(name: seq<char>, gap: seq<char>, value: seq<char>, f: Fields)
    requires IsHeader(name, gap, value, "Host:")
    ensures Header1(name + gap + value, f) == f.(host := Some(value))
  {
    hide SkipBlanks, PrefixNoCase, EqNoCase, Atoi;
    var h := name + gap + value;
    HeaderParts(name, gap, value, "Host:");
    CaseIsIgnored(h, "Connection:");
    CaseIsIgnored(h, "Content-Length:");
    assert SameLetter(h[0], "Host:"[0]) && !SameLetter(h[0], 'C');
  }

  // All other header lines are passed over.
  lemma OtherHeader(h: seq<char>, f: Fields)
    requires !Begins(h, "Connection:") && !Begins(h, "Content-Length:") && !Begins(h, "Host:")
    ensures Header1(h, f) == f
  {
    hide SkipBlanks, PrefixNoCase, EqNoCase, Atoi;
    CaseIsIgnored(h, "Connection:");
    CaseIsIgnored(h, "Content-Length:");
    CaseIsIgnored(h, "Host:");
  }

  lemma {:induction false} LastHeader(headers: seq<seq<char>>, h: seq<char>, f: Fields)
    ensures Meaning(headers + [h], f) == Header1(h, Meaning(headers, f))
    decreases |headers|
  {
    hide Header1;
    var all := headers + [h];
    if headers == [] {
      assert all[1..] == [];
    } else {
      assert all[1..] == headers[1..] + [h];
      LastHeader(headers[1..], h, Header1(headers[0], f));
    }
  }

  // A length that is printed as the last header line is the length that counts.
  lemma PrintedLength(headers: seq<seq<char>>, n: nat)
    requires n <= INT_MAX
    ensures MeaningOf(headers + ["Content-Length: " + Decimal(n)]).contentLength == n
  {
    hide Header1, Atoi;
    var h := "Content-Length:" + " " + Decimal(n);
    assert h == "Content-Length: " + Decimal(n);
    LastHeader(headers, h, Fields(false, 0, None));
    assert IsDigit(Decimal(n)[0]);
    LengthHeader("Content-Length:", " ", Decimal(n), Meaning(headers, Fields(false, 0, None)));
    AtoiOfDecimal("", n, "");
    assert "" + Decimal(n) + "" == Decimal(n);
  }
}
