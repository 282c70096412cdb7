/** Strings as sequences of characters: the few string operations both code
    bases rely on. Case mapping covers ASCII letters only. */
module Text {

  predicate IsWhitespace(c: char) {
    c == ' ' || c == '\t' || c == '\n' || c == '\r' || c == '\U{000B}' || c == '\U{000C}'
  }

  predicate IsDigit(c: char) {
    '0' <= c <= '9'
  }

  function LowerChar(c: char): char {
    if 'A' <= c <= 'Z' then (c as int + 32) as char else c
  }

  function UpperChar(c: char): char {
    if 'a' <= c <= 'z' then (c as int - 32) as char else c
  }

  /** `lower()` / `toLowerCase()`. */
  function Lower(s: string): (r: string)
    ensures |r| == |s|
    ensures forall i :: 0 <= i < |s| ==> r[i] == LowerChar(s[i])
  {
    seq(|s|, i requires 0 <= i < |s| => LowerChar(s[i]))
  }

  /** Python's `str.capitalize()`: first character upper case, the rest lower case. */
  function Capitalize(s: string): (r: string)
    ensures |r| == |s|
  {
    if s == [] then [] else [UpperChar(s[0])] + Lower(s[1..])
  }

  predicate IsPrefix(p: string, s: string) {
    |p| <= |s| && s[..|p|] == p
  }

  /** `sub in s` / `s.includes(sub)`. */
  predicate Contains(s: string, sub: string)
    decreases |s|
  {
    IsPrefix(sub, s) || (|s| > 0 && Contains(s[1..], sub))
  }

  /** Some string of the list contains some keyword of the list. */
  predicate AnyContains(ss: seq<string>, keywords: seq<string>) {
    exists i, j :: 0 <= i < |ss| && 0 <= j < |keywords| && Contains(ss[i], keywords[j])
  }

  /** Every character is white space: what `!s.trim()` tests. */
  predicate IsBlank(s: string) {
    forall i :: 0 <= i < |s| ==> IsWhitespace(s[i])
  }

  /** `sep.join(parts)` / `parts.join(sep)`. */
  function Join(parts: seq<string>, sep: string): string
    decreases |parts|
  {
    if parts == [] then ""
    else if |parts| == 1 then parts[0]
    else parts[0] + sep + Join(parts[1..], sep)
  }

  /** `s.split(d)` for a one-character separator: the pieces between the
      separators, empty pieces included. */
  function SplitOn(s: string, d: char): (r: seq<string>)
    ensures |r| > 0
    decreases |s|
  {
    if s == [] then [""]
    else
      var rest := SplitOn(s[1..], d);
      if s[0] == d then [""] + rest
      else [[s[0]] + rest[0]] + rest[1..]
  }

  /** There is one more part than there are separators. */
  lemma {:induction false} SplitOnCount(s: string, d: char)
    ensures |SplitOn(s, d)| == multiset(s)[d] + 1
    decreases |s|
  {
    if s != [] {
      SplitOnCount(s[1..], d);
      assert s == [s[0]] + s[1..];
    }
  }

  /** Joining the pieces with the separator gives the string back. */
  lemma {:induction false} SplitOnJoin(s: string, d: char)
    ensures Join(SplitOn(s, d), [d]) == s
    decreases |s|
  {
    if s != [] {
      SplitOnJoin(s[1..], d);
      if s[0] == d {
        SplitOnJoinSep(s, d);
      } else {
        SplitOnJoinChar(s, d);
      }
    }
  }

  /** Splitting text joined with a separator that no part contains gives
      the parts back. */
  lemma {:induction false} JoinSplitOn(parts: seq<string>, d: char)
    requires |parts| > 0
    requires forall i :: 0 <= i < |parts| ==> d !in parts[i]
    ensures SplitOn(Join(parts, [d]), d) == parts
    decreases |parts|
  {
    if |parts| == 1 {
      SplitOnNoSep(parts[0], d);
    } else {
      JoinSplitOn(parts[1..], d);
      SplitOnPrefix(parts[0], Join(parts[1..], [d]), d);
      assert parts[0] + [d] + Join(parts[1..], [d]) == Join(parts, [d]);
      assert [parts[0]] + parts[1..] == parts;
    }
  }

  /** A string without the separator is a single piece. */
  lemma {:induction false} SplitOnNoSep(p: string, d: char)
    requires d !in p
    ensures SplitOn(p, d) == [p]
    decreases |p|
  {
    if p != [] {
      SplitOnNoSep(p[1..], d);
      assert [p[0]] + p[1..] == p;
    }
  }

  /** The piece before the first separator comes off the front. */
  lemma {:induction false} SplitOnPrefix(p: string, rest: string, d: char)
    requires d !in p
    ensures SplitOn(p + [d] + rest, d) == [p] + SplitOn(rest, d)
    decreases |p|
  {
    var s := p + [d] + rest;
    if p == [] {
      assert s == [d] + rest;
      assert s[1..] == rest;
    } else {
      SplitOnPrefix(p[1..], rest, d);
      assert s[0] == p[0];
      assert s[1..] == p[1..] + [d] + rest;
      assert [p[0]] + p[1..] == p;
    }
  }

  /** One step of the round trip when s starts with the separator. */
  lemma SplitOnJoinSep(s: string, d: char)
    requires s != [] && s[0] == d
    requires Join(SplitOn(s[1..], d), [d]) == s[1..]
    ensures Join(SplitOn(s, d), [d]) == s
  {
    var rest := SplitOn(s[1..], d);
    assert SplitOn(s, d) == [""] + rest;
    JoinCons("", rest, [d]);
    assert s == [d] + s[1..];
  }

  /** One step of the round trip when s starts with another character. */
  lemma SplitOnJoinChar(s: string, d: char)
    requires s != [] && s[0] != d
    requires Join(SplitOn(s[1..], d), [d]) == s[1..]
    ensures Join(SplitOn(s, d), [d]) == s
  {
    var rest := SplitOn(s[1..], d);
    assert SplitOn(s, d) == [[s[0]] + rest[0]] + rest[1..];
    JoinPrepend(s[0], rest, [d]);
    assert s == [s[0]] + s[1..];
  }

  /** Gluing a character to the front of the first part glues it to the front
      of the joined string. */
  lemma JoinPrepend(c: char, parts: seq<string>, sep: string)
    requires |parts| > 0
    ensures Join([[c] + parts[0]] + parts[1..], sep) == [c] + Join(parts, sep)
  {
    var head := [c] + parts[0];
    if |parts| == 1 {
      assert [head] + parts[1..] == [head];
    } else {
      var tail := Join(parts[1..], sep);
      JoinCons(head, parts[1..], sep);
      JoinCons(parts[0], parts[1..], sep);
      assert [parts[0]] + parts[1..] == parts;
      assert head + sep + tail == [c] + (parts[0] + sep + tail);
    }
  }

  lemma JoinCons(p: string, rest: seq<string>, sep: string)
    requires |rest| > 0
    ensures Join([p] + rest, sep) == p + sep + Join(rest, sep)
  {
    assert ([p] + rest)[1..] == rest;
  }

  /** Length of the leading run of non-blank characters. */
  function TokenLength(s: string): (k: nat)
    ensures k <= |s|
    ensures forall i :: 0 <= i < k ==> !IsWhitespace(s[i])
    ensures k < |s| ==> IsWhitespace(s[k])
    decreases |s|
  {
    if s == [] || IsWhitespace(s[0]) then 0 else 1 + TokenLength(s[1..])
  }

  /** The maximal runs of non-blank characters, in order: Python's `s.split()`,
      and JavaScript's `s.split(/\s+/)` once its empty end pieces are dropped. */
  function Words(s: string): (r: seq<string>)
    ensures forall i :: 0 <= i < |r| ==> |r[i]| > 0 && IsWordOf(r[i])
    decreases |s|
  {
    if s == [] then []
    else if IsWhitespace(s[0]) then Words(s[1..])
    else
      var k := TokenLength(s);
      [s[..k]] + Words(s[k..])
  }

  predicate IsWordOf(w: string) {
    forall i :: 0 <= i < |w| ==> !IsWhitespace(w[i])
  }

  /** `words.filter(w => w.length > minLength && !stop.includes(w))`. */
  function LongWords(ws: seq<string>, minLength: nat, stop: seq<string>): (r: seq<string>)
    ensures |r| <= |ws|
    decreases |ws|
  {
    if ws == [] then []
    else
      var init := LongWords(ws[..|ws| - 1], minLength, stop);
      var w := ws[|ws| - 1];
      if |w| > minLength && w !in stop then init + [w] else init
  }

  /** A word is kept exactly when it is long enough and not a stop word. */
  lemma {:induction false} LongWordsMembers(ws: seq<string>, minLength: nat, stop: seq<string>, w: string)
    ensures w in LongWords(ws, minLength, stop) <==> w in ws && |w| > minLength && w !in stop
    decreases |ws|
  {
    if ws != [] {
      var init := ws[..|ws| - 1];
      LongWordsMembers(init, minLength, stop, w);
      assert ws == init + [ws[|ws| - 1]];
    }
  }

  function DigitChar(d: nat): (c: char)
    requires d < 10
    ensures IsDigit(c)
  {
    "0123456789"[d]
  }

  function DigitValue(c: char): (d: nat)
    requires IsDigit(c)
    ensures d < 10
  {
    c as int - '0' as int
  }

  predicate AllDigits(s: string) {
    forall i :: 0 <= i < |s| ==> IsDigit(s[i])
  }

  /** Decimal rendering of a natural number, as a template literal or an
      f-string prints it. */
  function NatToString(n: nat): (r: string)
    ensures |r| > 0 && AllDigits(r)
    decreases n
  {
    if n < 10 then [DigitChar(n)] else NatToString(n / 10) + [DigitChar(n % 10)]
  }

  function IntToString(i: int): (r: string)
    ensures |r| > 0
  {
    if i < 0 then "-" + NatToString(-i) else NatToString(i)
  }

  /** The value of a string of decimal digits. */
  function ParseDigits(s: string): nat
    requires AllDigits(s)
    decreases |s|
  {
    if s == [] then 0 else 10 * ParseDigits(s[..|s| - 1]) + DigitValue(s[|s| - 1])
  }

  /** Parsing the rendering gives the number back. */
  lemma {:induction false} ParseNatToString(n: nat)
    ensures ParseDigits(NatToString(n)) == n
    decreases n
  {
    if n >= 10 {
      var r := NatToString(n);
      ParseNatToString(n / 10);
      assert r[..|r| - 1] == NatToString(n / 10);
    }
  }

  lemma NatToStringInjective(a: nat, b: nat)
    ensures NatToString(a) == NatToString(b) ==> a == b
  {
    ParseNatToString(a);
    ParseNatToString(b);
  }

  lemma IntToStringInjective(a: int, b: int)
    ensures IntToString(a) == IntToString(b) ==> a == b
  {
    if IntToString(a) == IntToString(b) {
      IntToStringSign(a);
      IntToStringSign(b);
      if a < 0 {
        NatToStringInjective(-a, -b);
      } else {
        NatToStringInjective(a, b);
      }
    }
  }

  /** The rendering starts with '-' exactly for a negative number, and the
      digits follow. */
  lemma IntToStringSign(i: int)
    ensures IntToString(i)[0] == '-' <==> i < 0
    ensures i < 0 ==> IntToString(i)[1..] == NatToString(-i)
    ensures i >= 0 ==> IntToString(i) == NatToString(i)
  {
    var r := NatToString(if i < 0 then -i else i);
    assert IsDigit(r[0]);
  }


  /** Length of the leading run of digits. */
  function DigitRun(s: string): (k: nat)
    ensures k <= |s| && AllDigits(s[..k])
    ensures k < |s| ==> !IsDigit(s[k])
    decreases |s|
  {
    if s == [] || !IsDigit(s[0]) then 0
    else
      var k := DigitRun(s[1..]);
      assert s[..1 + k] == [s[0]] + s[1..][..k];
      1 + k
  }

  /** The digit run at the front of a rendered number followed by a non-digit is
      exactly that rendering. */
  lemma {:induction false} DigitRunOfRendering(n: nat, rest: string)
    requires rest == [] || !IsDigit(rest[0])
    ensures DigitRun(NatToString(n) + rest) == |NatToString(n)|
  {
    var r := NatToString(n);
    DigitRunAcross(r, rest);
  }

  lemma {:induction false} DigitRunAcross(d: string, rest: string)
    requires AllDigits(d)
    requires rest == [] || !IsDigit(rest[0])
    ensures DigitRun(d + rest) == |d|
    decreases |d|
  {
    if d != [] {
      DigitRunAcross(d[1..], rest);
      assert (d + rest)[1..] == d[1..] + rest;
    } else {
      assert d + rest == rest;
    }
  }
}
