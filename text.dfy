/** The two string operations the metadata record relies on:
    `str.split(';', 1)` and the built-in `int()` applied to the id text. */
module Text {
  import opened Results

  /** Index of the first occurrence of `c` in `s`. */
  function FirstIndex(s: string, c: char): (r: Option<nat>)
    ensures r.None? <==> c !in s
    ensures r.Some? ==> r.value < |s| && s[r.value] == c && c !in s[..r.value]
  {
    if |s| == 0 then None
    else if s[0] == c then Some(0)
    else match FirstIndex(s[1..], c)
      case None => None
      case Some(i) => assert s[..i + 1] == [s[0]] + s[1..][..i]; Some(i + 1)
  }

  /** `s.split(sep, 1)` unpacked into two names: fails (a ValueError in the
      source) when `sep` does not occur. */
  function SplitFirst(s: string, sep: char): (r: Option<(string, string)>)
    ensures r.None? <==> sep !in s
    ensures r.Some? ==> s == r.value.0 + [sep] + r.value.1 && sep !in r.value.0
  {
    match FirstIndex(s, sep)
    case None => None
    case Some(i) =>
      assert s == s[..i] + [sep] + s[i + 1..];
      Some((s[..i], s[i + 1..]))
  }

  /** The whitespace `int()` strips from ASCII text: space, \t \n \v \f
      and \r. The separators \x1c-\x1f, which `str.isspace()` also
      accepts, are kept and make `int()` raise. */
  predicate IsSpace(c: char) {
    c == ' ' || ('\t' <= c <= '\r')
  }

  predicate IsDigit(c: char) {
    '0' <= c <= '9'
  }

  function StripLeft(s: string): (r: string)
    ensures |r| <= |s| && r == s[|s| - |r|..]
    ensures |r| > 0 ==> !IsSpace(r[0])
    ensures forall i :: 0 <= i < |s| - |r| ==> IsSpace(s[i])
  {
    if |s| > 0 && IsSpace(s[0]) then StripLeft(s[1..]) else s
  }

  function StripRight(s: string): (r: string)
    ensures |r| <= |s| && r == s[..|r|]
    ensures |r| > 0 ==> !IsSpace(r[|r| - 1])
    ensures forall i :: |r| <= i < |s| ==> IsSpace(s[i])
  {
    if |s| > 0 && IsSpace(s[|s| - 1]) then StripRight(s[..|s| - 1]) else s
  }

  /** Python's grammar for the digits of a decimal literal: digits, with
      single underscores allowed between two digits. */
  predicate WellFormedDigits(s: string) {
    && |s| > 0
    && IsDigit(s[0]) && IsDigit(s[|s| - 1])
    && (forall i :: 0 <= i < |s| ==> IsDigit(s[i]) || s[i] == '_')
    && (forall i :: 0 <= i < |s| - 1 ==> !UnderscorePair(s, i))
  }

  predicate UnderscorePair(s: string, i: nat)
    requires i + 1 < |s|
  {
    s[i] == '_' && s[i + 1] == '_'
  }

  /** Value of a digit string, underscores skipped. */
  function DigitsValue(s: string): nat
    requires forall i :: 0 <= i < |s| ==> IsDigit(s[i]) || s[i] == '_'
  {
    if |s| == 0 then 0
    else
      var last := s[|s| - 1];
      var rest := DigitsValue(s[..|s| - 1]);
      assert IsDigit(last) || last == '_';
      if last == '_' then rest else 10 * rest + (last as int - '0' as int)
  }

  /** `int(text)` for ASCII text: surrounding whitespace is stripped, an
      optional sign is allowed, and anything else raises (None here). */
  function ParseInt(text: string): (r: Option<int>)
    ensures r.Some? ==> exists i :: 0 <= i < |text| && IsDigit(text[i])
  {
    var l := StripLeft(text);
    var t := StripRight(l);
    var r := ParseStripped(t);
    if r.Some? then
      assert t[|t| - 1] == text[|text| - |l| + |t| - 1];
      r
    else r
  }

  /** `int()` once the whitespace is gone: an optional sign, then digits. */
  function ParseStripped(t: string): (r: Option<int>)
    ensures r.Some? ==> |t| > 0 && IsDigit(t[|t| - 1])
  {
    if |t| > 0 && (t[0] == '-' || t[0] == '+') then
      var body := t[1..];
      if WellFormedDigits(body) then
        var magnitude: int := DigitsValue(body);
        Some(if t[0] == '-' then -magnitude else magnitude)
      else None
    else if WellFormedDigits(t) then Some(DigitsValue(t))
    else None
  }

  /** Decimal digits of `n` (Python's `str(n)` for a non-negative int). */
  function Decimal(n: nat): (s: string)
    ensures |s| > 0 && forall i :: 0 <= i < |s| ==> IsDigit(s[i])
  {
    var d := ['0' + (n % 10) as char];
    if n < 10 then d else Decimal(n / 10) + d
  }

  lemma {:induction false} DigitsValueOfDecimal(n: nat)
    ensures DigitsValue(Decimal(n)) == n
  {
    var s := Decimal(n);
    if n >= 10 {
      DigitsValueOfDecimal(n / 10);
      assert s[..|s| - 1] == Decimal(n / 10);
    }
  }

  /** `int(str(n)) == n`: the id text a writer produces reads back as its id. */
  lemma ParseIntOfDecimal(n: nat)
    ensures ParseInt(Decimal(n)) == Some(n)
  {
    var s := Decimal(n);
    assert StripLeft(s) == s;
    assert StripRight(s) == s;
    DigitsValueOfDecimal(n);
  }

  lemma SplitFirstAfterDigits(n: nat, rest: string)
    ensures SplitFirst(Decimal(n) + ";" + rest, ';') == Some((Decimal(n), rest))
  {
    assert ';' !in Decimal(n);
    SplitAtFirst(Decimal(n), ';', rest);
  }

  /** The information separators \x1c-\x1f are not whitespace to `int()`:
      a text that starts with one raises, whatever follows it. */
  lemma SeparatorRaises(c: char, rest: string)
    requires '\U{1C}' <= c <= '\U{1F}'
    ensures ParseInt([c] + rest) == None
  {
    var s := [c] + rest;
    assert StripLeft(s) == s;
    var t := StripRight(s);
    if |t| > 0 {
      assert t[0] == c;
      assert !IsDigit(t[0]);
    }
  }

  /** `split(sep, 1)` cuts at the first `sep`: text without `sep`, then `sep`,
      then anything, splits back into those two parts. */
  lemma SplitAtFirst(a: string, sep: char, b: string)
    requires sep !in a
    ensures SplitFirst(a + [sep] + b, sep) == Some((a, b))
  {
    var s := a + [sep] + b;
    assert s[|a|] == sep;
    var r := SplitFirst(s, sep);
    var (x, y) := r.value;
    assert x == s[..|a|] == a;
    assert y == s[|a| + 1..] == b;
  }

  predicate AllSpace(s: string) {
    forall i :: 0 <= i < |s| ==> IsSpace(s[i])
  }

  /** The sign `int()` accepts in front of the digits: none, `+` or `-`. */
  predicate IsSign(sign: string) {
    sign == "" || sign == "+" || sign == "-"
  }

  /** The integer a sign and a digit string denote. */
  function Signed(sign: string, digits: string): int
    requires IsSign(sign) && WellFormedDigits(digits)
  {
    if sign == "-" then -(DigitsValue(digits) as int) else DigitsValue(digits)
  }

  /** Leading whitespace in front of a non-space is stripped, and only that. */
  lemma StripLeftSpaces(pre: string, x: string)
    requires AllSpace(pre) && |x| > 0 && !IsSpace(x[0])
    ensures StripLeft(pre + x) == x
  {
    var s := pre + x;
    var r := StripLeft(s);
    assert |r| <= |x| by {
      assert forall k :: 0 <= k < |pre| ==> s[k] == pre[k];
      assert |r| > 0 ==> r[0] == s[|s| - |r|];
    }
    assert |r| >= |x| by {
      assert s[|pre|] == x[0];
    }
    assert r == s[|pre|..];
  }

  /** Trailing whitespace after a non-space is stripped, and only that. */
  lemma StripRightSpaces(x: string, post: string)
    requires AllSpace(post) && |x| > 0 && !IsSpace(x[|x| - 1])
    ensures StripRight(x + post) == x
  {
    var s := x + post;
    var r := StripRight(s);
    assert |r| <= |x| by {
      assert forall k :: |x| <= k < |s| ==> s[k] == post[k - |x|];
      assert |r| > 0 ==> r[|r| - 1] == s[|r| - 1];
    }
    assert |r| >= |x| by {
      assert s[|x| - 1] == x[|x| - 1];
    }
    assert r == s[..|x|];
  }

  /** `int()` accepts digits with single underscores, after an optional sign,
      between any whitespace, and gives the signed value. */
  lemma ParseIntAccepts(pre: string, sign: string, digits: string, post: string)
    requires AllSpace(pre) && AllSpace(post) && IsSign(sign) && WellFormedDigits(digits)
    ensures ParseInt(pre + sign + digits + post) == Some(Signed(sign, digits))
  {
    var core := sign + digits;
    var text := pre + sign + digits + post;
    AppendAssociative(pre, sign, digits);
    AppendAssociative(pre, core, post);
    assert (core + post)[0] == core[0];
    StripLeftSpaces(pre, core + post);
    assert core[|core| - 1] == digits[|digits| - 1];
    StripRightSpaces(core, post);
    ParseStrippedSigned(sign, digits);
  }

  /** `int()` on a stripped text that is a sign and well-formed digits. */
  lemma ParseStrippedSigned(sign: string, digits: string)
    requires IsSign(sign) && WellFormedDigits(digits)
    ensures ParseStripped(sign + digits) == Some(Signed(sign, digits))
  {
    var t := sign + digits;
    if sign == "" {
      assert t == digits && !(t[0] == '-' || t[0] == '+');
    } else {
      assert t[0] == sign[0] && t[1..] == digits;
      assert sign == "-" <==> sign[0] == '-';
    }
  }

  /** Conversely, `int()` accepts nothing else: a text it reads is whitespace,
      an optional sign, well-formed digits and whitespace, and the value is
      the signed value of those digits. */
  lemma ParseIntSound(text: string)
    requires ParseInt(text).Some?
    ensures exists pre, sign, digits, post ::
      && text == pre + sign + digits + post
      && AllSpace(pre) && AllSpace(post) && IsSign(sign) && WellFormedDigits(digits)
      && ParseInt(text) == Some(Signed(sign, digits))
  {
    var pre, sign, digits, post := ParseIntParts(text);
  }

  /** The whitespace, sign, digits and whitespace of a text `int()` reads. */
  lemma ParseIntParts(text: string) returns (pre: string, sign: string, digits: string, post: string)
    requires ParseInt(text).Some?
    ensures text == pre + sign + digits + post
    ensures AllSpace(pre) && AllSpace(post) && IsSign(sign) && WellFormedDigits(digits)
    ensures ParseInt(text) == Some(Signed(sign, digits))
  {
    var t := StripRight(StripLeft(text));
    pre, post := StripSplit(text);
    sign, digits := StrippedSplit(t);
    Regroup(text, pre, t, post, sign, digits);
  }

  /** Stripping removes whitespace at both ends and nothing else. */
  lemma StripSplit(text: string) returns (pre: string, post: string)
    ensures text == pre + StripRight(StripLeft(text)) + post
    ensures AllSpace(pre) && AllSpace(post)
  {
    pre := StripLeftSplit(text);
    post := StripRightSplit(StripLeft(text));
    AppendAssociative(pre, StripRight(StripLeft(text)), post);
  }

  lemma StripLeftSplit(s: string) returns (pre: string)
    ensures s == pre + StripLeft(s) && AllSpace(pre)
  {
    var r := StripLeft(s);
    pre := s[..|s| - |r|];
    assert forall i :: 0 <= i < |pre| ==> pre[i] == s[i];
  }

  lemma StripRightSplit(s: string) returns (post: string)
    ensures s == StripRight(s) + post && AllSpace(post)
  {
    var r := StripRight(s);
    post := s[|r|..];
    assert forall i :: 0 <= i < |post| ==> post[i] == s[|r| + i];
  }


  lemma Regroup(text: string, pre: string, t: string, post: string, sign: string, digits: string)
    requires text == pre + t + post && t == sign + digits
    ensures text == pre + sign + digits + post
  {
  }

  /** A stripped text `int()` reads splits into its sign and its digits. */
  lemma StrippedSplit(t: string) returns (sign: string, digits: string)
    requires ParseStripped(t).Some?
    ensures t == sign + digits && IsSign(sign) && WellFormedDigits(digits)
    ensures ParseStripped(t) == Some(Signed(sign, digits))
  {
    if t[0] == '-' || t[0] == '+' {
      sign, digits := t[..1], t[1..];
      assert sign == [t[0]];
      assert sign == "-" <==> t[0] == '-';
      assert sign == "+" <==> t[0] == '+';
    } else {
      sign, digits := "", t;
    }
  }
}
