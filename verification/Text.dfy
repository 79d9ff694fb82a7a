/** The string operations SDP attribute parsing uses, with the facts a printer needs about them. */
module Text {
  import opened Bytes

  /** Unicode white space. */
  predicate IsSpace(c: char) {
    || c in {'\t', '\n', '\U{0B}', '\U{0C}', '\r', ' ', '\U{85}', '\U{A0}', '\U{1680}'}
    || '\U{2000}' <= c <= '\U{200A}'
    || c in {'\U{2028}', '\U{2029}', '\U{202F}', '\U{205F}', '\U{3000}'}
  }

  function TrimLeft(s: string): (r: string)
    ensures r == [] || !IsSpace(r[0])
    ensures |r| <= |s|
  {
    if s != [] && IsSpace(s[0]) then TrimLeft(s[1..]) else s
  }

  function TrimRight(s: string): (r: string)
    ensures r == [] || !IsSpace(r[|r| - 1])
    ensures |r| <= |s|
  {
    if s != [] && IsSpace(s[|s| - 1]) then TrimRight(s[..|s| - 1]) else s
  }

  predicate Trimmed(s: string) {
    s == [] || (!IsSpace(s[0]) && !IsSpace(s[|s| - 1]))
  }

  function TrimSpace(s: string): (r: string)
    ensures Trimmed(r)
    ensures forall c | c in r :: c in s
    ensures Trimmed(s) ==> r == s
  {
    TrimLeftTakes(s);
    TrimRightTakes(TrimLeft(s));
    TrimRight(TrimLeft(s))
  }

  /** Of the ASCII characters, tab to carriage return and the blank are white space. */
  lemma {:induction false} AsciiSpaces()
    ensures forall c: char | c as int < 0x80 :: IsSpace(c) <==> 9 <= c as int <= 13 || c as int == 32
  {
  }

  predicate AllSpace(s: string) {
    forall i | 0 <= i < |s| :: IsSpace(s[i])
  }

  lemma {:induction false} TrimLeftSkips(a: string, s: string)
    requires AllSpace(a)
    ensures TrimLeft(a + s) == TrimLeft(s)
  {
    hide IsSpace, TrimLeft;
    if a == [] {
      assert a + s == s;
    } else {
      assert IsSpace(a[0]) && AllSpace(a[1..]);
      hide AllSpace;
      TrimLeftSkips(a[1..], s);
      var t := a + s;
      assert t[1..] == a[1..] + s;
      SpaceFirst(t);
    }
  }

  lemma {:induction false} SpaceFirst(t: string)
    requires t != [] && IsSpace(t[0])
    ensures TrimLeft(t) == TrimLeft(t[1..])
  {
  }

  lemma {:induction false} TrimRightSkips(s: string, b: string)
    requires AllSpace(b)
    ensures TrimRight(s + b) == TrimRight(s)
  {
    hide IsSpace;
    if b == [] {
      assert s + b == s;
    } else {
      var t := s + b;
      assert IsSpace(b[|b| - 1]) && AllSpace(b[..|b| - 1]);
      hide AllSpace;
      TrimRightSkips(s, b[..|b| - 1]);
      assert t[|t| - 1] == b[|b| - 1] && t[..|t| - 1] == s + b[..|b| - 1];
    }
  }

  /** Trimming takes white space off both ends until there is none. */
  lemma {:induction false} TrimmedOff(a: string, r: string, b: string)
    requires AllSpace(a) && AllSpace(b) && Trimmed(r)
    ensures TrimSpace(a + r + b) == r
  {
    hide IsSpace;
    assert a + r + b == a + (r + b);
    TrimLeftSkips(a, r + b);
    if r == [] {
      assert r + b == b && b + [] == b;
      TrimLeftSkips(b, []);
    } else {
      assert TrimLeft(r + b) == r + b;
      TrimRightSkips(r, b);
    }
  }

  lemma {:induction false} TrimLeftTakes(s: string)
    ensures TrimLeft(s) == s[|s| - |TrimLeft(s)|..] && AllSpace(s[..|s| - |TrimLeft(s)|])
  {
    hide IsSpace;
    if s != [] && IsSpace(s[0]) {
      assert TrimLeft(s) == TrimLeft(s[1..]);
      TrimLeftTakes(s[1..]);
      assert s[..|s| - |TrimLeft(s)|] == [s[0]] + s[1..][..|s| - 1 - |TrimLeft(s)|];
    }
  }

  lemma {:induction false} TrimRightTakes(s: string)
    ensures TrimRight(s) == s[..|TrimRight(s)|] && AllSpace(s[|TrimRight(s)|..])
  {
    hide IsSpace;
    if s != [] && IsSpace(s[|s| - 1]) {
      TrimRightTakes(s[..|s| - 1]);
      assert s[|TrimRight(s)|..] == s[..|s| - 1][|TrimRight(s)|..] + [s[|s| - 1]];
    }
  }

  lemma {:induction false} TrimSpaceTakes(s: string) returns (a: string, b: string)
    ensures AllSpace(a) && AllSpace(b) && s == a + TrimSpace(s) + b
  {
    hide IsSpace, TrimLeft, TrimRight, AllSpace;
    var t := TrimLeft(s);
    TrimLeftTakes(s);
    TrimRightTakes(t);
    a, b := s[..|s| - |t|], t[|TrimRight(t)|..];
  }

  /** White space added at either end makes no difference. */
  lemma {:induction false} TrimPadded(a: string, s: string, b: string)
    requires AllSpace(a) && AllSpace(b)
    ensures TrimSpace(a + s + b) == TrimSpace(s)
  {
    hide IsSpace, TrimSpace;
    var x, y := TrimSpaceTakes(s);
    var r := TrimSpace(s);
    TrimmedOff(a + x, r, y + b);
    Regroup(a, x, r, y, b);
  }

  lemma {:induction false} Regroup(a: string, x: string, r: string, y: string, b: string)
    ensures a + (x + r + y) + b == (a + x) + r + (y + b)
  {
  }

  /** The parts around the first separator. */
  function Cut(s: string, sep: char): (r: Option<(string, string)>)
    ensures r.Some? ==> s == r.value.0 + [sep] + r.value.1 && sep !in r.value.0
    ensures r.None? <==> sep !in s
  {
    if s == [] then None
    else if s[0] == sep then Some(([], s[1..]))
    else
      var rest := Cut(s[1..], sep);
      if rest.None? then None else Some(([s[0]] + rest.value.0, rest.value.1))
  }

  lemma {:induction false} CutJoined(a: string, sep: char, b: string)
    requires sep !in a
    ensures Cut(a + [sep] + b, sep) == Some((a, b))
  {
    var s := a + [sep] + b;
    if a == [] {
      assert s == [sep] + b;
    } else {
      CutJoined(a[1..], sep, b);
      assert s[0] == a[0] && s[1..] == a[1..] + [sep] + b;
      assert [a[0]] + a[1..] == a;
    }
  }

  function Split(s: string, sep: char): (r: seq<string>)
    ensures r != []
    decreases |s|
  {
    var cut := Cut(s, sep);
    if cut.None? then [s]
    else
      assert |s| == |cut.value.0| + 1 + |cut.value.1|;
      [cut.value.0] + Split(cut.value.1, sep)
  }

  function Join(parts: seq<string>, sep: char): string {
    if parts == [] then []
    else if |parts| == 1 then parts[0]
    else parts[0] + [sep] + Join(parts[1..], sep)
  }

  lemma {:induction false} SplitJoined(parts: seq<string>, sep: char)
    requires parts != [] && forall p | p in parts :: sep !in p
    ensures Split(Join(parts, sep), sep) == parts
    decreases |parts|
  {
    if |parts| == 1 {
      assert parts == [parts[0]];
    } else {
      CutJoined(parts[0], sep, Join(parts[1..], sep));
      SplitJoined(parts[1..], sep);
    }
  }

  lemma {:induction false} SplitParts(s: string, sep: char)
    ensures forall p | p in Split(s, sep) :: sep !in p
    decreases |s|
  {
    var cut := Cut(s, sep);
    if cut.Some? {
      assert |s| == |cut.value.0| + 1 + |cut.value.1|;
      SplitParts(cut.value.1, sep);
    }
  }

  /** Lower case, as far as the result can be ASCII. */
  function Lower(c: char): char {
    if 'A' <= c <= 'Z' then (c as int - 'A' as int + 'a' as int) as char
    else if c == '\U{130}' then 'i'
    else if c == '\U{212A}' then 'k'
    else c
  }

  function ToLower(s: string): (r: string)
    ensures |r| == |s| && forall i | 0 <= i < |s| :: r[i] == Lower(s[i])
  {
    seq(|s|, i requires 0 <= i < |s| => Lower(s[i]))
  }

  function LowerAscii(c: char): char {
    if 'A' <= c <= 'Z' then (c as int - 'A' as int + 'a' as int) as char else c
  }

  /** Case-insensitive equality with a word none of whose letters folds outside ASCII. */
  predicate EqualFold(s: string, word: string) {
    |s| == |word| && forall i | 0 <= i < |s| :: LowerAscii(s[i]) == LowerAscii(word[i])
  }

  lemma {:induction false} LowerTo(c: char, d: char)
    requires 'a' <= d <= 'z' || d == '-'
    ensures Lower(c) == d <==>
            || c == d
            || ('a' <= d && c == "ABCDEFGHIJKLMNOPQRSTUVWXYZ"[d as int - 'a' as int])
            || (d == 'i' && c as int == 0x130) || (d == 'k' && c as int == 0x212A)
  {
    assert d != '-' ==>
        "ABCDEFGHIJKLMNOPQRSTUVWXYZ"[d as int - 'a' as int] as int == d as int - 32;
  }

  /** The spellings of the two words that are compared regardless of case. */
  lemma {:induction false} SameWord(s: string)
    ensures EqualFold(s, "video") <==>
            |s| == 5 && s[0] in "vV" && s[1] in "iI" && s[2] in "dD" && s[3] in "eE" && s[4] in "oO"
    ensures EqualFold(s, "H264") <==> |s| == 4 && s[0] in "hH" && s[1..] == "264"
  {
    if |s| == 4 {
      assert s[1..] == [s[1], s[2], s[3]];
    }
  }

  // ---------------------------------------------------------------- decimal integers

  predicate IsDigit(c: char) {
    '0' <= c <= '9'
  }

  function Digits(n: nat): (s: string)
    ensures s != [] && forall c | c in s :: IsDigit(c)
  {
    if n < 10 then [(n + '0' as int) as char] else Digits(n / 10) + [(n % 10 + '0' as int) as char]
  }

  function Itoa(n: int): string {
    if n < 0 then ['-'] + Digits(-n) else Digits(n)
  }

  function DigitsValue(s: string): (v: nat)
    requires forall c | c in s :: IsDigit(c)
  {
    if s == [] then 0
    else
      assert IsDigit(s[|s| - 1]);
      DigitsValue(s[..|s| - 1]) * 10 + (s[|s| - 1] as int - '0' as int)
  }

  const MIN_INT := -0x8000_0000_0000_0000
  const MAX_INT := 0x7FFF_FFFF_FFFF_FFFF

  /** An optional sign and decimal digits, within 64 bits. */
  function Atoi(s: string): Option<int> {
    var signed := s != [] && (s[0] == '+' || s[0] == '-');
    var digits := if signed then s[1..] else s;
    if digits == [] || exists c :: c in digits && !IsDigit(c) then None
    else
      var v: int := if s[0] == '-' then -(DigitsValue(digits) as int) else DigitsValue(digits);
      if MIN_INT <= v <= MAX_INT then Some(v) else None
  }

  lemma {:induction false} DigitsRoundTrip(n: nat)
    ensures DigitsValue(Digits(n)) == n
  {
    if n < 10 {
      assert Digits(n)[..0] == [];
    } else {
      DigitsRoundTrip(n / 10);
      assert Digits(n)[..|Digits(n)| - 1] == Digits(n / 10);
    }
  }

  lemma {:induction false} ItoaRoundTrip(n: int)
    requires MIN_INT <= n <= MAX_INT
    ensures Atoi(Itoa(n)) == Some(n)
    ensures Trimmed(Itoa(n)) && ' ' !in Itoa(n) && ';' !in Itoa(n)
  {
    hide Atoi, Digits, DigitsValue, IsSpace;
    var d := Digits(if n < 0 then -n else n);
    DigitsRoundTrip(if n < 0 then -n else n);
    AtoiSigned(Itoa(n), if n < 0 then "-" else "", d);
    assert d[0] in d && d[|d| - 1] in d;
    DigitsAreNoSpace();
  }

  lemma {:induction false} DigitsAreNoSpace()
    ensures forall c | IsDigit(c) || c == '-' :: !IsSpace(c)
  {
  }

  /** The decimal digits of a number, without leading zeros. */
  lemma {:induction false} DigitsAre(n: nat)
    ensures n < 10 ==> Digits(n) == ["0123456789"[n]]
    ensures n >= 10 ==> Digits(n) == Digits(n / 10) + ["0123456789"[n % 10]]
    ensures n > 0 ==> Digits(n)[0] != '0'
  {
    if n >= 10 {
      DigitsAre(n / 10);
    }
  }

  predicate AllZeros(s: string) {
    forall i | 0 <= i < |s| :: s[i] == '0'
  }

  lemma {:induction false} LeadingZeros(zeros: string, n: nat)
    requires AllZeros(zeros)
    ensures forall c | c in zeros + Digits(n) :: IsDigit(c)
    ensures DigitsValue(zeros + Digits(n)) == n
    decreases n
  {
    var s := zeros + Digits(n);
    assert s[..|s| - 1] == zeros + Digits(n)[..|Digits(n)| - 1];
    if n < 10 {
      assert s[..|s| - 1] == zeros;
      ZerosAreNothing(zeros);
    } else {
      assert Digits(n)[..|Digits(n)| - 1] == Digits(n / 10);
      LeadingZeros(zeros, n / 10);
    }
  }

  lemma {:induction false} ZerosAreNothing(zeros: string)
    requires AllZeros(zeros)
    ensures DigitsValue(zeros) == 0
  {
    if zeros != [] {
      ZerosAreNothing(zeros[..|zeros| - 1]);
    }
  }

  lemma {:induction false} AllDigits(d: string) returns (zeros: string)
    requires d != [] && forall c | c in d :: IsDigit(c)
    ensures AllZeros(zeros) && d == zeros + Digits(DigitsValue(d))
    decreases |d|
  {
    hide Digits, DigitsValue;
    var last, before := d[|d| - 1], d[..|d| - 1];
    assert last in d && d == before + [last];
    LastDigit(before, last);
    if before == [] {
      zeros := [];
    } else {
      var z := AllDigits(before);
      zeros := if DigitsValue(before) == 0 then z + ['0'] else z;
    }
  }

  /** A digit appended to a number. */
  lemma {:induction false} LastDigit(before: string, last: char)
    requires IsDigit(last) && forall c | c in before :: IsDigit(c)
    ensures
      var v, n := DigitsValue(before), DigitsValue(before + [last]);
      && (before == [] ==> v == 0)
      && (v == 0 ==> Digits(n) == [last] && Digits(v) == ['0'])
      && (v > 0 ==> Digits(n) == Digits(v) + [last])
  {
    hide Digits;
    var v, n := DigitsValue(before), DigitsValue(before + [last]);
    assert (before + [last])[..|before|] == before;
    DigitsAre(n);
    DigitsAre(v);
    assert "0123456789"[last as int - '0' as int] == last;
    if v > 0 {
      assert n / 10 == v && n % 10 == last as int - '0' as int;
    }
  }

  /** Whether s writes n: perhaps a sign, perhaps zeros, and its digits. */
  predicate Writes(s: string, sign: string, zeros: string, n: int) {
    && s == sign + zeros + Digits(if n < 0 then -n else n) && AllZeros(zeros)
    && ((sign == "-" && n <= 0) || (sign in {"", "+"} && n >= 0))
  }

  lemma {:induction false} AtoiSigned(s: string, sign: string, digits: string)
    requires s == sign + digits && sign in {"", "+", "-"}
    requires digits != [] && forall c | c in digits :: IsDigit(c)
    ensures
      var n: int := if sign == "-" then -(DigitsValue(digits) as int) else DigitsValue(digits);
      Atoi(s) == if -0x8000_0000_0000_0000 <= n < 0x8000_0000_0000_0000 then Some(n) else None
  {
    hide DigitsValue;
    assert IsDigit(digits[0]) by {
      assert digits[0] in digits;
    }
    if sign == "" {
      assert s == digits;
    } else {
      assert |sign| == 1 && s[0] == sign[0] && s[1..] == digits;
    }
  }

  lemma {:induction false} AtoiSplits(s: string) returns (sign: string, digits: string)
    requires Atoi(s).Some?
    ensures s == sign + digits && sign in {"", "+", "-"}
    ensures digits != [] && forall c | c in digits :: IsDigit(c)
  {
    hide DigitsValue;
    var signed := s[0] == '+' || s[0] == '-';
    sign, digits := if signed then [s[0]] else "", if signed then s[1..] else s;
  }

  lemma {:induction false} ValueWritten(sign: string, zeros: string, n: int)
    requires Writes(sign + zeros + Digits(if n < 0 then -n else n), sign, zeros, n)
    ensures
      var digits := zeros + Digits(if n < 0 then -n else n);
      && digits != [] && (forall c | c in digits :: IsDigit(c))
      && n == if sign == "-" then -(DigitsValue(digits) as int) else DigitsValue(digits)
  {
    LeadingZeros(zeros, if n < 0 then -n else n);
  }

  /** Exactly the 64-bit integers are read, in exactly these forms. */
  lemma {:induction false} AtoiExact(s: string, n: int)
    ensures Atoi(s) == Some(n) <==>
            && -0x8000_0000_0000_0000 <= n < 0x8000_0000_0000_0000
            && exists sign, zeros :: Writes(s, sign, zeros, n)
  {
    hide Atoi, DigitsValue, Digits, AllZeros;
    if Atoi(s) == Some(n) {
      var sign, digits := AtoiSplits(s);
      AtoiSigned(s, sign, digits);
      var zeros := AllDigits(digits);
      assert sign + digits == sign + zeros + Digits(DigitsValue(digits));
      assert Writes(s, sign, zeros, n);
    }
    if sign, zeros :| Writes(s, sign, zeros, n) {
      ValueWritten(sign, zeros, n);
      var digits := zeros + Digits(if n < 0 then -n else n);
      assert s == sign + digits;
      AtoiSigned(s, sign, digits);
    }
  }
}
