/** C characters and strings: what isspace, strcmp, %d and atoi mean for the programs modelled here.
    A C string is a sequence of characters; reading the byte at index |s| reads its terminator. */
module CText {

  datatype Option<+T> = None | Some(value: T)

  /** isspace in the "C" locale: blank, tab, newline, vertical tab, form feed, carriage return. */
  predicate IsSpace(c: char) {
    c == ' ' || '\t' <= c <= '\r'
  }

  /** Without the white space it starts with. */
  function Trim(t: string): (r: string)
    ensures |r| <= |t| && (r != "" ==> !IsSpace(r[0]))
  {
    if t != "" && IsSpace(t[0]) then Trim(t[1..]) else t
  }

  ghost predicate NoSpace(s: string) {
    forall i | 0 <= i < |s| :: !IsSpace(s[i])
  }

  /** A word is a non-empty string without white space. */
  ghost predicate Word(s: string) {
    s != [] && NoSpace(s)
  }

  function Sign(n: int): int {
    if n < 0 then -1 else if n > 0 then 1 else 0
  }

  /** strcmp: the sign of the first difference, the terminator being smaller than any character. */
  function StrCmp(a: string, b: string): int {
    if a == [] && b == [] then 0
    else if a == [] then -1
    else if b == [] then 1
    else if a[0] < b[0] then -1
    else if a[0] > b[0] then 1
    else StrCmp(a[1..], b[1..])
  }

  lemma {:induction false} StrCmpEqual(a: string, b: string)
    ensures StrCmp(a, b) == 0 <==> a == b
  {
    if a != [] && b != [] && a[0] == b[0] {
      StrCmpEqual(a[1..], b[1..]);
      assert a == [a[0]] + a[1..] && b == [b[0]] + b[1..];
    }
  }

  lemma {:induction false} StrCmpSwap(a: string, b: string)
    ensures StrCmp(a, b) == -StrCmp(b, a)
  {
    if a != [] && b != [] && a[0] == b[0] {
      StrCmpSwap(a[1..], b[1..]);
    }
  }

  lemma {:induction false} StrCmpTransitive(a: string, b: string, c: string)
    requires StrCmp(a, b) <= 0 && StrCmp(b, c) <= 0
    ensures StrCmp(a, c) <= 0
    ensures StrCmp(a, b) < 0 || StrCmp(b, c) < 0 ==> StrCmp(a, c) < 0
  {
    if a != [] && b != [] && c != [] && a[0] == b[0] == c[0] {
      StrCmpTransitive(a[1..], b[1..], c[1..]);
    }
  }

  /** The strings differ at k for the first time, and a has the smaller character there. */
  ghost predicate SmallerAt(a: string, b: string, k: nat) {
    k < |a| && k < |b| && a[..k] == b[..k] && a[k] < b[k]
  }

  /** a stands before b in a dictionary. */
  ghost predicate Before(a: string, b: string) {
    a < b || exists k :: SmallerAt(a, b, k)
  }

  /** strcmp is negative exactly for a proper prefix, or when the first difference is a smaller character. */
  lemma {:induction false} StrCmpIsDictionary(a: string, b: string)
    ensures StrCmp(a, b) < 0 <==> Before(a, b)
  {
    if a != [] && b != [] && a[0] == b[0] {
      StrCmpIsDictionary(a[1..], b[1..]);
      assert a == [a[0]] + a[1..] && b == [b[0]] + b[1..];
      if k: nat :| SmallerAt(a[1..], b[1..], k) {
        assert a[..k + 1] == [a[0]] + a[1..][..k] && b[..k + 1] == [b[0]] + b[1..][..k];
        assert SmallerAt(a, b, k + 1);
      }
      if k: nat :| SmallerAt(a, b, k) {
        assert k > 0;
        assert a[1..][..k - 1] == a[..k][1..] && b[1..][..k - 1] == b[..k][1..];
        assert SmallerAt(a[1..], b[1..], k - 1);
      }
    } else if a != [] && b != [] {
      assert a[0] < b[0] ==> SmallerAt(a, b, 0);
      forall k: nat | SmallerAt(a, b, k) ensures k == 0 || a[0] == b[0] {
        SameStart(a, b, k);
      }
    }
  }

  lemma SameStart(a: string, b: string, k: nat)
    requires SmallerAt(a, b, k)
    ensures k == 0 || a[0] == b[0]
  {
    if k > 0 {
      assert a[..k][0] == b[..k][0];
    }
  }

  // A pointer that moves on by one character.

  lemma Tail(s: string, p: nat)
    requires p < |s|
    ensures s[p..][1..] == s[p + 1..] && s[p..][0] == s[p] && s[p..] != ""
  {
  }

  lemma Taken(a: string, c: char, b: string)
    ensures a + ([c] + b) == (a + [c]) + b
  {
  }

  predicate IsDigit(c: char) {
    '0' <= c <= '9'
  }

  function Digit(d: nat): char
    requires d < 10
  {
    "0123456789"[d]
  }

  function DigitValue(c: char): nat
    requires IsDigit(c)
  {
    (c - '0') as int
  }

  function Digits(n: nat): string {
    if n < 10 then [Digit(n)] else Digits(n / 10) + [Digit(n % 10)]
  }

  /** What fprintf writes for %d. */
  function Decimal(n: int): string {
    if n < 0 then "-" + Digits(-n) else Digits(n)
  }

  /** The number the leading digits of s spell, counting on from acc. */
  function DigitsValue(s: string, acc: nat): nat {
    if s == [] || !IsDigit(s[0]) then acc
    else DigitsValue(s[1..], 10 * acc + DigitValue(s[0]))
  }

  /** atoi: white space, an optional sign, then digits up to the first other character. */
  function Atoi(s: string): int {
    if s == [] then 0
    else if IsSpace(s[0]) then Atoi(s[1..])
    else if s[0] == '-' then -(DigitsValue(s[1..], 0) as int)
    else if s[0] == '+' then DigitsValue(s[1..], 0)
    else DigitsValue(s, 0)
  }

  lemma DigitsAreDigits(n: nat)
    ensures Digits(n) != []
    ensures forall i | 0 <= i < |Digits(n)| :: IsDigit(Digits(n)[i])
  {
    if n >= 10 {
      DigitsAreDigits(n / 10);
    }
  }

  lemma {:induction false} DigitsValueAppend(s: string, c: char, acc: nat)
    requires forall i | 0 <= i < |s| :: IsDigit(s[i])
    requires IsDigit(c)
    ensures DigitsValue(s + [c], acc) == 10 * DigitsValue(s, acc) + DigitValue(c)
    decreases |s|
  {
    if s == [] {
      assert DigitsValue([c], acc) == DigitsValue([c][1..], 10 * acc + DigitValue(c));
    } else {
      assert (s + [c])[1..] == s[1..] + [c];
      DigitsValueAppend(s[1..], c, 10 * acc + DigitValue(s[0]));
    }
  }

  lemma {:induction false} DigitsRoundTrip(n: nat)
    ensures DigitsValue(Digits(n), 0) == n
  {
    if n >= 10 {
      DigitsRoundTrip(n / 10);
      DigitsAreDigits(n / 10);
      DigitsValueAppend(Digits(n / 10), Digit(n % 10), 0);
    }
  }

  lemma DecimalRoundTrip(n: int)
    ensures Word(Decimal(n))
    ensures Atoi(Decimal(n)) == n
  {
    var m := if n < 0 then -n else n;
    DigitsAreDigits(m);
    DigitsRoundTrip(m);
    assert n < 0 ==> Decimal(n)[1..] == Digits(m);
    assert forall i | 0 <= i < |Digits(m)| :: !IsSpace(Digits(m)[i]);
  }

  lemma {:induction false} DigitsValueStops(s: string, rest: string, acc: nat)
    requires (forall i | 0 <= i < |s| :: IsDigit(s[i])) && (rest == "" || !IsDigit(rest[0]))
    ensures DigitsValue(s + rest, acc) == DigitsValue(s, acc)
    decreases |s|
  {
    if s == [] {
      assert s + rest == rest;
    } else {
      assert (s + rest)[1..] == s[1..] + rest;
      DigitsValueStops(s[1..], rest, 10 * acc + DigitValue(s[0]));
    }
  }

  ghost predicate Blank(s: string) {
    forall i | 0 <= i < |s| :: IsSpace(s[i])
  }

  lemma {:induction false} TrimSkips(blanks: string, t: string)
    requires Blank(blanks)
    ensures Trim(blanks + t) == Trim(t)
  {
    if blanks == "" {
      assert blanks + t == t;
    } else {
      assert (blanks + t)[1..] == blanks[1..] + t;
      TrimSkips(blanks[1..], t);
    }
  }

  lemma {:induction false} AtoiSkips(blanks: string, t: string)
    requires Blank(blanks)
    ensures Atoi(blanks + t) == Atoi(t)
  {
    if blanks == "" {
      assert blanks + t == t;
    } else {
      assert (blanks + t)[1..] == blanks[1..] + t;
      AtoiSkips(blanks[1..], t);
    }
  }

  /** atoi reads the number that blanks and a sign may precede and anything but a digit may follow. */
  lemma AtoiReads(blanks: string, sign: string, n: nat, rest: string)
    requires Blank(blanks) && sign in {"", "-", "+"} && (rest == "" || !IsDigit(rest[0]))
    ensures Atoi(blanks + (sign + (Digits(n) + rest))) == if sign == "-" then -1 * n else n
  {
    var t := Digits(n) + rest;
    AtoiSkips(blanks, sign + t);
    DigitsAreDigits(n);
    DigitsRoundTrip(n);
    DigitsValueStops(Digits(n), rest, 0);
    assert t[0] == Digits(n)[0];
    if sign == "" {
      assert sign + t == t;
    } else {
      assert (sign + t)[1..] == t;
    }
  }

  /** For instance. */
  lemma NumbersAreDecimal()
    ensures Decimal(98) == "98" && Decimal(-70) == "-70" && Atoi(" \t+98 F") == 98 && Atoi("-70") == -70
  {
    hide Atoi, DigitsValue;
    assert Digits(9) == "9" && Digits(7) == "7";
    assert Digits(98) == "98" && Digits(70) == "70";
    AtoiReads(" \t", "+", 98, " F");
    AtoiReads("", "-", 70, "");
    assert " \t" + ("+" + ("98" + " F")) == " \t+98 F";
    assert "" + ("-" + ("70" + "")) == "-70";
  }

  /** The white space of the "C" locale. */
  lemma SpacesAre(c: char)
    ensures IsSpace(c) <==> c in " \t\n\r" || c == '\U{0B}' || c == '\U{0C}'
  {
  }
}
