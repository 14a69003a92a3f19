/** The string primitives the core relies on, with Python 2 `str`
    semantics: whitespace, `strip`, `split`, `join`, ordering of strings and
    `int()` on a decimal literal. */
module Text {
  import opened Wrappers

  /** Python 2 `str.isspace` on one character: tab, newline, vertical tab,
      form feed, carriage return and space. */
  predicate IsSpace(c: char) {
    c == ' ' || '\t' <= c <= '\r'
  }

  predicate NoSpace(s: string) {
    forall i :: 0 <= i < |s| ==> !IsSpace(s[i])
  }

  predicate AllSpace(s: string) {
    forall i :: 0 <= i < |s| ==> IsSpace(s[i])
  }

  /** A word that `str.split()` can return: non-empty and free of whitespace. */
  predicate IsToken(s: string) {
    s != [] && NoSpace(s)
  }

  /** `s.lstrip()`: drops the leading whitespace. */
  function TrimLeft(s: string): (r: string)
    ensures |r| <= |s|
    ensures r == [] || !IsSpace(r[0])
  {
    if s != [] && IsSpace(s[0]) then TrimLeft(s[1..]) else s
  }

  /** The leading run of non-whitespace characters of `s`. */
  function TakeWord(s: string): (w: string)
    ensures |w| <= |s| && NoSpace(w)
    ensures s != [] && !IsSpace(s[0]) ==> w != []
  {
    if s == [] || IsSpace(s[0]) then [] else [s[0]] + TakeWord(s[1..])
  }

  /** Python 2 `s.split()` with no separator: the maximal runs of
      non-whitespace characters, in order; never an empty word. */
  function Split(s: string): (r: seq<string>)
    ensures forall i :: 0 <= i < |r| ==> IsToken(r[i])
    decreases |s|
  {
    var t := TrimLeft(s);
    if t == [] then []
    else
      var w := TakeWord(t);
      [w] + Split(t[|w|..])
  }

  /** `sep.join(ws)`. */
  function Join(ws: seq<string>, sep: string): string {
    if ws == [] then ""
    else if |ws| == 1 then ws[0]
    else ws[0] + sep + Join(ws[1..], sep)
  }

  lemma {:induction false} TakeWordOfToken(w: string, rest: string)
    requires NoSpace(w)
    requires rest == [] || IsSpace(rest[0])
    ensures TakeWord(w + rest) == w
  {
    if w != [] {
      assert (w + rest)[1..] == w[1..] + rest;
      TakeWordOfToken(w[1..], rest);
    } else {
      assert w + rest == rest;
    }
  }

  /** Splitting words joined by single spaces gives the words back, as
      long as every word is non-empty and free of whitespace. */
  lemma {:induction false} SplitJoin(ws: seq<string>)
    requires forall i :: 0 <= i < |ws| ==> IsToken(ws[i])
    ensures Split(Join(ws, " ")) == ws
  {
    if |ws| == 1 {
      TakeWordOfToken(ws[0], "");
      assert ws[0] + "" == ws[0];
      assert ws[0][|ws[0]|..] == [];
    } else if |ws| > 1 {
      var w, rest := ws[0], Join(ws[1..], " ");
      var j := w + " " + rest;
      TakeWordOfToken(w, " " + rest);
      assert j == w + (" " + rest);
      assert j[|w|..] == " " + rest;
      assert TrimLeft(" " + rest) == TrimLeft(rest);
      SplitJoin(ws[1..]);
      assert Split(" " + rest) == Split(rest);
    }
  }

  /** Re-joining the words of any string with single spaces and splitting
      again gives the same words. */
  lemma JoinSplit(s: string)
    ensures Split(Join(Split(s), " ")) == Split(s)
  {
    SplitJoin(Split(s));
  }

  // ----- ordering -----

  /** Python 2 `a < b` on strings: lexicographic on character codes, a
      proper prefix coming first. */
  predicate Less(a: string, b: string)
    decreases |a|
  {
    b != [] && (a == [] || a[0] < b[0] || (a[0] == b[0] && Less(a[1..], b[1..])))
  }

  lemma {:induction false} LessIrreflexive(a: string)
    ensures !Less(a, a)
    decreases |a|
  {
    if a != [] {
      LessIrreflexive(a[1..]);
    }
  }

  lemma {:induction false} LessTransitive(a: string, b: string, c: string)
    requires Less(a, b) && Less(b, c)
    ensures Less(a, c)
    decreases |a|
  {
    if a != [] && a[0] == b[0] && b[0] == c[0] {
      LessTransitive(a[1..], b[1..], c[1..]);
    }
  }

  lemma {:induction false} LessTotal(a: string, b: string)
    ensures a == b || Less(a, b) || Less(b, a)
    decreases |a|
  {
    if a != [] && b != [] && a[0] == b[0] {
      LessTotal(a[1..], b[1..]);
      if a[1..] == b[1..] {
        assert a == [a[0]] + a[1..] && b == [b[0]] + b[1..];
      }
    }
  }

  /** `Less` is a strict total order on strings. */
  lemma LessIsStrictTotalOrder()
    ensures forall a :: !Less(a, a)
    ensures forall a, b, c :: Less(a, b) && Less(b, c) ==> Less(a, c)
    ensures forall a, b :: a == b || Less(a, b) || Less(b, a)
  {
    forall a ensures !Less(a, a) {
      LessIrreflexive(a);
    }
    forall a, b, c | Less(a, b) && Less(b, c) ensures Less(a, c) {
      LessTransitive(a, b, c);
    }
    forall a, b ensures a == b || Less(a, b) || Less(b, a) {
      LessTotal(a, b);
    }
  }

  predicate StrictlyAscending(xs: seq<string>) {
    forall i, j :: 0 <= i < j < |xs| ==> Less(xs[i], xs[j])
  }

  /** Inserts `x` into an ascending, duplicate-free list: the list stays
      ascending and duplicate-free and gains exactly `x`. */
  function InsertSorted(xs: seq<string>, x: string): (r: seq<string>)
    requires StrictlyAscending(xs)
    ensures StrictlyAscending(r)
    ensures forall y :: y in r <==> y in xs || y == x
  {
    LessIsStrictTotalOrder();
    if xs == [] then [x]
    else if x == xs[0] then xs
    else if Less(x, xs[0]) then [x] + xs
    else
      var t := InsertSorted(xs[1..], x);
      assert forall y :: y in t ==> Less(xs[0], y);
      [xs[0]] + t
  }

  // ----- decimal literals -----

  predicate IsDigit(c: char) {
    '0' <= c <= '9'
  }

  predicate AllDigits(s: string) {
    forall i :: 0 <= i < |s| ==> IsDigit(s[i])
  }

  /** The value of a string of decimal digits. */
  function DigitsValue(s: string): nat
    requires AllDigits(s)
  {
    if s == [] then 0
    else 10 * DigitsValue(s[..|s| - 1]) + (s[|s| - 1] as int - '0' as int)
  }

  /** The leading run of decimal digits of `s`. */
  function TakeDigits(s: string): (d: string)
    ensures |d| <= |s| && AllDigits(d)
  {
    if s == [] || !IsDigit(s[0]) then [] else [s[0]] + TakeDigits(s[1..])
  }

  lemma {:induction false} TakeDigitsOfDigits(s: string)
    requires AllDigits(s)
    ensures TakeDigits(s) == s
  {
    if s != [] {
      TakeDigitsOfDigits(s[1..]);
    }
  }

  /** The decimal digits of `n`, without leading zeros. */
  function NatToDigits(n: nat): (r: string)
    ensures r != [] && AllDigits(r)
    ensures |r| > 1 ==> r[0] != '0'
  {
    if n < 10 then [('0' as int + n) as char]
    else NatToDigits(n / 10) + [('0' as int + n % 10) as char]
  }

  /** `str(n)` for an integer. */
  function IntToDecimal(n: int): string {
    if n < 0 then "-" + NatToDigits(-n) else NatToDigits(n)
  }

  /** Python 2 `int(s)` on a `str` (base 10): blanks, an optional sign,
      blanks, at least one digit, blanks. `None` stands for the
      `ValueError` that `int` raises on anything else. */
  function ParseDecimal(s: string): Option<int> {
    var t := TrimLeft(s);
    if t != [] && (t[0] == '-' || t[0] == '+') then
      match ParseUnsigned(TrimLeft(t[1..]))
      case None => None
      case Some(v) => Some(if t[0] == '-' then -(v as int) else v as int)
    else
      match ParseUnsigned(t)
      case None => None
      case Some(v) => Some(v as int)
  }

  /** The unsigned part of `int(s)`: at least one digit, then only blanks. */
  function ParseUnsigned(u: string): Option<nat> {
    var d := TakeDigits(u);
    if d != [] && AllSpace(u[|d|..]) then Some(DigitsValue(d)) else None
  }

  lemma {:induction false} DigitsValueOfNat(n: nat)
    ensures DigitsValue(NatToDigits(n)) == n
  {
    if n >= 10 {
      var r := NatToDigits(n);
      assert r[..|r| - 1] == NatToDigits(n / 10);
      DigitsValueOfNat(n / 10);
    }
  }

  /** A bare run of digits is an unsigned numeral of its value. */
  lemma ParseUnsignedDigits(ds: string)
    requires ds != [] && AllDigits(ds)
    ensures ParseUnsigned(ds) == Some(DigitsValue(ds))
  {
    TakeDigitsOfDigits(ds);
    assert ds[|ds|..] == [];
  }

  /** `int(str(n)) == n`: the decimal literal of every integer parses back
      to that integer. */
  lemma {:induction false} ParseDecimalOfInt(n: int)
    ensures ParseDecimal(IntToDecimal(n)) == Some(n)
  {
    var ds := NatToDigits(if n < 0 then -n else n);
    DigitsValueOfNat(if n < 0 then -n else n);
    ParseUnsignedDigits(ds);
    assert TrimLeft(ds) == ds;
    if n < 0 {
      var s := "-" + ds;
      assert TrimLeft(s) == s;
      assert s[1..] == ds;
    }
  }
}
