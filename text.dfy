/** Option, the outcome of a parse that may fail. */
module Wrappers {
  datatype Option<+T> = None | Some(value: T)
}

/**
 * The pieces of Go's `strings` and `strconv` packages the resolver uses on
 * rule text: prefix tests, splitting on a separator, decimal parsing
 * (strconv.Atoi) and zero-padded decimal rendering (as time.Format writes
 * numbers).
 */
module Text {
  import opened Wrappers

  /** strings.HasPrefix(s, p) */
  predicate HasPrefix(s: string, p: string) {
    |p| <= |s| && s[..|p|] == p
  }

  /** strings.TrimPrefix(s, p): s without the leading p, when it has one. */
  function TrimPrefix(s: string, p: string): (r: string)
    ensures HasPrefix(s, p) ==> p + r == s
    ensures !HasPrefix(s, p) ==> r == s
  {
    if HasPrefix(s, p) then s[|p|..] else s
  }

  /**
   * strings.Split(s, sep) for a one-character separator: the pieces between
   * separators, at least one of them, empty pieces included.
   */
  function Split(s: string, sep: char): (parts: seq<string>)
    ensures |parts| >= 1
    ensures forall i :: 0 <= i < |parts| ==> sep !in parts[i]
    decreases |s|
  {
    if |s| == 0 then [""]
    else
      var rest := Split(s[1..], sep);
      if s[0] == sep then [""] + rest
      else [[s[0]] + rest[0]] + rest[1..]
  }

  /** strings.Join(parts, sep), the inverse of Split. */
  function Join(parts: seq<string>, sep: char): string
    requires |parts| >= 1
  {
    if |parts| == 1 then parts[0] else parts[0] + [sep] + Join(parts[1..], sep)
  }

  /** Splitting and joining again gives back the text. */
  lemma {:induction false} JoinSplit(s: string, sep: char)
    ensures Join(Split(s, sep), sep) == s
    decreases |s|
  {
    if |s| > 0 {
      var rest := Split(s[1..], sep);
      JoinSplit(s[1..], sep);
      if s[0] == sep {
        assert Join([""] + rest, sep) == "" + [sep] + Join(rest, sep);
      } else if |rest| == 1 {
        assert Split(s, sep) == [[s[0]] + rest[0]];
      } else {
        var parts := Split(s, sep);
        assert parts[1..] == rest[1..];
        assert Join(rest, sep) == rest[0] + [sep] + Join(rest[1..], sep);
        assert Join(parts, sep) == [s[0]] + rest[0] + [sep] + Join(rest[1..], sep);
        assert s == [s[0]] + s[1..];
      }
    }
  }

  lemma {:induction false} SplitPiece(w: string, t: string, sep: char)
    requires sep !in w
    ensures Split(w + [sep] + t, sep) == [w] + Split(t, sep)
    decreases |w|
  {
    if |w| == 0 {
      assert w + [sep] + t == [sep] + t;
      assert ([sep] + t)[1..] == t;
    } else {
      SplitPiece(w[1..], t, sep);
      assert (w + [sep] + t)[1..] == w[1..] + [sep] + t;
      assert [w[0]] + w[1..] == w;
    }
  }

  lemma {:induction false} SplitWhole(w: string, sep: char)
    requires sep !in w
    ensures Split(w, sep) == [w]
    decreases |w|
  {
    if |w| > 0 {
      SplitWhole(w[1..], sep);
      assert [w[0]] + w[1..] == w;
    }
  }

  /** Joining pieces free of the separator and splitting again gives back the pieces. */
  lemma {:induction false} SplitJoin(parts: seq<string>, sep: char)
    requires |parts| >= 1
    requires forall i :: 0 <= i < |parts| ==> sep !in parts[i]
    ensures Split(Join(parts, sep), sep) == parts
    decreases |parts|
  {
    if |parts| == 1 {
      SplitWhole(parts[0], sep);
    } else {
      SplitJoin(parts[1..], sep);
      SplitPiece(parts[0], Join(parts[1..], sep), sep);
      assert [parts[0]] + parts[1..] == parts;
    }
  }

  predicate IsDigit(c: char) {
    '0' <= c <= '9'
  }

  predicate AllDigits(s: string) {
    forall i :: 0 <= i < |s| ==> IsDigit(s[i])
  }

  function DigitValue(c: char): nat
    requires IsDigit(c)
  {
    (c as int - '0' as int) as nat
  }

  function Digit(n: nat): char
    requires n < 10
  {
    ('0' as int + n) as char
  }

  /** The number a string of decimal digits denotes. */
  function DigitsValue(s: string): nat
    requires AllDigits(s)
    decreases |s|
  {
    if |s| == 0 then 0 else 10 * DigitsValue(s[..|s| - 1]) + DigitValue(s[|s| - 1])
  }

  const MinInt: int := -0x8000_0000_0000_0000
  const MaxInt: int := 0x7fff_ffff_ffff_ffff

  /** The text after an optional leading '+' or '-'. */
  function Unsigned(s: string): string {
    if |s| > 0 && (s[0] == '+' || s[0] == '-') then s[1..] else s
  }

  /**
   * strconv.Atoi: an optional sign followed by at least one decimal digit,
   * nothing else, and a value that fits Go's 64-bit int.
   */
  function Atoi(s: string): (r: Option<int>)
    ensures r.Some? ==> |Unsigned(s)| > 0 && AllDigits(Unsigned(s))
    ensures r.Some? ==> MinInt <= r.value <= MaxInt
    ensures r.Some? && (|s| == 0 || s[0] != '-') ==> r.value >= 0
  {
    var digits := Unsigned(s);
    if |digits| == 0 || !AllDigits(digits) then None
    else
      var v := if s[0] == '-' then -(DigitsValue(digits) as int) else DigitsValue(digits);
      if MinInt <= v <= MaxInt then Some(v) else None
  }

  /**
   * The decimal digits of u, padded on the left with zeros to at least w
   * characters (Go's appendInt, which time.Format uses).
   */
  function Padded(u: nat, w: nat): (s: string)
    ensures |s| >= 1 && |s| >= w
    ensures AllDigits(s)
    decreases u + w
  {
    if u < 10 && w <= 1 then [Digit(u)]
    else Padded(u / 10, if w > 0 then w - 1 else 0) + [Digit(u % 10)]
  }

  /** n in decimal, a '-' in front when negative, digits padded to w. */
  function Decimal(n: int, w: nat): string {
    if n < 0 then "-" + Padded(-n, w) else Padded(n, w)
  }

  function Pow10(w: nat): nat {
    if w == 0 then 1 else 10 * Pow10(w - 1)
  }

  lemma DigitsValueAppend(s: string, c: char)
    requires AllDigits(s) && IsDigit(c)
    ensures AllDigits(s + [c])
    ensures DigitsValue(s + [c]) == 10 * DigitsValue(s) + DigitValue(c)
  {
    assert (s + [c])[..|s|] == s;
  }

  /** w digits denote a number below 10^w. */
  lemma {:induction false} DigitsBound(s: string)
    requires AllDigits(s)
    ensures DigitsValue(s) < Pow10(|s|)
    decreases |s|
  {
    if |s| > 0 {
      DigitsBound(s[..|s| - 1]);
    }
  }

  /** Reading the padded digits back gives the number. */
  lemma {:induction false} PaddedValue(u: nat, w: nat)
    ensures DigitsValue(Padded(u, w)) == u
    decreases u + w
  {
    if u < 10 && w <= 1 {
    } else {
      PaddedValue(u / 10, if w > 0 then w - 1 else 0);
      DigitsValueAppend(Padded(u / 10, if w > 0 then w - 1 else 0), Digit(u % 10));
    }
  }

  /** A number below 10^w is written in exactly w characters. */
  lemma {:induction false} PaddedWidth(u: nat, w: nat)
    requires w >= 1 && u < Pow10(w)
    ensures |Padded(u, w)| == w
    decreases w
  {
    if !(u < 10 && w <= 1) {
      PaddedWidth(u / 10, w - 1);
    }
  }

  /** A digit string is the padded rendering of its own value at its own width. */
  lemma {:induction false} PaddedOfDigits(t: string)
    requires |t| >= 1 && AllDigits(t)
    ensures Padded(DigitsValue(t), |t|) == t
    decreases |t|
  {
    var init := t[..|t| - 1];
    var v := DigitsValue(t);
    if |t| == 1 {
      assert init == [];
    } else {
      PaddedOfDigits(init);
      assert v / 10 == DigitsValue(init);
      assert v % 10 == DigitValue(t[|t| - 1]);
      assert t == init + [t[|t| - 1]];
    }
  }

  /**
   * strconv.Atoi on a digit string with no sign, a '+' or a '-': the value
   * when it fits Go's 64-bit int, and an error otherwise.
   */
  lemma AtoiDigits(digits: string)
    requires |digits| > 0 && AllDigits(digits)
    ensures Atoi(digits) == if DigitsValue(digits) <= MaxInt then Some(DigitsValue(digits) as int) else None
    ensures Atoi("+" + digits) == Atoi(digits)
    ensures Atoi("-" + digits) == if DigitsValue(digits) <= -MinInt then Some(-(DigitsValue(digits) as int)) else None
  {
    var v := DigitsValue(digits);
    assert IsDigit(digits[0]);
    assert Unsigned(digits) == digits;
    var plus, minus := "+" + digits, "-" + digits;
    assert plus[0] == '+' && plus[1..] == digits;
    assert Unsigned(plus) == digits;
    assert minus[0] == '-' && minus[1..] == digits;
    assert Unsigned(minus) == digits;
  }

  /** strconv.Atoi reads back every 64-bit integer written in decimal. */
  lemma AtoiDecimal(n: int, w: nat)
    requires MinInt <= n <= MaxInt
    ensures Atoi(Decimal(n, w)) == Some(n)
  {
    var s := Decimal(n, w);
    if n < 0 {
      var digits := Padded(-n, w);
      PaddedValue(-n, w);
      assert s == "-" + digits && s[0] == '-';
      assert Unsigned(s) == digits;
      assert -(DigitsValue(digits) as int) == n;
    } else {
      PaddedValue(n, w);
      assert IsDigit(s[0]) && s[0] != '-';
      assert Unsigned(s) == s;
      assert DigitsValue(s) == n;
    }
  }
}
