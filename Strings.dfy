/** Text helpers shared by the models of `main.js`: the JavaScript `String.prototype.split`
    on a one-character separator, the decimal rendering `Number.prototype.toString()` of
    a non-negative integer, and `padStart(2, '0')`. */
module Strings {

  datatype Option<+T> = None | Some(value: T)

  /** JavaScript truthiness of a string that may be missing (`undefined` or `null`):
      present and non-empty. */
  predicate Truthy(s: Option<string>): (t: bool)
    ensures !t <==> s == None || s == Some("")
  {
    s.Some? && s.value != ""
  }

  /** `s.split(sep)` for a one-character separator: the pieces between occurrences of
      `sep`, in order. There is always at least one piece. */
  function Split(s: string, sep: char): (r: seq<string>)
    ensures |r| >= 1
    ensures forall i :: 0 <= i < |r| ==> sep !in r[i]
  {
    if s == [] then [""]
    else
      var rest := Split(s[1..], sep);
      if s[0] == sep then [""] + rest
      else [[s[0]] + rest[0]] + rest[1..]
  }

  /** Text free of the separator is a single piece. */
  lemma {:induction false} SplitNoSeparator(s: string, sep: char)
    requires sep !in s
    ensures Split(s, sep) == [s]
  {
    if s != [] {
      assert sep !in s[1..];
      SplitNoSeparator(s[1..], sep);
      assert [s[0]] + s[1..] == s;
    }
  }

  /** Splitting at an occurrence of the separator that follows separator-free text `a`
      yields `a` followed by the pieces of what comes after it. */
  lemma {:induction false} SplitAtFirst(a: string, sep: char, b: string)
    requires sep !in a
    ensures Split(a + [sep] + b, sep) == [a] + Split(b, sep)
  {
    if a == [] {
      assert a + [sep] + b == [sep] + b;
      assert ([sep] + b)[1..] == b;
    } else {
      assert (a + [sep] + b)[1..] == a[1..] + [sep] + b;
      assert sep !in a[1..];
      SplitAtFirst(a[1..], sep, b);
      assert [a[0]] + a[1..] == a;
    }
  }

  /** The last piece of a split is what follows the last separator: for any text that
      ends in `sep` followed by separator-free `tail`, there are at least two pieces and
      the last one is `tail`. */
  lemma {:induction false} LastPieceAfterSeparator(head: string, sep: char, tail: string)
    requires sep !in tail
    ensures var p := Split(head + [sep] + tail, sep); |p| >= 2 && p[|p| - 1] == tail
  {
    var text := head + [sep] + tail;
    if head == [] {
      assert text == [sep] + tail;
      assert text[1..] == tail;
      SplitNoSeparator(tail, sep);
    } else {
      assert text[1..] == head[1..] + [sep] + tail;
      LastPieceAfterSeparator(head[1..], sep, tail);
    }
  }

  predicate IsDigit(c: char) { '0' <= c <= '9' }

  predicate AllDigits(s: string) { forall i :: 0 <= i < |s| ==> IsDigit(s[i]) }

  function DigitChar(d: nat): (c: char)
    requires d < 10
    ensures IsDigit(c) && c as int - '0' as int == d
  {
    ('0' as int + d) as char
  }

  function DigitValue(c: char): (d: nat)
    requires IsDigit(c)
    ensures d < 10 && DigitChar(d) == c
  {
    (c as int - '0' as int) as nat
  }

  /** `n.toString()` for a non-negative integer: decimal digits, no leading zero except
      for zero itself. */
  function NatToString(n: nat): (s: string)
    ensures |s| >= 1 && AllDigits(s)
    ensures s[0] == '0' ==> n == 0
    ensures n < 10 <==> |s| == 1
    decreases n
  {
    if n < 10 then [DigitChar(n)] else NatToString(n / 10) + [DigitChar(n % 10)]
  }

  /** The value of a string of decimal digits (leading zeros allowed). */
  function DigitsValue(s: string): nat
    requires AllDigits(s)
  {
    if s == [] then 0 else DigitsValue(s[..|s| - 1]) * 10 + DigitValue(s[|s| - 1])
  }

  /** `parseInt`-like reading restricted to a non-empty run of digits; anything else is
      rejected. */
  function ParseNat(s: string): (r: Option<nat>)
    ensures r.Some? <==> (s != [] && AllDigits(s))
  {
    if s != [] && AllDigits(s) then Some(DigitsValue(s)) else None
  }

  /** Reading back the decimal rendering gives the number. */
  lemma {:induction false} ParseNatToString(n: nat)
    ensures ParseNat(NatToString(n)) == Some(n)
    decreases n
  {
    var s := NatToString(n);
    if n >= 10 {
      ParseNatToString(n / 10);
      assert s[..|s| - 1] == NatToString(n / 10);
      assert DigitValue(s[|s| - 1]) == n % 10;
    } else {
      assert s == [DigitChar(n)];
      assert s[..|s| - 1] == [];
      assert DigitsValue(s) == DigitsValue([]) * 10 + DigitValue(s[0]);
      assert DigitValue(s[0]) == n;
    }
  }

  /** `s.padStart(2, '0')`: left-pad with zeros up to length 2, never truncate. */
  function PadStart2(s: string): (r: string)
    ensures |r| == if |s| >= 2 then |s| else 2
    ensures r[|r| - |s|..] == s
    ensures forall i :: 0 <= i < |r| - |s| ==> r[i] == '0'
  {
    if |s| >= 2 then s else if |s| == 1 then "0" + s else "00"
  }

  /** The two-digit field used for minutes and seconds (`n.toString().padStart(2, '0')`
      for `n` below 100, as `TwoDigitsIsPadStart` shows). */
  function TwoDigits(n: nat): (r: string)
    requires n < 100
    ensures |r| == 2 && AllDigits(r)
    ensures ParseNat(r) == Some(n)
  {
    var r := [DigitChar(n / 10), DigitChar(n % 10)];
    assert DigitsValue(r) == n by {
      assert r[..1][..0] == [] && r[..1] == [r[0]];
      assert DigitsValue(r[..1]) == n / 10;
    }
    r
  }

  /** The two-digit field is the zero-padded decimal rendering. */
  lemma TwoDigitsIsPadStart(n: nat)
    requires n < 100
    ensures TwoDigits(n) == PadStart2(NatToString(n))
  {
    if n >= 10 {
      assert NatToString(n) == NatToString(n / 10) + [DigitChar(n % 10)];
    }
  }
}
