// k_itoa (common.c:132-171), against the parser that inverts it.
module Itoa {
  import opened Numbers

  function Digit(r: nat): char
    requires r < 16
  {
    if r < 10 then '0' + r as char else 'a' + (r - 10) as char
  }

  // The value of a digit; 16 if it is none.
  function Value(c: char): nat {
    if '0' <= c <= '9' then (c - '0') as nat
    else if 'a' <= c <= 'f' then 10 + (c - 'a') as nat
    else 16
  }

  // The number that a row of digits stands for.
  function Parse(s: seq<char>, divisor: nat): nat {
    if s == [] then 0 else Parse(s[..|s| - 1], divisor) * divisor + Value(s[|s| - 1])
  }

  // `s` is the row of digits for `v`, with no superfluous leading zero.
  predicate Numeral(s: seq<char>, divisor: nat, v: nat) {
    && s != [] && (|s| > 1 ==> Value(s[0]) != 0)
    && (forall i :: 0 <= i < |s| ==> Value(s[i]) < divisor)
    && Parse(s, divisor) == v
  }

  function Reversed(s: seq<char>): (r: seq<char>)
    ensures |r| == |s|
  {
    if s == [] then [] else Reversed(s[1..]) + [s[0]]
  }

  lemma {:induction false} ReversedAt(s: seq<char>, i: nat)
    requires i < |s|
    ensures Reversed(s)[i] == s[|s| - 1 - i]
  {
    if i == |s| - 1 {
    } else {
      ReversedAt(s[1..], i);
    }
  }

  lemma {:induction false} ReversedMore(s: seq<char>, c: char)
    ensures Reversed(s + [c]) == [c] + Reversed(s)
  {
    if s == [] {
      assert s + [c] == [c];
    } else {
      ReversedMore(s[1..], c);
      assert (s + [c])[1..] == s[1..] + [c];
      assert [c] + Reversed(s[1..]) + [s[0]] == [c] + Reversed(s);
    }
  }

  function Power(b: nat, n: nat): nat {
    if n == 0 then 1 else b * Power(b, n - 1)
  }

  lemma Distribute(v: nat, p: nat, q: nat, d: nat)
    ensures (v * p + q) * d == v * (d * p) + q * d
  {
  }

  // A digit in front of others counts by its place.
  lemma {:induction false} ParseFront(c: char, s: seq<char>, divisor: nat)
    ensures Parse([c] + s, divisor) == Value(c) * Power(divisor, |s|) + Parse(s, divisor)
  {
    var t := [c] + s;
    if s == [] {
      assert t[..0] == [];
    } else {
      ParseFront(c, s[..|s| - 1], divisor);
      assert t[..|t| - 1] == [c] + s[..|s| - 1];
      Distribute(Value(c), Power(divisor, |s| - 1), Parse(s[..|s| - 1], divisor), divisor);
    }
  }

  // Every number has one numeral only.
  lemma {:induction false} NumeralUnique(s: seq<char>, t: seq<char>, divisor: nat, v: nat)
    requires 2 <= divisor <= 16 && Numeral(s, divisor, v) && Numeral(t, divisor, v)
    ensures s == t
    decreases |s|
  {
    LastDigit(s, divisor);
    LastDigit(t, divisor);
    if |s| > 1 && |t| > 1 {
      NumeralUnique(s[..|s| - 1], t[..|t| - 1], divisor, v / divisor);
      assert s == s[..|s| - 1] + [s[|s| - 1]] && t == t[..|t| - 1] + [t[|t| - 1]];
    } else {
      NumeralSize(s, divisor, v);
      NumeralSize(t, divisor, v);
      assert s == [s[0]] && t == [t[0]];
    }
  }

  lemma LastDigit(s: seq<char>, divisor: nat)
    requires s != [] && divisor > 0 && Value(s[|s| - 1]) < divisor <= 16
    ensures Parse(s, divisor) / divisor == Parse(s[..|s| - 1], divisor)
    ensures Parse(s, divisor) % divisor == Value(s[|s| - 1])
  {
    DivMod(Parse(s[..|s| - 1], divisor), Value(s[|s| - 1]), divisor);
  }

  lemma DivMod(q: nat, r: nat, d: nat)
    requires r < d
    ensures (q * d + r) / d == q && (q * d + r) % d == r
  {
    var x := q * d + r;
    var a, b := x / d, x % d;
    assert x == a * d + b;
    if a < q {
      Distribute(1, a, 1, d);
      MulLe(a + 1, q, d);
    } else if a > q {
      Distribute(1, q, 1, d);
      MulLe(q + 1, a, d);
    }
  }

  // More than one digit means at least the divisor.
  lemma {:induction false} NumeralSize(s: seq<char>, divisor: nat, v: nat)
    requires 2 <= divisor <= 16 && Numeral(s, divisor, v)
    ensures |s| > 1 <==> v >= divisor
  {
    LastDigit(s, divisor);
    if |s| > 1 {
      ParsePositive(s[..|s| - 1], divisor);
      MulLe(1, Parse(s[..|s| - 1], divisor), divisor);
    } else {
      assert s[..0] == [];
    }
  }

  lemma {:induction false} ParsePositive(s: seq<char>, divisor: nat)
    requires s != [] && Value(s[0]) != 0 && divisor > 0
    ensures Parse(s, divisor) > 0
  {
    if |s| == 1 {
      assert s[..0] == [];
    } else {
      ParsePositive(s[..|s| - 1], divisor);
      MulLe(1, Parse(s[..|s| - 1], divisor), divisor);
    }
  }

  // ------------------------------------------------------------------ the divide loop

  // Digits of `v` have been written backwards into `w` and `ud` is left.
  ghost predicate Partly(w: seq<char>, divisor: nat, v: nat, ud: nat) {
    && (forall i :: 0 <= i < |w| ==> Value(w[i]) < divisor)
    && v == ud * Power(divisor, |w|) + Parse(Reversed(w), divisor)
    && (|w| > 0 ==> (ud == 0 && |w| > 1 ==> Value(w[|w| - 1]) != 0))
  }

  lemma PartlyStep(w: seq<char>, divisor: nat, v: nat, ud: nat)
    requires 2 <= divisor <= 16 && Partly(w, divisor, v, ud) && (w == [] || ud > 0)
    ensures Partly(w + [Digit(ud % divisor)], divisor, v, ud / divisor)
  {
    hide Parse, Reversed, Power, Digit, Value;
    var c := Digit(ud % divisor);
    PartlyValue(w, divisor, ud);
    DigitValue(ud % divisor);
    assert ud == (ud / divisor) * divisor + ud % divisor;
  }

  // What the next digit contributes.
  lemma PartlyValue(w: seq<char>, divisor: nat, ud: nat)
    requires 2 <= divisor <= 16
    ensures var w' := w + [Digit(ud % divisor)];
            0 <= ud / divisor &&
            (ud / divisor) * Power(divisor, |w'|) + Parse(Reversed(w'), divisor) ==
            ud * Power(divisor, |w|) + Parse(Reversed(w), divisor)
  {
    hide Parse, Reversed, Power, Digit, Value;
    var c := Digit(ud % divisor);
    var q, r, p := ud / divisor, ud % divisor, Power(divisor, |w|);
    ReversedMore(w, c);
    ParseFront(c, Reversed(w), divisor);
    DigitValue(r);
    Smaller(ud, divisor);
    assert ud == q * divisor + r;
    Places(q, r, p, divisor);
    NextPower(divisor, |w|);
    assert |w + [c]| == |w| + 1;
  }

  lemma DigitValue(r: nat)
    requires r < 16
    ensures Value(Digit(r)) == r
  {
  }

  lemma NextPower(b: nat, n: nat)
    ensures Power(b, n + 1) == b * Power(b, n)
  {
  }

  lemma Places(q: nat, r: nat, p: nat, d: nat)
    ensures (q * d + r) * p == q * (d * p) + r * p
  {
  }

  lemma PartlyDone(w: seq<char>, divisor: nat, v: nat)
    requires Partly(w, divisor, v, 0) && w != []
    ensures Numeral(Reversed(w), divisor, v)
  {
    var r := Reversed(w);
    forall i | 0 <= i < |r|
      ensures r[i] == w[|w| - 1 - i]
    {
      ReversedAt(w, i);
    }
  }

  // A 32-bit number has at most ten digits.
  lemma AtMostTen(w: seq<char>, divisor: nat, v: nat, ud: nat)
    requires 10 <= divisor && Partly(w, divisor, v, ud) && ud > 0 && v < WORD
    ensures |w| <= 9
  {
    MulLe(1, ud, Power(divisor, |w|));
    if |w| >= 10 {
      PowerMonotone(10, divisor, 10);
      PowerLonger(divisor, 10, |w|);
      TenToTheTenth();
    }
  }

  lemma {:induction false} PowerMonotone(b: nat, c: nat, n: nat)
    requires b <= c
    ensures Power(b, n) <= Power(c, n)
  {
    if n == 0 {
    } else {
      PowerMonotone(b, c, n - 1);
      MulLe(b, c, Power(b, n - 1));
      MulLe(Power(b, n - 1), Power(c, n - 1), c);
    }
  }

  lemma {:induction false} PowerLonger(b: nat, m: nat, n: nat)
    requires b >= 1 && m <= n
    ensures 1 <= Power(b, m) <= Power(b, n)
    decreases n
  {
    if m < n {
      PowerLonger(b, m, n - 1);
      MulLe(1, b, Power(b, n - 1));
    } else if n > 0 {
      PowerLonger(b, n - 1, n - 1);
      MulLe(1, b, Power(b, n - 1));
    }
  }

  lemma TenToTheTenth()
    ensures Power(10, 10) == 10_000_000_000
  {
  }

  method WriteDigits(buf: array<char>, start: nat, v: nat, divisor: nat) returns (p: nat)
    requires v < WORD && 10 <= divisor <= 16 && start + 11 <= buf.Length
    modifies buf
    ensures start < p <= start + 10
    ensures Numeral(Reversed(buf[start..p]), divisor, v)
    ensures forall i :: 0 <= i < start || p <= i < buf.Length ==> buf[i] == old(buf[i])
  {
    hide Partly, Numeral, Digit, Value;
    p := start;
    var ud := v;
    var first := true;
    PartlyNothing(divisor, v);
    assert buf[start..p] == [];
    while first || ud != 0
      invariant start <= p <= start + 10 && first == (p == start)
      invariant ud >= 0 && Partly(buf[start..p], divisor, v, ud)
      invariant forall i :: 0 <= i < start || p <= i < buf.Length ==> buf[i] == old(buf[i])
      decreases if first then 1 else 0, ud
    {
      first := false;
      ghost var w := buf[start..p];
      PartlyStep(w, divisor, v, ud);
      if ud > 0 {
        AtMostTen(w, divisor, v, ud);
      }
      Smaller(ud, divisor);
      buf[p] := Digit(ud % divisor);
      p := p + 1;
      assert buf[start..p] == w + [Digit(ud % divisor)];
      ud := ud / divisor;
    }
    PartlyDone(buf[start..p], divisor, v);
  }

  lemma PartlyNothing(divisor: nat, v: nat)
    ensures Partly([], divisor, v, v)
  {
  }

  lemma Smaller(x: nat, d: nat)
    requires d >= 2
    ensures x > 0 ==> x / d < x
    ensures 0 <= x / d
  {
  }

  // The second half: reverse in place.
  method Reverse(buf: array<char>, start: nat, end: nat)
    requires start <= end <= buf.Length
    modifies buf
    ensures buf[start..end] == Reversed(old(buf[start..end]))
    ensures forall i :: 0 <= i < start || end <= i < buf.Length ==> buf[i] == old(buf[i])
  {
    hide Reversed;
    ghost var s := buf[..];
    var p1: int, p2: int := start, end - 1;
    while p1 < p2
      invariant start <= p1 && p2 < end && p1 - start == end - 1 - p2 && p1 <= p2 + 2
      invariant forall i :: start <= i < p1 || p2 < i < end ==> buf[i] == s[start + end - 1 - i]
      invariant forall i :: 0 <= i < start || p1 <= i <= p2 || end <= i < buf.Length ==> buf[i] == s[i]
    {
      var tmp := buf[p1];
      buf[p1] := buf[p2];
      buf[p2] := tmp;
      p1 := p1 + 1;
      p2 := p2 - 1;
    }
    MirroredIsReversed(s[start..end], buf[start..end]);
  }

  lemma MirroredIsReversed(s: seq<char>, t: seq<char>)
    requires |s| == |t| && forall i :: 0 <= i < |t| ==> t[i] == s[|s| - 1 - i]
    ensures t == Reversed(s)
  {
    forall i | 0 <= i < |t|
      ensures t[i] == Reversed(s)[i]
    {
      ReversedAt(s, i);
    }
  }

  // What the text says: a minus sign only for 'd', and 32-bit numbers otherwise unsigned.
  predicate Says(text: seq<char>, base: char, d: int)
    requires -0x8000_0000 <= d < 0x8000_0000
  {
    if base == 'd' && d < 0 then text != [] && text[0] == '-' && Numeral(text[1..], 10, -d)
    else Numeral(text, if base == 'x' then 16 else 10, if d < 0 then d + WORD else d)
  }

  // k_itoa: the text and its terminator take at most 12 bytes.
  method KItoa(buf: array<char>, base: char, d: int) returns (ghost length: nat)
    requires -0x8000_0000 <= d < 0x8000_0000 && buf.Length >= 12
    modifies buf
    ensures length <= 11 && buf[length] == '\0' && Says(buf[..length], base, d)
    ensures forall i :: length < i < buf.Length ==> buf[i] == old(buf[i])
  {
    hide Numeral, Reversed;
    var start := 0;
    var ud: nat := if d < 0 then d + WORD else d;
    var divisor := 10;
    if base == 'd' && d < 0 {
      buf[0] := '-';
      start := 1;
      ud := -d;
    } else if base == 'x' {
      divisor := 16;
    }
    var p := WriteDigits(buf, start, ud, divisor);
    ghost var w := buf[start..p];
    buf[p] := '\0';
    assert buf[start..p] == w;
    Reverse(buf, start, p);
    length := p;
    assert buf[..p][start..] == buf[start..p];
    assert start == 0 ==> buf[..p] == buf[start..p];
  }

  // Some numbers and their texts, spelled out.
  lemma Texts()
    ensures Says("0", 'd', 0) && Says("255", 'd', 255) && Says("-255", 'd', -255)
    ensures Says("255", 'u', 255) && Says("4294967295", 'u', -1)
    ensures Says("1af", 'x', 431) && Says("ffffffff", 'x', -1)
  {
    hide Parse;
    ParseNothing(10);
    ParseMore("", '0', 10, 0, "0", 0);
    TextOf255();
    TextOf431();
    GreatestTexts();
    assert "-255"[1..] == "255";
  }

  lemma TextOf255()
    ensures Parse("255", 10) == 255
  {
    hide Parse;
    ParseNothing(10);
    ParseMore("", '2', 10, 0, "2", 2);
    ParseMore("2", '5', 10, 2, "25", 25);
    ParseMore("25", '5', 10, 25, "255", 255);
  }

  lemma TextOf431()
    ensures Parse("1af", 16) == 431
  {
    hide Parse;
    ParseNothing(16);
    ParseMore("", '1', 16, 0, "1", 1);
    ParseMore("1", 'a', 16, 1, "1a", 26);
    ParseMore("1a", 'f', 16, 26, "1af", 431);
  }

  lemma GreatestTexts()
    ensures Parse("4294967295", 10) == 4294967295
    ensures Parse("ffffffff", 16) == 0xFFFF_FFFF
  {
    hide Parse;
    ParseNothing(10);
    ParseMore("", '4', 10, 0, "4", 4);
    ParseMore("4", '2', 10, 4, "42", 42);
    ParseMore("42", '9', 10, 42, "429", 429);
    ParseMore("429", '4', 10, 429, "4294", 4294);
    ParseMore("4294", '9', 10, 4294, "42949", 42949);
    ParseMore("42949", '6', 10, 42949, "429496", 429496);
    ParseMore("429496", '7', 10, 429496, "4294967", 4294967);
    ParseMore("4294967", '2', 10, 4294967, "42949672", 42949672);
    ParseMore("42949672", '9', 10, 42949672, "429496729", 429496729);
    ParseMore("429496729", '5', 10, 429496729, "4294967295", 4294967295);
    ParseNothing(16);
    ParseMore("", 'f', 16, 0, "f", 15);
    ParseMore("f", 'f', 16, 15, "ff", 255);
    ParseMore("ff", 'f', 16, 255, "fff", 4095);
    ParseMore("fff", 'f', 16, 4095, "ffff", 65535);
    ParseMore("ffff", 'f', 16, 65535, "fffff", 1048575);
    ParseMore("fffff", 'f', 16, 1048575, "ffffff", 16777215);
    ParseMore("ffffff", 'f', 16, 16777215, "fffffff", 268435455);
    ParseMore("fffffff", 'f', 16, 268435455, "ffffffff", 4294967295);
  }

  lemma ParseNothing(divisor: nat)
    ensures Parse("", divisor) == 0
  {
  }

  // One more digit.
  lemma ParseMore(s: string, c: char, divisor: nat, v: nat, t: string, w: nat)
    requires Parse(s, divisor) == v && t == s + [c] && w == v * divisor + Value(c)
    ensures Parse(t, divisor) == w
  {
    assert t[..|t| - 1] == s;
  }

  // For each base the text determines the number, and the number the text.
  lemma SaysOnce(text: seq<char>, other: seq<char>, base: char, d: int, e: int)
    requires -0x8000_0000 <= d < 0x8000_0000 && -0x8000_0000 <= e < 0x8000_0000
    requires Says(text, base, d) && Says(other, base, e)
    ensures text == other <==> d == e
  {
    hide Numeral;
    var b := if base == 'x' then 16 else 10;
    if d == e {
      if base == 'd' && d < 0 {
        NumeralUnique(text[1..], other[1..], 10, -d);
        assert text == [text[0]] + text[1..] && other == [other[0]] + other[1..];
      } else {
        NumeralUnique(text, other, b, if d < 0 then d + WORD else d);
      }
    } else if text == other {
      if base == 'd' && d < 0 && e < 0 {
        OneValue(text[1..], 10, -d, -e);
      } else if base == 'd' && d < 0 {
        NoMinus(text, 10, e);
      } else if base == 'd' && e < 0 {
        NoMinus(text, 10, d);
      } else {
        OneValue(text, b, if d < 0 then d + WORD else d, if e < 0 then e + WORD else e);
      }
    }
  }

  lemma NoMinus(s: seq<char>, b: nat, v: nat)
    requires b <= 16 && Numeral(s, b, v)
    ensures s != [] && s[0] != '-'
  {
  }

  lemma OneValue(s: seq<char>, b: nat, v: nat, w: nat)
    requires Numeral(s, b, v) && Numeral(s, b, w)
    ensures v == w
  {
  }
}
