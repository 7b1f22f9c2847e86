/**
  Decimal text of integers and the bracketed, comma-separated text of an int
  array, as `StringBuilder.append(int)` and `arrayToString` produce them,
  together with a parser that reads the text back.
*/
module ArrayText {
  import opened Wrappers

  function DigitChar(d: nat): (c: char)
    requires d < 10
    ensures '0' <= c <= '9'
  {
    "0123456789"[d]
  }

  function DigitValue(c: char): nat
    requires '0' <= c <= '9'
  {
    (c as int - '0' as int) as nat
  }

  predicate AllDigits(s: string) {
    forall i | 0 <= i < |s| :: '0' <= s[i] <= '9'
  }

  /** Decimal digits of n, most significant first, without leading zeros. */
  function NatToString(n: nat): (s: string)
    ensures |s| >= 1 && AllDigits(s)
    ensures |s| > 1 ==> s[0] != '0'
  {
    if n < 10 then [DigitChar(n)] else NatToString(n / 10) + [DigitChar(n % 10)]
  }

  /** `Integer.toString`: a minus sign before the digits of a negative number. */
  function IntToString(i: int): (s: string)
    ensures |s| >= 1 && ',' !in s
    ensures i < 0 <==> s[0] == '-'
  {
    if i < 0 then "-" + NatToString(-i) else NatToString(i)
  }

  /** The value of a string of decimal digits. */
  function ParseDigits(s: string): nat
    requires AllDigits(s)
  {
    if |s| == 0 then 0 else 10 * ParseDigits(s[..|s| - 1]) + DigitValue(s[|s| - 1])
  }

  function ParseInt(s: string): int
    requires |s| >= 1
    requires (if s[0] == '-' then AllDigits(s[1..]) else AllDigits(s))
  {
    if s[0] == '-' then var magnitude: int := ParseDigits(s[1..]); -magnitude else ParseDigits(s)
  }

  lemma {:induction false} NatToStringRoundTrip(n: nat)
    ensures ParseDigits(NatToString(n)) == n
  {
    var s := NatToString(n);
    if n >= 10 {
      NatToStringRoundTrip(n / 10);
      assert s[..|s| - 1] == NatToString(n / 10);
    }
  }

  /** A minus sign before the digits of n reads back as -n. */
  lemma NegativeRoundTrip(n: nat, s: string)
    requires s == "-" + NatToString(n)
    ensures s[0] == '-' && AllDigits(s[1..]) && ParseInt(s) == 0 - n as int
  {
    assert s[1..] == NatToString(n);
    NatToStringRoundTrip(n);
  }

  /** The digits of n alone read back as n. */
  lemma NonNegativeRoundTrip(n: nat, s: string)
    requires s == NatToString(n)
    ensures s[0] != '-' && AllDigits(s) && ParseInt(s) == n
  {
    assert '0' <= s[0] <= '9';
    NatToStringRoundTrip(n);
  }

  /** Reading back the text of an integer gives the integer. */
  lemma {:induction false} IntToStringRoundTrip(i: int)
    ensures var s := IntToString(i);
            && (if s[0] == '-' then AllDigits(s[1..]) else AllDigits(s))
            && ParseInt(s) == i
  {
    if i < 0 {
      NegativeRoundTrip(-i, IntToString(i));
    } else {
      NonNegativeRoundTrip(i, IntToString(i));
    }
  }

  /** The texts joined with a comma between neighbours. */
  function Join(parts: seq<string>): string
    decreases |parts|
  {
    if |parts| == 0 then ""
    else if |parts| == 1 then parts[0]
    else parts[0] + "," + Join(parts[1..])
  }

  /** The pieces of s between commas; a string without commas is one piece. */
  function Split(s: string): (pieces: seq<string>)
    ensures |pieces| >= 1
  {
    if |s| == 0 then [""]
    else
      var rest := Split(s[1..]);
      if s[0] == ',' then [""] + rest else [[s[0]] + rest[0]] + rest[1..]
  }

  lemma {:induction false} SplitPrefix(x: string, y: string)
    requires ',' !in x
    ensures Split(x + y) == [x + Split(y)[0]] + Split(y)[1..]
  {
    if |x| > 0 {
      assert (x + y)[1..] == x[1..] + y;
      assert (x + y)[0] == x[0] && x[0] in x;
      assert ',' !in x[1..] by {
        forall c | c in x[1..] ensures c in x { }
      }
      SplitPrefix(x[1..], y);
      var rest := Split(x[1..] + y);
      assert Split(x + y) == [[x[0]] + rest[0]] + rest[1..];
      assert [x[0]] + (x[1..] + Split(y)[0]) == x + Split(y)[0];
    } else {
      assert x + y == y;
      assert x + Split(y)[0] == Split(y)[0];
    }
  }

  /** Splitting undoes joining pieces that contain no comma. */
  lemma {:induction false} SplitJoin(parts: seq<string>)
    requires |parts| >= 1
    requires forall i | 0 <= i < |parts| :: ',' !in parts[i]
    ensures Split(Join(parts)) == parts
    decreases |parts|
  {
    if |parts| == 1 {
      SplitPrefix(parts[0], "");
      assert parts[0] + "" == parts[0];
    } else {
      var tail := Join(parts[1..]);
      SplitJoin(parts[1..]);
      assert Join(parts) == parts[0] + ("," + tail);
      SplitPrefix(parts[0], "," + tail);
      assert ("," + tail)[1..] == tail;
      assert Split("," + tail) == [""] + parts[1..];
      assert parts[0] + "" == parts[0];
    }
  }

  function Texts(a: seq<int>): (t: seq<string>)
    ensures |t| == |a| && forall i | 0 <= i < |a| :: t[i] == IntToString(a[i])
  {
    seq(|a|, i requires 0 <= i < |a| => IntToString(a[i]))
  }

  /** The text of an int array: "[" + the elements joined by "," + "]". */
  function ArrayString(a: seq<int>): (s: string)
    ensures |s| >= 2 && s[0] == '[' && s[|s| - 1] == ']'
  {
    "[" + Join(Texts(a)) + "]"
  }

  /** Reads the text of an int array back; None when it is not such a text. */
  function ParseArray(s: string): Option<seq<int>> {
    if |s| < 2 || s[0] != '[' || s[|s| - 1] != ']' then None
    else
      var inner := s[1..|s| - 1];
      if inner == "" then Some([])
      else ParsePieces(Split(inner))
  }

  function ParsePieces(pieces: seq<string>): Option<seq<int>>
    decreases |pieces|
  {
    if |pieces| == 0 then Some([])
    else
      var p := pieces[0];
      if |p| == 0 || !(if p[0] == '-' then AllDigits(p[1..]) else AllDigits(p)) then None
      else
        match ParsePieces(pieces[1..])
        case None => None
        case Some(rest) => Some([ParseInt(p)] + rest)
  }

  lemma {:induction false} ParseTexts(a: seq<int>)
    ensures ParsePieces(Texts(a)) == Some(a)
    decreases |a|
  {
    if |a| > 0 {
      IntToStringRoundTrip(a[0]);
      assert Texts(a)[1..] == Texts(a[1..]);
      ParseTexts(a[1..]);
      assert [a[0]] + a[1..] == a;
    }
  }

  /** Reading back the text of an array gives the array, so different arrays have different texts. */
  lemma ArrayStringRoundTrip(a: seq<int>)
    ensures ParseArray(ArrayString(a)) == Some(a)
  {
    var s := ArrayString(a);
    assert s[1..|s| - 1] == Join(Texts(a));
    if |a| == 0 {
    } else {
      assert Join(Texts(a)) != "" by {
        JoinStartsWithFirst(Texts(a));
      }
      SplitJoin(Texts(a));
      ParseTexts(a);
    }
  }

  lemma JoinStartsWithFirst(parts: seq<string>)
    requires |parts| >= 1
    ensures |Join(parts)| >= |parts[0]|
  {
  }

  /** Appending a piece adds a comma and the piece. */
  lemma {:induction false} JoinAppend(parts: seq<string>, x: string)
    requires |parts| >= 1
    ensures Join(parts + [x]) == Join(parts) + "," + x
    decreases |parts|
  {
    if |parts| > 1 {
      assert (parts + [x])[1..] == parts[1..] + [x];
      JoinAppend(parts[1..], x);
    } else {
      assert (parts + [x])[1..] == [x];
    }
  }

  /**
    The text written after the first i elements: the opening bracket, those
    elements joined, and a comma when more elements follow.
  */
  function TextPrefix(values: seq<int>, i: nat): string
    requires i <= |values|
  {
    if i == 0 then "[" else "[" + Join(Texts(values[..i])) + (if i < |values| then "," else "")
  }

  lemma TextsSnoc(values: seq<int>, i: nat)
    requires i < |values|
    ensures Texts(values[..i + 1]) == Texts(values[..i]) + [IntToString(values[i])]
  {
  }

  /** Writing element i extends the prefix by its text and, unless it is the last, a comma. */
  lemma TextPrefixStep(values: seq<int>, i: nat)
    requires i < |values|
    ensures TextPrefix(values, i + 1)
            == TextPrefix(values, i) + IntToString(values[i]) + (if i != |values| - 1 then "," else "")
  {
    var t := Texts(values[..i]);
    var x := IntToString(values[i]);
    var tail: string := if i != |values| - 1 then "," else "";
    TextsSnoc(values, i);
    assert TextPrefix(values, i + 1) == "[" + Join(t + [x]) + tail;
    if i > 0 {
      var j := Join(t);
      JoinAppend(t, x);
      assert TextPrefix(values, i) == "[" + j + ",";
      Regroup("[", j, ",", x, tail);
    } else {
      assert t + [x] == [x];
      assert Join([x]) == x;
      assert TextPrefix(values, i) == "[";
    }
  }

  lemma Regroup(a: string, b: string, c: string, d: string, e: string)
    ensures a + (b + c + d) + e == a + b + c + d + e
  {
  }

  /** The whole prefix and a closing bracket is the array's text. */
  lemma TextPrefixDone(values: seq<int>)
    ensures TextPrefix(values, |values|) + "]" == ArrayString(values)
  {
    assert values[..|values|] == values;
  }

  /** The examples: an empty array is "[]", and (0, -12, 7) is "[0,-12,7]". */
  lemma EmptyArrayString()
    ensures ArrayString([]) == "[]"
  {
  }

  lemma TextsExample()
    ensures Texts([0, -12, 7]) == ["0", "-12", "7"]
  {
    var t := Texts([0, -12, 7]);
    assert t[0] == "0";
    assert t[1] == "-12" by {
      assert NatToString(12) == NatToString(1) + [DigitChar(2)];
    }
    assert t[2] == "7";
  }

  lemma ArrayStringExample()
    ensures ArrayString([0, -12, 7]) == "[0,-12,7]"
  {
    var t: seq<string> := ["0", "-12", "7"];
    TextsExample();
    assert t[1..] == ["-12", "7"] && t[1..][1..] == ["7"];
    assert Join(t) == "0,-12,7";
  }
}
