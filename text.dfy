/**
 * The string operations of .NET that the settings code relies on, stated over
 * `seq<char>`: String.Split(char), String.Join, String.Replace(c, ""),
 * ToLower (ASCII only), Int32.ToString, Int32.TryParse (sign and digits only)
 * and Boolean.TryParse (without whitespace trimming).
 */
module Text {
  import opened Wrappers

  // ---------------------------------------------------------------------------
  // Searching, splitting and joining

  /** Index of the first `c` in `s`, or `|s|` when there is none. */
  function IndexOf(s: string, c: char): (i: nat)
    ensures i <= |s|
    ensures i < |s| ==> s[i] == c
    ensures forall j :: 0 <= j < i ==> s[j] != c
  {
    if |s| == 0 then 0
    else if s[0] == c then 0
    else 1 + IndexOf(s[1..], c)
  }

  /**
   * String.Split(c): the pieces between the occurrences of `c`, in order.
   * There is always at least one piece ("" splits into [""]).
   */
  function Split(s: string, c: char): (parts: seq<string>)
    ensures |parts| >= 1
    ensures forall k :: 0 <= k < |parts| ==> c !in parts[k]
    decreases |s|
  {
    var i := IndexOf(s, c);
    if i == |s| then [s] else [s[..i]] + Split(s[i + 1..], c)
  }

  /** String.Join(sep, parts). */
  function Join(parts: seq<string>, sep: string): string
  {
    if |parts| == 0 then ""
    else if |parts| == 1 then parts[0]
    else parts[0] + sep + Join(parts[1..], sep)
  }

  /** Joining the pieces of a split with the separator gives back the text. */
  lemma {:induction false} JoinSplit(s: string, c: char)
    ensures Join(Split(s, c), [c]) == s
    decreases |s|
  {
    var i := IndexOf(s, c);
    if i < |s| {
      var rest := Split(s[i + 1..], c);
      JoinSplit(s[i + 1..], c);
      assert Split(s, c) == [s[..i]] + rest;
      assert s == s[..i] + [c] + s[i + 1..];
    }
  }

  /** Splitting a join of separator-free pieces gives back the pieces. */
  lemma {:induction false} SplitJoin(parts: seq<string>, c: char)
    requires |parts| >= 1
    requires forall k :: 0 <= k < |parts| ==> c !in parts[k]
    ensures Split(Join(parts, [c]), c) == parts
  {
    if |parts| == 1 {
      assert IndexOf(parts[0], c) == |parts[0]|;
    } else {
      var p := parts[0];
      var rest := Join(parts[1..], [c]);
      var s := p + [c] + rest;
      assert Join(parts, [c]) == s;
      SplitFirst(p, c, rest);
      SplitJoin(parts[1..], c);
      assert parts == [p] + parts[1..];
    }
  }

  /** A piece without `c`, then `c`: splitting peels that piece off. */
  lemma SplitFirst(p: string, c: char, rest: string)
    requires c !in p
    ensures Split(p + [c] + rest, c) == [p] + Split(rest, c)
  {
    var s := p + [c] + rest;
    assert s[|p|] == c;
    forall j | 0 <= j < |p| ensures s[j] != c {
      assert s[j] == p[j];
    }
    IndexOfFirst(s, c, |p|);
    assert s[..|p|] == p;
    assert s[|p| + 1..] == rest;
  }

  /** The first index holding `c` is the result of IndexOf. */
  lemma IndexOfFirst(s: string, c: char, i: nat)
    requires i < |s| && s[i] == c
    requires forall j :: 0 <= j < i ==> s[j] != c
    ensures IndexOf(s, c) == i
  {
  }

  /** Joining one more piece at the end adds one separator and that piece. */
  lemma {:induction false} JoinSnoc(parts: seq<string>, p: string, sep: string)
    requires |parts| >= 1
    ensures Join(parts + [p], sep) == Join(parts, sep) + sep + p
  {
    if |parts| == 1 {
      assert (parts + [p])[1..] == [p];
    } else {
      assert (parts + [p])[1..] == parts[1..] + [p];
      JoinSnoc(parts[1..], p, sep);
    }
  }

  // ---------------------------------------------------------------------------
  // Removing a character

  /** String.Replace(c, ""): `s` with every `c` taken out. */
  function RemoveChar(s: string, c: char): (r: string)
    ensures c !in r
    ensures |r| <= |s|
    ensures forall d :: d in r ==> d in s
  {
    if |s| == 0 then ""
    else if s[0] == c then RemoveChar(s[1..], c)
    else [s[0]] + RemoveChar(s[1..], c)
  }

  lemma {:induction false} RemoveCharAbsent(s: string, c: char)
    requires c !in s
    ensures RemoveChar(s, c) == s
  {
    if |s| > 0 {
      RemoveCharAbsent(s[1..], c);
    }
  }

  lemma {:induction false} RemoveCharConcat(a: string, b: string, c: char)
    ensures RemoveChar(a + b, c) == RemoveChar(a, c) + RemoveChar(b, c)
  {
    if |a| > 0 {
      assert (a + b)[1..] == a[1..] + b;
      RemoveCharConcat(a[1..], b, c);
    } else {
      assert a + b == b;
    }
  }

  // ---------------------------------------------------------------------------
  // Lower-casing and case-insensitive comparison

  predicate IsUpper(c: char) { 'A' <= c <= 'Z' }
  predicate IsLetter(c: char) { 'A' <= c <= 'Z' || 'a' <= c <= 'z' }

  /** ToLower on one character, ASCII letters only. */
  function Lower(c: char): char
  {
    if IsUpper(c) then (c as int + 32) as char else c
  }

  /** ToLower on a string, character by character. */
  function LowerStr(s: string): string
  {
    seq(|s|, i requires 0 <= i < |s| => Lower(s[i]))
  }

  /** String.Equals(b, CurrentCultureIgnoreCase), ASCII only. */
  predicate EqualsIgnoreCase(a: string, b: string)
  {
    LowerStr(a) == LowerStr(b)
  }

  /** Lower-casing keeps every character that is not a letter, and adds none. */
  lemma LowerKeepsNonLetters(s: string, d: char)
    requires !IsLetter(d)
    ensures d in LowerStr(s) <==> d in s
  {
    if d in s {
      var i :| 0 <= i < |s| && s[i] == d;
      assert LowerStr(s)[i] == d;
    }
    if d in LowerStr(s) {
      var i :| 0 <= i < |s| && LowerStr(s)[i] == d;
      assert s[i] == d;
    }
  }

  // ---------------------------------------------------------------------------
  // Decimal integers

  newtype int32 = x: int | -0x8000_0000 <= x < 0x8000_0000

  predicate IsDigit(c: char) { '0' <= c <= '9' }

  predicate AllDigits(s: string) { forall i :: 0 <= i < |s| ==> IsDigit(s[i]) }

  function DigitChar(d: nat): char
    requires d < 10
  {
    ('0' as int + d) as char
  }

  /** The decimal digits of `n`, most significant first, with no leading zero. */
  function NatToString(n: nat): (s: string)
    ensures |s| >= 1 && AllDigits(s)
    decreases n
  {
    if n < 10 then [DigitChar(n)] else NatToString(n / 10) + [DigitChar(n % 10)]
  }

  /** Int32.ToString(): a '-' for a negative number, then its digits. */
  function IntToString(i: int): (s: string)
    ensures |s| >= 1 && (s[0] == '-' || IsDigit(s[0]))
    ensures AllDigits(s[1..])
  {
    if i < 0 then "-" + NatToString(-i) else NatToString(i)
  }

  /** The number a non-empty run of digits denotes. */
  function DigitsValue(s: string): nat
    requires AllDigits(s)
  {
    if |s| == 0 then 0 else DigitsValue(s[..|s| - 1]) * 10 + (s[|s| - 1] as int - '0' as int)
  }

  lemma {:induction false} DigitsValueOfNatToString(n: nat)
    ensures DigitsValue(NatToString(n)) == n
    decreases n
  {
    if n >= 10 {
      var s := NatToString(n);
      assert s[..|s| - 1] == NatToString(n / 10);
      DigitsValueOfNatToString(n / 10);
    }
  }

  /**
   * Int32.TryParse: an optional '+' or '-' and at least one decimal digit,
   * accepted only when the number fits in 32 bits.
   */
  function ParseInt32(s: string): (r: Option<int32>)
    ensures r.Some? ==> |s| >= 1 && (s[0] == '-' || s[0] == '+' || IsDigit(s[0]))
  {
    var signed := |s| > 0 && (s[0] == '-' || s[0] == '+');
    var digits := if signed then s[1..] else s;
    if |digits| == 0 || !AllDigits(digits) then None
    else
      var v: int := if signed && s[0] == '-' then -(DigitsValue(digits) as int) else DigitsValue(digits) as int;
      if -0x8000_0000 <= v < 0x8000_0000 then Some(v as int32) else None
  }

  /** Every 32-bit integer reads back from its decimal form. */
  lemma ParseIntToString(i: int32)
    ensures ParseInt32(IntToString(i as int)) == Some(i)
  {
    var s := IntToString(i as int);
    if i < 0 {
      assert s[1..] == NatToString(-(i as int));
      DigitsValueOfNatToString(-(i as int));
    } else {
      DigitsValueOfNatToString(i as int);
    }
  }

  /** A run of digits denoting a number beyond Int32 does not parse. */
  lemma ParseIntOverflow(n: nat)
    requires n >= 0x8000_0000
    ensures ParseInt32(NatToString(n)) == None
  {
    DigitsValueOfNatToString(n);
    var s := NatToString(n);
    assert IsDigit(s[0]);
  }

  // ---------------------------------------------------------------------------
  // Booleans

  /** Boolean.ToString(): "True" or "False". */
  function BoolToString(b: bool): string
  {
    if b then "True" else "False"
  }

  /** Boolean.TryParse: "true" or "false" in any letter case. */
  function ParseBool(s: string): (r: Option<bool>)
    ensures r.Some? ==> |s| >= 1 && IsLetter(s[0])
  {
    if EqualsIgnoreCase(s, "true") then
      assert Lower(s[0]) == LowerStr(s)[0] == 't';
      Some(true)
    else if EqualsIgnoreCase(s, "false") then
      assert Lower(s[0]) == LowerStr(s)[0] == 'f';
      Some(false)
    else None
  }

  /** Boolean.TryParse reads back Boolean.ToString. */
  lemma ParseBoolToString(b: bool)
    ensures ParseBool(BoolToString(b)) == Some(b)
  {
    if b {
      assert LowerStr("True") == "true";
    } else {
      assert LowerStr("False") == "false";
      assert LowerStr("False") != "true";
    }
  }
}
