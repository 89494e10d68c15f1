/**
 * The handful of `java.lang.String` operations the store relies on:
 * `contains` with a one-character needle, `equalsIgnoreCase`, `trim`,
 * `split` with a one-character pattern, and the decimal conversions of
 * `Integer.toString` / `Integer.parseInt` / `Long.parseLong`.
 */
module JavaText {
  import opened Wrappers

  const Int32Min: int := -0x8000_0000
  const Int32Max: int := 0x7fff_ffff
  const Int64Min: int := -0x8000_0000_0000_0000
  const Int64Max: int := 0x7fff_ffff_ffff_ffff

  // ---------------------------------------------------------------------
  // equalsIgnoreCase (ASCII letters only)
  // ---------------------------------------------------------------------

  function ToUpper(c: char): char
  {
    if 'a' <= c <= 'z' then (c as int - 32) as char else c
  }

  function ToLower(c: char): char
  {
    if 'A' <= c <= 'Z' then (c as int + 32) as char else c
  }

  /** The per-character test `String.equalsIgnoreCase` applies. */
  predicate CharEqualsIgnoreCase(a: char, b: char)
  {
    a == b || ToUpper(a) == ToUpper(b) || ToLower(ToUpper(a)) == ToLower(ToUpper(b))
  }

  predicate EqualsIgnoreCase(a: string, b: string)
  {
    |a| == |b| && forall i :: 0 <= i < |a| ==> CharEqualsIgnoreCase(a[i], b[i])
  }

  // ---------------------------------------------------------------------
  // trim
  // ---------------------------------------------------------------------

  /** `String.trim` removes characters at or below U+0020 from both ends. */
  predicate IsBlank(c: char)
  {
    c <= ' '
  }

  function TrimStart(s: string): (r: string)
    ensures |r| <= |s| && r == s[|s| - |r|..]
    ensures forall i :: 0 <= i < |s| - |r| ==> IsBlank(s[i])
    ensures r == [] || !IsBlank(r[0])
  {
    if |s| > 0 && IsBlank(s[0]) then TrimStart(s[1..]) else s
  }

  function TrimEnd(s: string): (r: string)
    ensures |r| <= |s| && r == s[..|r|]
    ensures forall i :: |r| <= i < |s| ==> IsBlank(s[i])
    ensures r == [] || !IsBlank(r[|r| - 1])
  {
    if |s| > 0 && IsBlank(s[|s| - 1]) then TrimEnd(s[..|s| - 1]) else s
  }

  /** The trimmed line: the line with a run of blanks cut from each end,
      empty exactly when the line is all blanks, otherwise starting and
      ending with a non-blank character. */
  function Trim(s: string): (r: string)
    ensures exists i, j :: BlankCut(s, r, i, j)
    ensures r == [] <==> forall i :: 0 <= i < |s| ==> IsBlank(s[i])
    ensures r != [] ==> !IsBlank(r[0]) && !IsBlank(r[|r| - 1])
    ensures |r| <= |s|
  {
    var t := TrimStart(s);
    var r := TrimEnd(t);
    assert r != [] ==> r[0] == t[0];
    CutOfCut(s, t, r);
    r
  }

  /** `r` is `s[i..j]` and everything of `s` outside it is blank. */
  predicate BlankCut(s: string, r: string, i: int, j: int)
  {
    0 <= i <= j <= |s| && r == s[i..j] && forall k :: 0 <= k < |s| && (k < i || j <= k) ==> IsBlank(s[k])
  }

  /** Cutting a blank prefix and then a blank suffix cuts blanks only. */
  lemma CutOfCut(s: string, t: string, r: string)
    requires |t| <= |s| && t == s[|s| - |t|..] && forall k :: 0 <= k < |s| - |t| ==> IsBlank(s[k])
    requires |r| <= |t| && r == t[..|r|] && forall k :: |r| <= k < |t| ==> IsBlank(t[k])
    ensures BlankCut(s, r, |s| - |t|, |s| - |t| + |r|)
  {
    var i, j := |s| - |t|, |s| - |t| + |r|;
    assert forall k :: 0 <= k < |r| ==> r[k] == s[i + k];
    assert r == s[i..j];
    forall k | 0 <= k < |s| && j <= k ensures IsBlank(s[k]) {
      assert s[k] == t[k - i];
    }
  }

  /** A line that already starts and ends with a visible character is left as it is. */
  lemma TrimKeepsVisibleEnds(s: string)
    requires s != [] && !IsBlank(s[0]) && !IsBlank(s[|s| - 1])
    ensures Trim(s) == s
  {
    assert TrimStart(s) == s;
    assert TrimEnd(s) == s;
  }

  // ---------------------------------------------------------------------
  // split
  // ---------------------------------------------------------------------

  function FirstIndexIn(s: string, seps: set<char>): (r: Option<nat>)
    ensures r.Some? ==> r.value < |s| && s[r.value] in seps
    ensures r.Some? ==> forall j :: 0 <= j < r.value ==> s[j] !in seps
    ensures r.None? ==> forall j :: 0 <= j < |s| ==> s[j] !in seps
  {
    if s == [] then None
    else if s[0] in seps then Some(0)
    else
      match FirstIndexIn(s[1..], seps)
      case None => None
      case Some(i) => Some(i + 1)
  }

  /** Every piece between two separator characters, empty pieces included. */
  function Pieces(s: string, seps: set<char>): (r: seq<string>)
    ensures |r| >= 1
    decreases |s|
  {
    match FirstIndexIn(s, seps)
    case None => [s]
    case Some(i) => [s[..i]] + Pieces(s[i + 1..], seps)
  }

  function DropTrailingEmpty(parts: seq<string>): (r: seq<string>)
    ensures |r| <= |parts| && r == parts[..|r|]
    ensures r == [] || r[|r| - 1] != ""
    ensures forall i :: |r| <= i < |parts| ==> parts[i] == ""
  {
    if parts != [] && parts[|parts| - 1] == "" then DropTrailingEmpty(parts[..|parts| - 1]) else parts
  }

  /**
   * `String.split` (limit 0) for a pattern that matches one character of
   * `seps`: the whole input when nothing matches, otherwise the pieces with
   * trailing empty pieces removed (leading and inner empty pieces stay).
   */
  function Split(s: string, seps: set<char>): seq<string>
  {
    if FirstIndexIn(s, seps).None? then [s] else DropTrailingEmpty(Pieces(s, seps))
  }

  function Join(parts: seq<string>, sep: char): string
    requires |parts| >= 1
  {
    if |parts| == 1 then parts[0] else parts[0] + [sep] + Join(parts[1..], sep)
  }

  /** Joining the pieces with the separator gives back the input. */
  lemma {:induction false} JoinPieces(s: string, sep: char)
    ensures Join(Pieces(s, {sep}), sep) == s
    decreases |s|
  {
    match FirstIndexIn(s, {sep})
    case None =>
    case Some(i) =>
      var rest := Pieces(s[i + 1..], {sep});
      var parts := [s[..i]] + rest;
      assert Pieces(s, {sep}) == parts;
      assert parts[1..] == rest;
      JoinPieces(s[i + 1..], sep);
      assert Join(parts, sep) == s[..i] + [sep] + Join(rest, sep);
      assert s == s[..i] + [sep] + s[i + 1..];
  }

  /** Cutting a join of separator-free parts at the separator gives back the parts. */
  lemma {:induction false} PiecesOfJoin(parts: seq<string>, sep: char)
    requires |parts| >= 1
    requires forall i :: 0 <= i < |parts| ==> sep !in parts[i]
    ensures Pieces(Join(parts, sep), {sep}) == parts
  {
    var s := Join(parts, sep);
    if |parts| == 1 {
      assert FirstIndexIn(s, {sep}).None?;
    } else {
      var rest := Join(parts[1..], sep);
      assert s == parts[0] + [sep] + rest;
      assert s[|parts[0]|] == sep;
      var f := FirstIndexIn(s, {sep});
      assert f == Some(|parts[0]|);
      assert s[..|parts[0]|] == parts[0];
      assert s[|parts[0]| + 1..] == rest;
      PiecesOfJoin(parts[1..], sep);
      assert parts == [parts[0]] + parts[1..];
    }
  }

  /** A colon-separated triple with a non-empty last field splits back into its three fields. */
  lemma SplitThree(a: string, b: string, c: string, sep: char)
    requires sep !in a && sep !in b && sep !in c && c != ""
    ensures Split(a + [sep] + b + [sep] + c, {sep}) == [a, b, c]
  {
    var s := a + [sep] + b + [sep] + c;
    assert Join([a, b, c], sep) == s by {
      assert [b, c][1..] == [c];
      assert Join([b, c], sep) == b + [sep] + c;
      assert [a, b, c][1..] == [b, c];
      assert Join([a, b, c], sep) == a + [sep] + (b + [sep] + c);
    }
    PiecesOfJoin([a, b, c], sep);
    assert s[|a|] == sep;
  }

  /** The two runtime exceptions a line parser can hit: indexing past the
      end of the split fields (`ArrayIndexOutOfBoundsException`) and a field
      that is not a number (`NumberFormatException`). */
  datatype ParseError = MissingField | BadNumber

  // ---------------------------------------------------------------------
  // decimal integers
  // ---------------------------------------------------------------------

  predicate IsDigit(c: char)
  {
    '0' <= c <= '9'
  }

  predicate AllDigits(s: string)
  {
    forall i :: 0 <= i < |s| ==> IsDigit(s[i])
  }

  function DigitValue(c: char): nat
    requires IsDigit(c)
  {
    c as int - '0' as int
  }

  function DigitChar(d: nat): (c: char)
    requires d < 10
    ensures IsDigit(c) && DigitValue(c) == d
  {
    ('0' as int + d) as char
  }

  /** The number a run of ASCII digits denotes, most significant digit first. */
  function DigitsValue(s: string): nat
    requires AllDigits(s)
  {
    if s == [] then 0 else DigitsValue(s[..|s| - 1]) * 10 + DigitValue(s[|s| - 1])
  }

  /** Decimal digits of a natural number, read back as the same number. */
  function NatToString(n: nat): (r: string)
    ensures |r| >= 1 && AllDigits(r)
    ensures DigitsValue(r) == n
  {
    if n < 10 then [DigitChar(n)]
    else
      var r := NatToString(n / 10) + [DigitChar(n % 10)];
      assert r[..|r| - 1] == NatToString(n / 10);
      r
  }

  /** `Integer.toString` / `Long.toString`: a minus sign exactly for a
      negative number, then the digits of its magnitude. */
  function IntToString(i: int): (r: string)
    ensures |r| >= 1 && (r[0] == '-' <==> i < 0)
  {
    if i < 0 then "-" + NatToString(-i) else NatToString(i)
  }

  /** What follows the optional minus sign of a printed integer is a
      non-empty run of digits denoting the number's magnitude, so the sign
      can only come first. */
  lemma IntToStringDigits(i: int)
    ensures var r := IntToString(i);
      var digits := if i < 0 then r[1..] else r;
      && |digits| >= 1 && AllDigits(digits)
      && DigitsValue(digits) == (if i < 0 then -i else i)
      && (forall j :: 1 <= j < |r| ==> IsDigit(r[j]))
      && (IsDigit(r[0]) || r[0] == '-') && IsDigit(r[|r| - 1])
  {
    var r := IntToString(i);
    if i < 0 {
      assert r[1..] == NatToString(-i);
      assert r[|r| - 1] == r[1..][|r| - 2];
    }
  }

  /** A printed integer holds no colon and starts and ends with a visible character. */
  lemma PrintedFieldShape(i: int)
    ensures var r := IntToString(i);
      ':' !in r && !IsBlank(r[0]) && !IsBlank(r[|r| - 1])
  {
    var r := IntToString(i);
    IntToStringDigits(i);
    forall j | 0 <= j < |r| ensures r[j] != ':' {
      if j > 0 {
        assert IsDigit(r[j]);
      }
    }
  }

  /**
   * `Integer.parseInt` (range `Int32Min..Int32Max`) and `Long.parseLong`
   * (range `Int64Min..Int64Max`) on ASCII input: an optional sign, at least
   * one digit, nothing else, and the value inside the range; `None` is the
   * `NumberFormatException`.
   */
  function ParseDecimal(s: string, lo: int, hi: int): (r: Option<int>)
    ensures r.Some? ==> lo <= r.value <= hi
    ensures r.Some? ==> |s| >= 1 && (s[0] == '-' || s[0] == '+' || IsDigit(s[0]))
    ensures r.Some? ==> (forall j :: 1 <= j < |s| ==> IsDigit(s[j])) && (|s| == 1 ==> IsDigit(s[0]))
    ensures r.Some? && s[0] == '-' ==> r.value <= 0
  {
    if s == [] then None
    else
      var digits := if s[0] == '-' || s[0] == '+' then s[1..] else s;
      if digits == [] || !AllDigits(digits) then None
      else
        var magnitude: int := DigitsValue(digits);
        var v := if s[0] == '-' then -magnitude else magnitude;
        if lo <= v <= hi then Some(v) else None
  }

  function ParseInt(s: string): Option<int>
  {
    ParseDecimal(s, Int32Min, Int32Max)
  }

  function ParseLong(s: string): Option<int>
  {
    ParseDecimal(s, Int64Min, Int64Max)
  }

  /** Parsing the printed form of an in-range number gives the number back. */
  lemma ParsePrinted(i: int, lo: int, hi: int)
    requires lo <= i <= hi
    ensures ParseDecimal(IntToString(i), lo, hi) == Some(i)
  {
    var s := IntToString(i);
    IntToStringDigits(i);
  }
}
