/**
 * The few Python string operations the bot relies on, written out
 * character by character: `str.isspace`, `str.split()` with no argument,
 * `str.split(sep)`, `str.join`, `str(int)` and `int(str)` in base 10.
 */
module Text {
  import opened Wrappers

  /** Python's `str.isspace()` for a single character. */
  predicate IsSpace(c: char) {
    || (9 <= c as int <= 13) || (28 <= c as int <= 32)
    || c as int == 0x85 || c as int == 0xA0 || c as int == 0x1680
    || (0x2000 <= c as int <= 0x200A)
    || c as int == 0x2028 || c as int == 0x2029 || c as int == 0x202F
    || c as int == 0x205F || c as int == 0x3000
  }

  predicate IsDigit(c: char) {
    '0' <= c <= '9'
  }

  predicate AllDigits(s: string) {
    forall i :: 0 <= i < |s| ==> IsDigit(s[i])
  }

  predicate NoColon(s: string) {
    forall i :: 0 <= i < |s| ==> s[i] != ':'
  }

  /** A token of `str.split()`: non-empty and free of whitespace. */
  predicate IsWord(w: string) {
    |w| > 0 && forall i :: 0 <= i < |w| ==> !IsSpace(w[i])
  }

  predicate StartsWith(s: string, prefix: string) {
    |prefix| <= |s| && s[..|prefix|] == prefix
  }

  function Last<T>(xs: seq<T>): T
    requires |xs| > 0
  {
    xs[|xs| - 1]
  }

  // ---------------------------------------------------------------------
  // str(int) and int(str)

  function DigitChar(d: nat): (c: char)
    requires d < 10
    ensures IsDigit(c) && c as int - '0' as int == d
  {
    ('0' as int + d) as char
  }

  /** Decimal digits of `n`, most significant first, no leading zeros. */
  function NatToString(n: nat): (s: string)
    ensures |s| > 0 && AllDigits(s)
  {
    if n < 10 then [DigitChar(n)] else NatToString(n / 10) + [DigitChar(n % 10)]
  }

  /** Python's `str(x)` for an integer `x`. */
  function IntToString(x: int): (s: string)
    ensures IsWord(s) && NoColon(s)
  {
    if x < 0 then "-" + NatToString(-x) else NatToString(x)
  }

  /** The value of a string of decimal digits. */
  function DigitsValue(s: string): nat
    requires AllDigits(s)
  {
    if s == [] then 0 else DigitsValue(s[..|s| - 1]) * 10 + (s[|s| - 1] as int - '0' as int)
  }

  function StripLeft(s: string): (t: string)
    ensures t == [] || !IsSpace(t[0])
  {
    if s != [] && IsSpace(s[0]) then StripLeft(s[1..]) else s
  }

  function StripRight(s: string): (t: string)
    ensures t == [] || !IsSpace(t[|t| - 1])
  {
    if s != [] && IsSpace(s[|s| - 1]) then StripRight(s[..|s| - 1]) else s
  }

  /**
   * Python's `int(s)`: surrounding whitespace is ignored, an optional sign
   * may precede one or more decimal digits; anything else is a ValueError,
   * which is `None` here.
   */
  function ParseInt(s: string): Option<int> {
    var t := StripRight(StripLeft(s));
    if |t| > 1 && t[0] == '-' && AllDigits(t[1..]) then Some(0 - DigitsValue(t[1..]))
    else if |t| > 1 && t[0] == '+' && AllDigits(t[1..]) then Some(DigitsValue(t[1..]))
    else if |t| > 0 && AllDigits(t) then Some(DigitsValue(t))
    else None
  }

  lemma {:induction false} DigitsOfNat(n: nat)
    ensures DigitsValue(NatToString(n)) == n
  {
    if n >= 10 {
      var s := NatToString(n / 10);
      var c := DigitChar(n % 10);
      DigitsOfNat(n / 10);
      assert (s + [c])[..|s|] == s;
    }
  }

  lemma StripWord(w: string)
    requires IsWord(w)
    ensures StripRight(StripLeft(w)) == w
  {
  }

  /** `int(str(x)) == x` for every integer, negatives included. */
  lemma IntRoundTrip(x: int)
    ensures ParseInt(IntToString(x)) == Some(x)
  {
    StripWord(IntToString(x));
    if x < 0 {
      DigitsOfNat(-x);
      assert ("-" + NatToString(-x))[1..] == NatToString(-x);
    } else {
      DigitsOfNat(x);
    }
  }

  /** `str` on integers is injective. */
  lemma IntToStringInjective(x: int, y: int)
    requires IntToString(x) == IntToString(y)
    ensures x == y
  {
    IntRoundTrip(x);
    IntRoundTrip(y);
  }

  // ---------------------------------------------------------------------
  // str.split() and " ".join

  /** Length of the leading run of non-whitespace characters. */
  function WordLength(s: string): (k: nat)
    ensures k <= |s|
    ensures forall i :: 0 <= i < k ==> !IsSpace(s[i])
    ensures k < |s| ==> IsSpace(s[k])
  {
    if s == [] || IsSpace(s[0]) then 0 else 1 + WordLength(s[1..])
  }

  /** Python's `s.split()`: the maximal runs of non-whitespace. */
  function Words(s: string): (ws: seq<string>)
    ensures forall i :: 0 <= i < |ws| ==> IsWord(ws[i])
    decreases |s|
  {
    if s == [] then []
    else if IsSpace(s[0]) then Words(s[1..])
    else
      var k := WordLength(s);
      [s[..k]] + Words(s[k..])
  }

  /** Python's `sep.join(ws)`. */
  function Join(ws: seq<string>, sep: string): string {
    if |ws| == 0 then ""
    else if |ws| == 1 then ws[0]
    else ws[0] + sep + Join(ws[1..], sep)
  }

  lemma {:induction false} WordLengthOfWord(w: string, rest: string)
    requires IsWord(w)
    requires rest == [] || IsSpace(rest[0])
    ensures WordLength(w + rest) == |w|
  {
    if |w| > 1 {
      assert (w + rest)[1..] == w[1..] + rest;
      WordLengthOfWord(w[1..], rest);
    } else {
      assert (w + rest)[1..] == rest;
    }
  }

  /** Splitting the space-joined words gives the words back. */
  lemma {:induction false} WordsOfJoin(ws: seq<string>)
    requires forall i :: 0 <= i < |ws| ==> IsWord(ws[i])
    ensures Words(Join(ws, " ")) == ws
  {
    if |ws| == 1 {
      var w := ws[0];
      WordLengthOfWord(w, "");
      assert w + "" == w;
      assert w[|w|..] == [];
    } else if |ws| > 1 {
      var w, rest := ws[0], Join(ws[1..], " ");
      var s := w + " " + rest;
      WordLengthOfWord(w, " " + rest);
      assert s == w + (" " + rest);
      assert s[..|w|] == w;
      assert s[|w|..] == " " + rest;
      assert (" " + rest)[1..] == rest;
      WordsOfJoin(ws[1..]);
      assert ws == [w] + ws[1..];
    }
  }

  // ---------------------------------------------------------------------
  // str.split(sep)

  predicate OccursAt(s: string, sep: string, j: int) {
    0 <= j && j + |sep| <= |s| && s[j..j + |sep|] == sep
  }

  /** No occurrence of `sep` anywhere in `s`. */
  predicate Free(s: string, sep: string) {
    forall j :: 0 <= j <= |s| ==> !OccursAt(s, sep, j)
  }

  /** First occurrence of `sep` at or after `from`. */
  function Find(s: string, sep: string, from: nat): (r: Option<nat>)
    requires |sep| > 0
    ensures r.Some? ==> from <= r.value && OccursAt(s, sep, r.value)
    ensures forall j :: from <= j && (r.None? || j < r.value) ==> !OccursAt(s, sep, j)
    decreases |s| - from
  {
    if from + |sep| > |s| then None
    else if s[from..from + |sep|] == sep then Some(from)
    else Find(s, sep, from + 1)
  }

  /** Last occurrence of `sep` starting at or before `upto`. */
  function FindLast(s: string, sep: string, upto: int): (r: Option<nat>)
    ensures r.Some? ==> r.value <= upto && OccursAt(s, sep, r.value)
    ensures forall j :: j <= upto && (r.None? || r.value < j) ==> !OccursAt(s, sep, j)
    decreases upto + 1
  {
    if upto < 0 then None
    else if OccursAt(s, sep, upto) then Some(upto)
    else FindLast(s, sep, upto - 1)
  }

  /**
   * Python's `s.split(sep)` for a non-empty separator: cut at every
   * occurrence found scanning left to right, occurrences not overlapping.
   */
  function Split(s: string, sep: string): (parts: seq<string>)
    requires |sep| > 0
    ensures |parts| >= 1
    decreases |s|
  {
    match Find(s, sep, 0)
    case None => [s]
    case Some(i) => [s[..i]] + Split(s[i + |sep|..], sep)
  }

  /** The first part of a split is a prefix of the string, and the whole string when `sep` does not occur. */
  lemma SplitHead(s: string, sep: string)
    requires |sep| > 0
    ensures StartsWith(s, Split(s, sep)[0])
    ensures Free(s, sep) ==> Split(s, sep)[0] == s
  {
    match Find(s, sep, 0)
    case None =>
    case Some(i) =>
      assert Split(s, sep)[0] == s[..i];
      assert !Free(s, sep) by {
        assert OccursAt(s, sep, i);
      }
  }

  /** Joining the parts of a split with the separator gives back the string. */
  lemma {:induction false} SplitJoin(s: string, sep: string)
    requires |sep| > 0
    ensures Join(Split(s, sep), sep) == s
    decreases |s|
  {
    match Find(s, sep, 0)
    case None =>
    case Some(i) =>
      var tail := Split(s[i + |sep|..], sep);
      SplitJoin(s[i + |sep|..], sep);
      assert ([s[..i]] + tail)[1..] == tail;
      assert s == s[..i] + s[i..i + |sep|] + s[i + |sep|..];
  }

  /** A field that a `"::"` split gives back unchanged when it is followed by the separator. */
  predicate Field(p: string) {
    Free(p, "::") && (p == [] || p[|p| - 1] != ':')
  }

  lemma ColonFree(s: string)
    requires NoColon(s)
    ensures Field(s)
  {
    forall j | 0 <= j <= |s| ensures !OccursAt(s, "::", j) {
      if j + 2 <= |s| {
        assert s[j..j + 2][0] == s[j];
      }
    }
  }

  lemma SplitWhole(s: string, sep: string)
    requires |sep| > 0 && Free(s, sep)
    ensures Split(s, sep) == [s]
  {
  }

  /** A `"::"`-split consumes a clean leading field and its separator. */
  lemma SplitField(p: string, rest: string)
    requires Field(p)
    ensures Split(p + "::" + rest, "::") == [p] + Split(rest, "::")
  {
    var s := p + "::" + rest;
    assert s[|p|..|p| + 2] == "::";
    assert OccursAt(s, "::", |p|);
    forall j | 0 <= j < |p| ensures !OccursAt(s, "::", j) {
      if j < |p| - 1 {
        assert s[j..j + 2] == p[j..j + 2];
        assert !OccursAt(p, "::", j);
      } else {
        assert s[j..j + 2][0] == p[j];
      }
    }
    assert Find(s, "::", 0) == Some(|p|);
    assert s[..|p|] == p;
    assert s[|p| + 2..] == rest;
  }

  /** A split on `sep` of a string that starts with `sep` begins with an empty part. */
  lemma SplitLeading(s: string, sep: string)
    requires |sep| > 0 && StartsWith(s, sep)
    ensures Split(s, sep) == [""] + Split(s[|sep|..], sep)
  {
    assert OccursAt(s, sep, 0);
    assert Find(s, sep, 0) == Some(0);
  }

  /**
   * The last part of `a + "::" + d` is `d` whenever `a` does not end in a
   * colon and `d` has no colon, even if `a` itself contains `"::"`.
   */
  lemma {:induction false} SplitLast(a: string, d: string)
    requires a == [] || a[|a| - 1] != ':'
    requires NoColon(d)
    ensures Last(Split(a + "::" + d, "::")) == d
    decreases |a|
  {
    var s := a + "::" + d;
    FirstSeparator(a, d);
    var i := Find(s, "::", 0).value;
    SplitAfter(s, i);
    if i == |a| {
      assert s[|a| + 2..] == d;
      ColonFree(d);
      SplitWhole(d, "::");
    } else {
      var a' := a[i + 2..];
      assert s[i + 2..] == a' + "::" + d;
      SplitLast(a', d);
    }
  }

  /** The first `"::"` of `a + "::" + d` is the one after `a`, or lies wholly inside `a`. */
  lemma FirstSeparator(a: string, d: string)
    requires a == [] || a[|a| - 1] != ':'
    ensures Find(a + "::" + d, "::", 0).Some?
    ensures Find(a + "::" + d, "::", 0).value == |a| || Find(a + "::" + d, "::", 0).value + 2 <= |a|
  {
    var s := a + "::" + d;
    assert s[|a|..|a| + 2] == "::";
    assert OccursAt(s, "::", |a|);
    var i := Find(s, "::", 0).value;
    if i < |a| {
      assert s[|a| - 1..|a| + 1][0] == a[|a| - 1];
    }
  }

  /** The last part of a split is the last part of what follows its first separator. */
  lemma SplitAfter(s: string, i: nat)
    requires Find(s, "::", 0) == Some(i)
    ensures Last(Split(s, "::")) == Last(Split(s[i + 2..], "::"))
  {
    var tail := Split(s[i + 2..], "::");
    assert Split(s, "::") == [s[..i]] + tail;
    assert ([s[..i]] + tail)[|tail|] == tail[|tail| - 1];
  }

  /** The last `"::"` of `x + "::" + d` is the one before `d` when `d` has no colon. */
  lemma FindLastBefore(x: string, d: string)
    requires NoColon(d)
    ensures FindLast(x + "::" + d, "::", |x + "::" + d| - 2) == Some(|x|)
  {
    var s := x + "::" + d;
    assert s[|x|..|x| + 2] == "::";
    assert OccursAt(s, "::", |x|);
    forall j | |x| < j ensures !OccursAt(s, "::", j) {
      if j + 2 <= |s| {
        assert s[j..j + 2][1] == d[j + 1 - |x| - 2];
      }
    }
  }
}
