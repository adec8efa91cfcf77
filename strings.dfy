/**
 * The JavaScript string operations the converters rely on: whitespace,
 * `trim`, `split`, `join`, `toLowerCase`, the decimal rendering of an
 * integer in a template literal, and `Number(string)` (the unary `+`).
 */
module Strings {
  import opened Wrappers

  /** JavaScript's WhiteSpace and LineTerminator characters (the `\s` class, and what `trim` removes). */
  predicate IsWhitespace(c: char) {
    || c == ' ' || c == '\t' || c == '\n' || c == '\r' || c == '\U{000B}' || c == '\U{000C}'
    || c == '\U{00A0}' || c == '\U{1680}' || ('\U{2000}' <= c <= '\U{200A}')
    || c == '\U{2028}' || c == '\U{2029}' || c == '\U{202F}' || c == '\U{205F}'
    || c == '\U{3000}' || c == '\U{FEFF}'
  }

  predicate AllWhitespace(s: string) {
    forall i | 0 <= i < |s| :: IsWhitespace(s[i])
  }

  predicate NoWhitespace(s: string) {
    forall i | 0 <= i < |s| :: !IsWhitespace(s[i])
  }

  predicate IsDigit(c: char) {
    '0' <= c <= '9'
  }

  predicate AllDigits(s: string) {
    forall i | 0 <= i < |s| :: IsDigit(s[i])
  }

  predicate IsUpper(c: char) {
    'A' <= c <= 'Z'
  }

  /** `toLowerCase` on one character (ASCII letters only). */
  function LowerChar(c: char): (d: char)
    ensures !IsUpper(d)
    ensures IsWhitespace(d) == IsWhitespace(c) && IsDigit(d) == IsDigit(c)
    ensures !IsUpper(c) ==> d == c
  {
    if IsUpper(c) then (c as int + 32) as char else c
  }

  /** `String.prototype.toLowerCase`. */
  function Lower(s: string): string {
    seq(|s|, i requires 0 <= i < |s| => LowerChar(s[i]))
  }

  /** Lower-casing a string twice is lower-casing it once. */
  lemma LowerIdempotent(s: string)
    ensures Lower(Lower(s)) == Lower(s)
  {
  }

  /** A string without upper-case letters is its own lower-case form. */
  lemma LowerUnchanged(s: string)
    requires forall i | 0 <= i < |s| :: !IsUpper(s[i])
    ensures Lower(s) == s
  {
  }

  lemma LowerAppend(a: string, b: string)
    ensures Lower(a + b) == Lower(a) + Lower(b)
  {
  }

  // ---------------------------------------------------------------- trim

  /** Drops the leading whitespace: the longest suffix that does not start with whitespace. */
  function TrimStart(s: string): (r: string)
    ensures |r| <= |s| && r == s[|s| - |r|..]
    ensures r == [] || !IsWhitespace(r[0])
    ensures forall k | 0 <= k < |s| - |r| :: IsWhitespace(s[k])
    decreases |s|
  {
    if s != [] && IsWhitespace(s[0]) then TrimStart(s[1..]) else s
  }

  /** Drops the trailing whitespace: the longest prefix that does not end with whitespace. */
  function TrimEnd(s: string): (r: string)
    ensures |r| <= |s| && r == s[..|r|]
    ensures r == [] || !IsWhitespace(r[|r| - 1])
    ensures forall k | |r| <= k < |s| :: IsWhitespace(s[k])
    decreases |s|
  {
    if s != [] && IsWhitespace(s[|s| - 1]) then TrimEnd(s[..|s| - 1]) else s
  }

  /** `String.prototype.trim`. */
  function Trim(s: string): string {
    TrimStart(TrimEnd(s))
  }

  /**
   * What `trim` leaves: a middle part of `s` that neither starts nor ends
   * with whitespace, with only whitespace cut off on either side, and empty
   * exactly when `s` is all whitespace.
   */
  lemma TrimMeaning(s: string)
    ensures var r := Trim(s); r == [] || (!IsWhitespace(r[0]) && !IsWhitespace(r[|r| - 1]))
    ensures Trim(s) == [] <==> AllWhitespace(s)
    ensures exists i, j | 0 <= i <= j <= |s| :: Trim(s) == s[i..j] && AllWhitespace(s[..i]) && AllWhitespace(s[j..])
  {
    TrimEnds(s);
    TrimSlice(s);
  }

  /** Proof step: both trims together cut whitespace off the two ends. */
  lemma TrimSlice(s: string)
    ensures var e := TrimEnd(s); var i, j := |e| - |TrimStart(e)|, |e|;
      0 <= i <= j <= |s| && TrimStart(e) == s[i..j] && AllWhitespace(s[..i]) && AllWhitespace(s[j..])
  {
    var e := TrimEnd(s);
    var r := TrimStart(e);
    var i, j := |e| - |r|, |e|;
    assert r == s[i..j] by {
      assert r == e[i..] && e == s[..j];
    }
    WhitespacePrefix(s, e, i);
    WhitespaceSuffix(s, j);
  }

  /** Proof step: the whitespace TrimStart drops from TrimEnd's result lies at the start of `s`. */
  lemma WhitespacePrefix(s: string, e: string, i: nat)
    requires e == TrimEnd(s) && i == |e| - |TrimStart(e)|
    ensures i <= |s| && AllWhitespace(s[..i])
  {
    forall k | 0 <= k < i
      ensures IsWhitespace(s[..i][k])
    {
      assert s[..i][k] == e[k];
    }
  }

  /** Proof step: what TrimEnd drops is whitespace. */
  lemma WhitespaceSuffix(s: string, j: nat)
    requires j == |TrimEnd(s)|
    ensures j <= |s| && AllWhitespace(s[j..])
  {
    forall k | 0 <= k < |s| - j
      ensures IsWhitespace(s[j..][k])
    {
      assert s[j..][k] == s[j + k];
    }
  }

  /** Proof step: what is left after both trims is empty only for whitespace, and keeps TrimEnd's last character. */
  lemma TrimEnds(s: string)
    ensures TrimStart(TrimEnd(s)) == [] <==> AllWhitespace(s)
    ensures TrimStart(TrimEnd(s)) == [] || TrimStart(TrimEnd(s))[|TrimStart(TrimEnd(s))| - 1] == s[|TrimEnd(s)| - 1]
  {
    if TrimStart(TrimEnd(s)) == [] {
      TrimmedAway(s);
    } else {
      TrimKept(s);
    }
  }

  /** Proof step: when something is left, its last character is TrimEnd's, which is not whitespace. */
  lemma TrimKept(s: string)
    requires TrimStart(TrimEnd(s)) != []
    ensures var e := TrimEnd(s); e != [] && TrimStart(e)[|TrimStart(e)| - 1] == s[|e| - 1] && !IsWhitespace(s[|e| - 1])
  {
    var e := TrimEnd(s);
    var r := TrimStart(e);
    assert r[|r| - 1] == e[|e| - 1];
    assert e[|e| - 1] == s[|e| - 1];
  }

  /** Proof step: when both trims leave nothing, every character was whitespace. */
  lemma TrimmedAway(s: string)
    requires TrimStart(TrimEnd(s)) == []
    ensures AllWhitespace(s)
  {
    var e := TrimEnd(s);
    assert e == [];
  }

  /** Whatever suffix of `s` satisfies TrimStart's contract is TrimStart's result. */
  lemma TrimStartUnique(s: string, r: string)
    requires |r| <= |s| && r == s[|s| - |r|..]
    requires r == [] || !IsWhitespace(r[0])
    requires forall k | 0 <= k < |s| - |r| :: IsWhitespace(s[k])
    ensures TrimStart(s) == r
  {
    var t := TrimStart(s);
    assert t == [] || t[0] == s[|s| - |t|];
    assert r == [] || r[0] == s[|s| - |r|];
  }

  /** Whatever prefix of `s` satisfies TrimEnd's contract is TrimEnd's result. */
  lemma TrimEndUnique(s: string, r: string)
    requires |r| <= |s| && r == s[..|r|]
    requires r == [] || !IsWhitespace(r[|r| - 1])
    requires forall k | |r| <= k < |s| :: IsWhitespace(s[k])
    ensures TrimEnd(s) == r
  {
    var t := TrimEnd(s);
    assert t == [] || t[|t| - 1] == s[|t| - 1];
    assert r == [] || r[|r| - 1] == s[|r| - 1];
  }

  /** A string that neither starts nor ends with whitespace is unchanged by `trim`. */
  lemma TrimUnchanged(s: string)
    requires s == [] || (!IsWhitespace(s[0]) && !IsWhitespace(s[|s| - 1]))
    ensures Trim(s) == s
  {
    TrimEndUnique(s, s);
    TrimStartUnique(s, s);
  }

  /** Leading whitespace does not survive TrimStart. */
  lemma TrimStartPadding(pre: string, x: string)
    requires AllWhitespace(pre)
    ensures TrimStart(pre + x) == TrimStart(x)
  {
    var r := TrimStart(x);
    var whole := pre + x;
    assert whole[|whole| - |r|..] == r;
    forall k | 0 <= k < |whole| - |r|
      ensures IsWhitespace(whole[k])
    {
      if k < |pre| {
        assert whole[k] == pre[k];
      } else {
        assert whole[k] == x[k - |pre|];
      }
    }
    TrimStartUnique(whole, r);
  }

  /** Padding on both sides leaves TrimEnd with the padded front of TrimEnd(s), or nothing. */
  lemma TrimEndPadding(pre: string, s: string, post: string)
    requires AllWhitespace(pre) && AllWhitespace(post)
    ensures TrimEnd(pre + s + post) == if TrimEnd(s) == [] then [] else pre + TrimEnd(s)
  {
    var whole := pre + s + post;
    var e := TrimEnd(s);
    if e == [] {
      assert s == s[|e|..];
      assert whole[0..] == whole;
      TrimEndUnique(whole, []);
    } else {
      var r := pre + e;
      assert whole[..|r|] == r;
      assert whole[|r|..] == s[|e|..] + post;
      TrimEndUnique(whole, r);
    }
  }

  /** Whitespace added before or after a string does not survive `trim`. */
  lemma TrimPadding(pre: string, s: string, post: string)
    requires AllWhitespace(pre) && AllWhitespace(post)
    ensures Trim(pre + s + post) == Trim(s)
  {
    TrimEndPadding(pre, s, post);
    if TrimEnd(s) != [] {
      TrimStartPadding(pre, TrimEnd(s));
    }
  }

  // ---------------------------------------------------------------- split

  /** The first index at or after `from` that holds whitespace, or |s|. */
  function NextWhitespace(s: string, from: nat): (i: nat)
    requires from <= |s|
    ensures from <= i <= |s|
    ensures forall k | from <= k < i :: !IsWhitespace(s[k])
    ensures i < |s| ==> IsWhitespace(s[i])
    decreases |s| - from
  {
    if from == |s| || IsWhitespace(s[from]) then from else NextWhitespace(s, from + 1)
  }

  /** The end of the run of whitespace that starts at `from`. */
  function EndOfRun(s: string, from: nat): (i: nat)
    requires from <= |s|
    ensures from <= i <= |s|
    ensures forall k | from <= k < i :: IsWhitespace(s[k])
    ensures i < |s| ==> !IsWhitespace(s[i])
    decreases |s| - from
  {
    if from == |s| || !IsWhitespace(s[from]) then from else EndOfRun(s, from + 1)
  }

  /** `s.split(/\s+/)`: the pieces between maximal runs of whitespace ("" gives [""]). */
  function SplitWhitespace(s: string): (r: seq<string>)
    ensures |r| >= 1
    ensures forall w | w in r :: NoWhitespace(w)
    decreases |s|
  {
    var i := NextWhitespace(s, 0);
    assert s[0..i] == s[..i];
    if i == |s| then [s]
    else
      var j := EndOfRun(s, i);
      [s[..i]] + SplitWhitespace(s[j..])
  }

  /** `words.join(sep)`. */
  function Join(words: seq<string>, sep: string): string
    decreases |words|
  {
    if |words| == 0 then ""
    else if |words| == 1 then words[0]
    else words[0] + sep + Join(words[1..], sep)
  }

  /** Joining two non-empty runs of words puts the separator between their joins. */
  lemma {:induction false} JoinAppend(a: seq<string>, b: seq<string>, sep: string)
    requires a != [] && b != []
    ensures Join(a + b, sep) == Join(a, sep) + sep + Join(b, sep)
    decreases |a|
  {
    if |a| > 1 {
      assert (a + b)[1..] == a[1..] + b;
      JoinAppend(a[1..], b, sep);
    }
  }

  /** Joined non-empty words start with the first word's first character. */
  lemma JoinHead(words: seq<string>, sep: string)
    requires |words| >= 1 && words[0] != []
    ensures Join(words, sep) != [] && Join(words, sep)[0] == words[0][0]
  {
  }

  /** Joined non-empty words end with the last word's last character. */
  lemma {:induction false} JoinLast(words: seq<string>, sep: string)
    requires |words| >= 1 && words[|words| - 1] != []
    ensures var s := Join(words, sep); s != [] && s[|s| - 1] == words[|words| - 1][|words[|words| - 1]| - 1]
    decreases |words|
  {
    if |words| > 1 {
      JoinLast(words[1..], sep);
    }
  }

  /**
   * Splitting on whitespace undoes joining with a space, as long as every
   * word is non-empty and free of whitespace.
   */
  lemma {:induction false} SplitJoin(words: seq<string>)
    requires |words| >= 1
    requires forall k | 0 <= k < |words| :: words[k] != [] && NoWhitespace(words[k])
    ensures SplitWhitespace(Join(words, " ")) == words
    decreases |words|
  {
    var w := words[0];
    if |words| > 1 {
      var rest := Join(words[1..], " ");
      var s := w + " " + rest;
      JoinHead(words[1..], " ");
      var i := NextWhitespace(s, 0);
      assert s[|w|] == ' ';
      assert forall k | 0 <= k < |w| :: s[k] == w[k];
      assert i == |w|;
      var j := EndOfRun(s, i);
      assert s[|w| + 1] == rest[0];
      assert j == |w| + 1;
      assert s[..i] == w && s[j..] == rest;
      SplitJoin(words[1..]);
    }
  }

  /** A run of whitespace after a first word ends that word; the rest is split on its own. */
  lemma SplitRun(a: string, sep: string, b: string)
    requires a != [] && NoWhitespace(a)
    requires sep != [] && AllWhitespace(sep)
    requires b == [] || !IsWhitespace(b[0])
    ensures SplitWhitespace(a + sep + b) == [a] + SplitWhitespace(b)
  {
    var s := a + sep + b;
    assert forall k | 0 <= k < |a| :: s[k] == a[k];
    assert forall k | |a| <= k < |a| + |sep| :: s[k] == sep[k - |a|];
    assert s[|a|] == sep[0];
    var i := NextWhitespace(s, 0);
    assert i == |a|;
    var j := EndOfRun(s, i);
    if b != [] {
      assert s[|a| + |sep|] == b[0];
    }
    assert j == |a| + |sep|;
    assert s[..i] == a && s[j..] == b;
  }

  /** The first index at or after `from` that holds `c`, or |s|. */
  function IndexOf(s: string, c: char, from: nat): (i: nat)
    requires from <= |s|
    ensures from <= i <= |s|
    ensures forall k | from <= k < i :: s[k] != c
    ensures i < |s| ==> s[i] == c
    decreases |s| - from
  {
    if from == |s| || s[from] == c then from else IndexOf(s, c, from + 1)
  }

  /** `s.split(c)` for a one-character separator: every occurrence of `c` ends a piece. */
  function SplitOn(s: string, c: char): (r: seq<string>)
    ensures |r| >= 1
    ensures forall w | w in r :: c !in w
    decreases |s|
  {
    var i := IndexOf(s, c, 0);
    assert s[0..i] == s[..i];
    if i == |s| then [s] else [s[..i]] + SplitOn(s[i + 1..], c)
  }

  /** Joining the pieces with the separator gives back the string. */
  lemma {:induction false} JoinSplitOn(s: string, c: char)
    ensures Join(SplitOn(s, c), [c]) == s
    decreases |s|
  {
    var i := IndexOf(s, c, 0);
    if i < |s| {
      JoinSplitOn(s[i + 1..], c);
      assert s == s[..i] + [c] + s[i + 1..];
    }
  }

  /** A piece without the separator is not split. */
  lemma SplitOnNone(w: string, c: char)
    requires c !in w
    ensures SplitOn(w, c) == [w]
  {
    assert w[..|w|] == w;
  }

  /** Searching `a + [c] + b` for `c` stops inside `a` or at the separator after it. */
  lemma {:induction false} IndexOfConcat(a: string, b: string, c: char, from: nat)
    requires from <= |a|
    ensures IndexOf(a + [c] + b, c, from) == IndexOf(a, c, from)
    decreases |a| - from
  {
    var s := a + [c] + b;
    if from < |a| {
      assert s[from] == a[from];
      if a[from] != c {
        IndexOfConcat(a, b, c, from + 1);
      }
    } else {
      assert s[from] == c;
    }
  }

  /** A separator splits the string into the pieces of either side. */
  lemma {:induction false} SplitOnConcat(a: string, b: string, c: char)
    ensures SplitOn(a + [c] + b, c) == SplitOn(a, c) + SplitOn(b, c)
    decreases |a|
  {
    var s := a + [c] + b;
    var i := IndexOf(a, c, 0);
    IndexOfConcat(a, b, c, 0);
    if i == |a| {
      assert s[..i] == a && s[i + 1..] == b;
    } else {
      assert s[..i] == a[..i];
      assert s[i + 1..] == a[i + 1..] + [c] + b;
      SplitOnConcat(a[i + 1..], b, c);
    }
  }

  /** Splitting words joined by `c` on `c` gives the words back, when none of them holds `c`. */
  lemma {:induction false} SplitOnJoin(words: seq<string>, c: char)
    requires words != [] && forall k | 0 <= k < |words| :: c !in words[k]
    ensures SplitOn(Join(words, [c]), c) == words
    decreases |words|
  {
    if |words| == 1 {
      SplitOnNone(words[0], c);
    } else {
      var head, tail := words[0], words[1..];
      assert words == [head] + tail;
      var rest := Join(tail, [c]);
      assert Join(words, [c]) == head + [c] + rest;
      assert forall k | 0 <= k < |tail| :: tail[k] == words[k + 1];
      SplitOnJoin(tail, c);
      SplitOnNone(head, c);
      SplitOnConcat(head, rest, c);
    }
  }


  // ---------------------------------------------------------------- numbers

  function DigitValue(c: char): nat
    requires IsDigit(c)
  {
    c as int - '0' as int
  }

  function DigitChar(d: nat): (c: char)
    requires d < 10
    ensures IsDigit(c) && DigitValue(c) == d
  {
    ('0' as int + d) as char
  }

  /** The value of a string of decimal digits ("" has value 0). */
  function DigitsValue(s: string): nat
    requires AllDigits(s)
    decreases |s|
  {
    if s == [] then 0 else DigitsValue(s[..|s| - 1]) * 10 + DigitValue(s[|s| - 1])
  }

  /** The decimal rendering of a natural number, as `${n}` writes it. */
  function NatToString(n: nat): (r: string)
    ensures r != [] && AllDigits(r)
    decreases n
  {
    if n < 10 then [DigitChar(n)] else NatToString(n / 10) + [DigitChar(n % 10)]
  }

  /** Appending a digit to a numeral multiplies its value by ten and adds the digit. */
  lemma NatToStringDigit(a: nat, d: nat)
    requires a >= 1 && d < 10
    ensures NatToString(a * 10 + d) == NatToString(a) + [DigitChar(d)]
  {
  }

  /** The decimal rendering of an integer, with a leading '-' when negative. */
  function IntToString(i: int): (r: string)
    ensures r != [] && IsDigit(r[|r| - 1])
    ensures NoWhitespace(r)
    ensures forall k | 0 <= k < |r| :: !IsUpper(r[k])
  {
    if i < 0 then "-" + NatToString(-i) else NatToString(i)
  }

  /** Reading back a rendered natural number gives the number. */
  lemma {:induction false} DigitsRoundTrip(n: nat)
    ensures DigitsValue(NatToString(n)) == n
    decreases n
  {
    if n >= 10 {
      DigitsRoundTrip(n / 10);
      var s := NatToString(n);
      assert s[..|s| - 1] == NatToString(n / 10);
    }
  }

  /**
   * `Number(s)` for the string forms the converters meet: after `trim`, the
   * empty string is 0 and an optionally signed run of decimal digits is its
   * value; anything else is NaN (None).
   */
  function ToNumber(s: string): Option<int> {
    NumericLiteral(Trim(s))
  }

  /** A blank string is 0, and a string that is a number ends, once trimmed, in a digit. */
  lemma ToNumberMeaning(s: string)
    ensures AllWhitespace(s) ==> ToNumber(s) == Some(0)
    ensures ToNumber(s).Some? && !AllWhitespace(s) ==> IsDigit(Trim(s)[|Trim(s)| - 1])
  {
    TrimEnds(s);
    if !AllWhitespace(s) {
      LiteralEndsInDigit(Trim(s));
    }
  }

  /** Proof step: a non-empty numeric literal ends in a digit. */
  lemma LiteralEndsInDigit(t: string)
    requires t != []
    ensures NumericLiteral(t).Some? ==> IsDigit(t[|t| - 1])
  {
    if NumericLiteral(t).Some? && (t[0] == '-' || t[0] == '+') {
      assert t[1..][|t| - 2] == t[|t| - 1];
    }
  }

  /** The value of an already trimmed string: "" is 0, else an optionally signed run of digits. */
  function NumericLiteral(t: string): Option<int> {
    if t == [] then Some(0)
    else if t[0] == '-' || t[0] == '+' then
      if |t| > 1 && AllDigits(t[1..]) then
        var v: int := DigitsValue(t[1..]);
        Some(if t[0] == '-' then -v else v)
      else None
    else if AllDigits(t) then Some(DigitsValue(t))
    else None
  }

  /** `Number` reads back every integer that `${i}` renders. */
  lemma ToNumberOfInt(i: int)
    ensures ToNumber(IntToString(i)) == Some(i)
  {
    TrimUnchanged(IntToString(i));
    LiteralOfInt(i);
  }

  /** Proof step: the rendering of an integer is a numeric literal of that integer. */
  lemma LiteralOfInt(i: int)
    ensures NumericLiteral(IntToString(i)) == Some(i)
  {
    var s := IntToString(i);
    if i < 0 {
      assert s[1..] == NatToString(-i);
      DigitsRoundTrip(-i);
    } else {
      DigitsRoundTrip(i);
    }
  }

  /** A string ending in something other than whitespace or a digit is NaN. */
  lemma ToNumberNaN(s: string)
    requires s != [] && !IsWhitespace(s[|s| - 1]) && !IsDigit(s[|s| - 1])
    ensures ToNumber(s) == None
  {
    TrimEndUnique(s, s);
    var t := Trim(s);
    assert t != [];
    assert t[|t| - 1] == s[|s| - 1];
    assert !AllDigits(t);
    if |t| > 1 {
      assert t[1..][|t| - 2] == t[|t| - 1];
    }
  }

  lemma LowerSlice(s: string, n: nat)
    requires n <= |s|
    ensures Lower(s)[..n] == Lower(s[..n]) && Lower(s)[n..] == Lower(s[n..])
  {
  }

  lemma TrimEndLower(s: string)
    ensures TrimEnd(Lower(s)) == Lower(TrimEnd(s))
  {
    var e := TrimEnd(s);
    LowerSlice(s, |e|);
    assert forall k | |e| <= k < |s| :: IsWhitespace(Lower(s)[k]);
    TrimEndUnique(Lower(s), Lower(e));
  }

  lemma TrimStartLower(s: string)
    ensures TrimStart(Lower(s)) == Lower(TrimStart(s))
  {
    var t := TrimStart(s);
    LowerSlice(s, |s| - |t|);
    assert forall k | 0 <= k < |s| - |t| :: IsWhitespace(Lower(s)[k]);
    TrimStartUnique(Lower(s), Lower(t));
  }

  /** Lower-casing commutes with `trim`, since it maps whitespace to whitespace and nothing else to whitespace. */
  lemma TrimLower(s: string)
    ensures Trim(Lower(s)) == Lower(Trim(s))
  {
    TrimEndLower(s);
    TrimStartLower(TrimEnd(s));
  }

  /** A string is all digits exactly when its lower-case form is, and then the two are equal. */
  lemma AllDigitsLower(s: string)
    ensures AllDigits(Lower(s)) == AllDigits(s)
    ensures AllDigits(s) ==> Lower(s) == s
  {
    if AllDigits(Lower(s)) {
      forall k | 0 <= k < |s| ensures IsDigit(s[k]) {
        assert IsDigit(Lower(s)[k]);
      }
    }
  }

  lemma NumericLiteralLower(t: string)
    ensures NumericLiteral(Lower(t)) == NumericLiteral(t)
  {
    AllDigitsLower(t);
    if |t| > 1 {
      LowerSlice(t, 1);
      AllDigitsLower(t[1..]);
    }
  }

  /** `Number` does not see the case of letters. */
  lemma ToNumberLower(s: string)
    ensures ToNumber(Lower(s)) == ToNumber(s)
  {
    TrimLower(s);
    NumericLiteralLower(Trim(s));
  }
}
