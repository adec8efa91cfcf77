/**
 * The oldest parser, index.js: its own unit constants (no millisecond
 * unit), the string split on single spaces, case handled by the switch,
 * and `null` instead of an exception, absorbed by the rest of the fold.
 */
module LegacyIndex {
  import opened Wrappers
  import opened Strings
  import opened Values
  import opened Tokens
  import opened Folds
  import Times
  import Formatter

  const SECOND: int := 1000
  const MINUTE: int := 60 * SECOND
  const HOUR: int := 60 * MINUTE
  const DAY: int := 24 * HOUR
  const WEEK: int := 7 * DAY
  const MONTH: int := 30 * DAY
  const YEAR: int := 365 * DAY

  /** The constants agree with the unit table. */
  lemma SameConstants()
    ensures SECOND == Times.SECOND && MINUTE == Times.MINUTE && HOUR == Times.HOUR && DAY == Times.DAY
    ensures WEEK == Times.WEEK && MONTH == Times.MONTH && YEAR == Times.YEAR
  {
  }

  /** `s.slice(-n)`: the last `n` characters, or all of `s` when it is shorter. */
  function Last(s: string, n: nat): (r: string)
    ensures |r| == if n <= |s| then n else |s|
    ensures r == s[|s| - |r|..]
  {
    if n <= |s| then s[|s| - n..] else s
  }

  /**
   * The identifier at the end of a token: its last character, or its last
   * two when the last is an 'o' of either case and the two spell "mo" in
   * any case.
   */
  function Factor(readable: string): (f: string)
    ensures |f| <= 2 && |f| <= |readable| && f == readable[|readable| - |f|..]
    ensures readable != [] ==> |f| >= 1
  {
    var factor := Last(readable, 1);
    if Lower(factor) == "o" then
      var monthFactor := Last(readable, 2);
      if Lower(monthFactor) == "mo" then monthFactor else factor
    else factor
  }

  /** The letters the identifier test compares, one character at a time. */
  predicate IsO(c: char) {
    c == 'o' || c == 'O'
  }

  predicate IsM(c: char) {
    c == 'm' || c == 'M'
  }

  /** Factor without the lower-casing: the last two characters exactly when they are an 'm' and an 'o' of any case. */
  lemma FactorCases(readable: string)
    ensures var n := |readable|;
      Factor(readable) ==
        if n == 0 then []
        else if IsO(readable[n - 1]) && n >= 2 && IsM(readable[n - 2]) then readable[n - 2..]
        else readable[n - 1..]
  {
    var n := |readable|;
    if n >= 1 {
      var c := readable[n - 1];
      assert Last(readable, 1) == [c];
      assert Lower([c]) == [LowerChar(c)];
      assert LowerChar(c) == 'o' <==> IsO(c);
      if IsO(c) && n >= 2 {
        var b := readable[n - 2];
        assert Last(readable, 2) == [b, c];
        assert Lower([b, c]) == [LowerChar(b), LowerChar(c)];
        assert LowerChar(b) == 'm' <==> IsM(b);
      }
    }
  }

  /** The `switch (factor)`: the length of the unit a case names, in either case. */
  function Multiplier(factor: string): Option<int> {
    if factor == "s" || factor == "S" then Some(SECOND)
    else if factor == "m" || factor == "M" then Some(MINUTE)
    else if factor == "h" || factor == "H" then Some(HOUR)
    else if factor == "d" || factor == "D" then Some(DAY)
    else if factor == "w" || factor == "W" then Some(WEEK)
    else if factor == "mo" || factor == "Mo" || factor == "mO" || factor == "MO" then Some(MONTH)
    else if factor == "y" || factor == "Y" then Some(YEAR)
    else None
  }

  /**
   * The switch names exactly the identifiers of the table other than "ms",
   * in any case, and gives each the length of its unit.
   */
  lemma MultiplierNames(factor: string)
    ensures Multiplier(factor).Some? <==> exists u: Times.Unit :: u != Times.Millisecond && Lower(factor) == Times.Symbol(u)
    ensures forall u: Times.Unit :: u != Times.Millisecond && Lower(factor) == Times.Symbol(u) ==> Multiplier(factor) == Some(Times.Length(u))
  {
    if |factor| == 1 {
      assert factor == [factor[0]] && Lower(factor) == [LowerChar(factor[0])];
      OneLetterNames(factor[0]);
    } else if |factor| == 2 {
      assert factor == [factor[0], factor[1]] && Lower(factor) == [LowerChar(factor[0]), LowerChar(factor[1])];
      TwoLetterNames(factor[0], factor[1]);
    } else {
      assert forall u: Times.Unit :: |Times.Symbol(u)| != |factor|;
    }
  }

  /** Proof step: MultiplierNames for a one-letter identifier. */
  lemma OneLetterNames(c: char)
    ensures Multiplier([c]).Some? <==> exists u: Times.Unit :: u != Times.Millisecond && [LowerChar(c)] == Times.Symbol(u)
    ensures forall u: Times.Unit :: u != Times.Millisecond && [LowerChar(c)] == Times.Symbol(u) ==> Multiplier([c]) == Some(Times.Length(u))
  {
    SameConstants();
    SymbolTexts();
  }

  /** Proof step: MultiplierNames for a two-letter identifier. */
  lemma TwoLetterNames(b: char, c: char)
    ensures Multiplier([b, c]).Some? <==> exists u: Times.Unit :: u != Times.Millisecond && [LowerChar(b), LowerChar(c)] == Times.Symbol(u)
    ensures forall u: Times.Unit :: u != Times.Millisecond && [LowerChar(b), LowerChar(c)] == Times.Symbol(u) ==> Multiplier([b, c]) == Some(Times.Length(u))
  {
    SameConstants();
    SymbolTexts();
  }

  /** Proof step: the identifiers of the table, spelled out. */
  lemma SymbolTexts()
    ensures Times.Symbol(Times.Second) == "s" && Times.Symbol(Times.Minute) == "m" && Times.Symbol(Times.Hour) == "h"
    ensures Times.Symbol(Times.Day) == "d" && Times.Symbol(Times.Week) == "w" && Times.Symbol(Times.Month) == "mo"
    ensures Times.Symbol(Times.Year) == "y" && Times.Symbol(Times.Millisecond) == "ms"
  {
  }

  /** toMillisecondsSingle: the milliseconds one token stands for, or null. */
  function TokenValue(readable: string): Option<int> {
    var factor := Factor(readable);
    var value := ToNumber(readable[..|readable| - |factor|]);
    if value.None? then None
    else match Multiplier(factor)
      case None => None
      case Some(m) => Some(value.value * m)
  }

  /** toMilliseconds: a number as it is, null for a non-string, otherwise the null-absorbing sum over the space-separated pieces. */
  function ToMilliseconds(v: Value): (r: Option<int>)
    ensures v.Num? ==> r == Some(v.n)
    ensures v.Other? ==> r.None?
  {
    if NumberValue(v).Some? then Some(NumberValue(v).value)
    else if !v.Str? then None
    else SumOrNull(SplitOn(v.s, ' '), TokenValue, Some(0))
  }

  // ---------------------------------------------------------------- the numeric short-circuit

  /** The rendering of an integer is returned as that integer. */
  lemma NumericString(n: int)
    ensures ToMilliseconds(Str(IntToString(n))) == Some(n)
  {
    ToNumberOfInt(n);
  }

  // ---------------------------------------------------------------- single tokens

  /** The empty piece has no identifier: it falls to the default case. */
  lemma EmptyTokenIsNull()
    ensures TokenValue("") == None
  {
  }

  /** A token split into the text in front of its identifier and the identifier. */
  lemma TokenParts(token: string, prefix: string, factor: string)
    requires Factor(token) == factor && token == prefix + factor
    ensures TokenValue(token) ==
      match ToNumber(prefix)
      case None => None
      case Some(v) => (match Multiplier(factor) case None => None case Some(m) => Some(v * m))
  {
    assert token[..|token| - |factor|] == prefix;
  }

  /** The switch knows every identifier of the table but the millisecond's. */
  lemma MultiplierOfSymbol(u: Times.Unit)
    requires u != Times.Millisecond
    ensures Multiplier(Times.Symbol(u)) == Some(Times.Length(u))
  {
    SameConstants();
  }

  /** The identifier found after a rendered integer is the unit's whole identifier. */
  lemma FactorOfToken(i: int, u: Times.Unit)
    ensures Factor(IntToString(i) + Times.Symbol(u)) == if u == Times.Millisecond then "s" else Times.Symbol(u)
  {
    var q, id := IntToString(i), Times.Symbol(u);
    var token := q + id;
    var n := |token|;
    FactorCases(token);
    assert token[n - 1] == id[|id| - 1];
    if |id| == 2 {
      assert token[n - 2] == id[0] && token[n - 2..] == id;
    } else {
      assert token[n - 1..] == id;
      assert !IsDigit(token[n - 1]) ==> n >= 2 ==> IsDigit(token[n - 2]);
    }
  }

  /** A rendered integer followed by an identifier of the table other than "ms" is that many of the unit. */
  lemma TokenOfInt(i: int, u: Times.Unit)
    requires u != Times.Millisecond
    ensures TokenValue(IntToString(i) + Times.Symbol(u)) == Some(Times.Scale(i, u))
  {
    FactorOfToken(i, u);
    ToNumberOfInt(i);
    MultiplierOfSymbol(u);
    TokenParts(IntToString(i) + Times.Symbol(u), IntToString(i), Times.Symbol(u));
  }

  /** There is no millisecond unit: "5ms" is the identifier "s" after the non-numeric "5m". */
  lemma NoMilliseconds(i: int)
    ensures TokenValue(IntToString(i) + "ms") == None
  {
    FactorOfToken(i, Times.Millisecond);
    ToNumberNaN(IntToString(i) + "m");
    Regroup(IntToString(i));
    TokenParts(IntToString(i) + "ms", IntToString(i) + "m", "s");
  }

  /** Proof step: "<q>ms" is "<q>m" followed by "s". */
  lemma Regroup(q: string)
    ensures q + "ms" == (q + "m") + "s"
  {
  }

  /** A last letter outside s, m, h, d, w, o, y of either case names no unit. */
  lemma UnknownLetter(token: string)
    requires token != []
    requires var c := LowerChar(token[|token| - 1]);
      c != 's' && c != 'm' && c != 'h' && c != 'd' && c != 'w' && c != 'o' && c != 'y'
    ensures TokenValue(token) == None
  {
    var n := |token|;
    var c := token[n - 1];
    FactorCases(token);
    UnknownChar(c);
    assert token[n - 1..] == [c];
    TokenParts(token, token[..n - 1], [c]);
  }

  /** Proof step: a letter no case of the switch names. */
  lemma UnknownChar(c: char)
    requires var l := LowerChar(c);
      l != 's' && l != 'm' && l != 'h' && l != 'd' && l != 'w' && l != 'o' && l != 'y'
    ensures !IsO(c) && Multiplier([c]) == None
  {
  }

  /** The month identifier is matched in any case: "2MO" and "2mO" are two months. */
  lemma MonthInAnyCase()
    ensures TokenValue("2MO") == Some(2 * MONTH) && TokenValue("2mO") == Some(2 * MONTH)
  {
    MonthToken(2, 'M', 'O');
    MonthToken(2, 'm', 'O');
    MonthTexts();
  }

  /** Proof step: the two month tokens spelled out. */
  lemma MonthTexts()
    ensures IntToString(2) + ['M', 'O'] == "2MO" && IntToString(2) + ['m', 'O'] == "2mO"
  {
  }

  /** A rendered integer followed by an 'm' and an 'o' of any case is that many months. */
  lemma MonthToken(i: int, m: char, o: char)
    requires IsM(m) && IsO(o)
    ensures TokenValue(IntToString(i) + [m, o]) == Some(i * MONTH)
  {
    var q := IntToString(i);
    var token := q + [m, o];
    var n := |token|;
    FactorCases(token);
    assert token[n - 1] == o && token[n - 2] == m && token[n - 2..] == [m, o];
    MonthMultiplier(m, o);
    ToNumberOfInt(i);
    TokenParts(token, q, [m, o]);
  }

  /** Proof step: every case variant of "mo" is a month. */
  lemma MonthMultiplier(m: char, o: char)
    requires IsM(m) && IsO(o)
    ensures Multiplier([m, o]) == Some(MONTH)
  {
  }

  /** An 'o' after something other than an 'm' is an identifier of its own, which no case names. */
  lemma LoneO(token: string)
    requires |token| >= 2 && IsO(token[|token| - 1]) && !IsM(token[|token| - 2])
    ensures TokenValue(token) == None
  {
    var n := |token|;
    var c := token[n - 1];
    FactorCases(token);
    assert token[n - 1..] == [c];
    UnknownO(c);
    TokenParts(token, token[..n - 1], [c]);
  }

  /** Proof step: an "o" alone is no case of the switch. */
  lemma UnknownO(c: char)
    requires IsO(c)
    ensures Multiplier([c]) == None
  {
  }

  // ---------------------------------------------------------------- the fold

  /**
   * Null is absorbing: for a non-numeric string the result is null as soon
   * as one piece is null, and otherwise the sum of the pieces' values.
   */
  lemma NullAbsorbs(s: string)
    requires ToNumber(s) == None
    ensures var pieces := SplitOn(s, ' ');
      ((exists i | 0 <= i < |pieces| :: TokenValue(pieces[i]).None?) ==> ToMilliseconds(Str(s)) == None) &&
      ((forall i | 0 <= i < |pieces| :: TokenValue(pieces[i]).Some?) ==>
        ToMilliseconds(Str(s)) == Some(Sum(Defined(pieces, TokenValue))))
  {
    var pieces := SplitOn(s, ' ');
    if i :| 0 <= i < |pieces| && TokenValue(pieces[i]).None? {
      SumOrNullHasNull(pieces, TokenValue, Some(0), i);
    } else {
      SumOrNullSum(pieces, TokenValue, Defined(pieces, TokenValue), 0, Sum(Defined(pieces, TokenValue)));
    }
  }

  /** A string that is not numeric and splits into an empty piece is null. */
  lemma EmptyPieceIsNull(s: string, i: nat)
    requires ToNumber(s) == None
    requires i < |SplitOn(s, ' ')| && SplitOn(s, ' ')[i] == []
    ensures ToMilliseconds(Str(s)) == None
  {
    EmptyTokenIsNull();
    SumOrNullHasNull(SplitOn(s, ' '), TokenValue, Some(0), i);
  }

  /** A leading space leaves an empty first piece, so a non-numeric string with one is null. */
  lemma LeadingSpace(a: string)
    requires ToNumber(" " + a) == None
    ensures ToMilliseconds(Str(" " + a)) == None
  {
    SplitOnConcat([], a, ' ');
    assert [] + [' '] + a == " " + a;
    EmptyPieceIsNull(" " + a, 0);
  }

  /** A trailing space leaves an empty last piece. */
  lemma TrailingSpace(a: string)
    requires ToNumber(a + " ") == None
    ensures ToMilliseconds(Str(a + " ")) == None
  {
    SplitOnConcat(a, [], ' ');
    assert a + [' '] + [] == a + " ";
    EmptyPieceIsNull(a + " ", |SplitOn(a, ' ')|);
  }

  /** Two spaces in a row leave an empty piece between them. */
  lemma DoubledSpace(a: string, b: string)
    requires ToNumber(a + "  " + b) == None
    ensures ToMilliseconds(Str(a + "  " + b)) == None
  {
    var tail := [' '] + b;
    SplitOnConcat([], b, ' ');
    assert [] + [' '] + b == tail;
    SplitOnConcat(a, tail, ' ');
    Regroup2(a, b);
    EmptyPieceIsNull(a + "  " + b, |SplitOn(a, ' ')|);
  }

  /** Proof step: two spaces are a space followed by a space. */
  lemma Regroup2(a: string, b: string)
    ensures a + "  " + b == a + [' '] + ([' '] + b)
  {
  }

  // ---------------------------------------------------------------- phrases the formatter writes

  /** Proof step: a string that is not numeric goes to the fold over its space-separated pieces. */
  lemma PiecePath(s: string)
    requires ToNumber(s) == None
    ensures ToMilliseconds(Str(s)) == SumOrNull(SplitOn(s, ' '), TokenValue, Some(0))
  {
  }

  /** Splitting the formatter's phrase on single spaces gives back the token texts. */
  lemma SpellSplits(ts: seq<Token>)
    requires ts != []
    ensures SplitOn(Formatter.Spell(ts), ' ') == RenderAll(ts)
  {
    var words := RenderAll(ts);
    forall k | 0 <= k < |words|
      ensures ' ' !in words[k]
    {
      RenderAllAt(ts, k);
      assert IsWhitespace(' ');
    }
    SplitOnJoin(words, ' ');
  }

  /** The formatter's phrase is not numeric and splits on single spaces into the token texts. */
  lemma SpellPieces(ts: seq<Token>)
    requires ts != []
    ensures ToMilliseconds(Str(Formatter.Spell(ts))) == SumOrNull(RenderAll(ts), TokenValue, Some(0))
  {
    var s := Formatter.Spell(ts);
    PhraseEnds(ts);
    ToNumberNaN(s);
    PiecePath(s);
    SpellSplits(ts);
  }

  /** Token texts without a millisecond token add up to their total. */
  lemma SumSpelled(ts: seq<Token>, acc: int, total: int)
    requires forall k | 0 <= k < |ts| :: ts[k].unit != Times.Millisecond
    requires total == acc + Total(ts)
    ensures SumOrNull(RenderAll(ts), TokenValue, Some(acc)) == Some(total)
  {
    var words, amounts := RenderAll(ts), Amounts(ts);
    forall k | 0 <= k < |words|
      ensures TokenValue(words[k]) == Some(amounts[k])
    {
      RenderAllAt(ts, k);
      TokenOfInt(ts[k].quantity, ts[k].unit);
    }
    TotalIsSum(ts);
    SumOrNullSum(words, TokenValue, amounts, acc, total);
  }

  /** The formatter's phrases without a millisecond token parse to their total. */
  lemma ParsesSpell(ts: seq<Token>)
    requires ts != [] && forall k | 0 <= k < |ts| :: ts[k].unit != Times.Millisecond
    ensures ToMilliseconds(Str(Formatter.Spell(ts))) == Some(Total(ts))
  {
    SpellPieces(ts);
    SumSpelled(ts, 0, Total(ts));
  }

  /** A millisecond token anywhere in the formatter's phrase makes the result null. */
  lemma RejectsMilliseconds(ts: seq<Token>, i: nat)
    requires i < |ts| && ts[i].unit == Times.Millisecond
    ensures ToMilliseconds(Str(Formatter.Spell(ts))) == None
  {
    SpellPieces(ts);
    RenderAllAt(ts, i);
    NoMilliseconds(ts[i].quantity);
    SumOrNullHasNull(RenderAll(ts), TokenValue, Some(0), i);
  }
}
