/**
 * The parser of lib/toMilliseconds.js: a duration string such as
 * "1y 2mo 3w 4d 5h 6m 7s 8ms" to a number of milliseconds.
 * Thrown errors are `Err` results carrying what the message names.
 */
module Parser {
  import opened Wrappers
  import opened Strings
  import opened Times
  import opened Values
  import opened Tokens
  import opened Folds
  import opened TokenExamples

  datatype ParseError =
    | UnsupportedType(typeName: string)      // the argument is neither numeric nor a string
    | UnsupportedValue(token: string)        // the lower-cased token has a non-numeric prefix
    | UnsupportedIdentifier(factor: string)  // the token's unit identifier is not in the table

  /**
   * The unit identifier at the end of a lower-cased token: the last two
   * characters when they are "ms" or "mo", otherwise the last character
   * (nothing for the empty token).
   */
  function Factor(readable: string): (f: string)
    ensures |f| <= |readable| && f == readable[|readable| - |f|..]
    ensures readable != [] ==> 1 <= |f| <= 2
    ensures |f| == 2 <==> IsMsOrMo(readable)
  {
    var n := |readable|;
    // slice(-1) is the last character; only when it is 's' or 'o' is slice(-2) consulted
    if n >= 1 && (readable[n - 1] == 's' || readable[n - 1] == 'o') && IsMsOrMo(readable) then readable[n - 2..]
    else if n >= 1 then readable[n - 1..]
    else readable
  }

  /** The string ends in "ms" or "mo". */
  predicate IsMsOrMo(readable: string) {
    var n := |readable|;
    n >= 2 && readable[n - 2] == 'm' && (readable[n - 1] == 's' || readable[n - 1] == 'o')
  }

  /** The unit a `switch (factor)` case names, if any. */
  function UnitOf(factor: string): (u: Option<Unit>)
    ensures u.Some? ==> Symbol(u.value) == factor
    ensures u.None? ==> forall w: Unit :: Symbol(w) != factor
  {
    if factor == "ms" then Some(Millisecond)
    else if factor == "s" then Some(Second)
    else if factor == "m" then Some(Minute)
    else if factor == "h" then Some(Hour)
    else if factor == "d" then Some(Day)
    else if factor == "w" then Some(Week)
    else if factor == "mo" then Some(Month)
    else if factor == "y" then Some(Year)
    else None
  }

  /** toMillisecondsSingle: the milliseconds one token stands for. */
  function TokenValue(token: string): (r: Result<int, ParseError>)
    ensures r.Err? ==> !r.error.UnsupportedType?
    ensures r.Err? && r.error.UnsupportedValue? ==> r.error.token == Lower(token)
    ensures r.Err? && r.error.UnsupportedIdentifier? ==> forall u: Unit :: Symbol(u) != r.error.factor
    ensures r.Ok? ==> exists u: Unit :: Symbol(u) == Factor(Lower(token))
  {
    var readable := Lower(token);
    var factor := Factor(readable);
    var value := ToNumber(readable[..|readable| - |factor|]);
    if value.None? then Err(UnsupportedValue(readable))
    else match UnitOf(factor)
      case None => Err(UnsupportedIdentifier(factor))
      case Some(u) => Ok(Scale(value.value, u))
  }

  /** toMilliseconds. */
  function ToMilliseconds(v: Value): (r: Result<int, ParseError>)
    ensures v.Num? ==> r == Ok(v.n)
    ensures r.Err? && r.error.UnsupportedType? <==> v.Other?
    ensures v.Other? ==> r.error.typeName == v.typeName
  {
    if NumberValue(v).Some? then Ok(NumberValue(v).value)
    else if !v.Str? then Err(UnsupportedType(TypeOf(v)))
    else
      var tokens := SplitWhitespace(Trim(v.s));
      TokensFail(tokens);
      SumOrThrow(tokens, TokenValue, 0)
  }

  /** A string that is not a number fails exactly when one of its tokens does. */
  lemma FailsExactly(s: string)
    requires ToNumber(s).None?
    ensures ToMilliseconds(Str(s)).Err? <==> SomeTokenFails(SplitWhitespace(Trim(s)))
  {
    TokensFail(SplitWhitespace(Trim(s)));
  }

  /** Some token of the list is rejected on its own. */
  predicate SomeTokenFails(tokens: seq<string>)
  {
    exists k | 0 <= k < |tokens| :: TokenValue(tokens[k]).Err?
  }

  /** The fold over the tokens fails exactly when a token does, and never with the type error. */
  lemma TokensFail(tokens: seq<string>)
    ensures SumOrThrow(tokens, TokenValue, 0).Err? <==> SomeTokenFails(tokens)
    ensures SumOrThrow(tokens, TokenValue, 0).Err? ==> !SumOrThrow(tokens, TokenValue, 0).error.UnsupportedType?
  {
    var r := SumOrThrow(tokens, TokenValue, 0);
    SumOrThrowErr(tokens, TokenValue, 0);
    if r.Err? {
      var k :| 0 <= k < |tokens| && TokenValue(tokens[k]) == Err(r.error);
    }
  }

  // ---------------------------------------------------------------- the numeric short-circuit

  /** A numeric string is returned as its number. */
  lemma NumericString(n: int)
    ensures ToMilliseconds(Str(IntToString(n))) == Ok(n)
  {
    ToNumberOfInt(n);
  }

  /** The empty string and whitespace-only strings are 0. */
  lemma BlankIsZero(s: string)
    requires AllWhitespace(s)
    ensures ToMilliseconds(Str(s)) == Ok(0)
  {
    TrimPadding(s, [], []);
    assert s + [] + [] == s;
  }

  // ---------------------------------------------------------------- single tokens

  /** The switch knows every identifier the formatter writes, and nothing else. */
  lemma UnitOfSymbol(u: Unit)
    ensures UnitOf(Symbol(u)) == Some(u)
  {
  }

  /**
   * Suffix disambiguation: after a rendered integer, the identifier found
   * is the unit's whole identifier, so "mo" and "ms" are not taken for "o"
   * or "s", and "s" after a digit is not taken for "ms".
   */
  lemma FactorOfToken(i: int, u: Unit)
    ensures Factor(IntToString(i) + Symbol(u)) == Symbol(u)
  {
  }

  /**
   * The suffix rule: a rendered integer followed by a unit's identifier is
   * that many of the unit, so "2mo" is two months, "2ms" two milliseconds
   * and "2m" two minutes.
   */
  lemma TokenOfInt(i: int, u: Unit)
    ensures TokenValue(IntToString(i) + Symbol(u)) == Ok(Scale(i, u))
  {
    LowerOfToken(i, u);
    FactorOfToken(i, u);
    UnitOfSymbol(u);
    ToNumberOfInt(i);
    TokenParts(IntToString(i) + Symbol(u), IntToString(i), Symbol(u));
  }

  /** A lower-case token split into the text in front of its identifier and the identifier. */
  lemma TokenParts(token: string, prefix: string, factor: string)
    requires Lower(token) == token && Factor(token) == factor && token == prefix + factor
    ensures TokenValue(token) ==
      match ToNumber(prefix)
      case None => Err(UnsupportedValue(token))
      case Some(n) => (match UnitOf(factor) case None => Err(UnsupportedIdentifier(factor)) case Some(u) => Ok(Scale(n, u)))
  {
    assert token[..|token| - |factor|] == prefix;
  }

  /** Identifiers are already in lower case. */
  lemma LowerOfSymbol(u: Unit)
    ensures Lower(Symbol(u)) == Symbol(u)
  {
    LowerUnchanged(Symbol(u));
  }

  /** A rendered token has no upper-case letters. */
  lemma LowerOfToken(i: int, u: Unit)
    ensures Lower(IntToString(i) + Symbol(u)) == IntToString(i) + Symbol(u)
  {
    LowerUnchanged(IntToString(i) + Symbol(u));
  }

  /** An identifier with no number in front of it contributes 0: "ms" and "s" alone are 0. */
  lemma TokenWithoutNumber(u: Unit)
    ensures TokenValue(Symbol(u)) == Ok(0)
  {
    BareSymbol(u);
    EmptyPrefix(Symbol(u));
    TokenParts(Symbol(u), [], Symbol(u));
  }

  /** An identifier alone is lower-case, is its own factor, has nothing in front of it, and names its unit. */
  lemma BareSymbol(u: Unit)
    ensures Lower(Symbol(u)) == Symbol(u) && Factor(Symbol(u)) == Symbol(u)
    ensures ToNumber([]) == Some(0) && UnitOf(Symbol(u)) == Some(u)
  {
    LowerOfSymbol(u);
    FactorOfSymbol(u);
    UnitOfSymbol(u);
    EmptyIsZero();
  }

  /** Proof step: the empty prefix in front of a bare identifier. */
  lemma EmptyPrefix(s: string)
    ensures s == [] + s
  {
  }

  /** A whole identifier is its own factor. */
  lemma FactorOfSymbol(u: Unit)
    ensures Factor(Symbol(u)) == Symbol(u)
  {
  }

  /** The empty string is 0. */
  lemma EmptyIsZero()
    ensures ToNumber([]) == Some(0)
  {
    TrimUnchanged([]);
  }

  /** Case does not matter: a token and its lower-case form have the same value, so "1MO" is "1mo". */
  lemma CaseInsensitive(token: string)
    ensures TokenValue(token) == TokenValue(Lower(token))
  {
    LowerIdempotent(token);
  }

  // ---------------------------------------------------------------- whitespace

  /** Leading and trailing whitespace is ignored. */
  lemma PaddingIgnored(pre: string, s: string, post: string)
    requires AllWhitespace(pre) && AllWhitespace(post)
    ensures ToMilliseconds(Str(pre + s + post)) == ToMilliseconds(Str(s))
  {
    TrimPadding(pre, s, post);
  }

  /** Any run of whitespace separates two tokens as a single space does. */
  lemma RunsSeparate(a: string, sep: string, b: string)
    requires a != [] && NoWhitespace(a)
    requires sep != [] && AllWhitespace(sep)
    requires b != [] && !IsWhitespace(b[0]) && !IsWhitespace(b[|b| - 1])
    ensures ToMilliseconds(Str(a + sep + b)) == ToMilliseconds(Str(a + " " + b))
  {
    SplitRun(a, sep, b);
    SplitRun(a, " ", b);
    NotNumeric(a, sep, b);
    NotNumeric(a, " ", b);
  }

  /** Two words with whitespace between them are not a number. */
  lemma NotNumeric(a: string, sep: string, b: string)
    requires a != [] && NoWhitespace(a)
    requires sep != [] && AllWhitespace(sep)
    requires b != [] && !IsWhitespace(b[0]) && !IsWhitespace(b[|b| - 1])
    ensures Trim(a + sep + b) == a + sep + b
    ensures ToNumber(a + sep + b) == None
  {
    var t := a + sep + b;
    TrimUnchanged(t);
    assert IsWhitespace(t[|a|]) && !IsDigit(t[|a|]);
    if |t| > 1 {
      assert t[1..][|a| - 1] == t[|a|];
    }
  }

  // ---------------------------------------------------------------- rendered phrases

  /** A rendered token reads back as its quantity of its unit. */
  lemma TokenOfRender(t: Token)
    ensures TokenValue(Render(t)) == Ok(Scale(t.quantity, t.unit))
  {
    TokenOfInt(t.quantity, t.unit);
  }

  /** Rendered tokens are read back one by one, and their values add up to their total. */
  lemma SumRendered(ts: seq<Token>, acc: int, total: int)
    requires total == acc + Total(ts)
    ensures SumOrThrow(RenderAll(ts), TokenValue, acc) == Ok(total)
  {
    var words, amounts := RenderAll(ts), Amounts(ts);
    forall k | 0 <= k < |words|
      ensures TokenValue(words[k]) == Ok(amounts[k])
    {
      RenderAllAt(ts, k);
      TokenOfRender(ts[k]);
    }
    TotalIsSum(ts);
    SumOrThrowAll(words, TokenValue, amounts, acc, total);
  }

  /** Proof step: a trimmed string that is not numeric goes to the fold over its tokens. */
  lemma TokenPath(s: string)
    requires ToNumber(s) == None && Trim(s) == s
    ensures ToMilliseconds(Str(s)) == SumOrThrow(SplitWhitespace(s), TokenValue, 0)
  {
  }

  /** Text that starts and ends with neither whitespace nor, at the end, a digit is trimmed and not numeric. */
  lemma WordText(s: string)
    requires s != [] && !IsWhitespace(s[0]) && !IsWhitespace(s[|s| - 1]) && !IsDigit(s[|s| - 1])
    ensures ToNumber(s) == None && Trim(s) == s
  {
    ToNumberNaN(s);
    TrimUnchanged(s);
  }

  /** A phrase of tokens joined by single spaces parses to the tokens' total. */
  lemma ParsePhrase(ts: seq<Token>)
    requires ts != []
    ensures ToMilliseconds(Str(Join(RenderAll(ts), " "))) == Ok(Total(ts))
  {
    var s := Join(RenderAll(ts), " ");
    PhraseEnds(ts);
    WordText(s);
    SplitPhrase(ts);
    TokenPath(s);
    SumRendered(ts, 0, Total(ts));
  }

  // ---------------------------------------------------------------- concrete cases

  /** A phrase spelled by rendered tokens parses to their total. */
  lemma ParseExample(ts: seq<Token>, words: seq<string>, s: string, total: int)
    requires ts != [] && RenderAll(ts) == words && Join(words, " ") == s && Total(ts) == total
    ensures ToMilliseconds(Str(s)) == Ok(total)
  {
    ParsePhrase(ts);
  }

  /** "1d" is one day. */
  lemma OneDay()
    ensures ToMilliseconds(Str("1d")) == Ok(86400000)
  {
    ExampleTexts();
    RenderAllOf([Token(1, Day)], ["1d"]);
    ParseExample([Token(1, Day)], ["1d"], "1d", 86400000);
  }

  /** "1w" is one week. */
  lemma OneWeek()
    ensures ToMilliseconds(Str("1w")) == Ok(1000 * 60 * 60 * 24 * 7)
  {
    ExampleTexts();
    RenderAllOf([Token(1, Week)], ["1w"]);
    ParseExample([Token(1, Week)], ["1w"], "1w", 1000 * 60 * 60 * 24 * 7);
  }

  /** "1y 1w" is a year plus a week. */
  lemma YearAndWeek()
    ensures ToMilliseconds(Str("1y 1w")) == Ok(1000 * 60 * 60 * 24 * 365 + 1000 * 60 * 60 * 24 * 7)
  {
    var ts := [Token(1, Year), Token(1, Week)];
    ExampleTexts();
    RenderAllOf(ts, ["1y", "1w"]);
    ParseExample(ts, ["1y", "1w"], "1y 1w", 1000 * 60 * 60 * 24 * 365 + 1000 * 60 * 60 * 24 * 7);
  }

  lemma RepeatedText()
    ensures Join(["1y", "1y", "1y", "2w", "2w", "2w"], " ") == "1y 1y 1y 2w 2w 2w"
  {
  }

  lemma RepeatedTokens()
    ensures RenderAll([Token(1, Year), Token(1, Year), Token(1, Year), Token(2, Week), Token(2, Week), Token(2, Week)])
      == ["1y", "1y", "1y", "2w", "2w", "2w"]
    ensures Total([Token(1, Year), Token(1, Year), Token(1, Year), Token(2, Week), Token(2, Week), Token(2, Week)])
      == 3 * YEAR + 6 * WEEK
  {
    var y, w := Token(1, Year), Token(2, Week);
    ExampleTexts();
    RenderAllOf([y, y, y, w, w, w], ["1y", "1y", "1y", "2w", "2w", "2w"]);
  }

  /** Repeated tokens add rather than overwrite. */
  lemma RepeatedTokensAdd()
    ensures ToMilliseconds(Str("1y 1y 1y 2w 2w 2w")) == Ok(3 * YEAR + 6 * WEEK)
  {
    var y, w := Token(1, Year), Token(2, Week);
    RepeatedTokens();
    RepeatedText();
    ParseExample([y, y, y, w, w, w], ["1y", "1y", "1y", "2w", "2w", "2w"], "1y 1y 1y 2w 2w 2w", 3 * YEAR + 6 * WEEK);
  }

  /** Every unit of the table in one phrase. */
  lemma AllUnits()
    ensures ToMilliseconds(Str("1y 2mo 3w 4d 5h 6m 7s 8ms")) == Ok(38898367008)
  {
    AllUnitsTokens();
    AllUnitsText();
    ParseExample([Token(1, Year), Token(2, Month), Token(3, Week), Token(4, Day),
                  Token(5, Hour), Token(6, Minute), Token(7, Second), Token(8, Millisecond)],
                 ["1y", "2mo", "3w", "4d", "5h", "6m", "7s", "8ms"], "1y 2mo 3w 4d 5h 6m 7s 8ms", 38898367008);
  }

  /** The empty string and "100" are read as numbers. */
  lemma NumericStrings()
    ensures ToMilliseconds(Str("")) == Ok(0)
    ensures ToMilliseconds(Str("100")) == Ok(100)
  {
    BlankIsZero("");
    Hundred();
    NumericString(100);
  }

  /** The numeral of one hundred. */
  lemma Hundred()
    ensures IntToString(100) == "100"
  {
    assert IntToString(100) == "100";
  }

  // ---------------------------------------------------------------- bad tokens

  /** A phrase whose token at `i` is bad, after good ones, fails with that token's error. */
  lemma FailsAt(s: string, words: seq<string>, i: nat, e: ParseError)
    requires ToNumber(s) == None && Trim(s) == s && SplitWhitespace(s) == words
    requires i < |words| && TokenValue(words[i]) == Err(e)
    requires forall k | 0 <= k < i :: TokenValue(words[k]).Ok?
    ensures ToMilliseconds(Str(s)) == Err(e)
  {
    TokenPath(s);
    SumOrThrowFirstError(words, TokenValue, 0, i, e);
  }

  /** Two or more words joined by spaces make text that is trimmed, not a number, and split back into the words. */
  lemma JoinedWords(words: seq<string>)
    requires |words| >= 2
    requires forall k | 0 <= k < |words| :: words[k] != [] && NoWhitespace(words[k])
    ensures var s := Join(words, " "); Trim(s) == s && ToNumber(s) == None && SplitWhitespace(s) == words
  {
    var b := Join(words[1..], " ");
    JoinHead(words[1..], " ");
    JoinLast(words[1..], " ");
    assert Join(words, " ") == words[0] + " " + b;
    NotNumeric(words[0], " ", b);
    SplitJoin(words);
  }

  /** Rendered tokens read back without error. */
  lemma RenderedAreOk(ts: seq<Token>, words: seq<string>)
    requires |ts| <= |words| && forall k | 0 <= k < |ts| :: words[k] == Render(ts[k])
    ensures forall k | 0 <= k < |ts| :: TokenValue(words[k]).Ok?
  {
    forall k | 0 <= k < |ts|
      ensures TokenValue(words[k]).Ok?
    {
      TokenOfRender(ts[k]);
    }
  }

  /**
   * Fail-fast: a bad token after any good ones fails the whole phrase with
   * that token's error, whatever follows it.
   */
  lemma FailFast(ts: seq<Token>, bad: string, e: ParseError, rest: seq<string>)
    requires ts != []
    requires bad != [] && NoWhitespace(bad) && TokenValue(bad) == Err(e)
    requires forall k | 0 <= k < |rest| :: rest[k] != [] && NoWhitespace(rest[k])
    ensures ToMilliseconds(Str(Join(RenderAll(ts) + [bad] + rest, " "))) == Err(e)
  {
    var words := RenderAll(ts) + [bad] + rest;
    WordsAround(ts, bad, rest);
    JoinedWords(words);
    RenderedAreOk(ts, words);
    FailsAt(Join(words, " "), words, |ts|, e);
  }

  lemma LowerExamples()
    ensures Lower("foobar") == "foobar" && Lower("1f") == "1f"
  {
    LowerUnchanged("foobar");
    LowerUnchanged("1f");
  }

  lemma FactorExamples()
    ensures Factor("foobar") == "r" && Factor("1f") == "f"
    ensures "foobar" == "fooba" + "r" && "1f" == "1" + "f"
  {
  }

  lemma FoobarPrefix()
    ensures ToNumber("fooba") == None
  {
    ToNumberNaN("fooba");
  }

  lemma OnePrefix()
    ensures ToNumber("1") == Some(1)
  {
    SmallNumerals();
    ToNumberOfInt(1);
  }

  /** "foobar" has no number in front of its identifier "r". */
  lemma FoobarToken()
    ensures TokenValue("foobar") == Err(UnsupportedValue("foobar"))
  {
    LowerExamples();
    FactorExamples();
    FoobarPrefix();
    TokenParts("foobar", "fooba", "r");
  }

  /** "1f" has a number, but "f" is not an identifier. */
  lemma UnknownIdentifierToken()
    ensures TokenValue("1f") == Err(UnsupportedIdentifier("f"))
  {
    LowerExamples();
    FactorExamples();
    OnePrefix();
    TokenParts("1f", "1", "f");
  }

  /** "1y foobar 2h" fails on "foobar" although the tokens around it are good. */
  lemma FoobarPhrase()
    ensures ToMilliseconds(Str("1y foobar 2h")) == Err(UnsupportedValue("foobar"))
  {
    FoobarToken();
    PhraseTexts();
    PlainWords();
    BadBetween("foobar", UnsupportedValue("foobar"), "1y foobar 2h");
  }

  /** "1y 1f 2h" fails on the identifier "f". */
  lemma UnknownIdentifierPhrase()
    ensures ToMilliseconds(Str("1y 1f 2h")) == Err(UnsupportedIdentifier("f"))
  {
    UnknownIdentifierToken();
    PhraseTexts();
    PlainWords();
    BadBetween("1f", UnsupportedIdentifier("f"), "1y 1f 2h");
  }

  /** Proof step: the two test phrases, joined. */
  lemma PhraseTexts()
    ensures Join(["1y", "foobar", "2h"], " ") == "1y foobar 2h"
    ensures Join(["1y", "1f", "2h"], " ") == "1y 1f 2h"
  {
  }

  /** Proof step: the words of the test phrases hold no whitespace. */
  lemma PlainWords()
    ensures NoWhitespace("foobar") && NoWhitespace("1f") && NoWhitespace("2h")
  {
  }

  /** A bad word between "1y" and "2h" fails the phrase with its own error. */
  lemma BadBetween(bad: string, e: ParseError, s: string)
    requires bad != [] && NoWhitespace(bad) && NoWhitespace("2h") && TokenValue(bad) == Err(e)
    requires s == Join(["1y", bad, "2h"], " ")
    ensures ToMilliseconds(Str(s)) == Err(e)
  {
    WordsAroundBad(bad);
    SingleWord("2h");
    FailFast([Token(1, Year)], bad, e, ["2h"]);
  }

  /** Proof step: a single plain word is a list of plain words. */
  lemma SingleWord(w: string)
    requires w != [] && NoWhitespace(w)
    ensures forall k | 0 <= k < |[w]| :: [w][k] != [] && NoWhitespace([w][k])
  {
  }

  /** Proof step: the words of "1y <bad> 2h". */
  lemma WordsAroundBad(bad: string)
    ensures RenderAll([Token(1, Year)]) + [bad] + ["2h"] == ["1y", bad, "2h"]
  {
    ExampleTexts();
    RenderAllCons(Token(1, Year), []);
  }
}
