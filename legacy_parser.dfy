/**
 * The earlier toMilliseconds.js at the top of the repository: the string is
 * trimmed and split on runs of whitespace like the library's parser, each
 * token is lower-cased, but only "mo" is told apart from its last letter,
 * the switch has no millisecond case, and a token it cannot read makes the
 * result `null`, which the rest of the fold keeps.
 */
module LegacyParser {
  import opened Wrappers
  import opened Strings
  import opened Times
  import opened Values
  import opened Tokens
  import opened Folds
  import Parser
  import Formatter
  import LegacyIndex

  /** The lower-case token ends in "mo". */
  predicate IsMo(readable: string) {
    var n := |readable|;
    n >= 2 && readable[n - 2] == 'm' && readable[n - 1] == 'o'
  }

  /** The lower-case token ends in "ms". */
  predicate IsMs(readable: string) {
    var n := |readable|;
    n >= 2 && readable[n - 2] == 'm' && readable[n - 1] == 's'
  }

  /**
   * The identifier at the end of a lower-case token: the last two
   * characters when they are "mo", otherwise the last one (nothing for the
   * empty token).
   */
  function Factor(readable: string): (f: string)
    ensures |f| <= |readable| && f == readable[|readable| - |f|..]
    ensures readable != [] ==> 1 <= |f| <= 2
    ensures |f| == 2 <==> IsMo(readable)
  {
    var n := |readable|;
    if n >= 1 && readable[n - 1] == 'o' && IsMo(readable) then readable[n - 2..]
    else if n >= 1 then readable[n - 1..]
    else readable
  }

  /** The unit a case of the switch names: every unit of the table but the millisecond. */
  function UnitOf(factor: string): (u: Option<Unit>)
    ensures u.Some? ==> Symbol(u.value) == factor && u.value != Millisecond
    ensures u.None? ==> forall w: Unit | w != Millisecond :: Symbol(w) != factor
  {
    if factor == "s" then Some(Second)
    else if factor == "m" then Some(Minute)
    else if factor == "h" then Some(Hour)
    else if factor == "d" then Some(Day)
    else if factor == "w" then Some(Week)
    else if factor == "mo" then Some(Month)
    else if factor == "y" then Some(Year)
    else None
  }

  /** toMillisecondsSingle: the milliseconds one token stands for, or null. */
  function TokenValue(token: string): (r: Option<int>)
    ensures r.Some? ==> exists u: Unit :: u != Millisecond && Symbol(u) == Factor(Lower(token))
  {
    var readable := Lower(token);
    var factor := Factor(readable);
    var value := ToNumber(readable[..|readable| - |factor|]);
    if value.None? then None
    else match UnitOf(factor)
      case None => None
      case Some(u) => Some(Scale(value.value, u))
  }

  /** toMilliseconds: a number as it is, null for a non-string, otherwise the null-absorbing sum over the tokens. */
  function ToMilliseconds(v: Value): (r: Option<int>)
    ensures v.Num? ==> r == Some(v.n)
    ensures v.Other? ==> r.None?
  {
    if NumberValue(v).Some? then Some(NumberValue(v).value)
    else if !v.Str? then None
    else SumOrNull(SplitWhitespace(Trim(v.s)), TokenValue, Some(0))
  }

  /** A thrown error read as null. */
  function Nullable(r: Result<int, Parser.ParseError>): (o: Option<int>)
    ensures o.Some? <==> r.Ok?
    ensures o.Some? ==> o.value == r.value
  {
    if r.Ok? then Some(r.value) else None
  }

  // ---------------------------------------------------------------- the numeric short-circuit

  /** The rendering of an integer is returned as that integer. */
  lemma NumericString(n: int)
    ensures ToMilliseconds(Str(IntToString(n))) == Some(n)
  {
    ToNumberOfInt(n);
    NumericPath(IntToString(n));
  }

  /** A numeric string is returned as its number. */
  lemma NumericPath(s: string)
    requires ToNumber(s).Some?
    ensures ToMilliseconds(Str(s)) == ToNumber(s)
  {
  }

  // ---------------------------------------------------------------- single tokens

  /** A lower-case token split into the text in front of its identifier and the identifier. */
  lemma TokenParts(token: string, prefix: string, factor: string)
    requires Lower(token) == token && Factor(token) == factor && token == prefix + factor
    ensures TokenValue(token) ==
      match ToNumber(prefix)
      case None => None
      case Some(n) => (match UnitOf(factor) case None => None case Some(u) => Some(Scale(n, u)))
  {
    assert token[..|token| - |factor|] == prefix;
  }

  /** Away from a final "ms" the identifier is the one the library's parser finds. */
  lemma FactorAgrees(readable: string)
    requires !IsMs(readable)
    ensures Factor(readable) == Parser.Factor(readable)
  {
  }

  /** Away from "ms" the switch names the unit the library's switch names. */
  lemma UnitOfAgrees(factor: string)
    requires factor != "ms"
    ensures UnitOf(factor) == Parser.UnitOf(factor)
  {
  }

  /**
   * A token whose lower-case form does not end in "ms" has the value the
   * library's parser gives it, with null in place of the library's error.
   */
  lemma TokenAgrees(token: string)
    requires !IsMs(Lower(token))
    ensures TokenValue(token) == Nullable(Parser.TokenValue(token))
  {
    var readable := Lower(token);
    FactorAgrees(readable);
    var factor := Factor(readable);
    var prefix := readable[..|readable| - |factor|];
    assert readable == prefix + factor;
    LowerIdempotent(token);
    CaseInsensitive(token);
    Parser.CaseInsensitive(token);
    TokenParts(readable, prefix, factor);
    Parser.TokenParts(readable, prefix, factor);
    UnitOfAgrees(factor);
  }

  /** Case does not matter: a token and its lower-case form have the same value. */
  lemma CaseInsensitive(token: string)
    ensures TokenValue(token) == TokenValue(Lower(token))
  {
    LowerIdempotent(token);
  }

  /** "5ms" is the identifier "s" after the non-numeric "5m": there is no millisecond unit. */
  lemma NoMilliseconds(i: int)
    ensures TokenValue(IntToString(i) + "ms") == None
  {
    var q := IntToString(i);
    var p := q + "m";
    LegacyIndex.Regroup(q);
    Parser.LowerOfToken(i, Millisecond);
    FactorOfS(p);
    ToNumberNaN(p);
    TokenParts(p + "s", p, "s");
  }

  /** Any token ending in "ms", in any case, is null: the text before its final 's' ends in 'm' and is no number. */
  lemma MsIsNull(token: string)
    requires IsMs(Lower(token))
    ensures TokenValue(token) == None
  {
    var readable := Lower(token);
    var n := |readable|;
    var p := readable[..n - 1];
    assert Factor(readable) == readable[n - 1..];
    assert p[|p| - 1] == 'm';
    ToNumberNaN(p);
  }

  /** A final 's' is an identifier on its own. */
  lemma FactorOfS(p: string)
    ensures Factor(p + "s") == "s"
  {
    var t := p + "s";
    assert t[|t| - 1] == 's' && t[|t| - 1..] == "s";
  }

  /** A rendered integer followed by an identifier other than "ms" is that many of the unit. */
  lemma TokenOfInt(i: int, u: Unit)
    requires u != Millisecond
    ensures TokenValue(IntToString(i) + Symbol(u)) == Some(Scale(i, u))
  {
    var token := IntToString(i) + Symbol(u);
    Parser.LowerOfToken(i, u);
    Parser.TokenOfInt(i, u);
    TokenAgrees(token);
  }

  /** Case does not matter: "2MO" is two months. */
  lemma MonthInAnyCase()
    ensures TokenValue("2MO") == Some(2 * MONTH)
  {
    CaseInsensitive("2MO");
    UpperMonth();
    TokenOfInt(2, Month);
  }

  /** Proof step: "2MO" lower-cased is the written token for two months. */
  lemma UpperMonth()
    ensures Lower("2MO") == IntToString(2) + Symbol(Month)
  {
  }

  /** Each token reads as it does in index.js: lower-casing first and listing both cases in the switch agree. */
  lemma SameAsIndex(token: string)
    ensures LegacyIndex.TokenValue(token) == TokenValue(token)
  {
    var f := LegacyIndex.Factor(token);
    var p := token[..|token| - |f|];
    assert token == p + f;
    IndexFactor(token);
    LowerAppend(p, f);
    LowerIdempotent(token);
    CaseInsensitive(token);
    LegacyIndex.TokenParts(token, p, f);
    TokenParts(Lower(token), Lower(p), Lower(f));
    ToNumberLower(p);
    MultiplierLower(f);
  }

  /** The identifier index.js finds, lower-cased, is the one found in the lower-cased token. */
  lemma IndexFactor(token: string)
    ensures Factor(Lower(token)) == Lower(LegacyIndex.Factor(token))
  {
    var n := |token|;
    var l := Lower(token);
    LegacyIndex.FactorCases(token);
    if n >= 1 {
      LowerCharOM(token[n - 1]);
      assert l[n - 1] == LowerChar(token[n - 1]);
      if LegacyIndex.IsO(token[n - 1]) && n >= 2 && LegacyIndex.IsM(token[n - 2]) {
        LowerCharOM(token[n - 2]);
        assert IsMo(l);
        LowerSlice(token, n - 2);
      } else {
        if n >= 2 {
          LowerCharOM(token[n - 2]);
        }
        assert !IsMo(l);
        LowerSlice(token, n - 1);
      }
    }
  }

  /** Lower-casing maps exactly the two cases of 'o' to 'o' and of 'm' to 'm'. */
  lemma LowerCharOM(c: char)
    ensures LowerChar(c) == 'o' <==> LegacyIndex.IsO(c)
    ensures LowerChar(c) == 'm' <==> LegacyIndex.IsM(c)
  {
  }

  /** Every case variant the index.js switch lists is the lower-case identifier of the same unit. */
  lemma MultiplierLower(f: string)
    requires |f| <= 2
    ensures LegacyIndex.Multiplier(f) == match UnitOf(Lower(f)) case None => None case Some(u) => Some(Length(u))
  {
    if |f| == 1 {
      assert f == [f[0]] && Lower(f) == [LowerChar(f[0])];
      OneLetter(f[0]);
    } else if |f| == 2 {
      assert f == [f[0], f[1]] && Lower(f) == [LowerChar(f[0]), LowerChar(f[1])];
      TwoLetters(f[0], f[1]);
    }
  }

  /** Proof step: MultiplierLower for one letter. */
  lemma OneLetter(c: char)
    ensures LegacyIndex.Multiplier([c]) == match UnitOf([LowerChar(c)]) case None => None case Some(u) => Some(Length(u))
  {
    LegacyIndex.SameConstants();
  }

  /** Proof step: MultiplierLower for two letters. */
  lemma TwoLetters(b: char, c: char)
    ensures LegacyIndex.Multiplier([b, c]) == match UnitOf([LowerChar(b), LowerChar(c)]) case None => None case Some(u) => Some(Length(u))
  {
    LegacyIndex.SameConstants();
  }

  // ---------------------------------------------------------------- whole strings

  /** Proof step: a trimmed string that is not numeric goes to the fold over its tokens. */
  lemma TokenPath(s: string)
    requires ToNumber(s) == None && Trim(s) == s
    ensures ToMilliseconds(Str(s)) == SumOrNull(SplitWhitespace(s), TokenValue, Some(0))
  {
  }

  /** Leading and trailing whitespace is ignored. */
  lemma PaddingIgnored(pre: string, s: string, post: string)
    requires AllWhitespace(pre) && AllWhitespace(post)
    ensures ToMilliseconds(Str(pre + s + post)) == ToMilliseconds(Str(s))
  {
    TrimPadding(pre, s, post);
  }

  /** Any run of whitespace separates two tokens as a single space does. */
  lemma RunsSeparate(a: string, sep: string, b: string)
    requires a != [] && NoWhitespace(a)
    requires sep != [] && AllWhitespace(sep)
    requires b != [] && !IsWhitespace(b[0]) && !IsWhitespace(b[|b| - 1])
    ensures ToMilliseconds(Str(a + sep + b)) == ToMilliseconds(Str(a + " " + b))
  {
    SplitRun(a, sep, b);
    SplitRun(a, " ", b);
    Parser.NotNumeric(a, sep, b);
    Parser.NotNumeric(a, " ", b);
  }

  /**
   * Null is absorbing: for a trimmed, non-numeric string the result is null
   * as soon as one token is null, and otherwise the sum of the tokens' values.
   */
  lemma NullAbsorbs(s: string)
    requires ToNumber(s) == None && Trim(s) == s
    ensures var tokens := SplitWhitespace(s);
      ((exists i | 0 <= i < |tokens| :: TokenValue(tokens[i]).None?) ==> ToMilliseconds(Str(s)) == None) &&
      ((forall i | 0 <= i < |tokens| :: TokenValue(tokens[i]).Some?) ==>
        ToMilliseconds(Str(s)) == Some(Sum(Defined(tokens, TokenValue))))
  {
    var tokens := SplitWhitespace(s);
    if i :| 0 <= i < |tokens| && TokenValue(tokens[i]).None? {
      SumOrNullHasNull(tokens, TokenValue, Some(0), i);
    } else {
      SumOrNullSum(tokens, TokenValue, Defined(tokens, TokenValue), 0, Sum(Defined(tokens, TokenValue)));
    }
  }

  /** The tokens of a string, as both parsers see them. */
  function Pieces(v: Value): (tokens: seq<string>)
    ensures v.Str? ==> tokens == SplitWhitespace(Trim(v.s))
    ensures !v.Str? ==> tokens == []
  {
    if v.Str? then SplitWhitespace(Trim(v.s)) else []
  }

  /**
   * Without a millisecond token the two parsers agree on every value: the
   * same number, and null exactly where the library's parser throws.
   */
  lemma AgreesWithLibrary(v: Value)
    requires forall k | 0 <= k < |Pieces(v)| :: !IsMs(Lower(Pieces(v)[k]))
    ensures ToMilliseconds(v) == Nullable(Parser.ToMilliseconds(v))
  {
    if NumberValue(v).None? && v.Str? {
      var tokens := Pieces(v);
      forall k | 0 <= k < |tokens|
        ensures TokenValue(tokens[k]) == if Parser.TokenValue(tokens[k]).Ok? then Some(Parser.TokenValue(tokens[k]).value) else None
      {
        TokenAgrees(tokens[k]);
      }
      NullMatchesThrow(tokens, TokenValue, Parser.TokenValue, 0);
    }
  }

  // ---------------------------------------------------------------- phrases the formatter writes

  /** The formatter's phrases without a millisecond token parse to their total. */
  lemma ParsesSpell(ts: seq<Token>)
    requires ts != [] && forall k | 0 <= k < |ts| :: ts[k].unit != Millisecond
    ensures ToMilliseconds(Str(Formatter.Spell(ts))) == Some(Total(ts))
  {
    var s := Formatter.Spell(ts);
    Parser.ParsePhrase(ts);
    SpellTokens(ts);
    RenderedWithoutMs(ts);
    AgreesWithLibrary(Str(s));
  }

  /** No text the formatter writes for a unit other than the millisecond ends in "ms", in any case. */
  lemma RenderedWithoutMs(ts: seq<Token>)
    requires forall k | 0 <= k < |ts| :: ts[k].unit != Millisecond
    ensures forall k | 0 <= k < |RenderAll(ts)| :: !IsMs(Lower(RenderAll(ts)[k]))
  {
    forall k | 0 <= k < |RenderAll(ts)|
      ensures !IsMs(Lower(RenderAll(ts)[k]))
    {
      RenderAllAt(ts, k);
      RenderWithoutMs(ts[k]);
    }
  }

  lemma RenderWithoutMs(t: Token)
    requires t.unit != Millisecond
    ensures !IsMs(Lower(Render(t)))
  {
    var q, id := IntToString(t.quantity), Symbol(t.unit);
    Parser.LowerOfToken(t.quantity, t.unit);
    var r := q + id;
    assert r[|r| - 1] == id[|id| - 1];
    if |id| == 1 {
      assert r[|r| - 2] == q[|q| - 1];
    } else {
      assert r[|r| - 2] == id[0];
    }
  }

  /** The formatter's phrase is trimmed, not numeric, and its tokens are the token texts. */
  lemma SpellTokens(ts: seq<Token>)
    requires ts != []
    ensures var s := Formatter.Spell(ts);
      ToNumber(s) == None && Trim(s) == s && Pieces(Str(s)) == RenderAll(ts)
  {
    var s := Formatter.Spell(ts);
    PhraseEnds(ts);
    Parser.WordText(s);
    SplitPhrase(ts);
  }

  /** A millisecond token anywhere in the formatter's phrase makes the result null. */
  lemma RejectsMilliseconds(ts: seq<Token>, i: nat)
    requires i < |ts| && ts[i].unit == Millisecond
    ensures ToMilliseconds(Str(Formatter.Spell(ts))) == None
  {
    var s := Formatter.Spell(ts);
    SpellTokens(ts);
    TokenPath(s);
    RenderAllAt(ts, i);
    NoMilliseconds(ts[i].quantity);
    SumOrNullHasNull(RenderAll(ts), TokenValue, Some(0), i);
  }
}
