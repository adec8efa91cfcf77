/** Duration tokens: a quantity of one unit, written "<quantity><identifier>" as in "3w". */
module Tokens {
  import opened Strings
  import opened Times
  import opened Folds

  datatype Token = Token(quantity: int, unit: Unit)

  /** The text of a token, as the template literal `${quantity}<identifier>` writes it. */
  function Render(t: Token): (s: string)
    ensures s != [] && NoWhitespace(s)
    ensures !IsDigit(s[|s| - 1]) && !IsWhitespace(s[|s| - 1])
  {
    var q := IntToString(t.quantity);
    var id := Symbol(t.unit);
    assert forall k | 0 <= k < |id| :: !IsWhitespace(id[k]) && !IsDigit(id[k]);
    assert (q + id)[|q + id| - 1] == id[|id| - 1];
    q + id
  }

  /** The texts of the tokens, in order. */
  function RenderAll(ts: seq<Token>): (words: seq<string>)
    ensures |words| == |ts|
    decreases |ts|
  {
    if ts == [] then [] else [Render(ts[0])] + RenderAll(ts[1..])
  }

  lemma {:induction false} RenderAllAt(ts: seq<Token>, k: nat)
    requires k < |ts|
    ensures RenderAll(ts)[k] == Render(ts[k])
    decreases k
  {
    if k > 0 {
      RenderAllAt(ts[1..], k - 1);
    }
  }

  /** A token in front of others is written in front of their texts. */
  lemma RenderAllCons(t: Token, ts: seq<Token>)
    ensures RenderAll([t] + ts) == [Render(t)] + RenderAll(ts)
  {
    assert ([t] + ts)[1..] == ts;
  }

  /** The milliseconds a sequence of tokens stands for. */
  function Total(ts: seq<Token>): int
    decreases |ts|
  {
    if ts == [] then 0 else Scale(ts[0].quantity, ts[0].unit) + Total(ts[1..])
  }

  /** A token in front of others adds its milliseconds to theirs. */
  lemma TotalCons(t: Token, ts: seq<Token>)
    ensures Total([t] + ts) == Scale(t.quantity, t.unit) + Total(ts)
  {
    assert ([t] + ts)[1..] == ts;
  }

  /** Rendered tokens joined by spaces start and end with a token character, and end with an identifier character. */
  lemma PhraseEnds(ts: seq<Token>)
    requires ts != []
    ensures var s := Join(RenderAll(ts), " ");
      s != [] && !IsWhitespace(s[0]) && !IsWhitespace(s[|s| - 1]) && !IsDigit(s[|s| - 1])
  {
    var words := RenderAll(ts);
    RenderAllAt(ts, 0);
    RenderAllAt(ts, |ts| - 1);
    JoinHead(words, " ");
    JoinLast(words, " ");
  }

  /** Splitting rendered tokens joined by spaces on whitespace gives back the token texts. */
  lemma SplitPhrase(ts: seq<Token>)
    requires ts != []
    ensures SplitWhitespace(Join(RenderAll(ts), " ")) == RenderAll(ts)
  {
    var words := RenderAll(ts);
    forall k | 0 <= k < |words|
      ensures words[k] != [] && NoWhitespace(words[k])
    {
      RenderAllAt(ts, k);
    }
    SplitJoin(words);
  }

  /** The milliseconds of each token, in order. */
  function Amounts(ts: seq<Token>): (amounts: seq<int>)
    ensures |amounts| == |ts|
    ensures forall k | 0 <= k < |ts| :: amounts[k] == Scale(ts[k].quantity, ts[k].unit)
  {
    seq(|ts|, k requires 0 <= k < |ts| => Scale(ts[k].quantity, ts[k].unit))
  }

  /** The total of tokens is the sum of their milliseconds. */
  lemma {:induction false} TotalIsSum(ts: seq<Token>)
    ensures Total(ts) == Sum(Amounts(ts))
    decreases |ts|
  {
    if ts != [] {
      TotalIsSum(ts[1..]);
      assert Amounts(ts)[1..] == Amounts(ts[1..]);
    }
  }

  /** Tokens whose texts are known one by one have those texts in order. */
  lemma RenderAllOf(ts: seq<Token>, words: seq<string>)
    requires |ts| == |words| && forall k | 0 <= k < |ts| :: Render(ts[k]) == words[k]
    ensures RenderAll(ts) == words
  {
    forall k | 0 <= k < |ts|
      ensures RenderAll(ts)[k] == words[k]
    {
      RenderAllAt(ts, k);
    }
  }

  /** Rendered tokens followed by other words: the tokens' texts come first, and no word is empty or holds whitespace. */
  lemma WordsAround(ts: seq<Token>, word: string, rest: seq<string>)
    requires word != [] && NoWhitespace(word)
    requires forall k | 0 <= k < |rest| :: rest[k] != [] && NoWhitespace(rest[k])
    ensures var words := RenderAll(ts) + [word] + rest;
      |words| == |ts| + 1 + |rest| && words[|ts|] == word &&
      (forall k | 0 <= k < |ts| :: words[k] == Render(ts[k])) &&
      (forall k | 0 <= k < |words| :: words[k] != [] && NoWhitespace(words[k]))
  {
    var words := RenderAll(ts) + [word] + rest;
    forall k | 0 <= k < |ts|
      ensures words[k] == Render(ts[k])
    {
      RenderAllAt(ts, k);
    }
    assert forall k | |ts| < k < |words| :: words[k] == rest[k - |ts| - 1];
  }
}
