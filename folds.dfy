/**
 * The two shapes of `tokens.reduce(..., 0)` the parsers use: one where a
 * token's evaluation throws and so aborts the fold, and one where it
 * returns `null` and the accumulator absorbs it.
 */
module Folds {
  import opened Wrappers

  /** `reduce((sum, t) => sum + value(t), acc)` where `value` may throw. */
  function SumOrThrow<E>(tokens: seq<string>, value: string -> Result<int, E>, acc: int): Result<int, E>
    decreases |tokens|
  {
    if tokens == [] then Ok(acc)
    else match value(tokens[0])
      case Err(e) => Err(e)
      case Ok(v) => SumOrThrow(tokens[1..], value, acc + v)
  }

  /** One step of the fold: a good first token moves its value into the sum. */
  lemma SumOrThrowHead<E>(tokens: seq<string>, value: string -> Result<int, E>, acc: int, v: int)
    requires tokens != [] && value(tokens[0]) == Ok(v)
    ensures SumOrThrow(tokens, value, acc) == SumOrThrow(tokens[1..], value, acc + v)
  {
  }

  /** The sum of a sequence of amounts. */
  function Sum(amounts: seq<int>): int
    decreases |amounts|
  {
    if amounts == [] then 0 else amounts[0] + Sum(amounts[1..])
  }

  /** When every token's value is known, the fold adds them all to the starting value. */
  lemma {:induction false} SumOrThrowAll<E>(tokens: seq<string>, value: string -> Result<int, E>, amounts: seq<int>, acc: int, total: int)
    requires |amounts| == |tokens|
    requires forall k | 0 <= k < |tokens| :: value(tokens[k]) == Ok(amounts[k])
    requires total == acc + Sum(amounts)
    ensures SumOrThrow(tokens, value, acc) == Ok(total)
    decreases |tokens|
  {
    if tokens != [] {
      SumOrThrowHead(tokens, value, acc, amounts[0]);
      SumOrThrowAll(tokens[1..], value, amounts[1..], acc + amounts[0], total);
    }
  }

  /** If every token has a value, the fold succeeds. */
  lemma {:induction false} SumOrThrowOk<E>(tokens: seq<string>, value: string -> Result<int, E>, acc: int)
    requires forall k | 0 <= k < |tokens| :: value(tokens[k]).Ok?
    ensures SumOrThrow(tokens, value, acc).Ok?
    decreases |tokens|
  {
    if tokens != [] {
      SumOrThrowOk(tokens[1..], value, acc + value(tokens[0]).value);
    }
  }

  /** Fail-fast: the first bad token's error is the error of the whole fold; no partial sum escapes. */
  lemma {:induction false} SumOrThrowFirstError<E>(tokens: seq<string>, value: string -> Result<int, E>, acc: int, i: nat, e: E)
    requires i < |tokens| && value(tokens[i]) == Err(e)
    requires forall k | 0 <= k < i :: value(tokens[k]).Ok?
    ensures SumOrThrow(tokens, value, acc) == Err(e)
    decreases i
  {
    if i > 0 {
      SumOrThrowFirstError(tokens[1..], value, acc + value(tokens[0]).value, i - 1, e);
    }
  }

  /** The fold throws exactly when some token throws, and what it throws is that token's error. */
  lemma {:induction false} SumOrThrowErr<E>(tokens: seq<string>, value: string -> Result<int, E>, acc: int)
    ensures SumOrThrow(tokens, value, acc).Err? <==> exists k | 0 <= k < |tokens| :: value(tokens[k]).Err?
    ensures SumOrThrow(tokens, value, acc).Err? ==>
      exists k | 0 <= k < |tokens| :: value(tokens[k]) == Err(SumOrThrow(tokens, value, acc).error)
    decreases |tokens|
  {
    if tokens != [] {
      if value(tokens[0]).Err? {
        assert value(tokens[0]) == Err(SumOrThrow(tokens, value, acc).error);
      } else {
        var rest := tokens[1..];
        SumOrThrowErr(rest, value, acc + value(tokens[0]).value);
        if SumOrThrow(rest, value, acc + value(tokens[0]).value).Err? {
          var k :| 0 <= k < |rest| && value(rest[k]) == Err(SumOrThrow(rest, value, acc + value(tokens[0]).value).error);
          assert value(tokens[k + 1]) == value(rest[k]);
        }
        if k :| 0 <= k < |tokens| && value(tokens[k]).Err? {
          assert value(rest[k - 1]).Err?;
        }
      }
    }
  }

  /** The fold over two runs of tokens: the second run continues from the first one's sum. */
  lemma {:induction false} SumOrThrowConcat<E>(a: seq<string>, b: seq<string>, value: string -> Result<int, E>, acc: int)
    ensures SumOrThrow(a + b, value, acc) ==
      match SumOrThrow(a, value, acc)
      case Ok(x) => SumOrThrow(b, value, x)
      case Err(e) => Err(e)
    decreases |a|
  {
    if a == [] {
      assert a + b == b;
    } else {
      assert (a + b)[0] == a[0] && (a + b)[1..] == a[1..] + b;
      if value(a[0]).Ok? {
        SumOrThrowConcat(a[1..], b, value, acc + value(a[0]).value);
      }
    }
  }

  /** The starting value only shifts the sum: the tokens add to whatever was there before. */
  lemma {:induction false} SumOrThrowShift<E>(tokens: seq<string>, value: string -> Result<int, E>, acc: int)
    ensures SumOrThrow(tokens, value, acc).Ok? == SumOrThrow(tokens, value, 0).Ok?
    ensures SumOrThrow(tokens, value, acc).Ok? ==>
      SumOrThrow(tokens, value, acc).value == acc + SumOrThrow(tokens, value, 0).value
    ensures SumOrThrow(tokens, value, acc).Err? ==> SumOrThrow(tokens, value, acc) == SumOrThrow(tokens, value, 0)
    decreases |tokens|
  {
    if tokens != [] && value(tokens[0]).Ok? {
      var v := value(tokens[0]).value;
      SumOrThrowShift(tokens[1..], value, acc + v);
      SumOrThrowShift(tokens[1..], value, v);
    }
  }

  /**
   * `reduce((sum, t) => sum === null ? null : (value(t) !== null ? sum + value(t) : null), acc)`:
   * once the accumulator is null it stays null.
   */
  function SumOrNull(tokens: seq<string>, value: string -> Option<int>, acc: Option<int>): Option<int>
    decreases |tokens|
  {
    if tokens == [] then acc
    else
      var next := if acc.None? then None else if value(tokens[0]).None? then None else Some(acc.value + value(tokens[0]).value);
      SumOrNull(tokens[1..], value, next)
  }

  /** Null is absorbing: a fold that starts from null ends in null. */
  lemma {:induction false} SumOrNullAbsorbs(tokens: seq<string>, value: string -> Option<int>)
    ensures SumOrNull(tokens, value, None) == None
    decreases |tokens|
  {
    if tokens != [] {
      SumOrNullAbsorbs(tokens[1..], value);
    }
  }

  /** One null token makes the whole result null. */
  lemma {:induction false} SumOrNullHasNull(tokens: seq<string>, value: string -> Option<int>, acc: Option<int>, i: nat)
    requires i < |tokens| && value(tokens[i]).None?
    ensures SumOrNull(tokens, value, acc) == None
    decreases i
  {
    var next := if acc.None? then None else if value(tokens[0]).None? then None else Some(acc.value + value(tokens[0]).value);
    if i == 0 {
      SumOrNullAbsorbs(tokens[1..], value);
    } else {
      SumOrNullHasNull(tokens[1..], value, next, i - 1);
    }
  }

  /** Without a null token, the result is the starting value plus the sum of the token values. */
  lemma {:induction false} SumOrNullAllValues(tokens: seq<string>, value: string -> Option<int>, acc: int)
    requires forall k | 0 <= k < |tokens| :: value(tokens[k]).Some?
    ensures SumOrNull(tokens, value, Some(acc)).Some? && SumOrNull(tokens, value, Some(0)).Some?
    ensures SumOrNull(tokens, value, Some(acc)).value == acc + SumOrNull(tokens, value, Some(0)).value
    decreases |tokens|
  {
    if tokens != [] {
      var v := value(tokens[0]).value;
      SumOrNullAllValues(tokens[1..], value, acc + v);
      SumOrNullAllValues(tokens[1..], value, v);
    }
  }

  /** When every token's value is known, the null-absorbing fold adds them all to the starting value. */
  lemma {:induction false} SumOrNullSum(tokens: seq<string>, value: string -> Option<int>, amounts: seq<int>, acc: int, total: int)
    requires |amounts| == |tokens|
    requires forall k | 0 <= k < |tokens| :: value(tokens[k]) == Some(amounts[k])
    requires total == acc + Sum(amounts)
    ensures SumOrNull(tokens, value, Some(acc)) == Some(total)
    decreases |tokens|
  {
    if tokens != [] {
      SumOrNullSum(tokens[1..], value, amounts[1..], acc + amounts[0], total);
    }
  }

  /** Started from a number, the fold ends in null exactly when some token is null. */
  lemma SumOrNullNone(tokens: seq<string>, value: string -> Option<int>, acc: int)
    ensures SumOrNull(tokens, value, Some(acc)).None? <==> exists k | 0 <= k < |tokens| :: value(tokens[k]).None?
  {
    if k :| 0 <= k < |tokens| && value(tokens[k]).None? {
      SumOrNullHasNull(tokens, value, Some(acc), k);
    } else {
      SumOrNullAllValues(tokens, value, acc);
    }
  }

  /** A value that throws where another returns null: the two folds agree, with null standing for any error. */
  lemma {:induction false} NullMatchesThrow<E>(tokens: seq<string>, nullable: string -> Option<int>, throwing: string -> Result<int, E>, acc: int)
    requires forall k | 0 <= k < |tokens| ::
      nullable(tokens[k]) == if throwing(tokens[k]).Ok? then Some(throwing(tokens[k]).value) else None
    ensures SumOrNull(tokens, nullable, Some(acc)) ==
      if SumOrThrow(tokens, throwing, acc).Ok? then Some(SumOrThrow(tokens, throwing, acc).value) else None
    decreases |tokens|
  {
    if tokens != [] {
      if throwing(tokens[0]).Ok? {
        NullMatchesThrow(tokens[1..], nullable, throwing, acc + throwing(tokens[0]).value);
      } else {
        SumOrNullAbsorbs(tokens[1..], nullable);
      }
    }
  }

  /** The values of tokens that all have one. */
  function Defined(tokens: seq<string>, value: string -> Option<int>): (amounts: seq<int>)
    requires forall k | 0 <= k < |tokens| :: value(tokens[k]).Some?
    ensures |amounts| == |tokens| && forall k | 0 <= k < |tokens| :: value(tokens[k]) == Some(amounts[k])
  {
    seq(|tokens|, k requires 0 <= k < |tokens| => value(tokens[k]).value)
  }
}
