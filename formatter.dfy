/**
 * `toReadable` of lib/toReadable.js: a number of milliseconds written as
 * tokens, largest unit first. A local `ms` is reduced block by block
 * (year, month, week, day, hour, minute, second), each block pushing one
 * token onto `results` when at least one whole unit fits; what is left
 * becomes a millisecond token when it is not zero; the tokens are joined
 * with single spaces.
 */
module Formatter {
  import opened Wrappers
  import opened Strings
  import opened Times
  import opened Values
  import opened Tokens
  import opened TokenExamples

  /** The error thrown for an argument that is not convertible to a number; it shows the argument. */
  datatype FormatError = NotConvertible(shown: string)

  // ---------------------------------------------------------------- specification

  /**
   * The tokens still to be written for `rest` milliseconds once the blocks
   * before `Descending[k]` have run.
   */
  function Greedy(rest: int, k: nat): seq<Token>
    requires k <= |Descending|
    decreases |Descending| - k
  {
    if k == |Descending| then
      if rest != 0 then [Token(rest, Millisecond)] else []
    else
      var u := Descending[k];
      if rest >= Length(u) then
        var q := rest / Length(u);
        [Token(q, u)] + Greedy(rest - q * Length(u), k + 1)
      else
        Greedy(rest, k + 1)
  }

  /** Proof step: the step `Greedy` takes at the position of unit `u`. */
  lemma GreedyStep(rest: int, u: Unit)
    requires u != Millisecond
    ensures Rank(u) < |Descending|
    ensures Greedy(rest, Rank(u)) ==
      if rest >= Length(u) then [Token(rest / Length(u), u)] + Greedy(rest - rest / Length(u) * Length(u), Rank(u) + 1)
      else Greedy(rest, Rank(u) + 1)
  {
    RankPosition(u);
  }

  /** Tokens written out and joined by single spaces. */
  function Spell(ts: seq<Token>): string {
    Join(RenderAll(ts), " ")
  }

  /** The text `toReadable` returns for the number `n`: empty exactly for zero. */
  function Readable(n: int): (s: string)
    ensures s == [] <==> n == 0
  {
    GreedyTotal(n, 0);
    GreedyZero(0);
    SpellEmpty(Greedy(n, 0));
    Spell(Greedy(n, 0))
  }

  /** Proof step: joined tokens are empty exactly when there are none. */
  lemma SpellEmpty(ts: seq<Token>)
    ensures Spell(ts) == [] <==> ts == []
  {
    if ts != [] {
      PhraseEnds(ts);
    }
  }

  /** Whole units that fit in `rest`: at least one, and less than one unit remains. */
  lemma Division(rest: int, length: int)
    requires 0 < length <= rest
    ensures rest / length >= 1 && 0 <= rest - rest / length * length < length
  {
    var q, r := rest / length, rest % length;
    assert rest == q * length + r && 0 <= r < length;
  }

  /** After the last block, a non-zero remainder is one millisecond token. */
  lemma Leftover(rest: int)
    ensures RenderAll(Greedy(rest, |Descending|)) == if rest != 0 then [IntToString(rest) + "ms"] else []
  {
    if rest != 0 {
      RenderAllCons(Token(rest, Millisecond), []);
    }
  }

  // ---------------------------------------------------------------- the method

  /**
   * One guarded block: when at least one whole `u` fits in `rest`, push
   * the count of them and keep the remainder. `target` is everything
   * `results` will hold once all blocks have run.
   */
  method Take(rest: int, results: seq<string>, u: Unit, ghost target: seq<string>) returns (left: int, written: seq<string>)
    requires u != Millisecond
    requires results + RenderAll(Greedy(rest, Rank(u))) == target
    ensures written + RenderAll(Greedy(left, Rank(u) + 1)) == target
    ensures rest < Length(u) ==> left == rest && written == results
    ensures rest >= 0 ==> 0 <= left < Length(u) && left <= rest
  {
    left, written := rest, results;
    if left >= Length(u) {
      var q := left / Length(u);
      left := left - q * Length(u);
      ghost var tail := Taken(rest, u, q, left);
      RenderAllCons(Token(q, u), tail);
      Pushed(results, IntToString(q) + Symbol(u), RenderAll(tail), target);
      written := written + [IntToString(q) + Symbol(u)];
    } else {
      GreedyStep(rest, u);
    }
  }

  /** A block that takes `q` whole units and leaves `left`: what remains to be written after its token. */
  lemma Taken(rest: int, u: Unit, q: int, left: int) returns (tail: seq<Token>)
    requires u != Millisecond && rest >= Length(u)
    requires q == rest / Length(u) && left == rest - q * Length(u)
    ensures 0 <= left < Length(u) && left <= rest
    ensures Rank(u) < |Descending| && tail == Greedy(left, Rank(u) + 1)
    ensures Greedy(rest, Rank(u)) == [Token(q, u)] + tail
  {
    GreedyStep(rest, u);
    Division(rest, Length(u));
    tail := Greedy(left, Rank(u) + 1);
  }

  /** Moving the next word from the words still to come onto the words written keeps the whole. */
  lemma Pushed(results: seq<string>, word: string, tail: seq<string>, target: seq<string>)
    requires results + ([word] + tail) == target
    ensures (results + [word]) + tail == target
  {
  }

  /** The blocks follow one another in the order of the ranks, and the last leaves the remainder to the millisecond token. */
  lemma NextRanks()
    ensures Rank(Year) == 0 && Rank(Year) + 1 == Rank(Month) && Rank(Month) + 1 == Rank(Week)
    ensures Rank(Week) + 1 == Rank(Day) && Rank(Day) + 1 == Rank(Hour) && Rank(Hour) + 1 == Rank(Minute)
    ensures Rank(Minute) + 1 == Rank(Second) && Rank(Second) + 1 == |Descending|
  {
  }

  /** The body of `toReadable` once the argument is a number. */
  method Format(ms: int) returns (s: string)
    ensures s == Readable(ms)
  {
    ghost var target := RenderAll(Greedy(ms, 0));
    NextRanks();
    var rest, results := ms, [];
    assert results + target == target;
    rest, results := Take(rest, results, Year, target);
    rest, results := Take(rest, results, Month, target);
    rest, results := Take(rest, results, Week, target);
    rest, results := Take(rest, results, Day, target);
    rest, results := Take(rest, results, Hour, target);
    rest, results := Take(rest, results, Minute, target);
    rest, results := Take(rest, results, Second, target);
    Leftover(rest);
    if rest != 0 {
      results := results + [IntToString(rest) + "ms"];
    } else {
      assert results + [] == results;
    }
    s := Join(results, " ");
  }

  /** `toReadable(v)`: the text for a number, or the error for anything that is not one. */
  method ToReadable(v: Value) returns (r: Result<string, FormatError>)
    ensures NumberValue(v).None? ==> r == Err(NotConvertible(Shown(v)))
    ensures NumberValue(v).Some? ==> r == Ok(Readable(NumberValue(v).value))
  {
    if NumberValue(v).None? {
      return Err(NotConvertible(Shown(v)));
    }
    var s := Format(NumberValue(v).value);
    return Ok(s);
  }

  // ---------------------------------------------------------------- properties of the decomposition

  /** A block that takes: a positive count of the unit, and a remainder below one unit. */
  lemma Cut(rest: int, k: nat) returns (q: int, left: int)
    requires k < |Descending| && rest >= Length(Descending[k])
    ensures q >= 1 && 0 <= left < Length(Descending[k]) && left <= rest
    ensures Scale(q, Descending[k]) + left == rest
    ensures Greedy(rest, k) == [Token(q, Descending[k])] + Greedy(left, k + 1)
  {
    var u := Descending[k];
    DescendingRanks(k);
    GreedyStep(rest, u);
    q := rest / Length(u);
    Division(rest, Length(u));
    left := rest - q * Length(u);
  }

  /** Proof step: a block that does not take leaves everything to the next one. */
  lemma Skip(rest: int, k: nat)
    requires k < |Descending| && rest < Length(Descending[k])
    ensures Greedy(rest, k) == Greedy(rest, k + 1)
  {
  }

  /** Conservation: the tokens still to be written add up to what is left. */
  lemma {:induction false} GreedyTotal(rest: int, k: nat)
    requires k <= |Descending|
    ensures Total(Greedy(rest, k)) == rest
    decreases |Descending| - k
  {
    if k == |Descending| {
      if rest != 0 {
        TotalCons(Token(rest, Millisecond), []);
      }
    } else if rest >= Length(Descending[k]) {
      var q, left := Cut(rest, k);
      TotalCons(Token(q, Descending[k]), Greedy(left, k + 1));
      GreedyTotal(left, k + 1);
    } else {
      Skip(rest, k);
      GreedyTotal(rest, k + 1);
    }
  }

  /** The tokens `toReadable` writes for `n` stand for exactly `n` milliseconds. */
  lemma Conservation(n: int)
    ensures Total(Greedy(n, 0)) == n
  {
    GreedyTotal(n, 0);
  }

  /** Units in table order from rank `k` down, each at most once. */
  predicate InOrder(ts: seq<Token>, k: nat) {
    (forall i | 0 <= i < |ts| :: Rank(ts[i].unit) >= k) &&
    (forall i, j | 0 <= i < j < |ts| :: Rank(ts[i].unit) < Rank(ts[j].unit))
  }

  /** Every quantity is at least one. */
  predicate Positive(ts: seq<Token>) {
    forall i | 0 <= i < |ts| :: ts[i].quantity >= 1
  }

  /** Every token other than years stands for less than one of the unit above its own. */
  predicate Bounded(ts: seq<Token>) {
    forall i | 0 <= i < |ts| :: ts[i].unit != Year ==> Scale(ts[i].quantity, ts[i].unit) < Length(Above(ts[i].unit))
  }

  lemma ConsInOrder(t: Token, tail: seq<Token>, k: nat)
    requires Rank(t.unit) == k && InOrder(tail, k + 1)
    ensures InOrder([t] + tail, k)
  {
    assert forall i | 1 <= i < |tail| + 1 :: ([t] + tail)[i] == tail[i - 1];
  }

  lemma ConsPositive(t: Token, tail: seq<Token>)
    requires t.quantity >= 1 && Positive(tail)
    ensures Positive([t] + tail)
  {
    assert forall i | 1 <= i < |tail| + 1 :: ([t] + tail)[i] == tail[i - 1];
  }

  lemma ConsBounded(t: Token, tail: seq<Token>)
    requires t.unit != Year ==> Scale(t.quantity, t.unit) < Length(Above(t.unit))
    requires Bounded(tail)
    ensures Bounded([t] + tail)
  {
    assert forall i | 1 <= i < |tail| + 1 :: ([t] + tail)[i] == tail[i - 1];
  }

  /** Units come out in table order from `Descending[k]` down, each at most once. */
  lemma {:induction false} GreedyOrdered(rest: int, k: nat)
    requires k <= |Descending|
    ensures InOrder(Greedy(rest, k), k)
    decreases |Descending| - k
  {
    if k == |Descending| {
      if rest != 0 {
        ConsInOrder(Token(rest, Millisecond), [], k);
      }
    } else if rest >= Length(Descending[k]) {
      var q, left := Cut(rest, k);
      DescendingRanks(k);
      GreedyOrdered(left, k + 1);
      ConsInOrder(Token(q, Descending[k]), Greedy(left, k + 1), k);
    } else {
      Skip(rest, k);
      GreedyOrdered(rest, k + 1);
      InOrderFrom(Greedy(rest, k + 1), k);
    }
  }

  /** Units from a rank on are also units from the rank before it. */
  lemma InOrderFrom(ts: seq<Token>, k: nat)
    requires InOrder(ts, k + 1)
    ensures InOrder(ts, k)
  {
  }

  /** Every quantity written for a non-negative remainder is at least one. */
  lemma {:induction false} GreedyPositive(rest: int, k: nat)
    requires k <= |Descending| && rest >= 0
    ensures Positive(Greedy(rest, k))
    decreases |Descending| - k
  {
    if k == |Descending| {
    } else if rest >= Length(Descending[k]) {
      var q, left := Cut(rest, k);
      GreedyPositive(left, k + 1);
      ConsPositive(Token(q, Descending[k]), Greedy(left, k + 1));
    } else {
      Skip(rest, k);
      GreedyPositive(rest, k + 1);
    }
  }

  /**
   * Remainder bound: when what is left is below the unit before
   * `Descending[k]`, every token other than years stands for less than
   * one of the unit above its own.
   */
  lemma {:induction false} GreedyBounded(rest: int, k: nat)
    requires k <= |Descending| && rest >= 0
    requires k > 0 ==> rest < Length(Descending[k - 1])
    ensures Bounded(Greedy(rest, k))
    decreases |Descending| - k
  {
    if k == |Descending| {
      DescendingRanks(k - 1);
    } else if rest >= Length(Descending[k]) {
      var q, left := Cut(rest, k);
      DescendingRanks(k);
      GreedyBounded(left, k + 1);
      ConsBounded(Token(q, Descending[k]), Greedy(left, k + 1));
    } else {
      Skip(rest, k);
      GreedyBounded(rest, k + 1);
    }
  }

  /** The largest count of a unit below the one above it: 12 months, 4 weeks, 6 days, 23 hours, 59 minutes, 59 seconds, 999 milliseconds. */
  function Limit(u: Unit): nat
    requires u != Year
  {
    match u
    case Month => 12
    case Week => 4
    case Day => 6
    case Hour => 23
    case Minute => 59
    case Second => 59
    case Millisecond => 999
  }

  /** A count of `u` stays below one of the unit above exactly when it is at most `Limit(u)`. */
  lemma LimitExact(q: int, u: Unit)
    requires u != Year
    ensures Scale(q, u) < Length(Above(u)) <==> q <= Limit(u)
  {
  }

  /**
   * For a non-negative number every token has a positive quantity, units
   * appear in table order at most once, and every unit but the year stays
   * within its limit (mo <= 12, w <= 4, d <= 6, h <= 23, m <= 59, s <= 59, ms <= 999).
   */
  lemma QuantityLimits(n: int)
    requires n >= 0
    ensures var ts := Greedy(n, 0);
      (forall i | 0 <= i < |ts| :: 1 <= ts[i].quantity && (ts[i].unit != Year ==> ts[i].quantity <= Limit(ts[i].unit))) &&
      (forall i, j | 0 <= i < j < |ts| :: Rank(ts[i].unit) < Rank(ts[j].unit))
  {
    var ts := Greedy(n, 0);
    GreedyPositive(n, 0);
    assert Positive(ts);
    GreedyBounded(n, 0);
    GreedyOrdered(n, 0);
    forall i | 0 <= i < |ts| && ts[i].unit != Year
      ensures ts[i].quantity <= Limit(ts[i].unit)
    {
      LimitExact(ts[i].quantity, ts[i].unit);
    }
  }

  /** Nothing left writes nothing: `toReadable(0)` is the empty string. */
  lemma {:induction false} GreedyZero(k: nat)
    requires k <= |Descending|
    ensures Greedy(0, k) == []
    decreases |Descending| - k
  {
    if k < |Descending| {
      GreedyZero(k + 1);
    }
  }

  /** 0 is written as the empty string. */
  lemma ZeroIsEmpty()
    ensures Readable(0) == ""
  {
    GreedyZero(0);
  }

  /** A negative remainder passes every block and is written as one millisecond token. */
  lemma {:induction false} GreedyNegative(rest: int, k: nat)
    requires k <= |Descending| && rest < 0
    ensures Greedy(rest, k) == [Token(rest, Millisecond)]
    decreases |Descending| - k
  {
    if k < |Descending| {
      GreedyNegative(rest, k + 1);
    }
  }

  /** `toReadable(n)` for a negative `n` is `${n}ms`. */
  lemma NegativeIsMilliseconds(n: int)
    requires n < 0
    ensures Readable(n) == IntToString(n) + "ms"
  {
    GreedyNegative(n, 0);
    RenderAllCons(Token(n, Millisecond), []);
  }

  /** Blocks for units longer than what is left take nothing. */
  lemma {:induction false} GreedySkip(rest: int, k: nat, j: nat)
    requires k <= j <= |Descending|
    requires j > k ==> rest < Length(Descending[j - 1])
    ensures Greedy(rest, k) == Greedy(rest, j)
    decreases j - k
  {
    if k < j {
      DescendingRanks(k);
      DescendingRanks(j - 1);
      LengthsIncrease(Descending[k], Descending[j - 1]);
      Skip(rest, k);
      GreedySkip(rest, k + 1, j);
    }
  }

  /** Whole division: a count and a remainder below the divisor determine the quotient. */
  lemma DivisionUnique(rest: int, length: int, q: int, left: int)
    requires 0 <= left < length && rest == q * length + left
    ensures rest / length == q
  {
    var d, r := rest / length, rest % length;
    assert rest == d * length + r && 0 <= r < length;
    assert (q - d) * length == r - left;
    if q - d >= 1 {
      AtLeastOnce(q - d, length);
    } else if d - q >= 1 {
      AtLeastOnce(d - q, length);
    }
  }

  lemma AtLeastOnce(q: int, length: int)
    requires q >= 1 && length >= 1
    ensures q * length >= length
  {
    assert q * length == (q - 1) * length + length;
  }

  /** The block for `u` takes `q` units and leaves `left` when `rest` is `q` of them plus less than one. */
  lemma GreedyTake(rest: int, u: Unit, q: int, left: int)
    requires u != Millisecond && q >= 1 && 0 <= left < Length(u) && rest == Scale(q, u) + left
    ensures Rank(u) < |Descending|
    ensures Greedy(rest, Rank(u)) == [Token(q, u)] + Greedy(left, Rank(u) + 1)
  {
    var length := Length(u);
    DivisionUnique(rest, length, q, left);
    AtLeastOnce(q, length);
    GreedyStep(rest, u);
  }

  /** An exact count of one unit, below one of the unit above it, is written as that single token. */
  lemma ExactMultiple(q: int, u: Unit)
    requires q >= 1 && (u != Year ==> Scale(q, u) < Length(Above(u)))
    ensures Greedy(Scale(q, u), 0) == [Token(q, u)]
  {
    var rest := Scale(q, u);
    if u == Millisecond {
      assert rest == q;
      GreedySkip(rest, 0, |Descending|);
    } else {
      RankPosition(u);
      if u != Year {
        assert Above(u) == Descending[Rank(u) - 1];
      }
      GreedySkip(rest, 0, Rank(u));
      GreedyTake(rest, u, q, 0);
      GreedyZero(Rank(u) + 1);
      assert [Token(q, u)] + [] == [Token(q, u)];
    }
  }

  // ---------------------------------------------------------------- canonical token sequences

  /**
   * Every suffix that starts with a unit other than years stands for less
   * than one of the unit above its first unit, so no block above could
   * have taken any of it.
   */
  predicate SuffixBounded(ts: seq<Token>) {
    forall i | 0 <= i < |ts| :: ts[i].unit != Year ==> Total(ts[i..]) < Length(Above(ts[i].unit))
  }

  /** What `toReadable` writes: units in table order, positive counts, each suffix below the unit above it. */
  predicate Canonical(ts: seq<Token>) {
    InOrder(ts, 0) && Positive(ts) && SuffixBounded(ts)
  }

  lemma ConsSuffixBounded(t: Token, tail: seq<Token>)
    requires t.unit != Year ==> Total([t] + tail) < Length(Above(t.unit))
    requires SuffixBounded(tail)
    ensures SuffixBounded([t] + tail)
  {
    forall i | 1 <= i < |tail| + 1
      ensures ([t] + tail)[i..] == tail[i - 1..]
    {
    }
  }

  /** The remainder bound, stated for every suffix. */
  lemma {:induction false} GreedySuffixBounded(rest: int, k: nat)
    requires k <= |Descending| && rest >= 0
    requires k > 0 ==> rest < Length(Descending[k - 1])
    ensures SuffixBounded(Greedy(rest, k))
    decreases |Descending| - k
  {
    if k == |Descending| {
      LeftoverBounded(rest);
    } else if rest >= Length(Descending[k]) {
      var q, left := Cut(rest, k);
      GreedySuffixBounded(left, k + 1);
      TakenBounded(rest, k, Token(q, Descending[k]), Greedy(left, k + 1));
    } else {
      Skip(rest, k);
      GreedySuffixBounded(rest, k + 1);
    }
  }

  /** The millisecond token left after the last block is below one second. */
  lemma LeftoverBounded(rest: int)
    requires 0 <= rest < SECOND
    ensures SuffixBounded(Greedy(rest, |Descending|))
  {
    if rest != 0 {
      TotalCons(Token(rest, Millisecond), []);
      ConsSuffixBounded(Token(rest, Millisecond), []);
    }
  }

  /** A block's token in front of a bounded rest keeps the whole bounded by the block before it. */
  lemma TakenBounded(rest: int, k: nat, t: Token, tail: seq<Token>)
    requires k < |Descending| && t.unit == Descending[k]
    requires k > 0 ==> rest < Length(Descending[k - 1])
    requires Greedy(rest, k) == [t] + tail && SuffixBounded(tail)
    ensures SuffixBounded([t] + tail)
  {
    DescendingRanks(k);
    GreedyTotal(rest, k);
    ConsSuffixBounded(t, tail);
  }

  /** For a non-negative number, `toReadable` writes a canonical sequence of tokens. */
  lemma GreedyCanonical(n: int)
    requires n >= 0
    ensures Canonical(Greedy(n, 0))
  {
    GreedyOrdered(n, 0);
    GreedyPositive(n, 0);
    GreedySuffixBounded(n, 0);
  }

  /** Tokens with positive counts stand for a positive total, or zero when there are none. */
  lemma {:induction false} PositiveTotal(ts: seq<Token>)
    requires Positive(ts)
    ensures Total(ts) >= 0 && (ts != [] ==> Total(ts) > 0)
    decreases |ts|
  {
    if ts != [] {
      assert Positive(ts[1..]) by {
        assert forall i | 0 <= i < |ts[1..]| :: ts[1..][i] == ts[i + 1];
      }
      PositiveTotal(ts[1..]);
      AtLeastOnce(ts[0].quantity, Length(ts[0].unit));
    }
  }

  /** The tail of a canonical sequence from rank `k` is canonical from the next rank of its head. */
  lemma CanonicalTail(ts: seq<Token>, k: nat)
    requires ts != [] && InOrder(ts, k) && Positive(ts) && SuffixBounded(ts)
    ensures InOrder(ts[1..], Rank(ts[0].unit) + 1) && Positive(ts[1..]) && SuffixBounded(ts[1..])
  {
    var tail := ts[1..];
    forall i | 0 <= i < |tail|
      ensures tail[i] == ts[i + 1] && tail[i..] == ts[i + 1..]
    {
    }
  }

  /** The total of a canonical tail is below the unit of the token in front of it. */
  lemma TailBelow(u: Unit, tail: seq<Token>)
    requires InOrder(tail, Rank(u) + 1) && Positive(tail) && SuffixBounded(tail)
    ensures 0 <= Total(tail) < Length(u)
  {
    PositiveTotal(tail);
    if tail != [] {
      var v := tail[0].unit;
      assert tail[0..] == tail;
      LengthsIncrease(u, Above(v));
    }
  }

  /** No unit comes after the millisecond. */
  lemma HighestRank(u: Unit)
    ensures Rank(u) <= Rank(Millisecond)
  {
  }

  /** A canonical millisecond token comes last and alone is written back as itself. */
  lemma LastToken(ts: seq<Token>, k: nat)
    requires k <= |Descending| && ts != [] && ts[0].unit == Millisecond
    requires InOrder(ts, k) && Positive(ts) && SuffixBounded(ts)
    ensures ts == [ts[0]] && Greedy(Total(ts), k) == ts
  {
    if |ts| > 1 {
      HighestRank(ts[1].unit);
      assert false;
    }
    assert ts[0..] == ts;
    TotalCons(ts[0], []);
    DescendingRanks(|Descending| - 1);
    GreedySkip(Total(ts), k, |Descending|);
  }

  /**
   * Canonical tokens are what `toReadable` writes for their total: from rank
   * `k`, with a total below the unit before `Descending[k]`, the
   * decomposition gives the tokens back.
   */
  lemma {:induction false} GreedyOfCanonical(ts: seq<Token>, k: nat)
    requires k <= |Descending| && InOrder(ts, k) && Positive(ts) && SuffixBounded(ts)
    requires k > 0 ==> Total(ts) < Length(Descending[k - 1])
    ensures Greedy(Total(ts), k) == ts
    decreases |ts|
  {
    if ts == [] {
      GreedyZero(k);
    } else {
      var t, tail := ts[0], ts[1..];
      var u := t.unit;
      assert ts == [t] + tail;
      TotalCons(t, tail);
      CanonicalTail(ts, k);
      assert ts[0..] == ts;
      if u == Millisecond {
        LastToken(ts, k);
      } else {
        RankPosition(u);
        if Rank(u) > k {
          assert Above(u) == Descending[Rank(u) - 1];
        }
        GreedySkip(Total(ts), k, Rank(u));
        TailBelow(u, tail);
        GreedyTake(Total(ts), u, t.quantity, Total(tail));
        GreedyOfCanonical(tail, Rank(u) + 1);
      }
    }
  }

  /** Uniqueness: the only canonical tokens for `n` are those `toReadable` writes. */
  lemma CanonicalUnique(ts: seq<Token>)
    requires Canonical(ts)
    ensures Greedy(Total(ts), 0) == ts
  {
    GreedyOfCanonical(ts, 0);
  }

  // ---------------------------------------------------------------- documented cases

  /** One token is written without a separator. */
  lemma SpellOne(t: Token)
    ensures Spell([t]) == Render(t)
  {
  }

  /** 60000 is "1m": the largest unit that fits is used. */
  lemma OneMinute()
    ensures Readable(60000) == "1m"
  {
    ExactMultiple(1, Minute);
    SpellOne(Token(1, Minute));
    SingleTexts();
  }

  /** Two years are "2y": an exact multiple is one token. */
  lemma TwoYears()
    ensures Readable(1000 * 60 * 60 * 24 * 365 * 2) == "2y"
  {
    ExactMultiple(2, Year);
    SpellOne(Token(2, Year));
    SingleTexts();
  }

  lemma FromSecondList()
    ensures [Token(7, Second)] + [Token(8, Millisecond)] == [Token(7, Second), Token(8, Millisecond)]
  {
  }

  lemma FromMinuteList()
    ensures [Token(6, Minute)] + [Token(7, Second), Token(8, Millisecond)] == [Token(6, Minute), Token(7, Second), Token(8, Millisecond)]
  {
  }

  lemma FromHourList()
    ensures [Token(5, Hour)] + [Token(6, Minute), Token(7, Second), Token(8, Millisecond)] == [Token(5, Hour), Token(6, Minute), Token(7, Second), Token(8, Millisecond)]
  {
  }

  lemma FromDayList()
    ensures [Token(4, Day)] + [Token(5, Hour), Token(6, Minute), Token(7, Second), Token(8, Millisecond)] == [Token(4, Day), Token(5, Hour), Token(6, Minute), Token(7, Second), Token(8, Millisecond)]
  {
  }

  lemma FromWeekList()
    ensures [Token(3, Week)] + [Token(4, Day), Token(5, Hour), Token(6, Minute), Token(7, Second), Token(8, Millisecond)] == [Token(3, Week), Token(4, Day), Token(5, Hour), Token(6, Minute), Token(7, Second), Token(8, Millisecond)]
  {
  }

  lemma FromMonthList()
    ensures [Token(2, Month)] + [Token(3, Week), Token(4, Day), Token(5, Hour), Token(6, Minute), Token(7, Second), Token(8, Millisecond)] == [Token(2, Month), Token(3, Week), Token(4, Day), Token(5, Hour), Token(6, Minute), Token(7, Second), Token(8, Millisecond)]
  {
  }

  lemma FromYearList()
    ensures [Token(1, Year)] + [Token(2, Month), Token(3, Week), Token(4, Day), Token(5, Hour), Token(6, Minute), Token(7, Second), Token(8, Millisecond)] == [Token(1, Year), Token(2, Month), Token(3, Week), Token(4, Day), Token(5, Hour), Token(6, Minute), Token(7, Second), Token(8, Millisecond)]
  {
  }

  lemma MillisecondsLeft()
    ensures Greedy(8, 7) == [Token(8, Millisecond)]
  {
  }

  lemma FromSecond()
    ensures Greedy(7008, 6) == [Token(7, Second), Token(8, Millisecond)]
  {
    GreedyTake(7008, Second, 7, 8);
    MillisecondsLeft();
    FromSecondList();
  }

  lemma FromMinute()
    ensures Greedy(367008, 5) == [Token(6, Minute), Token(7, Second), Token(8, Millisecond)]
  {
    GreedyTake(367008, Minute, 6, 7008);
    FromSecond();
    FromMinuteList();
  }

  lemma FromHour()
    ensures Greedy(18367008, 4) == [Token(5, Hour), Token(6, Minute), Token(7, Second), Token(8, Millisecond)]
  {
    GreedyTake(18367008, Hour, 5, 367008);
    FromMinute();
    FromHourList();
  }

  lemma FromDay()
    ensures Greedy(363967008, 3) == [Token(4, Day), Token(5, Hour), Token(6, Minute), Token(7, Second), Token(8, Millisecond)]
  {
    GreedyTake(363967008, Day, 4, 18367008);
    FromHour();
    FromDayList();
  }

  lemma FromWeek()
    ensures Greedy(2178367008, 2) == [Token(3, Week), Token(4, Day), Token(5, Hour), Token(6, Minute), Token(7, Second), Token(8, Millisecond)]
  {
    GreedyTake(2178367008, Week, 3, 363967008);
    FromDay();
    FromWeekList();
  }

  lemma FromMonth()
    ensures Greedy(7362367008, 1) == [Token(2, Month), Token(3, Week), Token(4, Day), Token(5, Hour), Token(6, Minute), Token(7, Second), Token(8, Millisecond)]
  {
    GreedyTake(7362367008, Month, 2, 2178367008);
    FromWeek();
    FromMonthList();
  }

  /** The decomposition of 38898367008, one block at a time. */
  lemma FromYear()
    ensures Greedy(38898367008, 0) == [Token(1, Year), Token(2, Month), Token(3, Week), Token(4, Day), Token(5, Hour), Token(6, Minute), Token(7, Second), Token(8, Millisecond)]
  {
    GreedyTake(38898367008, Year, 1, 7362367008);
    FromMonth();
    FromYearList();
  }

  /** 38898367008 is "1y 2mo 3w 4d 5h 6m 7s 8ms": every unit once, in table order. */
  lemma AllUnitsReadable()
    ensures Readable(38898367008) == "1y 2mo 3w 4d 5h 6m 7s 8ms"
  {
    FromYear();
    AllUnitsTokens();
    AllUnitsText();
  }

  lemma LongNumeral()
    ensures IntToString(38898367008) == "38898367008"
  {
    NatToStringDigit(3, 8);
    NatToStringDigit(38, 8);
    NatToStringDigit(388, 9);
    NatToStringDigit(3889, 8);
    NatToStringDigit(38898, 3);
    NatToStringDigit(388983, 6);
    NatToStringDigit(3889836, 7);
    NatToStringDigit(38898367, 0);
    NatToStringDigit(388983670, 0);
    NatToStringDigit(3889836700, 8);
  }

  /** The numeric string "38898367008" is read as the number, so it is written like the number. */
  lemma NumericStringInput()
    ensures NumberValue(Str("38898367008")) == Some(38898367008)
    ensures Readable(NumberValue(Str("38898367008")).value) == "1y 2mo 3w 4d 5h 6m 7s 8ms"
  {
    LongNumeral();
    ToNumberOfInt(38898367008);
    AllUnitsReadable();
  }
}
