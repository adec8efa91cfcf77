/**
 * The earlier toReadable.js at the top of the repository: the library's
 * block-by-block formatter, except that a value that is not numeric gives
 * `null` instead of an exception. Written beside the earlier parser, its
 * millisecond token is something that parser cannot read.
 */
module LegacyFormatter {
  import opened Wrappers
  import opened Strings
  import opened Times
  import opened Values
  import opened Tokens
  import opened Formatter
  import LegacyParser
  import Parser

  /** toReadable: null when the value is not numeric, otherwise the phrase the blocks write. */
  method ToReadableOrNull(v: Value) returns (r: Option<string>)
    ensures NumberValue(v).None? ==> r == None
    ensures NumberValue(v).Some? ==> r == Some(Readable(NumberValue(v).value))
  {
    if NumberValue(v).None? {
      return None;
    }
    var s := Format(NumberValue(v).value);
    return Some(s);
  }

  // ---------------------------------------------------------------- the millisecond token

  /** Some token is a millisecond token. */
  predicate HasMilliseconds(ts: seq<Token>) {
    exists i | 0 <= i < |ts| :: ts[i].unit == Millisecond
  }

  lemma ConsHasMilliseconds(t: Token, ts: seq<Token>)
    ensures HasMilliseconds([t] + ts) <==> t.unit == Millisecond || HasMilliseconds(ts)
  {
    assert ([t] + ts)[0] == t;
    if HasMilliseconds(ts) {
      var i :| 0 <= i < |ts| && ts[i].unit == Millisecond;
      assert ([t] + ts)[i + 1] == ts[i];
    }
    if HasMilliseconds([t] + ts) && t.unit != Millisecond {
      var i :| 0 <= i < |ts| + 1 && ([t] + ts)[i].unit == Millisecond;
      assert ts[i - 1] == ([t] + ts)[i];
    }
  }

  /** Any number of a unit above the millisecond is a whole number of seconds. */
  lemma WholeSeconds(q: int, u: Unit)
    requires u != Millisecond
    ensures Scale(q, u) % 1000 == 0
  {
    UnitValues();
    match u
    case Year => assert Scale(q, u) == 1000 * (31536000 * q);
    case Month => assert Scale(q, u) == 1000 * (2592000 * q);
    case Week => assert Scale(q, u) == 1000 * (604800 * q);
    case Day => assert Scale(q, u) == 1000 * (86400 * q);
    case Hour => assert Scale(q, u) == 1000 * (3600 * q);
    case Minute => assert Scale(q, u) == 1000 * (60 * q);
    case Second => assert Scale(q, u) == 1000 * q;
  }

  /** Taking away whole seconds leaves the milliseconds past the last second unchanged. */
  lemma DropSeconds(x: int, a: int)
    requires a % 1000 == 0
    ensures (x - a) % 1000 == x % 1000
  {
    var m := a / 1000;
    assert a == 1000 * m;
    var r := x % 1000;
    assert x == 1000 * (x / 1000) + r;
    assert x - a == 1000 * (x / 1000 - m) + r;
  }

  /**
   * From any block on, with what is left below the block before it, a
   * millisecond token is written exactly when what is left is not a whole
   * number of seconds.
   */
  lemma {:induction false} GreedyMilliseconds(rest: int, k: nat)
    requires k <= |Descending| && rest >= 0
    requires k > 0 ==> rest < Length(Descending[k - 1])
    ensures HasMilliseconds(Greedy(rest, k)) <==> rest % 1000 != 0
    decreases |Descending| - k
  {
    if k == |Descending| {
      if rest != 0 {
        assert Greedy(rest, k)[0].unit == Millisecond;
      }
    } else if rest >= Length(Descending[k]) {
      var q, left := Cut(rest, k);
      DescendingRanks(k);
      WholeSeconds(q, Descending[k]);
      DropSeconds(rest, Scale(q, Descending[k]));
      GreedyMilliseconds(left, k + 1);
      ConsHasMilliseconds(Token(q, Descending[k]), Greedy(left, k + 1));
    } else {
      Skip(rest, k);
      GreedyMilliseconds(rest, k + 1);
    }
  }

  /**
   * The earlier formatter and parser round-trip only whole numbers of
   * seconds: any other count is written with a millisecond token, which the
   * parser reads as null, and so is every negative count.
   */
  lemma LegacyRoundTrip(n: int)
    ensures LegacyParser.ToMilliseconds(Str(Readable(n))) == if n >= 0 && n % 1000 == 0 then Some(n) else None
  {
    var ts := Greedy(n, 0);
    if n == 0 {
      ZeroIsEmpty();
      Parser.EmptyIsZero();
    } else if n < 0 {
      GreedyNegative(n, 0);
      LegacyParser.RejectsMilliseconds(ts, 0);
    } else {
      Conservation(n);
      GreedyMilliseconds(n, 0);
      if HasMilliseconds(ts) {
        var i :| 0 <= i < |ts| && ts[i].unit == Millisecond;
        LegacyParser.RejectsMilliseconds(ts, i);
      } else {
        LegacyParser.ParsesSpell(ts);
      }
    }
  }

  /** One millisecond is written "1ms", which the earlier parser cannot read. */
  lemma OneMillisecond()
    ensures Readable(1) == "1ms"
    ensures LegacyParser.ToMilliseconds(Str(Readable(1))) == None
  {
    LegacyRoundTrip(1);
    OneMillisecondText();
  }

  lemma OneMillisecondText()
    ensures Readable(1) == "1ms"
  {
    GreedySkip(1, 0, |Descending|);
    RenderAllCons(Token(1, Millisecond), []);
  }
}
