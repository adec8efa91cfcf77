/**
 * The formatter and the parser of lib/ against each other: parsing what
 * `toReadable` writes gives the number back, and formatting the total of a
 * canonical phrase gives the phrase back.
 */
module RoundTrip {
  import opened Wrappers
  import opened Strings
  import opened Values
  import opened Tokens
  import opened Parser
  import opened Formatter

  /** `toMilliseconds(toReadable(n)) == n` for every integer `n`, zero and negatives included. */
  lemma RoundTrip(n: int)
    ensures ToMilliseconds(Str(Readable(n))) == Ok(n)
  {
    if n == 0 {
      ZeroIsEmpty();
      BlankIsZero("");
    } else {
      var ts := Greedy(n, 0);
      Conservation(n);
      assert ts != [];
      ParsePhrase(ts);
    }
  }

  /** The same through the value-level entry points: a numeric argument survives formatting and parsing. */
  lemma ValueRoundTrip(v: Value)
    requires NumberValue(v).Some?
    ensures ToMilliseconds(Str(Readable(NumberValue(v).value))) == ToMilliseconds(v)
  {
    RoundTrip(NumberValue(v).value);
  }

  /** `toReadable(toMilliseconds(s)) == s` for a canonical phrase `s`. */
  lemma CanonicalRoundTrip(ts: seq<Token>)
    requires ts != [] && Canonical(ts)
    ensures ToMilliseconds(Str(Spell(ts))) == Ok(Total(ts))
    ensures Readable(Total(ts)) == Spell(ts)
  {
    ParsePhrase(ts);
    CanonicalUnique(ts);
  }
}
