/** Concrete token texts: the documented example "1y 2mo 3w 4d 5h 6m 7s 8ms" and its parts. */
module TokenExamples {
  import opened Strings
  import opened Times
  import opened Tokens

  lemma SmallNumerals()
    ensures IntToString(1) == "1" && IntToString(2) == "2" && IntToString(3) == "3" && IntToString(4) == "4"
    ensures IntToString(5) == "5" && IntToString(6) == "6" && IntToString(7) == "7" && IntToString(8) == "8"
  {
  }

  lemma ExampleTexts()
    ensures Render(Token(1, Year)) == "1y" && Render(Token(2, Month)) == "2mo" && Render(Token(3, Week)) == "3w"
    ensures Render(Token(4, Day)) == "4d" && Render(Token(5, Hour)) == "5h" && Render(Token(6, Minute)) == "6m"
    ensures Render(Token(7, Second)) == "7s" && Render(Token(8, Millisecond)) == "8ms"
    ensures Render(Token(1, Day)) == "1d" && Render(Token(1, Week)) == "1w" && Render(Token(2, Week)) == "2w"
  {
    SmallNumerals();
  }

  lemma LargeUnitsText()
    ensures Join(["1y", "2mo", "3w", "4d"], " ") == "1y 2mo 3w 4d"
  {
  }

  lemma SmallUnitsText()
    ensures Join(["5h", "6m", "7s", "8ms"], " ") == "5h 6m 7s 8ms"
  {
  }

  lemma UnitsConcat()
    ensures ["1y", "2mo", "3w", "4d"] + ["5h", "6m", "7s", "8ms"] == ["1y", "2mo", "3w", "4d", "5h", "6m", "7s", "8ms"]
    ensures "1y 2mo 3w 4d" + " " + "5h 6m 7s 8ms" == "1y 2mo 3w 4d 5h 6m 7s 8ms"
  {
  }

  /** Two joined runs of words, joined once more, are the join of all the words. */
  lemma JoinTwoRuns(a: seq<string>, b: seq<string>, all: seq<string>, x: string, y: string, z: string)
    requires a != [] && b != [] && a + b == all
    requires Join(a, " ") == x && Join(b, " ") == y && x + " " + y == z
    ensures Join(all, " ") == z
  {
    JoinAppend(a, b, " ");
  }

  lemma AllUnitsText()
    ensures Join(["1y", "2mo", "3w", "4d", "5h", "6m", "7s", "8ms"], " ") == "1y 2mo 3w 4d 5h 6m 7s 8ms"
  {
    LargeUnitsText();
    SmallUnitsText();
    UnitsConcat();
    JoinTwoRuns(["1y", "2mo", "3w", "4d"], ["5h", "6m", "7s", "8ms"], ["1y", "2mo", "3w", "4d", "5h", "6m", "7s", "8ms"],
                "1y 2mo 3w 4d", "5h 6m 7s 8ms", "1y 2mo 3w 4d 5h 6m 7s 8ms");
  }

  lemma AllUnitsTokens()
    ensures RenderAll([Token(1, Year), Token(2, Month), Token(3, Week), Token(4, Day),
                       Token(5, Hour), Token(6, Minute), Token(7, Second), Token(8, Millisecond)])
      == ["1y", "2mo", "3w", "4d", "5h", "6m", "7s", "8ms"]
    ensures Total([Token(1, Year), Token(2, Month), Token(3, Week), Token(4, Day),
                   Token(5, Hour), Token(6, Minute), Token(7, Second), Token(8, Millisecond)]) == 38898367008
  {
    ExampleTexts();
    RenderAllOf([Token(1, Year), Token(2, Month), Token(3, Week), Token(4, Day),
                 Token(5, Hour), Token(6, Minute), Token(7, Second), Token(8, Millisecond)],
                ["1y", "2mo", "3w", "4d", "5h", "6m", "7s", "8ms"]);
  }

  lemma SingleTexts()
    ensures Render(Token(1, Minute)) == "1m" && Render(Token(2, Year)) == "2y"
  {
    SmallNumerals();
  }
}
