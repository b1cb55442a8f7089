/** `parseInt` and `toUpperCase` told piece by piece. */
module JavaScriptRules {
  import opened JavaScript

  lemma UpperMeans(c: char)
    ensures 'a' <= c <= 'z' ==> UpperChar(c) as int == c as int - 32
    ensures !('a' <= c <= 'z') ==> UpperChar(c) == c
  {
  }

  /** Leading whitespace is skipped. */
  lemma SpacesParse(c: char, s: string)
    requires c == ' ' || c == '\t' || c == '\r' || c == '\n'
    ensures ParseInt([c] + s) == ParseInt(s)
  {
    var t := [c] + s;
    assert t[0] == c && t[1..] == s;
  }

  predicate StartsWithDigit(s: string) {
    s != "" && '0' <= s[0] <= '9'
  }

  /** Digits are a number, also behind a sign. */
  lemma SignsParse(s: string)
    ensures StartsWithDigit(s) ==> ParseInt(s) == Number(Digits(s, 0))
    ensures ParseInt("+" + s) == if StartsWithDigit(s) then Number(Digits(s, 0)) else NaN
    ensures ParseInt("-" + s) == if StartsWithDigit(s) then Number(0 - Digits(s, 0)) else NaN
  {
    hide Digits;
    var p, m := "+" + s, "-" + s;
    assert p[0] == '+' && p[1..] == s;
    assert m[0] == '-' && m[1..] == s;
  }

  /** Nothing else is. */
  lemma OthersParse(s: string)
    requires s == "" || (!StartsWithDigit(s) && s[0] !in " \t\r\n+-")
    ensures ParseInt(s) == NaN
  {
    hide Digits;
  }

  /** Digits count in tens up to the first other character. */
  lemma DigitsMean(c: char, s: string, value: nat)
    ensures Digits("", value) == value
    ensures '0' <= c <= '9' ==> Digits([c] + s, value) == Digits(s, 10 * value + (c as int - '0' as int))
    ensures !('0' <= c <= '9') ==> Digits([c] + s, value) == value
  {
    assert ([c] + s)[1..] == s;
  }
}
