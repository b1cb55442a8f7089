/** The few pieces of JavaScript that several modules use. */
module JavaScript {
  datatype Option<T> = None | Some(value: T)

  /** A number as `parseInt` gives it. Every comparison with NaN is false. */
  datatype Num = Number(n: int) | NaN

  // `toUpperCase` on ASCII letters.

  function UpperChar(c: char): char {
    if 'a' <= c <= 'z' then c - 'a' + 'A' else c
  }

  function Upper(s: string): (r: string)
    ensures |r| == |s|
    ensures forall k :: 0 <= k < |s| ==> r[k] == UpperChar(s[k])
  {
    if s == "" then "" else [UpperChar(s[0])] + Upper(s[1..])
  }

  predicate IsDigit(c: char) {
    '0' <= c <= '9'
  }

  function Digits(s: string, value: nat): nat {
    if s == "" || !IsDigit(s[0]) then value else Digits(s[1..], 10 * value + (s[0] - '0') as nat)
  }

  function Unsigned(s: string): Num {
    if s == "" || !IsDigit(s[0]) then NaN else Number(Digits(s, 0))
  }

  /** The base-10 `parseInt`. */
  function ParseInt(s: string): Num {
    if s == "" then NaN
    else if s[0] in " \t\r\n" then ParseInt(s[1..])
    else if s[0] == '+' then Unsigned(s[1..])
    else if s[0] == '-' then
      var u := Unsigned(s[1..]);
      if u.NaN? then NaN else Number(-u.n)
    else Unsigned(s)
  }

  // Sizes of sets.

  ghost function Pick<T>(a: set<T>): (x: T)
    requires a != {}
    ensures x in a
  {
    var x :| x in a;
    x
  }

  lemma {:induction false} SubsetSize<T>(a: set<T>, b: set<T>)
    requires a <= b
    ensures |a| <= |b| && (|a| == |b| <==> a == b)
    decreases a
  {
    if a != {} {
      var x := Pick(a);
      SubsetSize(a - {x}, b - {x});
      if |a| == |b| {
        assert b == (b - {x}) + {x};
      }
    } else if |b| == 0 {
      assert b == {};
    }
  }
}
