/** Completing a typed nick from the nicks on a channel. */
module NickCompletion {
  import opened JavaScript

  lemma UpperPrefix(s: string, j: nat)
    requires j <= |s|
    ensures Upper(s[..j]) == Upper(s)[..j]
  {
  }

  /** The nick begins with the typed text, up to case. */
  predicate Extends(nick: string, part: string) {
    Upper(part) <= Upper(nick)
  }

  /** The nicks that extend `part`, in order. */
  function Matching(nicks: seq<string>, part: string): seq<string> {
    if nicks == [] then []
    else
      var n := |nicks| - 1;
      Matching(nicks[..n], part) + if Extends(nicks[n], part) then [nicks[n]] else []
  }

  /** Up to case a beginning of all of them. */
  predicate Common(p: string, nicks: seq<string>) {
    forall k :: 0 <= k < |nicks| ==> Extends(nicks[k], p)
  }

  /** The longest common prefix up to case. */
  ghost predicate Longest(p: string, nicks: seq<string>) {
    Common(p, nicks) && forall q :: Common(q, nicks) ==> Upper(q) <= Upper(p)
  }

  lemma {:induction false} MatchingMeans(nicks: seq<string>, part: string)
    ensures forall x :: x in Matching(nicks, part) <==> x in nicks && Extends(x, part)
    ensures Common(part, Matching(nicks, part))
  {
    if nicks != [] {
      var n := |nicks| - 1;
      MatchingMeans(nicks[..n], part);
      assert nicks == nicks[..n] + [nicks[n]];
    }
  }

  lemma LongestOne(nick: string)
    ensures Longest(nick, [nick])
  {
    forall q | Common(q, [nick]) ensures Upper(q) <= Upper(nick) {
      assert Extends([nick][0], q);
    }
  }

  lemma PrefixOfBoth(q: string, a: string, b: string, j: nat)
    requires q <= a && q <= b && j <= |a| && j <= |b| && a[..j] == b[..j]
    requires j == |a| || j == |b| || a[j] != b[j]
    ensures q <= b[..j]
  {
  }

  /** Narrowing to what one more nick shares. */
  lemma LongestMore(p: string, nicks: seq<string>, nick: string, j: nat)
    requires Longest(p, nicks) && j <= |nick| && j <= |p|
    requires Upper(p)[..j] == Upper(nick)[..j]
    requires j == |nick| || j == |p| || Upper(p)[j] != Upper(nick)[j]
    ensures Longest(nick[..j], nicks + [nick])
  {
    var more := nicks + [nick];
    UpperPrefix(nick, j);
    forall k | 0 <= k < |more| ensures Extends(more[k], nick[..j]) {
      if k < |nicks| {
        assert more[k] == nicks[k] && Extends(nicks[k], p);
      }
    }
    forall q | Common(q, more) ensures Upper(q) <= Upper(nick[..j]) {
      forall k | 0 <= k < |nicks| ensures Extends(nicks[k], q) {
        assert Extends(more[k], q);
      }
      assert Common(q, nicks);
      assert Extends(more[|nicks|], q);
      assert Upper(q) <= Upper(p) && Upper(q) <= Upper(nick);
      PrefixOfBoth(Upper(q), Upper(p), Upper(nick), j);
    }
  }

  /** The longest common prefix is one string up to case, so it decides when the text is ambiguous. */
  lemma LongestUnique(p: string, q: string, nicks: seq<string>)
    requires Longest(p, nicks) && Longest(q, nicks)
    ensures Upper(p) == Upper(q)
  {
    assert Upper(p) <= Upper(q) && Upper(q) <= Upper(p);
  }

  /** What the loop has found: the last match cut down to what all matches share. */
  ghost predicate Found(found: seq<string>, part: string, matched: string, nickVar: string, count: nat) {
    && count == |found|
    && (found == [] ==> matched == "")
    && (found != [] ==>
          && matched == Upper(nickVar)
          && Longest(nickVar, found) && nickVar <= found[|found| - 1] && Extends(nickVar, part))
  }

  class Channel {
    var nick: seq<string>

    method MatchNick(part: string) returns (r: Option<string>)
      ensures var found := Matching(nick, part);
              r.None? <==> part == "" || found == [] || (|found| > 1 && Longest(part, found))
      ensures r.Some? ==> var found := Matching(nick, part);
                          Longest(r.value, found) && r.value <= found[|found| - 1] && Extends(r.value, part)
    {
      hide Longest, Upper, Extends, Found, Matching;
      if part == "" {
        return None;
      }
      var partial := Upper(part);
      var matched, nickVar, count := "", "", 0;
      Nothing(part);
      assert nick[..0] == [];
      for i := 0 to |nick|
        invariant Found(Matching(nick[..i], part), part, matched, nickVar, count)
      {
        ghost var before, shared := Matching(nick[..i], part), nickVar;
        MatchingSnoc(nick, part, i);
        var name := nick[i];
        ExtendsPrefix(name, part);
        if partial == Upper(if |part| <= |name| then name[..|part|] else name) {
          nickVar := name;
          count := count + 1;
          if matched == "" {
            FirstFound(before, part, matched, shared, count - 1, name);
            matched := Upper(nickVar);
          } else {
            nickVar := if |matched| <= |nickVar| then nickVar[..|matched|] else nickVar;
            var j := |nickVar|;
            ghost var cut := nickVar;
            SharedPart(before, part, matched, shared, count - 1, name, cut);
            while matched[..j] != Upper(nickVar[..j])
              invariant |part| <= j <= |cut|
              invariant j < |cut| ==> matched[..j + 1] != Upper(cut[..j + 1])
              decreases j
            {
              j := j - 1;
            }
            MoreFound(before, part, matched, shared, count - 1, name, cut, j);
            nickVar := nickVar[..j];
            matched := Upper(nickVar);
          }
        }
      }
      assert nick[..|nick|] == nick;
      Decide(Matching(nick, part), part, matched, nickVar, count);
      if count < 1 {
        return None;
      }
      if count > 1 && |matched| == |partial| {
        return None;
      }
      return Some(nickVar);
    }
  }

  lemma Nothing(part: string)
    ensures Found(Matching([], part), part, "", "", 0)
  {
  }

  lemma MatchingSnoc(nicks: seq<string>, part: string, i: nat)
    requires i < |nicks|
    ensures Matching(nicks[..i + 1], part)
            == if Extends(nicks[i], part) then Matching(nicks[..i], part) + [nicks[i]] else Matching(nicks[..i], part)
  {
    assert nicks[..i + 1][..i] == nicks[..i];
  }

  lemma ExtendsPrefix(name: string, part: string)
    ensures Extends(name, part) <==> Upper(part) == Upper(if |part| <= |name| then name[..|part|] else name)
  {
    if |part| <= |name| {
      UpperPrefix(name, |part|);
    }
  }

  lemma FirstFound(before: seq<string>, part: string, matched: string, shared: string, count: nat,
                                      name: string)
    requires Found(before, part, matched, shared, count) && matched == "" && part != "" && Extends(name, part)
    ensures Found(before + [name], part, Upper(name), name, count + 1)
  {
    assert before == [];
    assert before + [name] == [name];
    LongestOne(name);
  }

  lemma SharedPart(before: seq<string>, part: string, matched: string, shared: string, count: nat,
                                      name: string, cut: string)
    requires Found(before, part, matched, shared, count) && matched != "" && Extends(name, part)
    requires cut == if |matched| <= |name| then name[..|matched|] else name
    ensures |part| <= |cut| <= |matched| && matched[..|part|] == Upper(cut[..|part|])
  {
    hide Longest;
    UpperPrefix(name, |part|);
    assert cut[..|part|] == name[..|part|];
    assert Upper(part) == Upper(shared)[..|part|] == Upper(name)[..|part|];
  }

  lemma MoreFound(before: seq<string>, part: string, matched: string, shared: string, count: nat,
                                     name: string, cut: string, j: nat)
    requires Found(before, part, matched, shared, count) && matched != "" && Extends(name, part)
    requires cut == if |matched| <= |name| then name[..|matched|] else name
    requires |part| <= j <= |cut| <= |matched| && matched[..j] == Upper(cut[..j])
    requires j < |cut| ==> matched[..j + 1] != Upper(cut[..j + 1])
    ensures Found(before + [name], part, Upper(cut[..j]), cut[..j], count + 1)
  {
    hide Longest, Upper, Extends;
    assert cut[..j] == name[..j];
    UpperPrefix(name, j);
    if j < |cut| {
      UpperPrefix(name, j + 1);
      assert cut[..j + 1] == name[..j + 1];
      NextDiffers(matched, Upper(name), j);
    }
    LongestMore(shared, before, name, j);
    ExtendsShorter(name, cut[..j], part);
  }

  lemma NextDiffers(a: string, b: string, j: nat)
    requires j < |a| && j < |b| && a[..j] == b[..j] && a[..j + 1] != b[..j + 1]
    ensures a[j] != b[j]
  {
    assert a[..j + 1] == a[..j] + [a[j]] && b[..j + 1] == b[..j] + [b[j]];
  }

  lemma ExtendsShorter(name: string, p: string, part: string)
    requires p <= name && |part| <= |p| && Extends(name, part)
    ensures Extends(p, part)
  {
    UpperPrefix(name, |p|);
  }

  lemma Decide(found: seq<string>, part: string, matched: string, p: string, count: nat)
    requires Found(found, part, matched, p, count)
    ensures count == |found|
    ensures found != [] ==>
              && Longest(p, found) && p <= found[|found| - 1] && Extends(p, part)
              && (|matched| == |Upper(part)| <==> Longest(part, found))
  {
    if found != [] {
      if |p| == |part| {
        assert Upper(p) == Upper(part);
        forall k | 0 <= k < |found| ensures Extends(found[k], part) {
          assert Extends(found[k], p);
        }
      } else if Longest(part, found) {
        LongestUnique(p, part, found);
      }
    }
  }

  /** Matching nicks keep their order. */
  lemma MatchingNext(nicks: seq<string>, part: string, nick: string)
    ensures Matching([], part) == []
    ensures Matching(nicks + [nick], part)
         == Matching(nicks, part)
            + if |part| <= |nick| && Upper(nick[..|part|]) == Upper(part) then [nick] else []
  {
    assert (nicks + [nick])[..|nicks|] == nicks;
    ExtendsPrefix(nick, part);
    if |part| <= |nick| {
      UpperPrefix(nick, |part|);
    }
  }
}
