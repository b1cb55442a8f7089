/** User modes: reading a mode string, changing the modes, and announcing the change. */
module UserModes {
  // The letters in the order in which changes are announced.
  const LETTERS := "oiwbgscrkfydnhFA"

  // The letters other servers are told about.
  const BROADCAST: set<char> := {'o', 'i', 'h', 'A'}

  // What decides on a client's requests: its operator flags, and for a client behind another server
  // whether that server is a hub.
  datatype Rights = Rights(canC: bool, admin: bool, remote: bool, hub: bool)

  predicate Known(c: char) {
    c in "iwskgbrfydnocA+-"
  }

  /** A request for a letter that is heard, when the client's modes are `mode`. */
  predicate Allowed(r: Rights, mode: set<char>, c: char, add: bool) {
    if c in "iwskg" then true
    else if c in "brfydn" then 'o' in mode
    else if c == 'o' then !add || (r.remote && r.hub)
    else if c == 'c' then 'o' in mode && r.canC
    else if c == 'A' then ('o' in mode && r.admin) || (r.remote && r.hub)
    else false
  }

  // The sign in force and the letters to set and to clear.
  datatype Request = Request(add: bool, adds: set<char>, dels: set<char>)

  const NOTHING := Request(true, {}, {})

  function Heard(r: Rights, mode: set<char>, u: Request, c: char): Request {
    if c == '+' then u.(add := true)
    else if c == '-' then u.(add := false)
    else if !Allowed(r, mode, c, u.add) then u
    else if u.add then u.(adds := u.adds + {c}, dels := u.dels - {c})
    else u.(adds := u.adds - {c}, dels := u.dels + {c})
  }

  function Read(r: Rights, mode: set<char>, u: Request, s: string): Request
    decreases |s|
  {
    if s == "" then u else Read(r, mode, Heard(r, mode, u, s[0]), s[1..])
  }

  function Applied(mode: set<char>, u: Request): set<char> {
    (mode + (u.adds * Letters(LETTERS))) - (u.dels * Letters(LETTERS))
  }

  function Letters(s: string): set<char> {
    set c | c in s
  }

  /** The letters of `s` that are in `a`, in order. */
  function Listed(s: string, a: set<char>): string {
    if s == "" then ""
    else
      var n := |s| - 1;
      Listed(s[..n], a) + if s[n] in a then [s[n]] else ""
  }

  function Announced(adds: set<char>, dels: set<char>): string {
    (if Listed(LETTERS, adds) != "" then "+" + Listed(LETTERS, adds) else "")
    + (if Listed(LETTERS, dels) != "" then "-" + Listed(LETTERS, dels) else "")
  }

  // `complaint`: the client is told of an unknown letter. `told` is what the client is told has changed,
  // `spread` what the other servers are told.
  datatype Reply = Reply(complaint: bool, told: string, spread: string)

  function Answer(r: Rights, mode: set<char>, s: string): Reply {
    var after := Changed(r, mode, s);
    Reply(!r.remote && exists c :: c in s && !Known(c),
          Announced(after - mode, mode - after),
          Announced((after - mode) * BROADCAST, (mode - after) * BROADCAST))
  }

  function Changed(r: Rights, mode: set<char>, s: string): set<char> {
    Applied(mode, Read(r, mode, NOTHING, s))
  }

  class User {
    const rights: Rights
    var mode: set<char>

    constructor (rights: Rights)
      ensures this.rights == rights && mode == {}
    {
      this.rights, mode := rights, {};
    }

    /** The flags a mode string asks for, and whether it holds an unknown letter to complain about. */
    method ReadModes(s: string) returns (addFlags: set<char>, delFlags: set<char>, unknown: bool)
      ensures var u := Read(rights, mode, NOTHING, s); addFlags == u.adds && delFlags == u.dels
      ensures unknown <==> !rights.remote && exists c :: c in s && !Known(c)
    {
      hide Allowed, Known;
      var add := true;
      unknown, addFlags, delFlags := false, {}, {};
      for k := 0 to |s|
        invariant Request(add, addFlags, delFlags) == Read(rights, mode, NOTHING, s[..k])
        invariant unknown <==> !rights.remote && exists c :: c in s[..k] && !Known(c)
      {
        ReadSnoc(rights, mode, NOTHING, s[..k], s[k]);
        assert s[..k] + [s[k]] == s[..k + 1];
        assert forall c :: c in s[..k + 1] <==> c in s[..k] || c == s[k];
        var ch := s[k];
        KnownLetter(rights, mode, ch, add);
        if ch == '+' {
          add := true;
        } else if ch == '-' {
          add := false;
        } else if Allowed(rights, mode, ch, add) {
          if add {
            addFlags, delFlags := addFlags + {ch}, delFlags - {ch};
          } else {
            addFlags, delFlags := addFlags - {ch}, delFlags + {ch};
          }
        } else if !Known(ch) && !rights.remote {
          unknown := true;
        }
      }
      assert s[..|s|] == s;
    }

    /** Sets and clears flags and lists the letters that change, all of them and those broadcast. */
    method ApplyFlags(ghost u: Request, addFlags: set<char>, delFlags: set<char>)
      returns (addModes: string, delModes: string, bcastAdd: string, bcastDel: string)
      requires u.adds == addFlags && u.dels == delFlags && addFlags !! delFlags
      modifies this
      ensures mode == Applied(old(mode), u)
      ensures addModes == Listed(LETTERS, mode - old(mode)) && delModes == Listed(LETTERS, old(mode) - mode)
      ensures bcastAdd == Listed(LETTERS, (mode - old(mode)) * BROADCAST)
      ensures bcastDel == Listed(LETTERS, (old(mode) - mode) * BROADCAST)
    {
      hide Listed, Letters, First, AppliedTo, Applied;
      ghost var was := mode;
      addModes, delModes, bcastAdd, bcastDel := "", "", "", "";
      NoLetters(was, u);
      for i := 0 to |LETTERS|
        invariant mode == AppliedTo(was, u, i)
        invariant addModes == First(i, u.adds - was) && delModes == First(i, u.dels * was)
        invariant bcastAdd == First(i, (u.adds - was) * BROADCAST)
        invariant bcastDel == First(i, (u.dels * was) * BROADCAST)
      {
        NextLetter(was, u, i);
        FirstNext(i, u.adds - was);
        FirstNext(i, u.dels * was);
        FirstNext(i, (u.adds - was) * BROADCAST);
        FirstNext(i, (u.dels * was) * BROADCAST);
        var m := LETTERS[i];
        if m in addFlags && m !in mode {
          addModes := addModes + [m];
          if m in BROADCAST {
            bcastAdd := bcastAdd + [m];
          }
          mode := mode + {m};
        } else if m in delFlags && m in mode {
          delModes := delModes + [m];
          if m in BROADCAST {
            bcastDel := bcastDel + [m];
          }
          mode := mode - {m};
        }
      }
      AllLetters(was, u);
    }

    method SetUserMode(s: string) returns (reply: Reply)
      modifies this
      ensures mode == Changed(rights, old(mode), s)
      ensures reply == Answer(rights, old(mode), s)
    {
      hide Read, Listed, Letters, Applied, Allowed, Known;
      var addFlags, delFlags, unknown := ReadModes(s);
      ReadDisjoint(rights, mode, NOTHING, s);
      var addModes, delModes, bcastAdd, bcastDel :=
        ApplyFlags(Read(rights, mode, NOTHING, s), addFlags, delFlags);
      var told := ModeText(addModes, delModes);
      var spread := ModeText(bcastAdd, bcastDel);
      reply := Reply(unknown, told, spread);
    }
  }

  /** The text of an announcement. */
  method ModeText(adds: string, dels: string) returns (text: string)
    ensures text == (if adds != "" then "+" + adds else "") + (if dels != "" then "-" + dels else "")
  {
    text := "";
    if adds != "" {
      text := text + "+" + adds;
    }
    if dels != "" {
      text := text + "-" + dels;
    }
  }

  lemma KnownLetter(r: Rights, mode: set<char>, c: char, add: bool)
    ensures Known('+') && Known('-') && (Allowed(r, mode, c, add) ==> Known(c))
  {
  }

  /** The modes when the first `i` letters have been looked at. */
  function AppliedTo(mode: set<char>, u: Request, i: nat): set<char>
    requires i <= |LETTERS|
  {
    (mode + (u.adds * Letters(LETTERS[..i]))) - (u.dels * Letters(LETTERS[..i]))
  }

  /** The letters of `a` among the first `i`. */
  function First(i: nat, a: set<char>): string
    requires i <= |LETTERS|
  {
    Listed(LETTERS[..i], a)
  }

  lemma FirstNext(i: nat, a: set<char>)
    requires i < |LETTERS|
    ensures First(i + 1, a) == First(i, a) + if LETTERS[i] in a then [LETTERS[i]] else []
  {
    assert LETTERS[..i + 1][..i] == LETTERS[..i] && LETTERS[..i + 1][i] == LETTERS[i];
  }

  lemma NoLetters(mode: set<char>, u: Request)
    ensures AppliedTo(mode, u, 0) == mode
    ensures forall a :: First(0, a) == ""
  {
  }

  lemma NextLetter(mode: set<char>, u: Request, i: nat)
    requires i < |LETTERS| && u.adds !! u.dels
    ensures var m := LETTERS[i];
            && (m in AppliedTo(mode, u, i) <==> m in mode)
            && AppliedTo(mode, u, i + 1)
               == if m in u.adds then AppliedTo(mode, u, i) + {m}
                  else if m in u.dels then AppliedTo(mode, u, i) - {m}
                  else AppliedTo(mode, u, i)
  {
    NewLetter(i);
  }

  lemma NewLetter(i: nat)
    requires i < |LETTERS|
    ensures LETTERS[i] !in LETTERS[..i]
    ensures Letters(LETTERS[..i + 1]) == Letters(LETTERS[..i]) + {LETTERS[i]}
  {
    assert LETTERS[..i + 1] == LETTERS[..i] + [LETTERS[i]];
  }

  lemma AllLetters(mode: set<char>, u: Request)
    requires u.adds !! u.dels
    ensures AppliedTo(mode, u, |LETTERS|) == Applied(mode, u)
    ensures var after, n := Applied(mode, u), |LETTERS|;
            && First(n, u.adds - mode) == Listed(LETTERS, after - mode)
            && First(n, u.dels * mode) == Listed(LETTERS, mode - after)
            && First(n, (u.adds - mode) * BROADCAST) == Listed(LETTERS, (after - mode) * BROADCAST)
            && First(n, (u.dels * mode) * BROADCAST) == Listed(LETTERS, (mode - after) * BROADCAST)
  {
    assert LETTERS[..|LETTERS|] == LETTERS;
    var after := Applied(mode, u);
    ListedSame(LETTERS, u.adds - mode, after - mode);
    ListedSame(LETTERS, u.dels * mode, mode - after);
    ListedSame(LETTERS, (u.adds - mode) * BROADCAST, (after - mode) * BROADCAST);
    ListedSame(LETTERS, (u.dels * mode) * BROADCAST, (mode - after) * BROADCAST);
  }

  lemma {:induction false} ListedSame(s: string, a: set<char>, b: set<char>)
    requires a * Letters(s) == b * Letters(s)
    ensures Listed(s, a) == Listed(s, b)
    decreases |s|
  {
    if s != "" {
      var n := |s| - 1;
      assert s[n] in Letters(s);
      assert s[n] in a <==> s[n] in a * Letters(s);
      assert forall c :: c in Letters(s[..n]) ==> c in Letters(s);
      assert forall c :: c in a * Letters(s[..n]) <==> c in (a * Letters(s)) * Letters(s[..n]);
      assert forall c :: c in b * Letters(s[..n]) <==> c in (b * Letters(s)) * Letters(s[..n]);
      ListedSame(s[..n], a, b);
    }
  }

  // ---------------------------------------------------------------- reading a string

  lemma {:induction false} ReadJoin(r: Rights, mode: set<char>, u: Request, s: string, t: string)
    ensures Read(r, mode, u, s + t) == Read(r, mode, Read(r, mode, u, s), t)
    decreases |s|
  {
    if s == "" {
      assert s + t == t;
    } else {
      assert (s + t)[1..] == s[1..] + t;
      ReadJoin(r, mode, Heard(r, mode, u, s[0]), s[1..], t);
    }
  }

  lemma ReadSnoc(r: Rights, mode: set<char>, u: Request, s: string, c: char)
    ensures Read(r, mode, u, s + [c]) == Heard(r, mode, Read(r, mode, u, s), c)
  {
    ReadJoin(r, mode, u, s, [c]);
    assert [c][1..] == "";
  }

  lemma {:induction false} ReadDisjoint(r: Rights, mode: set<char>, u: Request, s: string)
    requires u.adds !! u.dels
    ensures var v := Read(r, mode, u, s); v.adds !! v.dels
    decreases |s|
  {
    if s != "" {
      ReadDisjoint(r, mode, Heard(r, mode, u, s[0]), s[1..]);
    }
  }

  /** The sign in force in front of position `k`. */
  function SignAt(s: string, k: nat): bool
    requires k <= |s|
  {
    if k == 0 || s[k - 1] == '+' then true else if s[k - 1] == '-' then false else SignAt(s, k - 1)
  }

  predicate HeardAt(r: Rights, mode: set<char>, s: string, c: char, k: nat)
    requires k < |s|
  {
    s[k] == c && Allowed(r, mode, c, SignAt(s, k))
  }

  /** The last request for `c` that is heard has this sign. */
  predicate LastSays(r: Rights, mode: set<char>, s: string, c: char, add: bool) {
    exists k :: 0 <= k < |s| && HeardAt(r, mode, s, c, k) && SignAt(s, k) == add
                && forall j :: k < j < |s| ==> !HeardAt(r, mode, s, c, j)
  }

  lemma {:induction false} SignAtPrefix(s: string, t: string, k: nat)
    requires k <= |s|
    ensures SignAt(s + t, k) == SignAt(s, k)
    decreases k
  {
    if k > 0 {
      SignAtPrefix(s, t, k - 1);
    }
  }

  lemma HeardBefore(r: Rights, mode: set<char>, s: string, d: char, c: char)
    ensures forall k: nat :: k < |s| ==> (HeardAt(r, mode, s + [d], c, k) <==> HeardAt(r, mode, s, c, k))
    ensures forall k: nat :: k <= |s| ==> SignAt(s + [d], k) == SignAt(s, k)
    ensures HeardAt(r, mode, s + [d], c, |s|) <==> d == c && Allowed(r, mode, c, SignAt(s, |s|))
  {
    forall k: nat | k <= |s| ensures SignAt(s + [d], k) == SignAt(s, k) {
      SignAtPrefix(s, [d], k);
    }
  }

  lemma LastSaysSnoc(r: Rights, mode: set<char>, s: string, d: char, c: char, add: bool)
    ensures var heard := d == c && Allowed(r, mode, c, SignAt(s, |s|));
            LastSays(r, mode, s + [d], c, add)
            <==> if heard then SignAt(s, |s|) == add else LastSays(r, mode, s, c, add)
  {
    hide Allowed, SignAt, HeardAt;
    HeardBefore(r, mode, s, d, c);
    var t := s + [d];
    if HeardAt(r, mode, t, c, |s|) {
      if LastSays(r, mode, t, c, add) {
        var k :| 0 <= k < |t| && HeardAt(r, mode, t, c, k) && SignAt(t, k) == add
                 && forall j :: k < j < |t| ==> !HeardAt(r, mode, t, c, j);
        assert k == |s|;
      }
    } else {
      if LastSays(r, mode, t, c, add) {
        var k :| 0 <= k < |t| && HeardAt(r, mode, t, c, k) && SignAt(t, k) == add
                 && forall j :: k < j < |t| ==> !HeardAt(r, mode, t, c, j);
        assert HeardAt(r, mode, s, c, k) && SignAt(s, k) == add;
        assert forall j :: k < j < |s| ==> !HeardAt(r, mode, s, c, j);
      }
      if LastSays(r, mode, s, c, add) {
        var k :| 0 <= k < |s| && HeardAt(r, mode, s, c, k) && SignAt(s, k) == add
                 && forall j :: k < j < |s| ==> !HeardAt(r, mode, s, c, j);
        assert HeardAt(r, mode, t, c, k) && SignAt(t, k) == add;
      }
    }
  }

  lemma {:induction false} ReadMeans(r: Rights, mode: set<char>, s: string, c: char)
    ensures var u := Read(r, mode, NOTHING, s);
            && u.add == SignAt(s, |s|)
            && (c in u.adds <==> LastSays(r, mode, s, c, true))
            && (c in u.dels <==> LastSays(r, mode, s, c, false))
    decreases |s|
  {
    if s != "" {
      var t, d := s[..|s| - 1], s[|s| - 1];
      assert s == t + [d];
      ReadMeans(r, mode, t, c);
      ReadSnoc(r, mode, NOTHING, t, d);
      SignAtPrefix(t, [d], |t|);
      LastSaysSnoc(r, mode, t, d, c, true);
      LastSaysSnoc(r, mode, t, d, c, false);
    }
  }

  lemma AllowedLetters(r: Rights, mode: set<char>, c: char, add: bool)
    requires Allowed(r, mode, c, add)
    ensures c in Letters(LETTERS) && Known(c) && c != '+' && c != '-'
  {
    assert LETTERS == ['o', 'i', 'w', 'b', 'g', 's', 'c', 'r', 'k', 'f', 'y', 'd', 'n', 'h', 'F', 'A'];
    assert LETTERS[0] == 'o' && LETTERS[1] == 'i' && LETTERS[2] == 'w' && LETTERS[3] == 'b' && LETTERS[4] == 'g';
    assert LETTERS[5] == 's' && LETTERS[6] == 'c' && LETTERS[7] == 'r' && LETTERS[8] == 'k' && LETTERS[9] == 'f';
    assert LETTERS[10] == 'y' && LETTERS[11] == 'd' && LETTERS[12] == 'n' && LETTERS[15] == 'A';
  }

  /** Every letter ends as its last heard request says, and as it was without one. */
  lemma LastSignWins(r: Rights, mode: set<char>, s: string, c: char)
    ensures c in Changed(r, mode, s)
            <==> LastSays(r, mode, s, c, true) || (c in mode && !LastSays(r, mode, s, c, false))
  {
    ReadMeans(r, mode, s, c);
    ReadDisjoint(r, mode, NOTHING, s);
    if LastSays(r, mode, s, c, true) || LastSays(r, mode, s, c, false) {
      var k :| 0 <= k < |s| && HeardAt(r, mode, s, c, k);
      AllowedLetters(r, mode, c, SignAt(s, k));
    }
  }

  // ---------------------------------------------------------------- the announcement

  lemma {:induction false} ListedMeans(s: string, a: set<char>)
    ensures forall c :: c in Listed(s, a) <==> c in s && c in a
    ensures |Listed(s, a)| <= |s|
    decreases |s|
  {
    if s != "" {
      var n := |s| - 1;
      ListedMeans(s[..n], a);
      assert s == s[..n] + [s[n]];
    }
  }

  /** Letters heard under one sign only add up. */
  lemma {:induction false} ReadPlain(r: Rights, mode: set<char>, u: Request, s: string)
    requires forall c :: c in s ==> Allowed(r, mode, c, u.add)
    ensures Read(r, mode, u, s)
            == if u.add then u.(adds := u.adds + Letters(s), dels := u.dels - Letters(s))
               else u.(adds := u.adds - Letters(s), dels := u.dels + Letters(s))
    decreases |s|
  {
    if s != "" {
      AllowedLetters(r, mode, s[0], u.add);
      ReadPlain(r, mode, Heard(r, mode, u, s[0]), s[1..]);
      assert Letters(s) == {s[0]} + Letters(s[1..]);
    }
  }

  /** An announcement read back asks for exactly what it announces. */
  lemma AnnouncedReads(r: Rights, mode: set<char>, adds: set<char>, dels: set<char>)
    requires adds !! dels && adds <= Letters(LETTERS) && dels <= Letters(LETTERS)
    requires forall c <- adds :: Allowed(r, mode, c, true)
    requires forall c <- dels :: Allowed(r, mode, c, false)
    ensures var u := Read(r, mode, NOTHING, Announced(adds, dels)); u.adds == adds && u.dels == dels
  {
    var x, y := Listed(LETTERS, adds), Listed(LETTERS, dels);
    ListedMeans(LETTERS, adds);
    ListedMeans(LETTERS, dels);
    assert Letters(x) == adds && Letters(y) == dels;
    var plus, minus := if x != "" then "+" + x else "", if y != "" then "-" + y else "";
    var mid := Read(r, mode, NOTHING, plus);
    assert mid.adds == adds && mid.dels == {} by {
      if x != "" {
        assert plus[1..] == x;
        ReadPlain(r, mode, NOTHING, x);
      }
    }
    ReadJoin(r, mode, NOTHING, plus, minus);
    if y != "" {
      assert minus[1..] == y;
      ReadPlain(r, mode, mid.(add := false), y);
    }
  }

  /** What changes was allowed to change. */
  lemma ChangeAllowed(r: Rights, mode: set<char>, s: string, c: char)
    requires (c in mode) != (c in Changed(r, mode, s))
    ensures Allowed(r, mode, c, c !in mode) && c in Letters(LETTERS)
  {
    LastSignWins(r, mode, s, c);
    var add := c !in mode;
    assert LastSays(r, mode, s, c, add);
    var k :| 0 <= k < |s| && HeardAt(r, mode, s, c, k) && SignAt(s, k) == add;
    AllowedLetters(r, mode, c, add);
  }

  /** What the client is told names exactly the letters that changed, and asking for it from the old
      modes makes the same change and gives the same announcement. */
  lemma AnnouncementRepeats(r: Rights, mode: set<char>, s: string)
    ensures var after, told := Changed(r, mode, s), Answer(r, mode, s).told;
            && Changed(r, mode, told) == after
            && Answer(r, mode, told).told == told
            && Answer(r, mode, told).spread == Answer(r, mode, s).spread
            && (told == "" <==> after == mode)
            && (forall c :: c in told ==> c == '+' || c == '-' || (c in mode) != (c in after))
  {
    var after := Changed(r, mode, s);
    var adds, dels := after - mode, mode - after;
    forall c | c in adds || c in dels ensures Allowed(r, mode, c, c in adds) && c in Letters(LETTERS) {
      ChangeAllowed(r, mode, s, c);
    }
    AnnouncedReads(r, mode, adds, dels);
    AnnouncedLetters(adds, dels);
    hide Read, Announced, Allowed, Known;
    assert Changed(r, mode, Announced(adds, dels)) == (mode + adds) - dels == after;
  }

  lemma AnnouncedLetters(adds: set<char>, dels: set<char>)
    requires adds <= Letters(LETTERS) && dels <= Letters(LETTERS)
    ensures Announced(adds, dels) == "" <==> adds == {} && dels == {}
    ensures forall c :: c in Announced(adds, dels) ==> c == '+' || c == '-' || c in adds || c in dels
  {
    ListedMeans(LETTERS, adds);
    ListedMeans(LETTERS, dels);
    if Announced(adds, dels) == "" {
      assert forall c :: c !in adds && c !in dels;
      assert adds == {} && dels == {};
    } else if Listed(LETTERS, adds) != "" {
      assert Listed(LETTERS, adds)[0] in adds;
    } else {
      assert Listed(LETTERS, dels)[0] in dels;
    }
  }

  /** The far server hears every broadcast letter of the change. Through a hub it does: a server behind
      another link leaves operator and administrator letters out. */
  predicate Hears(far: Rights, farMode: set<char>, mode: set<char>, after: set<char>) {
    && (forall c <- (after - mode) * BROADCAST :: Allowed(far, farMode, c, true))
    && (forall c <- (mode - after) * BROADCAST :: Allowed(far, farMode, c, false))
  }

  /** A server that hears of a change, and agreed on the broadcast letters before, agrees on them
      afterwards exactly if it hears every letter of it. */
  lemma ServersAgree(r: Rights, mode: set<char>, s: string, far: Rights, farMode: set<char>)
    requires farMode * BROADCAST == mode * BROADCAST
    ensures Changed(far, farMode, Answer(r, mode, s).spread) * BROADCAST == Changed(r, mode, s) * BROADCAST
       <==> Hears(far, farMode, mode, Changed(r, mode, s))
  {
    var after := Changed(r, mode, s);
    var spread := Answer(r, mode, s).spread;
    if Hears(far, farMode, mode, after) {
      HeardAgrees(r, mode, s, far, farMode);
    }
    if Changed(far, farMode, spread) * BROADCAST == after * BROADCAST {
      hide Read, Answer, Allowed;
      forall c | c in BROADCAST && (c in mode) != (c in after) ensures Allowed(far, farMode, c, c in after) {
        assert c in farMode * BROADCAST <==> c in mode * BROADCAST;
        assert c in Changed(far, farMode, spread) * BROADCAST <==> c in after * BROADCAST;
        ChangeAllowed(far, farMode, spread, c);
      }
    }
  }

  lemma HeardAgrees(r: Rights, mode: set<char>, s: string, far: Rights, farMode: set<char>)
    requires farMode * BROADCAST == mode * BROADCAST && Hears(far, farMode, mode, Changed(r, mode, s))
    ensures Changed(far, farMode, Answer(r, mode, s).spread) * BROADCAST == Changed(r, mode, s) * BROADCAST
  {
    var after := Changed(r, mode, s);
    var adds, dels := (after - mode) * BROADCAST, (mode - after) * BROADCAST;
    forall c | c in adds || c in dels ensures c in Letters(LETTERS) {
      ChangeAllowed(r, mode, s, c);
    }
    AnnouncedReads(far, farMode, adds, dels);
    hide Read, Announced, Allowed;
    assert Changed(far, farMode, Announced(adds, dels)) == (farMode + adds) - dels;
    forall c ensures c in ((farMode + adds) - dels) * BROADCAST <==> c in after * BROADCAST {
      assert c in farMode * BROADCAST <==> c in mode * BROADCAST;
    }
  }

  /** Behind a hub every letter is heard. */
  lemma HubsHear(r: Rights, mode: set<char>, s: string, far: Rights, farMode: set<char>)
    requires far.remote && far.hub
    ensures Hears(far, farMode, mode, Changed(r, mode, s))
  {
    var after := Changed(r, mode, s);
    forall c | c in BROADCAST && (c in mode) != (c in after) ensures Allowed(far, farMode, c, c in after) {
      ChangeAllowed(r, mode, s, c);
    }
  }

  /** A server behind a link that is not a hub does not take over a new operator. */
  lemma OperatorUnheard()
    ensures var far := Rights(false, false, true, false);
            var r := Rights(false, false, true, true);
            'o' in Changed(r, {}, "+o") && 'o' !in Changed(far, {}, Answer(r, {}, "+o").spread)
  {
    var far, r := Rights(false, false, true, false), Rights(false, false, true, true);
    var s := "+o";
    assert s[1..] == "o" && s[1..][1..] == "";
    assert Read(r, {}, NOTHING, s) == Request(true, {'o'}, {});
    assert LETTERS[0] == 'o';
    assert 'o' in Changed(r, {}, s);
    if 'o' in Changed(far, {}, Answer(r, {}, s).spread) {
      ChangeAllowed(far, {}, Answer(r, {}, s).spread, 'o');
    }
  }
}
