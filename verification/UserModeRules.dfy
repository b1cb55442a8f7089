/** Which requests for user modes are heard, and what announcements look like. */
module UserModeRules {
  import opened UserModes

  /** Anybody may change i, w, s, k and g and give up o; operators b, r, f, y, d and n, with a flag c and,
      with another, A; o and A come from hubs. */
  lemma HeardTable(r: Rights, mode: set<char>, c: char, add: bool)
    ensures Allowed(r, mode, c, add)
         == if c == 'i' || c == 'w' || c == 's' || c == 'k' || c == 'g' then true
            else if c == 'b' || c == 'r' || c == 'f' || c == 'y' || c == 'd' || c == 'n' then 'o' in mode
            else if c == 'o' then (if add then r.remote && r.hub else true)
            else if c == 'c' then r.canC && 'o' in mode
            else c == 'A' && ((r.remote && r.hub) || (r.admin && 'o' in mode))
  {
  }

  /** The order of announcements, and what other servers are told. */
  lemma LetterTable()
    ensures LETTERS == "oiwbgscrkfydnhFA" && BROADCAST == {'o', 'i', 'h', 'A'}
  {
  }

  /** Letters of `s` in `a`, in the order of `s`. */
  lemma ListedNext(s: string, c: char, a: set<char>)
    ensures Listed("", a) == "" && Listed(s + [c], a) == Listed(s, a) + (if c in a then [c] else "")
  {
    assert (s + [c])[..|s|] == s;
  }

  /** The letters set stand behind a plus, then those cleared behind a minus; an empty list has no sign. */
  lemma AnnouncementForm(r: Rights, mode: set<char>, s: string)
    ensures var after, reply := Changed(r, mode, s), Answer(r, mode, s);
            && reply.told == Signed('+', Listed(LETTERS, after - mode)) + Signed('-', Listed(LETTERS, mode - after))
            && reply.spread == Signed('+', Listed(LETTERS, (after - mode) * BROADCAST))
                               + Signed('-', Listed(LETTERS, (mode - after) * BROADCAST))
  {
    hide Listed, Changed;
  }

  function Signed(sign: char, letters: string): string {
    if letters == "" then "" else [sign] + letters
  }

  /** A client of this server is told once of letters that are no modes. */
  lemma ComplaintMeans(r: Rights, mode: set<char>, s: string)
    ensures Answer(r, mode, s).complaint
       <==> !r.remote && exists c :: c in s && c !in "+-iwskgbrfydnocA"
  {
    hide Changed, Announced;
    assert forall c :: Known(c) <==> c in "+-iwskgbrfydnocA";
  }
}
