/** The tree of linked IRC servers. Any server may be written down as the root; routing
    does not depend on which one is. */
module ServerTree {
  type Server = string

  datatype Net = Net(root: Server, up: map<Server, Server>, depth: map<Server, nat>) {
    ghost predicate Valid() {
      && root in depth && depth[root] == 0
      && (forall s :: s in depth && s != root ==>
            s in up && up[s] in depth && depth[s] == depth[up[s]] + 1)
    }

    /** `t` is `s` or further from the root behind `s`. */
    predicate Under(s: Server, t: Server)
      requires Valid() && s in depth && t in depth
      decreases depth[t]
    {
      t == s || (t != root && Under(s, up[t]))
    }

    /** The neighbour of `s` on the way down to `t`. */
    function Child(s: Server, t: Server): (c: Server)
      requires Valid() && s in depth && t in depth && s != t && Under(s, t)
      ensures c in depth && c != root && up[c] == s && Under(c, t)
      decreases depth[t]
    {
      if up[t] == s then t else Child(s, up[t])
    }

    /** The neighbour through which `s` reaches `t`: the `parent` of a remote client. */
    function Hop(s: Server, t: Server): (c: Server)
      requires Valid() && s in depth && t in depth && s != t
      ensures c in depth
    {
      if Under(s, t) then Child(s, t) else RootIsAbove(t); up[s]
    }

    lemma {:induction false} RootIsAbove(t: Server)
      requires Valid() && t in depth
      ensures Under(root, t)
      decreases depth[t]
    {
      if t != root {
        RootIsAbove(up[t]);
      }
    }

    lemma {:induction false} UnderIsDeeper(s: Server, t: Server)
      requires Valid() && s in depth && t in depth && Under(s, t)
      ensures depth[s] <= depth[t] && (depth[s] == depth[t] ==> s == t)
      decreases depth[t]
    {
      if t != s {
        UnderIsDeeper(s, up[t]);
      }
    }

    /** Below a child there is no other way down. */
    lemma {:induction false} ChildUnique(c: Server, t: Server)
      requires Valid() && c in depth && t in depth && c != root && Under(c, t)
      ensures Under(up[c], t) && up[c] != t && Child(up[c], t) == c
      decreases depth[t]
    {
      UnderIsDeeper(c, t);
      if t != c {
        ChildUnique(c, up[t]);
      } else {
        assert Under(up[c], up[c]);
      }
    }

    /** A link splits the tree: whoever crosses it going away from `o` looks back across
        it to find `o`. */
    lemma LooksBack(s: Server, t: Server, o: Server)
      requires Valid() && s in depth && t in depth && o in depth && s != t
      requires s == o || Hop(s, o) != Hop(s, t)
      ensures Hop(s, t) != o && Hop(Hop(s, t), o) == s
    {
      var c := Hop(s, t);
      if Under(s, t) {
        if Under(c, o) {
          ChildUnique(c, o);
        }
      } else {
        RootIsAbove(t);
        RootIsAbove(o);
        assert Under(s, o);
        ChildUnique(s, o);
      }
    }

    /** A route never turns round. */
    lemma NoBounce(s: Server, o: Server)
      requires Valid() && s in depth && o in depth && s != o && Hop(s, o) != o
      ensures Hop(Hop(s, o), o) != s
    {
      RootIsAbove(o);
      var a := Hop(s, o);
      if Under(s, o) {
        UnderIsDeeper(a, o);
        if a == o || Under(a, o) {
          assert up[a] == s;
        }
      } else if Hop(a, o) == s {
        assert depth[a] < depth[s];
      }
    }

    /** How far a route from `s` to `o` still has to go at most. */
    function Away(s: Server, o: Server): nat
      requires Valid() && s in depth && o in depth
    {
      if Under(s, o) then UnderIsDeeper(s, o); depth[o] - depth[s] else depth[s] + depth[o]
    }

    lemma HopCloser(s: Server, o: Server)
      requires Valid() && s in depth && o in depth && s != o
      ensures Away(Hop(s, o), o) < Away(s, o)
    {
      RootIsAbove(o);
      if Under(s, o) {
        UnderIsDeeper(Child(s, o), o);
      } else if Under(up[s], o) {
        UnderIsDeeper(up[s], o);
      }
    }
  }
}
