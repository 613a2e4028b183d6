/** Small shared vocabulary: optional values and duplicate-free lists of names. */
module Common {

  datatype Option<+T> = None | Some(value: T)

  ghost predicate NoDup(s: seq<nat>) {
    forall i, j :: 0 <= i < j < |s| ==> s[i] != s[j]
  }

  function Elements(s: seq<nat>): set<nat> {
    set w | w in s
  }

  /** The list with the members of `drop` taken out, order kept. */
  function Without(s: seq<nat>, drop: set<nat>): seq<nat> {
    if s == [] then [] else Without(s[..|s| - 1], drop) + (if s[|s| - 1] in drop then [] else [s[|s| - 1]])
  }

  lemma DropLast(s: seq<nat>)
    requires NoDup(s) && s != []
    ensures NoDup(s[..|s| - 1]) && s[|s| - 1] !in s[..|s| - 1]
  {
  }

  lemma {:induction false} WithoutMeaning(s: seq<nat>, drop: set<nat>)
    requires NoDup(s)
    ensures NoDup(Without(s, drop)) && |Without(s, drop)| <= |s|
    ensures forall w :: w in Without(s, drop) <==> w in s && w !in drop
  {
    if s != [] {
      var front, last := s[..|s| - 1], s[|s| - 1];
      DropLast(s);
      WithoutMeaning(front, drop);
      assert s == front + [last];
    }
  }

  lemma {:induction false} SizeOfElements(s: seq<nat>)
    requires NoDup(s)
    ensures |Elements(s)| == |s|
  {
    if s != [] {
      var front, last := s[..|s| - 1], s[|s| - 1];
      DropLast(s);
      SizeOfElements(front);
      assert s == front + [last];
      assert Elements(s) == Elements(front) + {last};
    }
  }

  /** Taking members out loses nothing: what stays and what goes make up the list. */
  lemma WithoutCounts(s: seq<nat>, drop: set<nat>)
    requires NoDup(s)
    ensures |Without(s, drop)| + |Elements(s) * drop| == |s|
  {
    WithoutMeaning(s, drop);
    SizeOfElements(s);
    SizeOfElements(Without(s, drop));
    assert Elements(Without(s, drop)) == Elements(s) - drop;
    assert Elements(s) == (Elements(s) - drop) + (Elements(s) * drop);
  }

  lemma {:induction false} WithoutFront(w: nat, s: seq<nat>, drop: set<nat>)
    ensures Without([w] + s, drop) == (if w in drop then [] else [w]) + Without(s, drop)
  {
    if s != [] {
      WithoutFront(w, s[..|s| - 1], drop);
      assert ([w] + s)[..|s|] == [w] + s[..|s| - 1];
    } else {
      assert [w] + s == [w] && [w][..0] == [];
    }
  }
}
