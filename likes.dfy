/** The like toggle on one post's `likes` list: find the caller's id, splice it
    out when present, push it on the end when absent. */
module Likes {

  /** `likes.findIndex(id => id === u)`: the first position of `u`, or -1. */
  function FirstIndex(likes: seq<string>, u: string): (i: int)
    ensures -1 <= i < |likes|
    ensures i == -1 <==> u !in likes
    ensures 0 <= i ==> likes[i] == u && u !in likes[..i]
  {
    if likes == [] then -1
    else if likes[0] == u then 0
    else
      var j := FirstIndex(likes[1..], u);
      assert j >= 0 ==> likes[..j + 1] == [likes[0]] + likes[1..][..j];
      if j == -1 then -1 else j + 1
  }

  /** The list after one toggle: `splice(i, 1)` at the first occurrence when
      there is one, else `push(u)`. */
  function Toggled(likes: seq<string>, u: string): seq<string>
  {
    var i := FirstIndex(likes, u);
    if i > -1 then likes[..i] + likes[i + 1..] else likes + [u]
  }

  /** No user id occurs twice. */
  predicate NoDuplicates(s: seq<string>)
  {
    forall i, j :: 0 <= i < j < |s| ==> s[i] != s[j]
  }

  /** Toggling a user who has not liked the post appends them: one more entry,
      and every earlier entry stays where it was. */
  lemma ToggleAppendsWhenAbsent(likes: seq<string>, u: string)
    requires u !in likes
    ensures Toggled(likes, u) == likes + [u]
    ensures |Toggled(likes, u)| == |likes| + 1
    ensures Toggled(likes, u)[..|likes|] == likes && Toggled(likes, u)[|likes|] == u
  {
  }

  /** Toggling a user who has liked the post removes exactly the first
      occurrence: one entry fewer, the entries before it unchanged, the entries
      after it shifted down by one, and one copy of `u` gone. */
  lemma ToggleRemovesFirstWhenPresent(likes: seq<string>, u: string)
    requires u in likes
    ensures var i := FirstIndex(likes, u);
      0 <= i && likes[i] == u && u !in likes[..i] &&
      Toggled(likes, u) == likes[..i] + likes[i + 1..]
    ensures |Toggled(likes, u)| == |likes| - 1
    ensures multiset(Toggled(likes, u)) == multiset(likes) - multiset{u}
  {
    var i := FirstIndex(likes, u);
    assert likes == likes[..i] + [likes[i]] + likes[i + 1..];
    assert multiset(likes) == multiset(likes[..i]) + multiset{u} + multiset(likes[i + 1..]);
  }

  /** The first position of `u` in `likes + [u]` when `u` was absent is the new last one. */
  lemma FirstIndexOfAppended(likes: seq<string>, u: string)
    requires u !in likes
    ensures FirstIndex(likes + [u], u) == |likes|
  {
    var s := likes + [u];
    assert s[|likes|] == u;
    assert s[..|likes|] == likes;
  }

  /** Two toggles from "not liked" restore the list exactly. */
  lemma ToggleTwiceFromAbsent(likes: seq<string>, u: string)
    requires u !in likes
    ensures Toggled(Toggled(likes, u), u) == likes
  {
    FirstIndexOfAppended(likes, u);
    var s := likes + [u];
    assert s[..|likes|] == likes;
    assert s[|likes| + 1..] == [];
  }

  /** Two toggles from "liked", on a list without duplicates, restore membership
      and count and keep the same entries, but the user moves to the end. */
  lemma ToggleTwiceFromPresent(likes: seq<string>, u: string)
    requires NoDuplicates(likes)
    requires u in likes
    ensures var i := FirstIndex(likes, u);
      Toggled(Toggled(likes, u), u) == likes[..i] + likes[i + 1..] + [u]
    ensures u in Toggled(Toggled(likes, u), u)
    ensures |Toggled(Toggled(likes, u), u)| == |likes|
    ensures multiset(Toggled(Toggled(likes, u), u)) == multiset(likes)
  {
    ToggleRemovesFirstWhenPresent(likes, u);
    ToggleKeepsNoDuplicates(likes, u);
    var once := Toggled(likes, u);
    ToggleAppendsWhenAbsent(once, u);
    assert u in multiset(likes);
  }

  /** Removing one entry from a list without duplicates leaves a list without
      duplicates that no longer holds that entry and still holds every other. */
  lemma RemoveAtKeepsNoDuplicates(s: seq<string>, i: nat)
    requires NoDuplicates(s) && i < |s|
    ensures NoDuplicates(s[..i] + s[i + 1..])
    ensures s[i] !in s[..i] + s[i + 1..]
    ensures forall v :: v != s[i] ==> (v in s[..i] + s[i + 1..] <==> v in s)
  {
    var r := s[..i] + s[i + 1..];
    assert forall k :: 0 <= k < |r| ==> r[k] == s[if k < i then k else k + 1];
    assert s == s[..i] + [s[i]] + s[i + 1..];
  }

  /** On a list without duplicates a toggle flips membership of `u`, leaves
      every other user's membership alone, and keeps the list free of duplicates. */
  lemma ToggleKeepsNoDuplicates(likes: seq<string>, u: string)
    requires NoDuplicates(likes)
    ensures NoDuplicates(Toggled(likes, u))
    ensures u in Toggled(likes, u) <==> u !in likes
    ensures forall v :: v != u ==> (v in Toggled(likes, u) <==> v in likes)
  {
    if u in likes {
      RemoveAtKeepsNoDuplicates(likes, FirstIndex(likes, u));
    } else {
      assert Toggled(likes, u) == likes + [u];
    }
  }
}
