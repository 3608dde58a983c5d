/** The backing store behind the repositories. Each collection is kept in the
    order the repository enumerates it, and ids are unique within a
    collection. How the repository picks a new id is not modelled: a create
    receives the new id as a parameter that is promised to be unused. */
module Repositories {
  import opened Wrappers
  import opened Seqs
  import opened Entities

  /** Some element of `s` has id `id`. */
  predicate HasId<T>(s: seq<T>, key: T -> int, id: int)
  {
    exists i :: 0 <= i < |s| && key(s[i]) == id
  }

  /** No two elements of `s` share an id. */
  ghost predicate UniqueIds<T>(s: seq<T>, key: T -> int)
  {
    forall i, j :: 0 <= i < j < |s| ==> key(s[i]) != key(s[j])
  }

  /** `GetByIdAsync`: the element with id `id`, or `None` (C#'s `null`). */
  function Find<T>(s: seq<T>, key: T -> int, id: int): (r: Option<T>)
    ensures r.None? <==> !HasId(s, key, id)
    ensures r.Some? ==> r.value in s && key(r.value) == id
  {
    if s == [] then None
    else if key(s[0]) == id then Some(s[0])
    else
      var r := Find(s[1..], key, id);
      assert forall i :: 0 < i < |s| ==> s[i] == s[1..][i - 1];
      r
  }

  /** With unique ids, the element found for an id is the one at that id's
      position. */
  lemma {:induction false} FindAt<T>(s: seq<T>, key: T -> int, i: nat)
    requires UniqueIds(s, key) && i < |s|
    ensures Find(s, key, key(s[i])) == Some(s[i])
  {
    if i > 0 {
      FindAt(s[1..], key, i - 1);
    }
  }

  /** The position of the element with id `id`. */
  lemma PositionOf<T>(s: seq<T>, key: T -> int, id: int) returns (i: nat)
    requires HasId(s, key, id)
    ensures i < |s| && key(s[i]) == id
  {
    i :| 0 <= i < |s| && key(s[i]) == id;
  }

  /** `UpdateAsync`: the element with the id of `e` is replaced by `e`. */
  function Replace<T>(s: seq<T>, key: T -> int, e: T): seq<T>
  {
    seq(|s|, i requires 0 <= i < |s| => if key(s[i]) == key(e) then e else s[i])
  }

  /** With unique ids, replacing changes exactly the one position holding
      that id. */
  lemma ReplaceAt<T>(s: seq<T>, key: T -> int, i: nat, e: T)
    requires UniqueIds(s, key) && i < |s| && key(e) == key(s[i])
    ensures Replace(s, key, e) == s[i := e]
    ensures UniqueIds(Replace(s, key, e), key)
  {
  }

  /** After replacing, the replaced id finds the new element and every other
      id finds what it found before. */
  lemma FindAfterReplace<T>(s: seq<T>, key: T -> int, e: T, id: int)
    requires UniqueIds(s, key) && HasId(s, key, key(e))
    ensures Find(Replace(s, key, e), key, id) ==
      if id == key(e) then Some(e) else Find(s, key, id)
  {
    var i := PositionOf(s, key, key(e));
    ReplaceAt(s, key, i, e);
    var r := Replace(s, key, e);
    if id == key(e) {
      FindAt(r, key, i);
    } else if HasId(s, key, id) {
      var j := PositionOf(s, key, id);
      FindAt(s, key, j);
      FindAt(r, key, j);
    } else {
      assert !HasId(r, key, id);
    }
  }

  function KeyIsNot<T>(key: T -> int, id: int): T -> bool
  {
    x => key(x) != id
  }

  /** `DeleteAsync`: every element with id `id` is dropped. */
  function Remove<T>(s: seq<T>, key: T -> int, id: int): (r: seq<T>)
    ensures !HasId(r, key, id)
    ensures forall i :: 0 <= i < |s| && key(s[i]) != id ==> s[i] in r
  {
    Filter(KeyIsNot(key, id), s)
  }

  /** With unique ids, removing drops exactly the one position holding that
      id, and the remaining ids stay unique. */
  lemma RemoveAt<T>(s: seq<T>, key: T -> int, i: nat)
    requires UniqueIds(s, key) && i < |s|
    ensures Remove(s, key, key(s[i])) == s[..i] + s[i + 1..]
    ensures UniqueIds(Remove(s, key, key(s[i])), key)
  {
    var p := KeyIsNot(key, key(s[i]));
    var before, after := s[..i], s[i + 1..];
    forall j | 0 <= j < |before| ensures p(before[j]) {
      assert before[j] == s[j];
    }
    forall j | 0 <= j < |after| ensures p(after[j]) {
      assert after[j] == s[i + 1 + j];
    }
    assert s == before + [s[i]] + after;
    FilterDropsOne(p, before, s[i], after);
    DropPreservesUnique(s, key, i);
  }

  lemma DropPreservesUnique<T>(s: seq<T>, key: T -> int, i: nat)
    requires UniqueIds(s, key) && i < |s|
    ensures UniqueIds(s[..i] + s[i + 1..], key)
  {
    var r := s[..i] + s[i + 1..];
    forall a, b | 0 <= a < b < |r| ensures key(r[a]) != key(r[b]) {
      var a', b' := if a < i then a else a + 1, if b < i then b else b + 1;
      assert r[a] == s[a'] && r[b] == s[b'];
    }
  }

  /** Removing an id that is absent changes nothing. */
  lemma RemoveAbsent<T>(s: seq<T>, key: T -> int, id: int)
    requires !HasId(s, key, id)
    ensures Remove(s, key, id) == s
  {
    FilterKeepsAll(KeyIsNot(key, id), s);
  }

  /** After removing, the removed id is not found and every other id finds
      what it found before. */
  lemma FindAfterRemove<T>(s: seq<T>, key: T -> int, id: int, other: int)
    requires UniqueIds(s, key)
    ensures Find(Remove(s, key, id), key, other) ==
      if other == id then None else Find(s, key, other)
  {
    var r := Remove(s, key, id);
    if other != id && HasId(s, key, other) {
      var j := PositionOf(s, key, other);
      FindAt(s, key, j);
      if HasId(s, key, id) {
        var i := PositionOf(s, key, id);
        RemoveAt(s, key, i);
        var k := if j < i then j else j - 1;
        assert r[k] == s[j];
        FindAt(r, key, k);
      } else {
        RemoveAbsent(s, key, id);
        FindAt(r, key, j);
      }
    }
  }

  /** After appending an element with a fresh id, that id finds it and every
      other id finds what it found before. */
  lemma FindAfterAppend<T>(s: seq<T>, key: T -> int, e: T, id: int)
    requires UniqueIds(s, key) && !HasId(s, key, key(e))
    ensures UniqueIds(s + [e], key)
    ensures Find(s + [e], key, id) == if id == key(e) then Some(e) else Find(s, key, id)
  {
    var t := s + [e];
    if id == key(e) {
      FindAt(t, key, |s|);
    } else if HasId(s, key, id) {
      var j := PositionOf(s, key, id);
      FindAt(s, key, j);
      FindAt(t, key, j);
    } else {
      assert !HasId(t, key, id);
    }
  }

  /** The store: one sequence per repository. */
  class DataStore {
    var users: seq<User>
    var posts: seq<Post>
    var comments: seq<Comment>

    ghost predicate Valid()
      reads this
    {
      && UniqueIds(users, UserKey)
      && UniqueIds(posts, PostKey)
      && UniqueIds(comments, CommentKey)
    }

    constructor ()
      ensures Valid() && users == [] && posts == [] && comments == []
    {
      users, posts, comments := [], [], [];
    }
  }
}
