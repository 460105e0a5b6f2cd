/** What the route handlers ask of a collection, over a sequence of documents in natural
    order: `find(filter)`, `.sort({ createdAt: -1 })`, `findOne({ id })`. */
module Collection {

  /** `find(filter)`: the documents the filter keeps, in natural order. */
  function Select<T>(s: seq<T>, keep: T -> bool): (r: seq<T>)
    ensures |r| <= |s|
  {
    if |s| == 0 then []
    else if keep(s[0]) then [s[0]] + Select(s[1..], keep)
    else Select(s[1..], keep)
  }

  /** Each document the filter keeps is selected as often as it is stored; no other
      document is selected. */
  lemma {:induction false} SelectCount<T>(s: seq<T>, keep: T -> bool, x: T)
    ensures multiset(Select(s, keep))[x] == if keep(x) then multiset(s)[x] else 0
  {
    if |s| > 0 {
      assert s == [s[0]] + s[1..];
      SelectCount(s[1..], keep, x);
    }
  }

  /** Membership in a selection: kept and stored. */
  lemma SelectMembers<T>(s: seq<T>, keep: T -> bool, x: T)
    ensures x in Select(s, keep) <==> x in s && keep(x)
  {
    SelectCount(s, keep, x);
    assert x in Select(s, keep) <==> multiset(Select(s, keep))[x] > 0;
    assert x in s <==> multiset(s)[x] > 0;
  }

  /** A document the filter drops can be appended without changing the selection. */
  lemma {:induction false} SelectAppendDropped<T>(s: seq<T>, keep: T -> bool, x: T)
    requires !keep(x)
    ensures Select(s + [x], keep) == Select(s, keep)
  {
    if |s| > 0 {
      assert (s + [x])[1..] == s[1..] + [x];
      SelectAppendDropped(s[1..], keep, x);
    }
  }

  /** A document the filter keeps, appended, ends the selection. */
  lemma {:induction false} SelectAppendKept<T>(s: seq<T>, keep: T -> bool, x: T)
    requires keep(x)
    ensures Select(s + [x], keep) == Select(s, keep) + [x]
  {
    if |s| == 0 {
      assert s + [x] == [x];
    } else {
      assert (s + [x])[1..] == s[1..] + [x];
      SelectAppendKept(s[1..], keep, x);
    }
  }

  /** Ordered by the stamp, greatest first. */
  predicate NewestFirst<T>(s: seq<T>, at: T -> int) {
    forall i, j :: 0 <= i < j < |s| ==> at(s[i]) >= at(s[j])
  }

  /** A document no older than the head of a sorted list can be put in front of it. */
  lemma ConsNewestFirst<T>(y: T, t: seq<T>, at: T -> int)
    requires NewestFirst(t, at) && (|t| > 0 ==> at(y) >= at(t[0]))
    ensures NewestFirst([y] + t, at)
  {
    var r := [y] + t;
    forall i, j | 0 <= i < j < |r|
      ensures at(r[i]) >= at(r[j])
    {
      if i == 0 && j > 1 {
        assert at(t[0]) >= at(t[j - 1]);
      }
    }
  }

  /** Places x in front of the first document no newer than it. */
  function Insert<T>(x: T, s: seq<T>, at: T -> int): (r: seq<T>)
    requires NewestFirst(s, at)
    ensures multiset(r) == multiset(s) + multiset{x}
    ensures NewestFirst(r, at)
    ensures |r| == |s| + 1 && (r[0] == x || (|s| > 0 && r[0] == s[0]))
  {
    if |s| == 0 || at(s[0]) <= at(x) then
      ConsNewestFirst(x, s, at);
      [x] + s
    else
      var t := Insert(x, s[1..], at);
      assert s == [s[0]] + s[1..];
      assert at(s[0]) >= at(t[0]);
      ConsNewestFirst(s[0], t, at);
      [s[0]] + t
  }

  /** `.sort({ createdAt: -1 })`: the same documents, newest first. */
  function SortNewest<T>(s: seq<T>, at: T -> int): (r: seq<T>)
    ensures multiset(r) == multiset(s)
    ensures NewestFirst(r, at)
  {
    if |s| == 0 then []
    else
      assert s == [s[0]] + s[1..];
      Insert(s[0], SortNewest(s[1..], at), at)
  }

  /** The position of the first document with the id, or |s| when none has it: the
      document `findOne({ id })` returns. */
  function FirstWithId<T>(s: seq<T>, idOf: T -> string, id: string): (i: nat)
    ensures i <= |s|
    ensures i < |s| ==> idOf(s[i]) == id
    ensures forall j :: 0 <= j < i ==> idOf(s[j]) != id
  {
    if |s| == 0 then 0
    else if idOf(s[0]) == id then 0
    else 1 + FirstWithId(s[1..], idOf, id)
  }

  /** Replacing the document found by one keeping its id leaves it the one found. */
  lemma FoundAfterReplace<T>(s: seq<T>, idOf: T -> string, id: string, x: T)
    requires FirstWithId(s, idOf, id) < |s| && idOf(x) == id
    ensures FirstWithId(s[FirstWithId(s, idOf, id) := x], idOf, id) == FirstWithId(s, idOf, id)
  {
    var i := FirstWithId(s, idOf, id);
    var t := s[i := x];
    var k := FirstWithId(t, idOf, id);
    assert idOf(t[i]) == id;
  }

  /** No two documents share an id: what a unique index keeps true. */
  predicate UniqueIds<T>(s: seq<T>, idOf: T -> string) {
    forall i, j :: 0 <= i < j < |s| ==> idOf(s[i]) != idOf(s[j])
  }
}
