/** The comparator handed to `Array.prototype.sort` subtracts the first
    record's time from the second's, which orders newest first. That sort is stable
    (section 23.1.3.30 of ECMA-262), so records with equal stamps keep their
    relative order; the model is the stable insertion sort with that
    comparator. */
module Recency {
  import opened Users

  /** `r` is `s` put newest first without reordering records of equal stamp. */
  ghost predicate IsStableNewestFirst(s: seq<User>, r: seq<User>) {
    NewestFirst(r) && forall t :: Stamped(r, t) == Stamped(s, t)
  }

  /** Puts `x` in front of the first record not strictly newer than it, so
      `x` lands ahead of the records that share its stamp. */
  function Insert(x: User, s: seq<User>): (r: seq<User>)
    ensures multiset(r) == multiset(s) + multiset{x}
  {
    if s == [] || s[0].createdAt <= x.createdAt then [x] + s
    else
      assert s == [s[0]] + s[1..];
      [s[0]] + Insert(x, s[1..])
  }

  /** Inserting into a newest-first list keeps it newest first. */
  lemma {:induction false} InsertKeepsOrder(x: User, s: seq<User>)
    requires NewestFirst(s)
    ensures NewestFirst(Insert(x, s))
  {
    if s == [] || s[0].createdAt <= x.createdAt {
      ConsKeepsOrder(x, s);
    } else {
      var rest := Insert(x, s[1..]);
      InsertKeepsOrder(x, s[1..]);
      InsertedIsNoNewer(x, s, rest);
      ConsKeepsOrder(s[0], rest);
    }
  }

  lemma InsertedIsNoNewer(x: User, s: seq<User>, rest: seq<User>)
    requires s != [] && s[0].createdAt > x.createdAt
    requires NewestFirst(s)
    requires multiset(rest) == multiset(s[1..]) + multiset{x}
    ensures NoneNewer(s[0], rest)
  {
    forall k | 0 <= k < |rest|
      ensures rest[k].createdAt <= s[0].createdAt
    {
      assert rest[k] in multiset(rest);
      if rest[k] != x {
        assert rest[k] in multiset(s[1..]);
        var j :| 0 <= j < |s[1..]| && s[1..][j] == rest[k];
        assert s[j + 1] == rest[k];
      }
    }
  }

  /** The list `sortUsers` and `loadUsers` leave behind. */
  function SortByRecency(s: seq<User>): (r: seq<User>)
    ensures multiset(r) == multiset(s)
    ensures NewestFirst(r)
  {
    if s == [] then []
    else
      assert s == [s[0]] + s[1..];
      var rest := SortByRecency(s[1..]);
      InsertKeepsOrder(s[0], rest);
      Insert(s[0], rest)
  }

  /** Inserting `x` adds it at the front of its own stamp's records and
      leaves every other stamp's records alone. */
  lemma {:induction false} StampedInsert(x: User, s: seq<User>, t: int)
    ensures Stamped(Insert(x, s), t) == (if x.createdAt == t then [x] else []) + Stamped(s, t)
  {
    if s == [] || s[0].createdAt <= x.createdAt {
      StampedCons(x, s, t);
    } else {
      var tail := s[1..];
      var inserted := Insert(x, tail);
      assert Insert(x, s) == [s[0]] + inserted;
      StampedInsert(x, tail, t);
      StampedCons(s[0], inserted, t);
      StampedCons(s[0], tail, t);
      assert [s[0]] + tail == s;
      if x.createdAt == t {
        assert Stamped(Insert(x, s), t) == Stamped(inserted, t);
        assert Stamped(s, t) == Stamped(tail, t);
      } else {
        assert Stamped(inserted, t) == Stamped(tail, t);
      }
    }
  }

  /** The sort is stable: for every stamp, the records carrying it come out
      in the order they went in. */
  lemma {:induction false} SortIsStable(s: seq<User>, t: int)
    ensures Stamped(SortByRecency(s), t) == Stamped(s, t)
  {
    if s != [] {
      SortIsStable(s[1..], t);
      StampedInsert(s[0], SortByRecency(s[1..]), t);
    }
  }

  /** There is only one stable newest-first arrangement of a list: two
      newest-first lists that agree on every stamp's records are equal. */
  lemma {:induction false} StableOrderIsUnique(a: seq<User>, b: seq<User>)
    requires NewestFirst(a) && NewestFirst(b)
    requires forall t :: Stamped(a, t) == Stamped(b, t)
    ensures a == b
  {
    if a == [] || b == [] {
      EmptyAgreesOnlyWithEmpty(a, b);
    } else {
      var ta := a[0].createdAt;
      StampHeadIsNewest(a, b, ta);
      StampHeadIsNewest(b, a, b[0].createdAt);
      HeadsAndTailsAgree(a, b);
      StableOrderIsUnique(a[1..], b[1..]);
      assert a == [a[0]] + a[1..] && b == [b[0]] + b[1..];
    }
  }

  lemma EmptyAgreesOnlyWithEmpty(a: seq<User>, b: seq<User>)
    requires a == [] || b == []
    requires forall t :: Stamped(a, t) == Stamped(b, t)
    ensures a == b
  {
    if a != [] {
      StampedHead(a);
    } else if b != [] {
      StampedHead(b);
    }
  }

  /** Lists whose heads share a stamp and that agree on every stamp's
      records have the same head, and their tails agree on every stamp. */
  lemma HeadsAndTailsAgree(a: seq<User>, b: seq<User>)
    requires a != [] && b != [] && a[0].createdAt == b[0].createdAt
    requires forall t :: Stamped(a, t) == Stamped(b, t)
    ensures a[0] == b[0]
    ensures forall t :: Stamped(a[1..], t) == Stamped(b[1..], t)
  {
    var ta := a[0].createdAt;
    StampedTail(a, ta);
    StampedTail(b, ta);
    StampedHead(a);
    StampedHead(b);
    assert Stamped(a, ta)[0] == Stamped(b, ta)[0];
    forall t
      ensures Stamped(a[1..], t) == Stamped(b[1..], t)
    {
      StampedTail(a, t);
      StampedTail(b, t);
    }
  }

  /** The head of a list opens its own stamp's records. */
  lemma StampedHead(a: seq<User>)
    requires a != []
    ensures Stamped(a, a[0].createdAt) != [] && Stamped(a, a[0].createdAt)[0] == a[0]
  {
    assert a == [a[0]] + a[1..];
    StampedCons(a[0], a[1..], a[0].createdAt);
  }

  /** Dropping the head removes it from its own stamp's records only. */
  lemma StampedTail(a: seq<User>, t: int)
    requires a != []
    ensures Stamped(a, t) != [] || a[0].createdAt != t
    ensures Stamped(a[1..], t) == if a[0].createdAt == t then Stamped(a, t)[1..] else Stamped(a, t)
  {
    assert a == [a[0]] + a[1..];
    StampedCons(a[0], a[1..], t);
  }

  /** A record of `a` stamped `t` also sits in `b`, whose head is therefore
      at least as new. */
  lemma StampHeadIsNewest(a: seq<User>, b: seq<User>, t: int)
    requires a != [] && b != [] && a[0].createdAt == t
    requires NewestFirst(b)
    requires Stamped(a, t) == Stamped(b, t)
    ensures b[0].createdAt >= t
  {
    StampedMembers(a, t, a[0]);
    StampedMembers(b, t, a[0]);
    var k :| 0 <= k < |b| && b[k] == a[0];
  }

  /** `SortByRecency` is exactly the stable newest-first rearrangement:
      a list is its result if and only if it is newest first and keeps every
      stamp's records in their input order. */
  lemma SortIsTheStableOrder(s: seq<User>, r: seq<User>)
    ensures r == SortByRecency(s) <==> IsStableNewestFirst(s, r)
  {
    forall t ensures Stamped(SortByRecency(s), t) == Stamped(s, t) {
      SortIsStable(s, t);
    }
    if IsStableNewestFirst(s, r) {
      StableOrderIsUnique(r, SortByRecency(s));
    }
  }

  /** Re-sorting a list that is already newest first changes nothing. */
  lemma SortKeepsSortedList(s: seq<User>)
    requires NewestFirst(s)
    ensures SortByRecency(s) == s
  {
    SortIsTheStableOrder(s, s);
  }

  /** Putting `x` in front of a newest-first list and re-sorting places `x`
      ahead of every record of its stamp and behind every newer one. */
  lemma UnshiftThenSortIsInsert(x: User, s: seq<User>)
    requires NewestFirst(s)
    ensures SortByRecency([x] + s) == Insert(x, s)
  {
    assert ([x] + s)[1..] == s;
    SortKeepsSortedList(s);
  }
}
