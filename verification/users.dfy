/** The user record and the list queries the view applies to its in-memory
    copy of the directory: the newest-first order, `findIndex` by id and
    `filter` by id. */
module Users {

  /** One directory record. `createdAt` stands for the instant
      `new Date(createdAt).getTime()` of the record's ISO-8601 string. */
  datatype User = User(id: string, name: string, email: string, mobile: string, createdAt: int)

  /** Newest first: `createdAt` never increases from the front to the back. */
  predicate NewestFirst(s: seq<User>) {
    forall i, j :: 0 <= i < j < |s| ==> s[i].createdAt >= s[j].createdAt
  }

  /** The records of `s` stamped `t`, kept in their order in `s`. Two lists
      with the same `Stamped` sub-sequences for every `t` differ only in how
      records with different stamps are interleaved. */
  function Stamped(s: seq<User>, t: int): (r: seq<User>)
  {
    if s == [] then []
    else (if s[0].createdAt == t then [s[0]] else []) + Stamped(s[1..], t)
  }

  /** A record is among `s`'s records stamped `t` iff it is in `s` and
      carries that stamp. */
  lemma {:induction false} StampedMembers(s: seq<User>, t: int, u: User)
    ensures u in Stamped(s, t) <==> u in s && u.createdAt == t
  {
    if s != [] {
      StampedMembers(s[1..], t, u);
      assert s == [s[0]] + s[1..];
    }
  }

  /** Filtering by stamp distributes over putting one record in front. */
  lemma StampedCons(u: User, s: seq<User>, t: int)
    ensures Stamped([u] + s, t) == (if u.createdAt == t then [u] else []) + Stamped(s, t)
  {
    assert ([u] + s)[1..] == s;
  }

  /** `findIndex` with strict equality on the id: the first index whose record
      carries `id`, or -1 when there is none. */
  function FindIndex(s: seq<User>, id: string): (r: int)
    ensures -1 <= r < |s|
    ensures r == -1 <==> forall k :: 0 <= k < |s| ==> s[k].id != id
    ensures 0 <= r ==> s[r].id == id && forall k :: 0 <= k < r ==> s[k].id != id
  {
    if s == [] then -1
    else if s[0].id == id then 0
    else
      var k := FindIndex(s[1..], id);
      if k == -1 then -1 else k + 1
  }

  /** `filter` keeping the records whose id differs: every record that does not
      carry `id`, each as often as before, and nothing else. */
  function WithoutId(s: seq<User>, id: string): (r: seq<User>)
    ensures forall u :: multiset(r)[u] == if u.id == id then 0 else multiset(s)[u]
    ensures forall u :: u in r <==> u in s && u.id != id
  {
    if s == [] then []
    else
      var rest := WithoutId(s[1..], id);
      assert s == [s[0]] + s[1..];
      (if s[0].id != id then [s[0]] else []) + rest
  }

  /** No record of `s` is newer than `u`. */
  predicate NoneNewer(u: User, s: seq<User>) {
    forall k :: 0 <= k < |s| ==> s[k].createdAt <= u.createdAt
  }

  lemma ConsKeepsOrder(u: User, s: seq<User>)
    requires NewestFirst(s)
    requires NoneNewer(u, s)
    ensures NewestFirst([u] + s)
  {
  }

  /** The head of a newest-first list is at least as new as its tail. */
  lemma HeadIsNewest(s: seq<User>)
    requires s != [] && NewestFirst(s)
    ensures NoneNewer(s[0], s[1..])
  {
  }

  /** Keeping fewer records keeps `u` at least as new as all of them. */
  lemma NoneNewerOfFewer(u: User, s: seq<User>, fewer: seq<User>)
    requires NoneNewer(u, s)
    requires forall v :: v in fewer ==> v in s
    ensures NoneNewer(u, fewer)
  {
    forall k | 0 <= k < |fewer|
      ensures fewer[k].createdAt <= u.createdAt
    {
      assert fewer[k] in s;
    }
  }

  /** Dropping records keeps the newest-first order. */
  lemma {:induction false} WithoutIdKeepsOrder(s: seq<User>, id: string)
    requires NewestFirst(s)
    ensures NewestFirst(WithoutId(s, id))
  {
    if s != [] {
      var tail := s[1..];
      WithoutIdKeepsOrder(tail, id);
      var rest := WithoutId(tail, id);
      if s[0].id != id {
        assert WithoutId(s, id) == [s[0]] + rest;
        HeadIsNewest(s);
        NoneNewerOfFewer(s[0], tail, rest);
        ConsKeepsOrder(s[0], rest);
      } else {
        assert WithoutId(s, id) == rest;
      }
    }
  }
}
