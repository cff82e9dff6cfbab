/**
 The in-memory entity store of the Clients service: an ordered collection of
 client records with first-match lookup by id, append, remove-by-id and reset.

 The store is a class whose one field, `entities`, is changed by its methods.
 The functions `Find` and `Without` specify the two library calls the store
 makes on that field (a first-match search and an order-keeping filter), and
 the lemmas below them state what the store promises about them.
 */
module ClientStore {

  datatype Option<+T> = None | Some(value: T)

  /** A client record. The store inspects only `id`; the rest is payload. */
  datatype Client = Client(id: int, firstName: string, lastName: string, age: int)

  /** Some entity of `s` carries the id `id`. */
  predicate HasId(s: seq<Client>, id: int) {
    exists i :: 0 <= i < |s| && s[i].id == id
  }

  /** `k` is the position of the first entity of `s` whose id is `id`. */
  predicate FirstMatchAt(s: seq<Client>, id: int, k: int) {
    && 0 <= k < |s|
    && s[k].id == id
    && forall j :: 0 <= j < k ==> s[j].id != id
  }

  /** No two entities of `s` share an id. */
  predicate UniqueIds(s: seq<Client>) {
    forall i, j :: 0 <= i < j < |s| ==> s[i].id != s[j].id
  }

  /**
   The search `getById` performs: scan in order and return the first entity
   whose id matches, or nothing when none does.
   */
  function Find(s: seq<Client>, id: int): (r: Option<Client>)
    ensures r.None? <==> !HasId(s, id)
    ensures r.Some? ==> exists k :: FirstMatchAt(s, id, k) && r.value == s[k]
  {
    if |s| == 0 then None
    else if s[0].id == id then
      assert FirstMatchAt(s, id, 0);
      Some(s[0])
    else
      var r := Find(s[1..], id);
      assert HasId(s[1..], id) ==> HasId(s, id) by {
        if HasId(s[1..], id) {
          var i :| 0 <= i < |s[1..]| && s[1..][i].id == id;
          assert s[i + 1].id == id;
        }
      }
      assert HasId(s, id) ==> HasId(s[1..], id) by {
        if HasId(s, id) {
          var i :| 0 <= i < |s| && s[i].id == id;
          assert i != 0 && s[1..][i - 1].id == id;
        }
      }
      assert r.Some? ==> exists k :: FirstMatchAt(s, id, k) && r.value == s[k] by {
        if r.Some? {
          var k :| FirstMatchAt(s[1..], id, k) && r.value == s[1..][k];
          assert FirstMatchAt(s, id, k + 1);
        }
      }
      r
  }

  /**
   The filter `remove` performs: keep exactly the entities whose id differs
   from `id`, in their original order.
   */
  function Without(s: seq<Client>, id: int): (r: seq<Client>)
    ensures |r| <= |s|
    ensures HasId(s, id) ==> |r| < |s|
    ensures !HasId(r, id)
    ensures forall c :: c in r <==> c in s && c.id != id
  {
    if |s| == 0 then []
    else
      var rest := Without(s[1..], id);
      assert s == [s[0]] + s[1..];
      assert HasId(s, id) ==> s[0].id == id || HasId(s[1..], id) by {
        if HasId(s, id) && s[0].id != id {
          var i :| 0 <= i < |s| && s[i].id == id;
          assert s[1..][i - 1].id == id;
        }
      }
      if s[0].id != id then
        var r := [s[0]] + rest;
        assert !HasId(r, id) by {
          forall i | 0 <= i < |r| ensures r[i].id != id {
            if i > 0 { assert r[i] == rest[i - 1]; }
          }
        }
        r
      else
        rest
  }

  /**
   Removing changes no entity's count except that every entity with the id
   is gone: the remaining entities are those of `s` with other ids, no more
   and no fewer.
   */
  lemma {:induction false} WithoutCounts(s: seq<Client>, id: int, c: Client)
    ensures multiset(Without(s, id))[c] == if c.id == id then 0 else multiset(s)[c]
  {
    if |s| > 0 {
      WithoutCounts(s[1..], id, c);
      assert s == [s[0]] + s[1..];
      assert multiset(s) == multiset([s[0]]) + multiset(s[1..]);
      if s[0].id != id {
        assert multiset(Without(s, id)) == multiset([s[0]]) + multiset(Without(s[1..], id));
      }
    }
  }

  /** Filtering a concatenation filters each part: the kept entities keep their order. */
  lemma {:induction false} WithoutAppend(a: seq<Client>, b: seq<Client>, id: int)
    ensures Without(a + b, id) == Without(a, id) + Without(b, id)
  {
    if |a| == 0 {
      assert a + b == b;
    } else {
      assert (a + b)[0] == a[0];
      assert (a + b)[1..] == a[1..] + b;
      WithoutAppend(a[1..], b, id);
    }
  }

  /** Removing leaves the collection unchanged exactly when no entity has that id. */
  lemma {:induction false} WithoutAbsent(s: seq<Client>, id: int)
    ensures Without(s, id) == s <==> !HasId(s, id)
  {
    if |s| > 0 {
      WithoutAbsent(s[1..], id);
      if !HasId(s, id) {
        assert s[0].id != id;
        assert !HasId(s[1..], id) by {
          forall i | 0 <= i < |s[1..]| ensures s[1..][i].id != id {
            assert s[1..][i] == s[i + 1];
          }
        }
        assert s == [s[0]] + s[1..];
      }
    }
  }

  /** Removing an id twice leaves the same collection as removing it once. */
  lemma {:induction false} WithoutIdempotent(s: seq<Client>, id: int)
    ensures Without(Without(s, id), id) == Without(s, id)
  {
    WithoutAbsent(Without(s, id), id);
  }

  /** Removing one id does not change which entity a lookup of another id finds. */
  lemma {:induction false} FindWithoutOther(s: seq<Client>, id: int, other: int)
    requires other != id
    ensures Find(Without(s, id), other) == Find(s, other)
  {
    if |s| > 0 {
      FindWithoutOther(s[1..], id, other);
      if s[0].id != id {
        assert ([s[0]] + Without(s[1..], id))[1..] == Without(s[1..], id);
      }
    }
  }

  /**
   Looking up after an append: the earlier entities win; the appended one is
   found only when no earlier entity has that id.
   */
  lemma {:induction false} FindAppend(s: seq<Client>, e: Client, id: int)
    ensures Find(s + [e], id) ==
      if HasId(s, id) then Find(s, id)
      else if e.id == id then Some(e)
      else None
  {
    if |s| == 0 {
      assert s + [e] == [e];
    } else {
      assert (s + [e])[0] == s[0];
      assert (s + [e])[1..] == s[1..] + [e];
      FindAppend(s[1..], e, id);
      if s[0].id != id {
        assert HasId(s[1..], id) ==> HasId(s, id) by {
          if HasId(s[1..], id) {
            var i :| 0 <= i < |s[1..]| && s[1..][i].id == id;
            assert s[i + 1].id == id;
          }
        }
        assert HasId(s, id) ==> HasId(s[1..], id) by {
          if HasId(s, id) {
            var i :| 0 <= i < |s| && s[i].id == id;
            assert s[1..][i - 1].id == id;
          }
        }
      } else {
        assert HasId(s, id) by { assert s[0].id == id; }
      }
    }
  }

  /** Appending an entity with a fresh id keeps ids unique. */
  lemma AddFreshKeepsUnique(s: seq<Client>, e: Client)
    requires UniqueIds(s)
    requires !HasId(s, e.id)
    ensures UniqueIds(s + [e])
  {
  }

  /** Removing never breaks uniqueness of ids. */
  lemma {:induction false} WithoutKeepsUnique(s: seq<Client>, id: int)
    requires UniqueIds(s)
    ensures UniqueIds(Without(s, id))
  {
    if |s| > 0 {
      var rest := Without(s[1..], id);
      assert UniqueIds(s[1..]) by {
        forall i, j | 0 <= i < j < |s[1..]| ensures s[1..][i].id != s[1..][j].id {
          assert s[1..][i] == s[i + 1] && s[1..][j] == s[j + 1];
        }
      }
      WithoutKeepsUnique(s[1..], id);
      if s[0].id != id {
        var r := [s[0]] + rest;
        forall i, j | 0 <= i < j < |r| ensures r[i].id != r[j].id {
          if i == 0 {
            assert r[j] == rest[j - 1];
            assert rest[j - 1] in s[1..];
            var k :| 0 <= k < |s[1..]| && s[1..][k] == rest[j - 1];
            assert s[k + 1] == rest[j - 1];
          } else {
            assert r[i] == rest[i - 1] && r[j] == rest[j - 1];
          }
        }
      }
    }
  }

  /** With unique ids, a lookup finds an entity exactly when it is stored under that id. */
  lemma UniqueFind(s: seq<Client>, id: int, c: Client)
    requires UniqueIds(s)
    ensures Find(s, id) == Some(c) <==> c in s && c.id == id
  {
  }

  /** The store: the collection lives in the one field `entities`. */
  class Repository {
    var entities: seq<Client>

    /** A fresh store holds no entities. */
    constructor ()
      ensures entities == []
    {
      entities := [];
    }

    /** The current collection, in insertion order; reading it changes nothing. */
    function FetchAll(): (r: seq<Client>)
      reads this
      ensures r == entities
    {
      entities
    }

    /** The first stored entity whose id is `id`, or nothing. */
    function GetById(id: int): (r: Option<Client>)
      reads this
      ensures r == Find(entities, id)
    {
      Find(entities, id)
    }

    /** Appends `e` after every entity already stored; ids are not checked. */
    method Add(e: Client)
      modifies this
      ensures entities == old(entities) + [e]
      ensures !HasId(old(entities), e.id) ==> GetById(e.id) == Some(e)
      ensures forall id :: old(HasId(entities, id)) ==> GetById(id) == old(GetById(id))
    {
      FindAppend(entities, e, e.id);
      forall id | HasId(entities, id) ensures Find(entities + [e], id) == Find(entities, id) {
        FindAppend(entities, e, id);
      }
      entities := entities + [e];
    }

    /** Drops every entity whose id is `id` and keeps the others in order. */
    method Remove(id: int)
      modifies this
      ensures entities == Without(old(entities), id)
      ensures GetById(id) == None
      ensures !old(HasId(entities, id)) ==> entities == old(entities)
      ensures forall other :: other != id ==> GetById(other) == old(GetById(other))
    {
      WithoutAbsent(entities, id);
      forall other | other != id ensures Find(Without(entities, id), other) == Find(entities, other) {
        FindWithoutOther(entities, id, other);
      }
      entities := Without(entities, id);
    }

    /** Empties the store. */
    method Clear()
      modifies this
      ensures entities == []
      ensures forall id :: GetById(id) == None
    {
      entities := [];
    }
  }

  /** The three clients the contract interactions expect the store to hold. */
  const Fixture: seq<Client> := [
    Client(1, "Lisa", "Simpson", 8),
    Client(2, "Wonder", "Woman", 30),
    Client(3, "Homer", "Simpson", 39)
  ]

  /**
   On the fixture, ids are unique, id 1 finds Lisa, id 999 finds nothing, and
   removing id 1 leaves the other two in order.
   */
  lemma FixtureFacts()
    ensures UniqueIds(Fixture)
    ensures Find(Fixture, 1) == Some(Client(1, "Lisa", "Simpson", 8))
    ensures Find(Fixture, 999) == None
    ensures Without(Fixture, 1) == Fixture[1..]
  {
  }

  /**
   A caller's walk through the fixture: load the three clients, look up a
   present and an absent id, remove id 1 twice, then clear. Every assertion
   follows from the contracts above.
   */
  method FixtureScenario()
  {
    FixtureFacts();
    var repo := new Repository();
    repo.Add(Fixture[0]);
    repo.Add(Fixture[1]);
    repo.Add(Fixture[2]);
    assert repo.FetchAll() == Fixture;
    assert repo.GetById(1) == Some(Client(1, "Lisa", "Simpson", 8));
    assert repo.GetById(999) == None;

    repo.Remove(1);
    assert repo.FetchAll() == Fixture[1..];
    assert repo.GetById(1) == None;
    repo.Remove(1);
    assert repo.FetchAll() == Fixture[1..];

    repo.Clear();
    assert repo.FetchAll() == [];
    assert repo.GetById(1) == None;
  }
}
