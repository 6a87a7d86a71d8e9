/**
 * The Redis keyspace as far as the tag index uses it: named sets of
 * strings. Each function below is one Redis command on a keyspace value;
 * class Store holds the keyspace the application shares and applies the
 * commands to it in place.
 */
module Redis {

  type Keyspace = map<string, set<string>>

  /** The members of a list, as Redis stores them in a set. */
  function Elems(s: seq<string>): (r: set<string>)
    ensures forall x :: x in r <==> x in s
    ensures r == {} <==> s == []
  {
    var r := set x | x in s;
    assert s != [] ==> s[0] in r;
    r
  }

  /** Redis deletes a set once its last member is removed, so no key holds an empty set. */
  ghost predicate NoEmptySets(m: Keyspace) {
    forall k :: k in m ==> m[k] != {}
  }

  /** SMEMBERS: the members of the set at `key`; a missing key reads as the empty set. */
  function Members(m: Keyspace, key: string): set<string> {
    if key in m then m[key] else {}
  }

  /** Two keyspaces without empty sets are equal when every key reads alike. */
  lemma Extensionality(a: Keyspace, b: Keyspace)
    requires NoEmptySets(a) && NoEmptySets(b)
    requires forall k :: Members(a, k) == Members(b, k)
    ensures a == b
  {
    forall k | k in a ensures k in b && a[k] == b[k] {
      assert Members(a, k) == Members(b, k);
    }
    forall k | k in b ensures k in a {
      assert Members(a, k) == Members(b, k);
    }
  }

  /** SADD key member...: adds the members to the set at `key`, creating it if need be. */
  function Add(m: Keyspace, key: string, xs: set<string>): (r: Keyspace)
    requires xs != {}
    ensures Members(r, key) == Members(m, key) + xs
    ensures forall k :: k != key ==> Members(r, k) == Members(m, k)
    ensures NoEmptySets(m) ==> NoEmptySets(r)
  {
    m[key := Members(m, key) + xs]
  }

  /** SREM key member...: removes the members from the set at `key`; the key goes once the set is empty. */
  function Remove(m: Keyspace, key: string, xs: set<string>): (r: Keyspace)
    ensures Members(r, key) == Members(m, key) - xs
    ensures forall k :: k != key ==> Members(r, k) == Members(m, k)
    ensures NoEmptySets(m) ==> NoEmptySets(r)
  {
    var rest := Members(m, key) - xs;
    if rest == {} then m - {key} else m[key := rest]
  }

  /** SINTER key...: the members common to the sets at all the keys. */
  function Inter(m: Keyspace, keys: seq<string>): (r: set<string>)
    requires keys != []
    ensures forall x :: x in r <==> forall i :: 0 <= i < |keys| ==> x in Members(m, keys[i])
    decreases |keys|
  {
    if |keys| == 1 then Members(m, keys[0])
    else Members(m, keys[0]) * Inter(m, keys[1..])
  }

  /** The shared Redis connection (`$redis`): the keyspace, changed in place by SADD and SREM. */
  class Store {
    var sets: Keyspace

    ghost predicate Valid()
      reads this
    {
      NoEmptySets(sets)
    }

    /** An empty database, as after FLUSHDB. */
    constructor ()
      ensures Valid() && sets == map[]
    {
      sets := map[];
    }

    /** SADD; Redis refuses the command without members. */
    method SAdd(key: string, members: seq<string>)
      requires Valid() && members != []
      modifies this
      ensures Valid()
      ensures sets == Add(old(sets), key, Elems(members))
    {
      sets := Add(sets, key, Elems(members));
    }

    /** SREM; Redis refuses the command without members. */
    method SRem(key: string, members: seq<string>)
      requires Valid() && members != []
      modifies this
      ensures Valid()
      ensures sets == Remove(old(sets), key, Elems(members))
    {
      sets := Remove(sets, key, Elems(members));
    }

    /** SMEMBERS */
    function SMembers(key: string): set<string>
      reads this
    {
      Members(sets, key)
    }

    /** SINTER */
    function SInter(keys: seq<string>): set<string>
      requires keys != []
      reads this
    {
      Inter(sets, keys)
    }
  }
}
