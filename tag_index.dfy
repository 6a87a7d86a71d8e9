/**
 * What the tag index does to the Redis keyspace, as functions of the
 * keyspace before the call: the tag list the `Tags` constructor keeps,
 * the effect of `add_user` and `remove_user`, and the answer of `users`.
 * The methods of class `Models.Tags` are proved to compute exactly these.
 */
module TagIndex {
  import opened RubyText
  import opened Keys
  import opened Redis

  /** The constructor's filter: drops the entries that strip to nothing and
      keeps the others as they are (unstripped, duplicates kept, in order). */
  function Clean(tagArray: seq<string>): (r: seq<string>)
    ensures |r| <= |tagArray|
    ensures forall i :: 0 <= i < |r| ==> !IsBlank(r[i])
    decreases |tagArray|
  {
    if tagArray == [] then []
    else (if IsBlank(tagArray[0]) then [] else [tagArray[0]]) + Clean(tagArray[1..])
  }

  /** Each non-blank entry is kept as often as it occurs, each blank one never. */
  lemma {:induction false} CleanCounts(tagArray: seq<string>, t: string)
    ensures multiset(Clean(tagArray))[t] == if IsBlank(t) then 0 else multiset(tagArray)[t]
    decreases |tagArray|
  {
    if tagArray != [] {
      assert tagArray == [tagArray[0]] + tagArray[1..];
      CleanCounts(tagArray[1..], t);
    }
  }

  /** The filter works entry by entry, so it keeps the original order. */
  lemma {:induction false} CleanAppend(a: seq<string>, b: seq<string>)
    ensures Clean(a + b) == Clean(a) + Clean(b)
    decreases |a|
  {
    if a == [] {
      assert a + b == b;
    } else {
      var head := if IsBlank(a[0]) then [] else [a[0]];
      assert (a + b)[0] == a[0];
      assert (a + b)[1..] == a[1..] + b;
      assert Clean(a + b) == head + Clean(a[1..] + b);
      CleanAppend(a[1..], b);
      assert Clean(a) == head + Clean(a[1..]);
    }
  }

  /** A one-entry list is kept exactly when the entry is not blank. */
  lemma CleanSingleton(t: string)
    ensures Clean([t]) == if IsBlank(t) then [] else [t]
  {
  }

  /** Every kept tag is one of the given entries, and not blank. */
  lemma CleanMembers(tagArray: seq<string>)
    ensures forall t :: t in Clean(tagArray) <==> t in tagArray && !IsBlank(t)
  {
    var r := Clean(tagArray);
    forall t ensures t in r <==> t in tagArray && !IsBlank(t) {
      CleanCounts(tagArray, t);
      assert t in r <==> multiset(r)[t] > 0;
      assert t in tagArray <==> multiset(tagArray)[t] > 0;
    }
  }

  /** Nothing is kept exactly when every entry is blank. */
  lemma CleanEmptyIff(tagArray: seq<string>)
    ensures Clean(tagArray) == [] <==> forall i :: 0 <= i < |tagArray| ==> IsBlank(tagArray[i])
  {
    CleanMembers(tagArray);
    if Clean(tagArray) != [] {
      assert Clean(tagArray)[0] in Clean(tagArray);
    }
  }

  /** The keys of the user sets of the given tags. */
  function TagKeys(tags: seq<string>): set<string> {
    set t | t in tags :: TagUsersKey(t)
  }

  lemma TagKeysAt(tags: seq<string>, id: nat, t: string)
    ensures TagUsersKey(t) in TagKeys(tags) <==> t in tags
    ensures UserTagsKey(id) !in TagKeys(tags)
  {
    forall s | s in tags ensures TagUsersKey(s) != UserTagsKey(id) && (TagUsersKey(s) == TagUsersKey(t) ==> s == t) {
      KeysDisjoint(id, s);
      TagUsersKeyInjective(s, t);
    }
  }

  // ---------------------------------------------------------------------
  // add_user

  /** The `each` loop of `add_user`: SADD of `member` to the user set of
      every tag in order. */
  function AddToTagSets(m: Keyspace, tags: seq<string>, member: string): (r: Keyspace)
    ensures NoEmptySets(m) ==> NoEmptySets(r)
    decreases |tags|
  {
    if tags == [] then m
    else Add(AddToTagSets(m, tags[..|tags| - 1], member), TagUsersKey(tags[|tags| - 1]), {member})
  }

  /** The `multi` block of `add_user` for user `id`: one SADD of all tags to
      the user's set, then the loop; nothing when the list is empty. */
  function Attach(m: Keyspace, id: nat, tags: seq<string>): (r: Keyspace)
    ensures NoEmptySets(m) ==> NoEmptySets(r)
  {
    if |tags| > 0 then AddToTagSets(Add(m, UserTagsKey(id), Elems(tags)), tags, IntToS(id)) else m
  }

  /** The loop adds `member` to the sets at the tag keys and touches nothing else. */
  lemma {:induction false} AddToTagSetsAt(m: Keyspace, tags: seq<string>, member: string, k: string)
    ensures Members(AddToTagSets(m, tags, member), k)
            == Members(m, k) + (if k in TagKeys(tags) then {member} else {})
    decreases |tags|
  {
    if tags != [] {
      var init, last := tags[..|tags| - 1], tags[|tags| - 1];
      assert tags == init + [last];
      assert TagKeys(tags) == TagKeys(init) + {TagUsersKey(last)};
      AddToTagSetsAt(m, init, member, k);
    }
  }

  /** Every key after `add_user`, read as a set. */
  lemma AttachAt(m: Keyspace, id: nat, tags: seq<string>, k: string)
    ensures Members(Attach(m, id, tags), k)
            == Members(m, k)
               + (if k == UserTagsKey(id) then Elems(tags) else {})
               + (if k in TagKeys(tags) then {IntToS(id)} else {})
  {
    if |tags| > 0 {
      AddToTagSetsAt(Add(m, UserTagsKey(id), Elems(tags)), tags, IntToS(id), k);
    }
  }

  /** `add_user`: the user's set gains the listed tags, each listed tag's set
      gains the user's id, and every other key stays as it was. */
  lemma AttachEffect(m: Keyspace, id: nat, tags: seq<string>)
    ensures Members(Attach(m, id, tags), UserTagsKey(id)) == Members(m, UserTagsKey(id)) + Elems(tags)
    ensures forall t :: Members(Attach(m, id, tags), TagUsersKey(t))
                        == if t in tags then Members(m, TagUsersKey(t)) + {IntToS(id)} else Members(m, TagUsersKey(t))
    ensures forall k :: k != UserTagsKey(id) && k !in TagKeys(tags) ==> Members(Attach(m, id, tags), k) == Members(m, k)
  {
    var r := Attach(m, id, tags);
    AttachAt(m, id, tags, UserTagsKey(id));
    TagKeysAt(tags, id, "");
    forall t ensures Members(r, TagUsersKey(t))
                     == if t in tags then Members(m, TagUsersKey(t)) + {IntToS(id)} else Members(m, TagUsersKey(t)) {
      AttachAt(m, id, tags, TagUsersKey(t));
      TagKeysAt(tags, id, t);
      KeysDisjoint(id, t);
    }
    forall k | k != UserTagsKey(id) && k !in TagKeys(tags) ensures Members(r, k) == Members(m, k) {
      AttachAt(m, id, tags, k);
    }
  }

  /** Duplicates do not matter: `add_user` depends only on which tags are listed. */
  lemma AttachIgnoresDuplicates(m: Keyspace, id: nat, a: seq<string>, b: seq<string>)
    requires NoEmptySets(m)
    requires Elems(a) == Elems(b)
    ensures Attach(m, id, a) == Attach(m, id, b)
  {
    assert TagKeys(a) == TagKeys(b);
    forall k ensures Members(Attach(m, id, a), k) == Members(Attach(m, id, b), k) {
      AttachAt(m, id, a, k);
      AttachAt(m, id, b, k);
    }
    Extensionality(Attach(m, id, a), Attach(m, id, b));
  }

  // ---------------------------------------------------------------------
  // remove_user

  /** The `each` loop of `remove_user`: SREM of `member` from the user set
      of every tag in order. */
  function RemoveFromTagSets(m: Keyspace, tags: seq<string>, member: string): (r: Keyspace)
    ensures NoEmptySets(m) ==> NoEmptySets(r)
    decreases |tags|
  {
    if tags == [] then m
    else Remove(RemoveFromTagSets(m, tags[..|tags| - 1], member), TagUsersKey(tags[|tags| - 1]), {member})
  }

  /** The `multi` block of `remove_user` for user `id`: one SREM of all tags
      from the user's set, then the loop; nothing when the list is empty. */
  function Detach(m: Keyspace, id: nat, tags: seq<string>): (r: Keyspace)
    ensures NoEmptySets(m) ==> NoEmptySets(r)
  {
    if |tags| > 0 then RemoveFromTagSets(Remove(m, UserTagsKey(id), Elems(tags)), tags, IntToS(id)) else m
  }

  lemma {:induction false} RemoveFromTagSetsAt(m: Keyspace, tags: seq<string>, member: string, k: string)
    ensures Members(RemoveFromTagSets(m, tags, member), k)
            == Members(m, k) - (if k in TagKeys(tags) then {member} else {})
    decreases |tags|
  {
    if tags != [] {
      var init, last := tags[..|tags| - 1], tags[|tags| - 1];
      assert tags == init + [last];
      assert TagKeys(tags) == TagKeys(init) + {TagUsersKey(last)};
      RemoveFromTagSetsAt(m, init, member, k);
    }
  }

  /** Every key after `remove_user`, read as a set. */
  lemma DetachAt(m: Keyspace, id: nat, tags: seq<string>, k: string)
    ensures Members(Detach(m, id, tags), k)
            == Members(m, k)
               - (if k == UserTagsKey(id) then Elems(tags) else {})
               - (if k in TagKeys(tags) then {IntToS(id)} else {})
  {
    if |tags| > 0 {
      RemoveFromTagSetsAt(Remove(m, UserTagsKey(id), Elems(tags)), tags, IntToS(id), k);
    }
  }

  /** `remove_user`: the user's set loses the listed tags (tags it never had
      are ignored), each listed tag's set loses the user's id, and every
      other key stays as it was. */
  lemma DetachEffect(m: Keyspace, id: nat, tags: seq<string>)
    ensures Members(Detach(m, id, tags), UserTagsKey(id)) == Members(m, UserTagsKey(id)) - Elems(tags)
    ensures forall t :: Members(Detach(m, id, tags), TagUsersKey(t))
                        == if t in tags then Members(m, TagUsersKey(t)) - {IntToS(id)} else Members(m, TagUsersKey(t))
    ensures forall k :: k != UserTagsKey(id) && k !in TagKeys(tags) ==> Members(Detach(m, id, tags), k) == Members(m, k)
  {
    var r := Detach(m, id, tags);
    DetachAt(m, id, tags, UserTagsKey(id));
    TagKeysAt(tags, id, "");
    forall t ensures Members(r, TagUsersKey(t))
                     == if t in tags then Members(m, TagUsersKey(t)) - {IntToS(id)} else Members(m, TagUsersKey(t)) {
      DetachAt(m, id, tags, TagUsersKey(t));
      TagKeysAt(tags, id, t);
      KeysDisjoint(id, t);
    }
    forall k | k != UserTagsKey(id) && k !in TagKeys(tags) ensures Members(r, k) == Members(m, k) {
      DetachAt(m, id, tags, k);
    }
  }

  /** Duplicates do not matter: `remove_user` depends only on which tags are listed. */
  lemma DetachIgnoresDuplicates(m: Keyspace, id: nat, a: seq<string>, b: seq<string>)
    requires NoEmptySets(m)
    requires Elems(a) == Elems(b)
    ensures Detach(m, id, a) == Detach(m, id, b)
  {
    assert TagKeys(a) == TagKeys(b);
    forall k ensures Members(Detach(m, id, a), k) == Members(Detach(m, id, b), k) {
      DetachAt(m, id, a, k);
      DetachAt(m, id, b, k);
    }
    Extensionality(Detach(m, id, a), Detach(m, id, b));
  }

  // ---------------------------------------------------------------------
  // The two-way invariant

  /** A user carries a tag exactly when the tag's set holds the user's id. */
  ghost predicate Mirrored(m: Keyspace) {
    forall id: nat, t: string :: t in Members(m, UserTagsKey(id)) <==> IntToS(id) in Members(m, TagUsersKey(t))
  }

  lemma AttachPreservesMirrored(m: Keyspace, id: nat, tags: seq<string>)
    requires Mirrored(m)
    ensures Mirrored(Attach(m, id, tags))
  {
    var r := Attach(m, id, tags);
    AttachEffect(m, id, tags);
    forall u: nat, t: string ensures t in Members(r, UserTagsKey(u)) <==> IntToS(u) in Members(r, TagUsersKey(t)) {
      UserTagsKeyInjective(u, id);
      IntToSInjective(u, id);
      TagKeysAt(tags, u, t);
    }
  }

  lemma DetachPreservesMirrored(m: Keyspace, id: nat, tags: seq<string>)
    requires Mirrored(m)
    ensures Mirrored(Detach(m, id, tags))
  {
    var r := Detach(m, id, tags);
    DetachEffect(m, id, tags);
    forall u: nat, t: string ensures t in Members(r, UserTagsKey(u)) <==> IntToS(u) in Members(r, TagUsersKey(t)) {
      UserTagsKeyInjective(u, id);
      IntToSInjective(u, id);
      TagKeysAt(tags, u, t);
    }
  }

  /** `x` is the decimal form of some user id. */
  ghost predicate IsId(x: string) {
    exists id: nat :: x == IntToS(id)
  }

  /** Every member of a tag's set is a user id, as `add_user` writes them. */
  ghost predicate TagSetsHoldIds(m: Keyspace) {
    forall t, x :: x in Members(m, TagUsersKey(t)) ==> IsId(x)
  }

  lemma AttachKeepsIds(m: Keyspace, id: nat, tags: seq<string>)
    requires TagSetsHoldIds(m)
    ensures TagSetsHoldIds(Attach(m, id, tags))
  {
    AttachEffect(m, id, tags);
  }

  lemma DetachKeepsIds(m: Keyspace, id: nat, tags: seq<string>)
    requires TagSetsHoldIds(m)
    ensures TagSetsHoldIds(Detach(m, id, tags))
  {
    DetachEffect(m, id, tags);
  }

  // ---------------------------------------------------------------------
  // users

  /** `tag_keys` of `users`: the user-set key of every tag, in order. */
  function TagKeySeq(tags: seq<string>): (r: seq<string>)
    ensures |r| == |tags|
    ensures forall i :: 0 <= i < |tags| ==> r[i] == TagUsersKey(tags[i])
  {
    seq(|tags|, i requires 0 <= i < |tags| => TagUsersKey(tags[i]))
  }

  /** `users`: the ids in the sets of all listed tags; none for an empty list. */
  function Search(m: Keyspace, tags: seq<string>): (r: set<string>)
    ensures tags == [] ==> r == {}
    ensures forall x :: x in r <==> tags != [] && forall t :: t in tags ==> x in Members(m, TagUsersKey(t))
  {
    if tags == [] then {}
    else
      var keys := TagKeySeq(tags);
      assert forall t :: t in tags ==> TagUsersKey(t) in keys by {
        forall t | t in tags ensures TagUsersKey(t) in keys {
          var i :| 0 <= i < |tags| && tags[i] == t;
          assert keys[i] == TagUsersKey(t);
        }
      }
      Inter(m, keys)
  }

  /** When the tag sets hold only ids, `users` returns only ids. */
  lemma SearchReturnsIds(m: Keyspace, tags: seq<string>)
    requires TagSetsHoldIds(m)
    ensures forall x :: x in Search(m, tags) ==> IsId(x)
  {
    forall x | x in Search(m, tags) ensures IsId(x) {
      assert x in Members(m, TagUsersKey(tags[0]));
    }
  }

  /** Duplicates do not matter to `users` either. */
  lemma SearchIgnoresDuplicates(m: Keyspace, a: seq<string>, b: seq<string>)
    requires Elems(a) == Elems(b)
    ensures Search(m, a) == Search(m, b)
  {
    assert a == [] <==> b == [];
  }

  /** With the index consistent, `users` finds a user exactly when the user
      carries every listed tag; for one tag, exactly when the user carries it. */
  lemma SearchFindsTaggedUsers(m: Keyspace, id: nat, tags: seq<string>)
    requires Mirrored(m)
    ensures IntToS(id) in Search(m, tags) <==> tags != [] && Elems(tags) <= Members(m, UserTagsKey(id))
    ensures forall t :: IntToS(id) in Search(m, [t]) <==> t in Members(m, UserTagsKey(id))
  {
  }

  // ---------------------------------------------------------------------
  // Whole calls, from the raw tag list

  /** A list with no usable tag changes nothing and finds nobody. */
  lemma BlankListIsNoOp(m: Keyspace, id: nat, tagArray: seq<string>)
    requires forall i :: 0 <= i < |tagArray| ==> IsBlank(tagArray[i])
    ensures Attach(m, id, Clean(tagArray)) == m
    ensures Detach(m, id, Clean(tagArray)) == m
    ensures Search(m, Clean(tagArray)) == {}
  {
    CleanEmptyIff(tagArray);
  }

  /** Adding a list and then removing it leaves the user with the original
      tags minus the listed ones, and so restores them exactly when none of
      the listed tags was there before; each listed tag's set ends without
      the user. */
  lemma AttachThenDetach(m: Keyspace, id: nat, tags: seq<string>)
    ensures Members(Detach(Attach(m, id, tags), id, tags), UserTagsKey(id))
            == Members(m, UserTagsKey(id)) - Elems(tags)
    ensures Members(Detach(Attach(m, id, tags), id, tags), UserTagsKey(id)) == Members(m, UserTagsKey(id))
            <==> Members(m, UserTagsKey(id)) !! Elems(tags)
    ensures forall t :: t in tags ==>
              Members(Detach(Attach(m, id, tags), id, tags), TagUsersKey(t)) == Members(m, TagUsersKey(t)) - {IntToS(id)}
  {
    var a := Attach(m, id, tags);
    AttachEffect(m, id, tags);
    DetachEffect(a, id, tags);
    var before := Members(m, UserTagsKey(id));
    if before - Elems(tags) == before {
      forall x | x in before ensures x !in Elems(tags) {
        assert x in before - Elems(tags);
      }
    }
  }

  /** `users` on one or two tags whose sets are known. */
  lemma SearchTwoTags(m: Keyspace, t: string, u: string, a: string, b: string)
    requires Members(m, TagUsersKey(t)) == {a}
    requires Members(m, TagUsersKey(u)) == {a, b}
    ensures Search(m, [t, u]) == {a}
    ensures Search(m, [u]) == {a, b}
    ensures Search(m, [t]) == {a}
  {
  }

  /** A scenario of the test suite, for any two users and two tags (there
      "funny" and "cyclist"): on an empty database the first user is tagged
      with both tags, giving `m1`, and then the second with the second tag
      only, giving `m`. */
  lemma TwoUsersScenario(one: nat, two: nat, funny: string, cyclist: string, m1: Keyspace, m: Keyspace)
    requires funny != cyclist
    requires m1 == Attach(map[], one, [funny, cyclist])
    requires m == Attach(m1, two, [cyclist])
    ensures Search(m, [funny, cyclist]) == {IntToS(one)}
    ensures Search(m, [cyclist]) == {IntToS(one), IntToS(two)}
    ensures Search(m, [funny]) == {IntToS(one)}
  {
    ScenarioFirstUser(one, funny, cyclist, m1);
    ScenarioSecondUser(two, funny, cyclist, IntToS(one), m1, m);
    SearchTwoTags(m, funny, cyclist, IntToS(one), IntToS(two));
  }

  /** The tag sets in that scenario after the first user. */
  lemma ScenarioFirstUser(one: nat, funny: string, cyclist: string, m1: Keyspace)
    requires funny != cyclist
    requires m1 == Attach(map[], one, [funny, cyclist])
    ensures Members(m1, TagUsersKey(funny)) == {IntToS(one)}
    ensures Members(m1, TagUsersKey(cyclist)) == {IntToS(one)}
  {
    AttachEffect(map[], one, [funny, cyclist]);
  }

  /** ... and after the second. */
  lemma ScenarioSecondUser(two: nat, funny: string, cyclist: string, a: string, m1: Keyspace, m: Keyspace)
    requires funny != cyclist
    requires Members(m1, TagUsersKey(funny)) == {a} && Members(m1, TagUsersKey(cyclist)) == {a}
    requires m == Attach(m1, two, [cyclist])
    ensures Members(m, TagUsersKey(funny)) == {a}
    ensures Members(m, TagUsersKey(cyclist)) == {a, IntToS(two)}
  {
    AttachEffect(m1, two, [cyclist]);
  }
}
