/**
 * The two Rails models that maintain the tag index. `Tags` is built from
 * a request's tag list and applies it to the shared Redis store; `User`
 * reaches the index through its id. Both take the store as a parameter
 * where the application uses the global `$redis` connection.
 */
module Models {
  import opened Wrappers
  import opened RubyText
  import opened Keys
  import opened Redis
  import opened TagIndex

  /** A user record; only its id matters to the tag index. */
  class User {
    const id: nat
    var email: Option<string>

    constructor (id: nat, email: Option<string>)
      ensures this.id == id && this.email == email
    {
      this.id := id;
      this.email := email;
    }

    /** `add_tags`: `Tags.new(tag_array).add_user(self)`. */
    method AddTags(store: Store, tagArray: seq<string>)
      requires store.Valid()
      modifies store
      ensures store.Valid()
      ensures store.sets == Attach(old(store.sets), id, Clean(tagArray))
      ensures Mirrored(old(store.sets)) ==> Mirrored(store.sets)
    {
      var tags := new Tags(tagArray);
      tags.AddUser(store, this);
      if Mirrored(old(store.sets)) {
        AttachPreservesMirrored(old(store.sets), id, Clean(tagArray));
      }
    }

    /** `remove_tags`: `Tags.new(tag_array).remove_user(self)`. */
    method RemoveTags(store: Store, tagArray: seq<string>)
      requires store.Valid()
      modifies store
      ensures store.Valid()
      ensures store.sets == Detach(old(store.sets), id, Clean(tagArray))
      ensures Mirrored(old(store.sets)) ==> Mirrored(store.sets)
    {
      var tags := new Tags(tagArray);
      tags.RemoveUser(store, this);
      if Mirrored(old(store.sets)) {
        DetachPreservesMirrored(old(store.sets), id, Clean(tagArray));
      }
    }

    /** `tags`: SMEMBERS of the user's set; empty when no tag was ever added. */
    function TagSet(store: Store): (r: set<string>)
      requires store.Valid()
      reads store
      ensures r == {} <==> UserTagsKey(id) !in store.sets
      ensures forall t :: t in r <==> UserTagsKey(id) in store.sets && t in store.sets[UserTagsKey(id)]
    {
      store.SMembers(UserTagsKey(id))
    }
  }

  /** One request's tag list, cleaned, applied to the index. */
  class Tags {
    const tagArray: seq<string>

    /** `initialize`: rejects the entries that strip to nothing. */
    constructor (tagArray: seq<string>)
      ensures this.tagArray == Clean(tagArray)
    {
      this.tagArray := Clean(tagArray);
    }

    /** `add_user`: in one `multi` block, SADD of all tags to the user's set,
        then SADD of the user's id to every tag's set; nothing for an empty list. */
    method AddUser(store: Store, user: User)
      requires store.Valid()
      modifies store
      ensures store.Valid()
      ensures store.sets == Attach(old(store.sets), user.id, tagArray)
    {
      if |tagArray| > 0 {
        store.SAdd(UserTagsKey(user.id), tagArray);
        ghost var start := store.sets;
        for i := 0 to |tagArray|
          invariant store.Valid()
          invariant store.sets == AddToTagSets(start, tagArray[..i], IntToS(user.id))
        {
          assert tagArray[..i + 1][..i] == tagArray[..i];
          assert Elems([IntToS(user.id)]) == {IntToS(user.id)};
          store.SAdd(TagUsersKey(tagArray[i]), [IntToS(user.id)]);
        }
        assert tagArray[..|tagArray|] == tagArray;
      }
    }

    /** `remove_user`: in one `multi` block, SREM of all tags from the user's
        set, then SREM of the user's id from every tag's set; nothing for an
        empty list. */
    method RemoveUser(store: Store, user: User)
      requires store.Valid()
      modifies store
      ensures store.Valid()
      ensures store.sets == Detach(old(store.sets), user.id, tagArray)
    {
      if |tagArray| > 0 {
        store.SRem(UserTagsKey(user.id), tagArray);
        ghost var start := store.sets;
        for i := 0 to |tagArray|
          invariant store.Valid()
          invariant store.sets == RemoveFromTagSets(start, tagArray[..i], IntToS(user.id))
        {
          assert tagArray[..i + 1][..i] == tagArray[..i];
          assert Elems([IntToS(user.id)]) == {IntToS(user.id)};
          store.SRem(TagUsersKey(tagArray[i]), [IntToS(user.id)]);
        }
        assert tagArray[..|tagArray|] == tagArray;
      }
    }

    /** `users`: collects the tag keys, then SINTER of them; `[]` for an
        empty list. An id is returned exactly when every listed tag's set
        holds it. */
    method Users(store: Store) returns (ids: set<string>)
      ensures tagArray == [] ==> ids == {}
      ensures forall x :: x in ids <==> tagArray != [] && forall t :: t in tagArray ==> x in Members(store.sets, TagUsersKey(t))
      ensures ids == Search(store.sets, tagArray)
    {
      if |tagArray| > 0 {
        var tagKeys: seq<string> := [];
        for i := 0 to |tagArray|
          invariant tagKeys == TagKeySeq(tagArray[..i])
        {
          tagKeys := tagKeys + [TagUsersKey(tagArray[i])];
        }
        assert tagArray[..|tagArray|] == tagArray;
        ids := store.SInter(tagKeys);
      } else {
        ids := {};
      }
    }
  }
}
