/**
 * The Redis key naming convention of the tag index:
 * `users:{id}:tags` holds one user's tags and `tags:{tag}:users` holds
 * the ids, as decimal strings, of the users carrying one tag.
 */
module Keys {
  import opened RubyText

  /** `User#user_tags_key` */
  function UserTagsKey(id: nat): string {
    "users:" + IntToS(id) + ":tags"
  }

  /** `Tags#tag_users_key` */
  function TagUsersKey(tag: string): string {
    "tags:" + tag + ":users"
  }

  /** Different users get different tag-set keys. */
  lemma UserTagsKeyInjective(a: nat, b: nat)
    ensures UserTagsKey(a) == UserTagsKey(b) <==> a == b
  {
    if UserTagsKey(a) == UserTagsKey(b) {
      var ka, kb := UserTagsKey(a), UserTagsKey(b);
      assert |IntToS(a)| == |IntToS(b)|;
      assert IntToS(a) == ka[6..|ka| - 5];
      assert IntToS(b) == kb[6..|kb| - 5];
      IntToSInjective(a, b);
    }
  }

  /** Different tags get different user-set keys. */
  lemma TagUsersKeyInjective(s: string, t: string)
    ensures TagUsersKey(s) == TagUsersKey(t) <==> s == t
  {
    if TagUsersKey(s) == TagUsersKey(t) {
      var ks, kt := TagUsersKey(s), TagUsersKey(t);
      assert s == ks[5..|ks| - 6];
      assert t == kt[5..|kt| - 6];
    }
  }

  /** A tag's key is never a user's key: the prefixes differ in their first letter. */
  lemma KeysDisjoint(id: nat, tag: string)
    ensures UserTagsKey(id) != TagUsersKey(tag)
  {
    assert UserTagsKey(id)[0] == 'u';
    assert TagUsersKey(tag)[0] == 't';
  }
}
