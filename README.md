# Tag index of user-tags-api, in Dafny

This project models the tag index of the user-tags-api Rails application and proves its
properties. It also models the format check on a user's email address.

The index is a two-way map kept in Redis:

- `users:{id}:tags` holds the set of tags of one user;
- `tags:{tag}:users` holds the set of ids, as decimal strings, of the users carrying one tag.

`Tags` is built from a request's tag list and drops the entries that strip to nothing.
`add_user` and `remove_user` each run one `multi` block: they update the user's set, and
then, tag by tag, every tag's set. `users` intersects the sets of the listed tags.
`User#add_tags`, `User#remove_tags` and `User#tags` reach the index through the user's id.

Modules:

- `RubyText`: Ruby's `String#strip` and `Integer#to_s` for non-negative integers, with a
  decimal parser that inverts it.
- `Keys`: the two key builders, proved injective and disjoint.
- `Redis`: the keyspace as `map<string, set<string>>`.
  - A missing key reads as the empty set, and no key holds an empty set (Redis deletes them).
  - SADD, SREM and SINTER are functions on that map.
  - `Redis.Store` is the connection, a class whose `sets` field its `SAdd` and `SRem`
    methods update.
- `TagIndex`: the cleaning filter and the pure effect of each operation.
  - `Attach` is SADD, applied in the order `add_user` issues it; `Detach` is the same for
    SREM; `Search` is the intersection.
  - The lemmas are about these functions. The two-way invariant is `Mirrored`.
- `Models`: the classes `Tags` and `User`. Their methods change the store step by step, with
  the loop the source has, and are proved equal to `Attach`, `Detach` and `Search`.
- `Email`: a scanner for the regular expression of `validates :email`, proved equal to the
  language the expression denotes (`Email.Decomposes`).

Two behaviours of the code that a reader might not expect:

- Tags are not trimmed. The constructor keeps every entry whose strip is non-empty, as it
  was written, so `" funny"` and `"funny"` are two different tags.
- Removing a list right after adding it does not restore the user's tags. It leaves the
  original set minus the cleaned list, which is the original only when the two were
  disjoint (`TagIndex.AttachThenDetach`).

## Model

| member | source | states |
|---|---|---|
| Models.Tags.constructor | app/models/tags.rb:3-7 | the kept list is `Clean` of the argument |
| TagIndex.CleanCounts | app/models/tags.rb:6 | a blank entry is dropped every time it occurs; a non-blank entry is kept exactly as often as it occurs (duplicates kept, unstripped) |
| TagIndex.CleanAppend | app/models/tags.rb:6 | cleaning distributes over concatenation, so the kept entries stay in their original order |
| TagIndex.CleanMembers | app/models/tags.rb:6 | a string is in the cleaned list iff it is in the argument and is not blank |
| TagIndex.CleanEmptyIff | app/models/tags.rb:6 | the cleaned list is empty iff every entry is blank |
| RubyText.BlankIff | app/models/tags.rb:6 | `strip` is empty iff every character is one of Ruby's strip characters (NUL, tab, LF, VT, FF, CR, space) |
| TagIndex.BlankListIsNoOp | app/models/tags.rb:10 | with only blank entries, adding and removing leave the whole store unchanged and `users` is empty (also lines 22 and 34) |
| TagIndex.AttachEffect | app/models/tags.rb:9-19 | after adding, the user's set is the old set plus the listed tags, exactly the listed tags' sets gain the id, and every other key is unchanged |
| TagIndex.DetachEffect | app/models/tags.rb:21-31 | after removing, the user's set is the old set minus the listed tags, exactly the listed tags' sets lose the id, and every other key, including unlisted tags, is unchanged |
| TagIndex.AttachIgnoresDuplicates | app/models/tags.rb:13-15 | two lists with the same elements produce the same store when added, so duplicates change nothing |
| TagIndex.DetachIgnoresDuplicates | app/models/tags.rb:25-27 | two lists with the same elements produce the same store when removed |
| TagIndex.AttachPreservesMirrored | app/models/tags.rb:12-17 | adding keeps `t in users:{u}:tags <==> u in tags:{t}:users` for every user and tag |
| TagIndex.DetachPreservesMirrored | app/models/tags.rb:24-29 | removing keeps the same two-way invariant |
| TagIndex.AttachKeepsIds | app/models/tags.rb:14-16 | adding writes only the user's decimal id into tag sets, so a store whose tag sets hold only ids keeps that property |
| TagIndex.DetachKeepsIds | app/models/tags.rb:26-28 | removing keeps every tag set made of ids only |
| TagIndex.SearchReturnsIds | app/models/tags.rb:33-43 | when the tag sets hold only ids, every member `users` returns is the decimal form of some id |
| Models.Tags.AddUser | app/models/tags.rb:9-19 | the store after the guarded SADD and the per-tag SADD loop equals `Attach` of the old store; no key holds an empty set |
| Models.Tags.RemoveUser | app/models/tags.rb:21-31 | the store after the guarded SREM and the per-tag SREM loop equals `Detach` of the old store; no key holds an empty set |
| TagIndex.Search | app/models/tags.rb:33-43 | empty for an empty list; otherwise an id is in the result iff it is in the set of every listed tag |
| Models.Tags.Users | app/models/tags.rb:33-43 | the key-collecting loop followed by SINTER returns `Search` of the store: empty for an empty list, else the ids found in every listed tag's set |
| TagIndex.SearchIgnoresDuplicates | app/models/tags.rb:33-43 | lists with the same elements search alike |
| TagIndex.SearchFindsTaggedUsers | app/models/tags.rb:33-43 | in a mirrored store, a user is found iff the list is non-empty and all its tags are among the user's tags; a single tag finds exactly the users who carry it |
| Redis.Inter | app/models/tags.rb:39 | SINTER of a non-empty key list holds exactly the members common to all of the keys |
| TagIndex.TwoUsersScenario | spec/models/tags_spec.rb:135-153 | after user one adds two tags and user two adds the second tag, both tags find user one, the second tag finds both users, and the first tag finds user one |
| Models.User.AddTags | app/models/user.rb:9-12 | the store becomes `Attach` of the old store with the cleaned list, as `Tags.new(list).add_user(self)` does; the two-way invariant is kept |
| Models.User.RemoveTags | app/models/user.rb:14-17 | the store becomes `Detach` of the old store with the cleaned list; the two-way invariant is kept |
| TagIndex.AttachThenDetach | app/models/user.rb:9-17 | removing a list right after adding it leaves the user's tags equal to the original minus the list, which is the original iff the two were disjoint; each listed tag loses the id |
| Models.User.TagSet | app/models/user.rb:19-21 | the members of the user's set; empty iff the key is absent, so empty when no tag was ever added |
| Keys.UserTagsKeyInjective | app/models/user.rb:23-25 | two user keys are equal iff the ids are equal |
| Keys.TagUsersKeyInjective | app/models/tags.rb:47-49 | two tag keys are equal iff the tags are equal |
| Keys.KeysDisjoint | app/models/tags.rb:47-49 | no tag key equals a user key |
| RubyText.ParseIntToS | app/models/tags.rb:15 | parsing the decimal form of an id gives the id back |
| RubyText.IntToSInjective | app/models/tags.rb:15 | distinct ids have distinct decimal forms, so the tag sets never confuse two users |
| Email.MatchesFormatIff | app/models/user.rb:3 | the scanner accepts a string iff it is a non-empty local part without `@` or whitespace, an `@`, one or more labels over `[-a-z0-9]` each followed by a dot, and a final label of at least two letters, in either case |
| Email.Composed | app/models/user.rb:3 | every string built that way is accepted |
| Email.AcceptedHasOneAt | app/models/user.rb:3 | an accepted string has exactly one `@`, preceded by a non-empty part without whitespace |
| Email.AcceptsExample | spec/models/user_spec.rb:24-28 | `"test@test.com"` is valid |
| Email.RejectsMissingAndEmpty | spec/models/user_spec.rb:10-22 | a nil email and `""` are invalid |
| Email.RejectsWithoutAt | spec/models/user_spec.rb:30-36 | `"testtest.com"` is invalid |

## Left out

- The Redis client and its protocol are not modelled: `$redis` becomes an explicit `Store` parameter. Connection errors and WRONGTYPE errors are not modelled.
- `multi` is not modelled as a transaction. Each block is one method, and no other client interleaves with it.
- The order of the arrays that SMEMBERS and SINTER return is unspecified, so results are sets.
- ActiveRecord persistence, id assignment and `uniqueness: true` (app/models/user.rb:4) are a database query and are not modelled. A user's id is a `nat` fixed at construction.
- The `nil` id of an unsaved user is not modelled: it would give the key `users::tags` and an empty-string member. The second user in spec/models/tags_spec.rb:139-141 reuses the first user's email, so the uniqueness validation will reject its save. That scenario therefore runs with a `nil` id. `TagIndex.TwoUsersScenario` models it with a second saved id.
- Tag entries are strings. A `nil` or numeric entry, on which `strip` raises NoMethodError (app/models/tags.rb:6), and a `nil` list, on which `reject` raises, are not modelled.
- Cleanup on user deletion is a TODO in app/models/user.rb:6 and is not implemented, so there is nothing to model.
- The Grape API and its basic-auth check (app/api/base/api.rb) are HTTP plumbing and are not part of this model.
- Email: Unicode case folding under the `i` flag is not modelled. Only ASCII letters match `[a-z]`, although Onigmo may also fold a few non-ASCII letters (KELVIN SIGN, LONG S). `\s` is taken as space, tab, LF, VT, FF and CR.
