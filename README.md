# Posts handlers and education validator, modelled in Dafny

This project models two pieces of decision logic from a small Express and
Mongoose backend for a social-posting feature.

**The post resource's state-changing handlers** (`posts.dfy`, module
`Posts`). The post collection becomes a class `PostStore` whose field `posts`
maps post ids to `Post` records (`user`, `text`, `name`, `avatar`, `likes`).
Each handler is a method. It takes the authenticated caller's id and the
request data, returns the response it sends (status and JSON body), and
updates `posts` in place.
- `CreatePost` builds a post owned by the caller from the request body and
  saves it. The handler reads the body's fields after passing the body to
  `validatePostInput`, so the fields are copied from the body as the
  validator leaves it. When `validatePostInput` reports the body invalid, the handler
  sends 400 with the errors. The source does not return at that point, so
  the post is still saved. The model keeps that behaviour.
- `DeletePost` answers 404 for a missing post and 401 for a caller who is not
  the post's `user`. For the owner it removes the post and answers
  `{success: true}`.
- `LikePost` answers 404 for a missing post. If the caller is already in the
  post's `likes` it answers 400 `alreadyLiked` and saves nothing. Otherwise
  it puts `{user: caller}` at the front of `likes`, saves, and returns the
  post.

A missing post reaches the 404 branch in both delete and like. The lookup
yields `null`, and reading a property of `null` throws into the promise's
`catch`. Each method states its whole effect on the store, and that no other
post is touched. Each also states that it keeps the rule that no user
appears twice in a post's `likes`. The like guard is the `filter` over
`likes`, modelled as `LikesBy`. Lemmas prove that a non-empty filter result
means the caller has liked, and that in a duplicate-free array the filter
finds a liking user exactly once. `LikeTwiceScenario` calls create, like,
like again, a non-owner delete and an owner delete, and proves each
outcome from the contracts alone.

**The education input validator** (`education.dfy`, module `Education`).
The input object becomes a class `Record` with a `fields` map.
`ValidateEducationInput` overwrites `school`, `degree`, `field_of_study` and
`from` in place. A value the local `isEmpty` calls empty becomes `''`; any
other value is kept. It then runs `Validator.isEmpty` on each field in turn
and adds that field's fixed message to `errors` when the field is empty.
The method is proved against two specification functions:
- `Normalised` gives the new record;
- `ExpectedOutcome` gives the result, with `RequiredErrors` as the expected
  error map.

The local `isEmpty` helper is not shown in the source, so it is a parameter.
The lemmas assume only two things about it: it holds for `''`, and it holds
for an object exactly when the object has no keys. `Validator.isEmpty` is
modelled on strings as "length is zero". On any other value it throws a
TypeError, because the `validator` library checks that its argument is a
string. The model records that as the outcome `ThrewTypeError`, and the
normalising writes have already happened by then.

`js_values.dfy` (module `JsValues`) holds the shared `Option` and a small
JavaScript `Value` type.

## Model

| member | source | states |
|---|---|---|
| `Posts.LikesBy` | routes/api/posts.js:97 | the filtered likes are no longer than `likes` and every one of them is the caller's |
| `Posts.LikesByNonEmptyIff` | routes/api/posts.js:97-98 | the guard `filter(...).length > 0` holds exactly when some entry of `likes` has the caller's id |
| `Posts.UniqueLikedOnce` | routes/api/posts.js:97-104 | in `likes` without duplicates, the filter finds a user once if they have liked and never otherwise |
| `Posts.PrependKeepsUnique` | routes/api/posts.js:97-104 | prepending a caller who has not liked keeps `likes` free of duplicates, and the caller then appears in it |
| `Posts.PostStore.CreatePost` | routes/api/posts.js:44-64 | exactly one new post is added under the fresh id, owned by the caller, with `text`/`name`/`avatar` copied from the body as the validator leaves it, and empty `likes`; existing posts are unchanged; an invalid body is answered 400 with the validator's errors yet the post is still saved; a valid one is answered 200 with the saved post; duplicate-free likes are preserved |
| `Posts.PostStore.DeletePost` | routes/api/posts.js:69-87 | a missing id gives 404 `nopostfound` and no change; a caller other than `post.user` gives 401 `notauthorized` and no change; the owner removes exactly that id and gets `{success: true}`; a post disappears only when its owner asked; no other post changes |
| `Posts.PostStore.LikePost` | routes/api/posts.js:92-112 | a missing id gives 404 and no change; a caller already in `likes` gives 400 `alreadyLiked` and no change; otherwise the new `likes` are the caller followed by the old `likes` and the response is 200 with the updated post; no other post changes; duplicate-free likes stay duplicate-free, and the caller has liked afterwards |
| `Education.Normalise` | validation/education.js:7 | a value `isEmpty` rejects is kept and an empty value becomes `''`; when `isEmpty('')` holds the result is empty exactly when the input was |
| `Education.Normalised` | validation/education.js:7-10 | after normalisation the record has all four fields, each the normalised original value, and every other property is unchanged |
| `Education.RequiredErrors` | validation/education.js:12-26 | `errors.school` is 'School is required' exactly when `school` is `''`, and likewise `degree` 'Degree is required', `field_of_study` 'Field of Study is required' and `from` 'Date is required'; no other key occurs |
| `Education.ValidateEducationInput` | validation/education.js:4-32 | `data` becomes its normalised form, and the result is the expected outcome of the normalised record: a throw if some field is not a string, otherwise the error map of empty fields with `isValid` as `isEmpty(errors)` |
| `Education.ValidIffNoErrors` | validation/education.js:28-31 | `isValid` is true exactly when `errors` has no entries |
| `Education.ThrowsIffKeptNonString` | validation/education.js:7-26 | a call throws exactly when some required field is kept by normalisation and is not a string |
| `Education.RevalidateSame` | validation/education.js:7-26 | normalising twice equals normalising once, so validating the normalised record again gives the same `errors` and `isValid` |

## Left out

- The GET handlers and the `/test` route (routes/api/posts.js:18-39) only read the store or send a fixed body and make no decisions. The sort by date at line 25 is done by the store.
- Unlike, add-comment and delete-comment are not modelled. routes/api/posts.js ends at line 113 with `module.exports = router;` and defines no such routes, so `Post` has no `comments`.
- The post's `date` is a default that the schema (`models/Post.js`, not part of this model) fills in at save time. Nothing in the modelled handlers reads or sets it, so `Post` has no `date`.
- Passport authentication. The caller's id is an input to each handler.
- The `Profile.findOne` lookups at lines 70 and 93. Their result is unused, and the model does not cover their failure.
- `validatePostInput` (`validation/post.js`) is not part of this model. `CreatePost` takes it as a function argument that yields `errors`, `isValid` and the request body as the validator leaves it. What the validator does to the body is not modelled.
- The `is_empty` helper (`validation/is_empty.js`) is not part of this model. It is a parameter, with only the two assumptions stated above.
- Mongoose internals:
  - id generation: `CreatePost` receives the store-assigned id and requires it to be unused;
  - the `CastError` on a malformed id, which gives the same 404 as a missing id;
  - schema validation and defaults applied at save time;
  - a failing `save` or `remove`, whose rejection the source never handles.
- The second `res.json` after the 400 in create, which Express refuses with a "headers already sent" error. `CreatePost` returns the response that is actually sent.
- Concurrency. Each handler is one atomic step. The lost-update race between two likes of the same post is not modelled.
- `Posts.PostStore.CreatePost`: does not state what Mongoose's `required` on `text` would do at save time. The model saves whatever the body holds, because the post schema (`models/Post.js`) is not part of this model.
- Value shapes. In the education record, numbers are integers, and arrays and other objects are known only by their key sets, which is all that an emptiness test looks at. In a post's request body, `text`, `name` and `avatar` are absent or strings. A JSON number or object there, which Mongoose would convert or reject at save time, is not modelled. `ObjectId.toString()` comparisons are string equality.
