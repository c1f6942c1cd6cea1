# Blog-post API handlers: a verified model

This project models the two handler sets of a small serverless blog-post API.
Both sit on one table of Posts, keyed by `post_uuid`.

- The HTTP handlers (`WebApi.index`, `WebApi.get`, `WebApi.create`) turn a
  request event into a table operation and answer with a status code and a body.
- The queue handler (`EventHandlers.delete_all_posts`) works through a batch of
  queue records. A `DELETE_ALL` record deletes every scanned post, one after
  another. Any other record raises. The first raise ends the batch, and deletes
  already done stay done.

## How the model is built

- `posts.dfy`, module `Posts`: the `Post` record (`post_uuid`, `title`, `body`,
  `created_at`), and the table as a value `Store`. A `Store` is a map from key
  to post plus the scan order, a sequence of keys. `Store.Valid` says every post
  sits under its own key and the scan lists each key exactly once. `Put`,
  `Remove` and `RemoveAll` give the table after a save or after deletes. The
  class `PostTable` holds the table that the handlers change in place; its
  `Save` and `Delete` methods take the storage service's answer as a parameter.
- `web_api.dfy`, module `WebApi`: `Index` and `Get` are functions of the table,
  so they cannot change it. `Create` is a method that saves through the
  `PostTable`. A response is a status code, a body record, and a flag saying
  whether the body went through `to_json`. The create-failure body is left
  unserialised, as the code has it.
- `event_handlers.dfy`, module `EventHandlers`: `HandleBatch`, `HandleRecord`
  and `DeleteAll` define what a batch does as functions. `DeleteScanned` (the
  loop over scanned posts, counting) is a method proved to delete exactly the
  posts before the first failing one; `DeleteAllFailsAt` shows that this is
  `DeleteAll`. `DeleteAllPosts` (the loop over records) is proved to agree with
  `HandleBatch`. Both methods also return, as a ghost value, the keys on which
  a delete was issued, in order.

Values from outside are parameters:
- the generated uuid and the current time of `create`;
- whether the save succeeds;
- how many posts the service puts on the first scan page;
- the set of posts whose delete raises.

Two behaviours of the code worth knowing:
- `create` does no presence check: a missing `title` or `body` becomes nil in the new post.
- `get` without a `uuid` path parameter raises; it does not answer 404.

## Model

| member | source | states |
|---|---|---|
| Posts.Store.Scan | CodeAfterExercise1/app/web_api.rb:6 | the scan lists every post once, in scan order: its i-th post is the post under the i-th key and carries that key, and a post is listed exactly when it is stored under its own key |
| Posts.Store.Find | CodeAfterExercise1/app/web_api.rb:15 | the lookup finds a post exactly when the key is in the table, returns the post stored there, and in a valid table that post carries the key |
| Posts.Put | CodeAfterExercise1/app/web_api.rb:33-34 | a successful save of a new record, under a key not yet taken, keeps the table valid, stores the post under its own post_uuid, leaves the lookup of every other key unchanged, grows the table by one and appends the key to the scan |
| Posts.Remove | CodeAfterExercise2/app/event_handlers.rb:12 | a successful delete keeps the table valid, makes the key absent, and leaves every other key's lookup unchanged |
| Posts.RemoveAll | CodeAfterExercise2/app/event_handlers.rb:11-14 | deleting posts one after another keeps the table valid |
| Posts.RemoveAllIsDifference | CodeAfterExercise2/app/event_handlers.rb:11-14 | after deleting a sequence of keys one by one, the table holds exactly the other entries, and the scan lists the remaining keys in their old order |
| Posts.DropScannedPrefix | CodeAfterExercise2/app/event_handlers.rb:11-14 | once the first k scanned keys are deleted, the scan is the rest of the old scan from position k |
| Posts.RemainingAfterPrefix | CodeAfterExercise2/app/event_handlers.rb:11-14 | deleting the first k scanned posts one by one leaves the other entries, scanned from position k on |
| Posts.PrefixGone | CodeAfterExercise2/app/event_handlers.rb:11-14 | after the first k scanned posts are deleted, each of them is absent and each later scanned post is present with its old post |
| Posts.PostTable.Save | CodeAfterExercise1/app/web_api.rb:34 | the save of a new record succeeds exactly when the service accepts it and the key is not taken; on success the table becomes Put of the post, otherwise it is unchanged, so an existing post is never overwritten |
| Posts.PostTable.Delete | CodeAfterExercise2/app/event_handlers.rb:12 | the delete reports the service's answer; on success the table becomes Remove of the post's key, on failure it is unchanged |
| WebApi.FirstPageLength | CodeAfterExercise1/app/web_api.rb:6 | the first page holds at most 25 posts, at most the service's page size and at most the table's posts, and exactly the least of the three |
| WebApi.Index | CodeAfterExercise1/app/web_api.rb:5-11 | status 200 with a serialised list of at most 25 posts; the list has min(25, first-page size, post count) posts, and its i-th post is the post under the i-th scanned key |
| WebApi.IndexListsTwoPosts | CodeAfterExercise1/tests/app/test_web_api.rb:6-47 | a table holding a1 then b2 is listed as exactly [a1, b2] with status 200 |
| WebApi.Get | CodeAfterExercise1/app/web_api.rb:13-27 | with a uuid parameter: 200 and that post exactly when the key exists, otherwise 404 and the error "Post <uuid> not found!"; the body is serialised; without the parameter the call raises |
| WebApi.GetMissingPost | CodeAfterExercise1/tests/app/test_web_api.rb:74-84 | a lookup of "a1" that is absent gives 404 and "Post a1 not found!" |
| WebApi.NotFoundMessage | CodeAfterExercise1/app/web_api.rb:24 | the 404 text is "Post ", then exactly the requested id, then " not found!" |
| WebApi.NotFoundRoundTrip | CodeAfterExercise1/app/web_api.rb:24 | the 404 error text can be parsed back to exactly the requested id |
| WebApi.NotFoundMessageInjective | CodeAfterExercise1/app/web_api.rb:24 | two different ids never produce the same 404 text |
| WebApi.IndexedPostsAreGettable | CodeAfterExercise1/app/web_api.rb:6-20 | every post the list shows is answered by get with 200 and the same post when asked for by its own uuid |
| WebApi.ParseCreateParams | CodeAfterExercise1/app/web_api.rb:48-54 | the parameters exist exactly when the body parsed, and then they are the input's title and body and nothing else |
| WebApi.NewPost | CodeAfterExercise1/app/web_api.rb:31-33 | the new post has the generated uuid as its key, the current time as created_at, and the parameters' title and body |
| WebApi.CreateIgnoresClientKeys | CodeAfterExercise1/app/web_api.rb:30-54 | the new post depends on the input's title and body only; any client post_uuid or created_at is replaced by the generated uuid and the current time |
| WebApi.Create | CodeAfterExercise1/app/web_api.rb:29-45 | an unparsable body raises and changes nothing; otherwise the post is (uuid, title, body, now), and when the save succeeds (the service accepts it and the uuid is not taken) the answer is 200 with that post and the table gains it, while otherwise the answer is 500 with "Failed to create new post.", unserialised, and the table is unchanged |
| WebApi.CreatedPostIsGettable | CodeAfterExercise1/app/web_api.rb:13-38 | after a successful save under a fresh uuid, get with the new uuid answers 200 with the new post |
| WebApi.CreateAddsOnePost | CodeAfterExercise1/app/web_api.rb:31-38 | a save under a fresh uuid adds exactly that key, and every old entry keeps its post |
| EventHandlers.UnsupportedMessage | CodeAfterExercise2/app/event_handlers.rb:22-24 | the error text is "Unsupported queue command: " followed by exactly the record's body, or by nothing when the body is absent |
| EventHandlers.FirstFailing | CodeAfterExercise2/app/event_handlers.rb:11-19 | the position of the first scanned post whose delete raises: no earlier delete raises, and the one there does (or the scan's length when none does) |
| EventHandlers.DeleteAll | CodeAfterExercise2/app/event_handlers.rb:9-19 | the bulk delete of one record leaves a valid table |
| EventHandlers.DeleteAllFailsAt | CodeAfterExercise2/app/event_handlers.rb:9-19 | when position k holds the first failing delete (or is the end), DELETE_ALL leaves exactly the posts from position k on, scanned in order, issues deletes on the first k + 1 posts and raises that delete's error, or completes after deleting all |
| EventHandlers.HandleRecord | CodeAfterExercise2/app/event_handlers.rb:8-25 | a record that is not exactly DELETE_ALL raises "Unsupported queue command: <body>", issues no delete and leaves the table as it was |
| EventHandlers.Then | CodeAfterExercise2/app/event_handlers.rb:7 | after a record that raised nothing more happens; otherwise the remaining records run on its table, the deletes already issued stay first in the trace, and the table stays valid |
| EventHandlers.HandleBatch | CodeAfterExercise2/app/event_handlers.rb:7-26 | handling a batch leaves a valid table |
| EventHandlers.ThenFirstRecord | CodeAfterExercise2/app/event_handlers.rb:7 | continuing with the remaining records is handling the first of them and then continuing with the rest |
| EventHandlers.DeleteAllCompletedEmptiesTable | CodeAfterExercise2/app/event_handlers.rb:9-15 | a DELETE_ALL that completes issued one delete per scanned post, in scan order; the count equals the number of posts; the table ends empty |
| EventHandlers.DeleteAllStopsAtFailure | CodeAfterExercise2/app/event_handlers.rb:10-19 | if the delete at position k raises, that error is raised, deletes were issued for exactly the first k + 1 posts, the first k are gone, and every later post is still there unchanged and still scanned in order |
| EventHandlers.BatchSplit | CodeAfterExercise2/app/event_handlers.rb:7-26 | handling a batch is handling its first part and then, unless that raised, its second part |
| EventHandlers.FirstRaiseEndsBatch | CodeAfterExercise2/app/event_handlers.rb:7-26 | when record i is the first to raise, the batch's result is that raise, with the effects of records 0..i kept and no later record processed |
| EventHandlers.CompletedBatchEmptiesTable | CodeAfterExercise2/app/event_handlers.rb:7-26 | a batch that returns normally held only DELETE_ALL records, and if it held any, the table ends empty |
| EventHandlers.EmptyBatchChangesNothing | CodeAfterExercise2/app/event_handlers.rb:7 | an empty batch returns normally, issues no delete and leaves the table as it was |
| EventHandlers.DeleteScanned | CodeAfterExercise2/app/event_handlers.rb:9-19 | the loop over the scan counts the deletes that succeeded: no delete among the first count raised, and it raised at position count exactly when the method reports that delete's error; the first count scanned posts are gone, the others remain and are scanned in order, and deletes were issued on the first count posts plus the failing one |
| EventHandlers.DeleteNext | CodeAfterExercise2/app/event_handlers.rb:12-13 | one delete of the next scanned post: it succeeds exactly when the post is not failing, and then the deleted prefix of the scan grows by one; otherwise the table is unchanged |
| EventHandlers.DeleteAllPosts | CodeAfterExercise2/app/event_handlers.rb:6-27 | the loop over the records leaves the table, the issued deletes and the outcome exactly as HandleBatch says |
| EventHandlers.DeleteAllOverThreePosts | CodeAfterExercise4/tests/app/test_event_handlers.rb:5-32 | one DELETE_ALL record over three posts deletes each once, in scan order, returns normally and empties the table |
| EventHandlers.BadMessageRaises | CodeAfterExercise4/tests/app/test_event_handlers.rb:34-47 | a BAD_MESSAGE record raises with the body in its message and issues no delete |

## Left out

- The table library behind `scan`, `find`, `save` and `delete!` is not modelled. The table is a map plus a scan order, and the service's answers are parameters.
- Posts.Put: where a new key appears in the scan order is the service's choice; the model appends it at the end.
- Posts.PostTable.Save: a save under a key that is already taken is modelled as a failed save (false, table unchanged). Whether the table library answers false or raises in that case is not modelled.
- Raising table calls other than `delete!` are not modelled: `Posts.find` raising in `get`, the scan or its first page raising in `index`, `post.save` raising instead of answering false in `create`, and a scan page fetch raising part-way through DELETE_ALL after some deletes. The model's only table failures are a save answering false and a delete raising.
- WebApi.Index: the service's own page boundary is a parameter. Beyond "the first page, at most 25 posts", the service's limit semantics are not modelled.
- JSON parsing and `to_json` are not modelled. A request body arrives parsed into optional title, body, post_uuid and created_at. An absent body, or text that is not a JSON object, is one abstract parse failure. Non-string JSON values for title and body are not modelled.
- WebApi.Get: a missing `pathParameters` object is not modelled; the parameters are always a map. A missing `uuid` key raises an abstract KeyMissing error, standing for the table library's refusal of a nil key.
- `SecureRandom.uuid` and `Time.now` are parameters of `Create`. `Create` does not assume the uuid is fresh; `CreateAddsOnePost` states what happens when it is.
- Time is whole epoch seconds. The sub-second part of `Time.now`, and the `Time` object that the create response echoes, are not modelled.
- EventHandlers.DeleteScanned: the scan is taken once, when the record starts. Lazy page-by-page scanning while posts are being deleted is not modelled.
- EventHandlers.DeleteAllPosts: whether a delete raises depends only on the post. A transient failure that would pass on a second attempt is not modelled.
- The error logged and re-raised by the rescue clause is modelled only as "the delete's error propagates and deletion stops". The log lines are not modelled, and neither is which exception classes that clause catches.
- The count of deleted posts appears only in log lines in the code. The model returns it from `DeleteScanned`.
- A queue event without a `Records` list is not modelled. Record fields other than `body` are ignored, as in the code.
- The table name from the environment, the `puts` logging and the unused `context` argument are not modelled.
