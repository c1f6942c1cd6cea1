/** The HTTP handlers: list the first page of posts, get one post by its
    uuid, create a post. Each handler turns an event into a table operation
    and answers with a status code and a body. Bodies are kept as records;
    `serialised` records whether the handler passed the body through to_json. */
module WebApi {
  import opened Posts

  /** The limit the list handler passes to the scan. */
  const PageLimit: nat := 25

  const CreateFailedMessage := "Failed to create new post."
  const NotFoundPrefix := "Post "
  const NotFoundSuffix := " not found!"

  /** A response body before serialisation; a post appears as its four fields. */
  datatype Body = PostList(posts: seq<Post>) | OnePost(post: Post) | Error(error: string)

  datatype Response = Response(statusCode: int, body: Body, serialised: bool)

  /** The event body after JSON parsing. `Unparsable` stands for an absent body
      or text that does not parse to a JSON object. Fields other than these four
      play no part and are not kept. */
  datatype RequestBody =
    | Unparsable
    | Parsed(title: Option<string>, body: Option<string>, postUuid: Option<Uuid>, createdAt: Option<EpochTime>)

  datatype ApiEvent = ApiEvent(pathParameters: map<string, string>, body: RequestBody)

  /** Errors a handler does not catch; they escape to the invocation layer. */
  datatype Fault = ParseFailure | KeyMissing

  datatype Invocation = Returned(response: Response) | Raised(fault: Fault)

  /** The only fields the create handler takes from its input. */
  datatype CreateParams = CreateParams(title: Option<string>, body: Option<string>)

  function Min(a: nat, b: nat): nat
  {
    if a <= b then a else b
  }

  /** How many posts the list handler shows: the service's first page holds at
      most `pageBoundary` posts and at most the limit, and never more than there are. */
  function FirstPageLength(s: Store, pageBoundary: nat): (n: nat)
    ensures n <= PageLimit && n <= pageBoundary && n <= |s.order|
    ensures n == PageLimit || n == pageBoundary || n == |s.order|
  {
    Min(Min(PageLimit, pageBoundary), |s.order|)
  }

  /** index: status 200 and the posts of the first scan page, in scan order. */
  function Index(s: Store, pageBoundary: nat): (r: Response)
    requires s.Valid()
    ensures r.statusCode == 200 && r.serialised && r.body.PostList?
    ensures |r.body.posts| <= PageLimit
    ensures |r.body.posts| == FirstPageLength(s, pageBoundary)
    ensures forall i :: 0 <= i < |r.body.posts| ==> r.body.posts[i] == s.items[s.order[i]]
  {
    Response(200, PostList(s.Scan()[..FirstPageLength(s, pageBoundary)]), true)
  }

  /** The 404 error text for a missing post. */
  function NotFoundMessage(id: string): (m: string)
    ensures |m| == |NotFoundPrefix| + |id| + |NotFoundSuffix|
    ensures m[..|NotFoundPrefix|] == NotFoundPrefix
    ensures m[|NotFoundPrefix|..|m| - |NotFoundSuffix|] == id
    ensures m[|m| - |NotFoundSuffix|..] == NotFoundSuffix
  {
    NotFoundPrefix + id + NotFoundSuffix
  }

  /** The id a 404 error text names; None for text of another shape. */
  function NotFoundId(message: string): Option<string>
  {
    var n, p, q := |message|, |NotFoundPrefix|, |NotFoundSuffix|;
    if n >= p + q && message[..p] == NotFoundPrefix && message[n - q..] == NotFoundSuffix
    then Some(message[p..n - q])
    else None
  }

  /** get: 200 and the post when the uuid path parameter names one, 404 and an
      error naming that uuid when not; without the parameter the lookup raises. */
  function Get(s: Store, event: ApiEvent): (r: Invocation)
    ensures r.Raised? <==> "uuid" !in event.pathParameters
    ensures r.Raised? ==> r.fault == KeyMissing
    ensures "uuid" in event.pathParameters ==>
      var id := event.pathParameters["uuid"];
      && r.Returned? && r.response.serialised
      && (r.response.statusCode == 200 <==> id in s.items)
      && (id in s.items ==> r.response.body == OnePost(s.items[id]))
      && (id !in s.items ==> r.response.statusCode == 404 && r.response.body == Error(NotFoundMessage(id)))
  {
    if "uuid" !in event.pathParameters then Raised(KeyMissing)
    else
      var postId := event.pathParameters["uuid"];
      match s.Find(postId)
      case Some(post) => Returned(Response(200, OnePost(post), true))
      case None => Returned(Response(404, Error(NotFoundMessage(postId)), true))
  }

  /** _create_params: title and body of the parsed input and nothing else. */
  function ParseCreateParams(input: RequestBody): (r: Option<CreateParams>)
    ensures r.None? <==> input.Unparsable?
    ensures input.Parsed? ==> r == Some(CreateParams(input.title, input.body))
  {
    match input
    case Unparsable => None
    case Parsed(title, body, _, _) => Some(CreateParams(title, body))
  }

  /** The post the create handler builds: the input's title and body, the generated uuid, the current time. */
  function NewPost(params: CreateParams, uuid: Uuid, now: EpochTime): (p: Post)
    ensures p.postUuid == uuid && p.createdAt == now
    ensures p.title == params.title && p.body == params.body
  {
    Post(uuid, params.title, params.body, now)
  }

  /** create: build a post from the input's title and body, a generated uuid
      and the current time (both passed in), and save it; `saveSucceeds` is
      what the service answers to the save of a new key. A save under a key
      that is already taken fails. */
  method Create(table: PostTable, event: ApiEvent, uuid: Uuid, now: EpochTime, saveSucceeds: bool)
    returns (r: Invocation)
    requires table.Valid()
    modifies table
    ensures table.Valid()
    ensures event.body.Unparsable? ==>
      r == Raised(ParseFailure) && table.Snapshot() == old(table.Snapshot())
    ensures event.body.Parsed? && saveSucceeds && uuid !in old(table.items) ==>
      var post := Post(uuid, event.body.title, event.body.body, now);
      r == Returned(Response(200, OnePost(post), true)) && table.Snapshot() == Put(old(table.Snapshot()), post)
    ensures event.body.Parsed? && (!saveSucceeds || uuid in old(table.items)) ==>
      r == Returned(Response(500, Error(CreateFailedMessage), false)) && table.Snapshot() == old(table.Snapshot())
  {
    var params := ParseCreateParams(event.body);
    if params.None? {
      return Raised(ParseFailure);
    }
    var post := NewPost(params.value, uuid, now);
    var saved := table.Save(post, saveSucceeds);
    if saved {
      r := Returned(Response(200, OnePost(post), true));
    } else {
      r := Returned(Response(500, Error(CreateFailedMessage), false));
    }
  }

  /** The 404 text embeds exactly the requested id: it can be read back out. */
  lemma NotFoundRoundTrip(id: string)
    ensures NotFoundId(NotFoundMessage(id)) == Some(id)
  {
    var m := NotFoundMessage(id);
    var n, p, q := |m|, |NotFoundPrefix|, |NotFoundSuffix|;
    assert m[..p] == NotFoundPrefix;
    assert m[n - q..] == NotFoundSuffix;
    assert m[p..n - q] == id;
  }

  /** Two different ids never share a 404 text. */
  lemma NotFoundMessageInjective(a: string, b: string)
    requires a != b
    ensures NotFoundMessage(a) != NotFoundMessage(b)
  {
    NotFoundRoundTrip(a);
    NotFoundRoundTrip(b);
  }

  /** Every post the list handler shows can be fetched by its own uuid. */
  lemma IndexedPostsAreGettable(s: Store, pageBoundary: nat, i: nat, body: RequestBody)
    requires s.Valid()
    requires i < |Index(s, pageBoundary).body.posts|
    ensures var p := Index(s, pageBoundary).body.posts[i];
      Get(s, ApiEvent(map["uuid" := p.postUuid], body)) == Returned(Response(200, OnePost(p), true))
  {
    var p := Index(s, pageBoundary).body.posts[i];
    assert p == s.items[s.order[i]];
    assert p.postUuid == s.order[i];
  }

  /** The post a create builds depends on the input's title and body only:
      a client-supplied post_uuid or created_at makes no difference. */
  lemma CreateIgnoresClientKeys(a: RequestBody, b: RequestBody, uuid: Uuid, now: EpochTime)
    requires a.Parsed? && b.Parsed?
    requires a.title == b.title && a.body == b.body
    ensures ParseCreateParams(a).Some? && ParseCreateParams(b).Some?
    ensures NewPost(ParseCreateParams(a).value, uuid, now) == NewPost(ParseCreateParams(b).value, uuid, now)
    ensures NewPost(ParseCreateParams(a).value, uuid, now).postUuid == uuid
    ensures NewPost(ParseCreateParams(a).value, uuid, now).createdAt == now
  {
  }

  /** After a successful save, get with the new uuid answers 200 with the new post. */
  lemma CreatedPostIsGettable(s: Store, post: Post, body: RequestBody)
    requires s.Valid()
    requires post.postUuid !in s.items
    ensures Get(Put(s, post), ApiEvent(map["uuid" := post.postUuid], body)) == Returned(Response(200, OnePost(post), true))
  {
  }

  /** A save under a fresh uuid adds exactly one post and leaves the others as they were. */
  lemma CreateAddsOnePost(s: Store, post: Post)
    requires s.Valid()
    requires post.postUuid !in s.items
    ensures |Put(s, post).items| == |s.items| + 1
    ensures Put(s, post).items.Keys == s.items.Keys + {post.postUuid}
    ensures forall k :: k in s.items ==> Put(s, post).items[k] == s.items[k]
  {
  }

  /** Two stored posts are listed in scan order with status 200. */
  lemma IndexListsTwoPosts(t1: EpochTime, t2: EpochTime)
    ensures var a1 := Post("a1", Some("First Post"), Some("Hello, world!"), t1);
      var b2 := Post("b2", Some("Second Post"), Some("Another post."), t2);
      var s := Store(map["a1" := a1, "b2" := b2], ["a1", "b2"]);
      s.Valid() && Index(s, PageLimit) == Response(200, PostList([a1, b2]), true)
  {
    var a1 := Post("a1", Some("First Post"), Some("Hello, world!"), t1);
    var b2 := Post("b2", Some("Second Post"), Some("Another post."), t2);
    var s := Store(map["a1" := a1, "b2" := b2], ["a1", "b2"]);
    assert "a1" != "b2" by { assert "a1"[0] != "b2"[0]; }
    assert s.Valid();
    assert s.Scan()[..2] == [a1, b2];
  }

  /** A lookup of "a1" in a table without it answers 404 with "Post a1 not found!". */
  lemma GetMissingPost(s: Store, body: RequestBody)
    requires "a1" !in s.items
    ensures Get(s, ApiEvent(map["uuid" := "a1"], body)) == Returned(Response(404, Error("Post a1 not found!"), true))
  {
  }
}
