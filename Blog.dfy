/**
 * The blog views: `generate_blog`, which validates a request, parses the
 * model's reply and stores one post, and the owner-scoped `blog_list` and
 * `blog_details` queries over the stored posts.
 */
module Blog {
  import opened Wrappers
  import opened Generation

  /** The primary key of the requesting user's account. */
  type UserId = nat

  /** A stored `BlogPost` row; `createdAt` is the creation timestamp. */
  datatype BlogPost = BlogPost(id: nat, owner: UserId, title: string, link: string,
                               content: string, createdAt: int)

  datatype HttpMethod = GET | POST | PUT | DELETE | OTHER

  /**
   * The request body as `json.loads` leaves it: bytes it cannot decode as
   * UTF-8, UTF-16 or UTF-32 (`UnicodeDecodeError`), text it rejects with
   * `JSONDecodeError`, JSON that is not an object (so `data.get` fails), or
   * an object with the three string fields the view reads, each possibly
   * absent.
   */
  datatype RequestBody =
    | Undecodable
    | Malformed
    | NotAnObject
    | Object(title: Option<string>, transcript: Option<string>, link: Option<string>)

  datatype Json = ErrorBody(error: string) | ArticleBody(title: string, content: string)

  datatype JsonResponse = JsonResponse(status: nat, body: Json)

  const NotConfiguredError: string := "AI model is not configured. Please check server logs."
  const OnlyPostError: string := "Only POST requests are allowed."
  const TranscriptRequiredError: string := "A transcript is required."
  const InvalidJsonError: string := "Invalid JSON in request body."
  const InternalError: string := "An internal server error occurred while generating the blog."

  /** The link stored with a post: the request's `link`, or "N/A" when the key is absent. */
  function LinkOrDefault(link: Option<string>): string
  {
    match link
    case Some(l) => l
    case None => "N/A"
  }

  predicate UniqueIds(posts: seq<BlogPost>) {
    forall i, j :: 0 <= i < j < |posts| ==> posts[i].id != posts[j].id
  }

  /** Every key in `posts` is below `next`, the next key to hand out. */
  predicate IdsBelow(posts: seq<BlogPost>, next: nat) {
    forall i :: 0 <= i < |posts| ==> posts[i].id < next
  }

  /** Appending a post under the next key keeps the keys unique and below the new next key. */
  lemma AppendKeepsKeys(posts: seq<BlogPost>, next: nat, post: BlogPost)
    requires UniqueIds(posts) && IdsBelow(posts, next) && post.id == next
    ensures UniqueIds(posts + [post]) && IdsBelow(posts + [post], next + 1)
  {
    var s := posts + [post];
    forall i, j | 0 <= i < j < |s| ensures s[i].id != s[j].id {
      if j == |posts| {
        assert s[i] == posts[i];
      } else {
        assert s[i] == posts[i] && s[j] == posts[j];
      }
    }
  }

  /** The `BlogPost` table: the stored rows and the next primary key to hand out. */
  class BlogStore {
    var posts: seq<BlogPost>
    var nextId: nat

    ghost predicate Valid()
      reads this
    {
      UniqueIds(posts) && IdsBelow(posts, nextId)
    }

    constructor ()
      ensures Valid() && posts == [] && nextId == 1
    {
      posts := [];
      nextId := 1;
    }

    /**
     * The `generate_blog` view. `configured` says whether the model was set
     * up at start-up, `reply` is the text the model returned for the prompt
     * (`None` when the call failed or gave no text) and `now` the clock.
     */
    method GenerateBlog(configured: bool, httpMethod: HttpMethod, body: RequestBody,
                        requester: UserId, reply: Option<string>, now: int)
      returns (resp: JsonResponse)
      requires Valid()
      modifies this
      ensures Valid()
      ensures !configured ==> resp == JsonResponse(500, ErrorBody(NotConfiguredError))
      ensures configured && httpMethod != POST ==> resp == JsonResponse(405, ErrorBody(OnlyPostError))
      ensures configured && httpMethod == POST && body.Malformed? ==>
                resp == JsonResponse(400, ErrorBody(InvalidJsonError))
      ensures configured && httpMethod == POST && (body.Undecodable? || body.NotAnObject?) ==>
                resp == JsonResponse(500, ErrorBody(InternalError))
      ensures configured && httpMethod == POST && body.Object? && !Given(body.transcript) ==>
                resp == JsonResponse(400, ErrorBody(TranscriptRequiredError))
      ensures (configured && httpMethod == POST && body.Object? && Given(body.transcript) && reply.None?)
                ==> resp == JsonResponse(500, ErrorBody(InternalError))
      ensures resp.status == 200 <==>
                configured && httpMethod == POST && body.Object? && Given(body.transcript) && reply.Some?
      ensures resp.status == 200 ==>
                var a := ParseReply(reply.value, body.title);
                resp.body == ArticleBody(a.title, a.content)
                && posts == old(posts) + [BlogPost(old(nextId), requester, a.title,
                                                   LinkOrDefault(body.link), a.content, now)]
                && nextId == old(nextId) + 1
      ensures resp.status != 200 ==> posts == old(posts) && nextId == old(nextId)
    {
      if !configured {
        return JsonResponse(500, ErrorBody(NotConfiguredError));
      }
      if httpMethod != POST {
        return JsonResponse(405, ErrorBody(OnlyPostError));
      }
      match body {
        case Undecodable =>
          resp := JsonResponse(500, ErrorBody(InternalError));
        case Malformed =>
          resp := JsonResponse(400, ErrorBody(InvalidJsonError));
        case NotAnObject =>
          resp := JsonResponse(500, ErrorBody(InternalError));
        case Object(title, transcript, link) =>
          if !Given(transcript) {
            return JsonResponse(400, ErrorBody(TranscriptRequiredError));
          }
          if reply.None? {
            return JsonResponse(500, ErrorBody(InternalError));
          }
          var a := ParseReply(reply.value, title);
          var post := BlogPost(nextId, requester, a.title, LinkOrDefault(link), a.content, now);
          AppendKeepsKeys(posts, nextId, post);
          posts := posts + [post];
          nextId := nextId + 1;
          resp := JsonResponse(200, ArticleBody(a.title, a.content));
      }
    }
  }

  /** The posts of `owner`, in store order (`filter(user=...)`). */
  function OwnedBy(posts: seq<BlogPost>, owner: UserId): (r: seq<BlogPost>)
    ensures forall p :: multiset(r)[p] == if p.owner == owner then multiset(posts)[p] else 0
    ensures forall p :: p in r <==> p in posts && p.owner == owner
  {
    if posts == [] then []
    else
      assert posts == [posts[0]] + posts[1..];
      if posts[0].owner == owner then [posts[0]] + OwnedBy(posts[1..], owner)
      else OwnedBy(posts[1..], owner)
  }

  /** Newest first: `created_at` never increases along the sequence. */
  predicate NewestFirst(s: seq<BlogPost>) {
    forall i, j :: 0 <= i < j < |s| ==> s[i].createdAt >= s[j].createdAt
  }

  /** Putting a post no older than the head in front keeps a sequence newest first. */
  lemma PrependNewest(p: BlogPost, s: seq<BlogPost>)
    requires NewestFirst(s) && (s == [] || p.createdAt >= s[0].createdAt)
    ensures NewestFirst([p] + s)
  {
    var r := [p] + s;
    forall i, j | 0 <= i < j < |r| ensures r[i].createdAt >= r[j].createdAt {
      if i == 0 {
        assert r[j] == s[j - 1];
        if j > 1 {
          assert s[0].createdAt >= s[j - 1].createdAt;
        }
      } else {
        assert r[i] == s[i - 1] && r[j] == s[j - 1];
      }
    }
  }

  /** A post older than the head goes behind it; the head stays in front of the rest. */
  lemma KeepHeadInFront(p: BlogPost, s: seq<BlogPost>, rest: seq<BlogPost>)
    requires s != [] && NewestFirst(s) && p.createdAt < s[0].createdAt
    requires NewestFirst(rest) && multiset(rest) == multiset(s[1..]) + multiset{p}
    requires |rest| == |s| && (rest[0] == p || (s[1..] != [] && rest[0] == s[1..][0]))
    ensures NewestFirst([s[0]] + rest)
    ensures multiset([s[0]] + rest) == multiset(s) + multiset{p}
  {
    if rest[0] != p {
      assert s[0].createdAt >= s[1].createdAt;
    }
    PrependNewest(s[0], rest);
    assert s == [s[0]] + s[1..];
  }

  /** Insert `p` into a newest-first sequence. */
  function InsertByDate(p: BlogPost, s: seq<BlogPost>): (r: seq<BlogPost>)
    requires NewestFirst(s)
    ensures NewestFirst(r) && multiset(r) == multiset(s) + multiset{p}
    ensures |r| == |s| + 1 && (r[0] == p || (s != [] && r[0] == s[0]))
  {
    if s == [] then [p]
    else if p.createdAt >= s[0].createdAt then
      PrependNewest(p, s);
      [p] + s
    else
      var rest := InsertByDate(p, s[1..]);
      KeepHeadInFront(p, s, rest);
      [s[0]] + rest
  }

  /** `order_by('-created_at')`: a newest-first arrangement of the same posts. */
  function SortNewestFirst(s: seq<BlogPost>): (r: seq<BlogPost>)
    ensures NewestFirst(r) && multiset(r) == multiset(s)
  {
    if s == [] then []
    else
      assert s == [s[0]] + s[1..];
      InsertByDate(s[0], SortNewestFirst(s[1..]))
  }

  /** The `blog_list` view: the requester's posts, newest first. */
  function BlogList(posts: seq<BlogPost>, requester: UserId): (r: seq<BlogPost>)
    ensures NewestFirst(r)
    ensures forall p :: p in r <==> p in posts && p.owner == requester
    ensures forall p :: multiset(r)[p] == if p.owner == requester then multiset(posts)[p] else 0
  {
    var mine := OwnedBy(posts, requester);
    var r := SortNewestFirst(mine);
    assert forall p :: p in r <==> p in mine by {
      forall p ensures p in r <==> p in mine {
        assert p in r <==> p in multiset(r);
        assert p in mine <==> p in multiset(mine);
      }
    }
    r
  }

  /** The post with primary key `pk`, if there is one (`objects.get(id=pk)`). */
  function FindPost(posts: seq<BlogPost>, pk: nat): (r: Option<BlogPost>)
    ensures r.Some? ==> r.value in posts && r.value.id == pk
    ensures r.None? ==> forall p :: p in posts ==> p.id != pk
  {
    if posts == [] then None
    else if posts[0].id == pk then Some(posts[0])
    else FindPost(posts[1..], pk)
  }

  datatype DetailPage = Render(post: BlogPost) | RedirectToList

  /** The `blog_details` view: the post is shown only to its owner. */
  function BlogDetails(posts: seq<BlogPost>, requester: UserId, pk: nat): (page: DetailPage)
    ensures page.Render? ==> page.post in posts && page.post.id == pk && page.post.owner == requester
  {
    match FindPost(posts, pk)
    case Some(p) => if p.owner == requester then Render(p) else RedirectToList
    case None => RedirectToList
  }

  /**
   * With primary keys unique, the detail page renders exactly when the
   * requester owns a post with that key; otherwise it redirects to the list.
   */
  lemma DetailOnlyForOwner(posts: seq<BlogPost>, requester: UserId, pk: nat)
    requires UniqueIds(posts)
    ensures BlogDetails(posts, requester, pk).Render?
            <==> exists p :: p in posts && p.id == pk && p.owner == requester
  {
    var f := FindPost(posts, pk);
    if f.Some? && f.value.owner != requester {
      forall p | p in posts && p.id == pk
        ensures p.owner != requester
      {
        var i :| 0 <= i < |posts| && posts[i] == p;
        var k :| 0 <= k < |posts| && posts[k] == f.value;
        assert i == k;
      }
    }
  }
}
