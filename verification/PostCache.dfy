/** The post cache: posts are created once, never updated, and copied into Redis by three writers (PostFeed,
    getPostContent and the ranking worker), each of which reads the row first and sends its SET later. */
module PostCache {
  import opened Collections

  type Id = string

  datatype Post = Post(id: Id, authorId: Id, blocks: string, createdAt: int, updatedAt: int)

  // A cached value is the JSON of a post, or bytes that do not decode.
  datatype Cached = Json(post: Post) | Garbled

  // `created` remembers every post ever created; `holding` is what the writers have read and not yet SET.
  datatype State = State(posts: map<Id, Post>, cache: map<Id, Cached>, created: map<Id, Post>, holding: map<nat, Post>)

  const EMPTY := State(map[], map[], map[], map[])

  datatype Action =
    | Create(writer: nat, post: Post)
    | Delete(id: Id)
    | ReadRow(writer: nat, id: Id)
    | Fill(writer: nat)
    | Expire(id: Id)
    | Garble(id: Id)

  function Apply(s: State, a: Action): State {
    match a
    case Create(w, p) =>
      if p.id in s.created then s   // ids come from gen_random_uuid
      else s.(posts := s.posts[p.id := p], created := s.created[p.id := p], holding := s.holding[w := p])
    case Delete(id) => s.(posts := Remove(s.posts, id))
    case ReadRow(w, id) => if id in s.posts then s.(holding := s.holding[w := s.posts[id]]) else s
    case Fill(w) =>
      if w in s.holding then
        s.(cache := s.cache[s.holding[w].id := Json(s.holding[w])], holding := Remove(s.holding, w))
      else s
    case Expire(id) => s.(cache := Remove(s.cache, id))
    case Garble(id) => if id in s.cache then s.(cache := s.cache[id := Garbled]) else s
  }

  function Run(s: State, actions: seq<Action>): State {
    if actions == [] then s else Apply(Run(s, actions[..|actions| - 1]), actions[|actions| - 1])
  }

  ghost predicate IsCreated(s: State, id: Id, p: Post) {
    id == p.id && id in s.created && s.created[id] == p
  }

  /** Rows, cached copies and copies on their way to the cache are all the post as it was created. */
  ghost predicate Faithful(s: State) {
    && (forall id :: id in s.created ==> IsCreated(s, id, s.created[id]))
    && (forall id :: id in s.posts ==> IsCreated(s, id, s.posts[id]))
    && (forall id :: id in s.cache && s.cache[id].Json? ==> IsCreated(s, id, s.cache[id].post))
    && (forall w :: w in s.holding ==> IsCreated(s, s.holding[w].id, s.holding[w]))
  }

  lemma ApplyFaithful(s: State, a: Action)
    requires Faithful(s)
    ensures Faithful(Apply(s, a))
  {
  }

  // What a reader of the table alone gets.
  function Row(s: State, id: Id): Option<Post> {
    if id in s.posts then Some(s.posts[id]) else None
  }

  // What getPostContent answers: a cached copy that decodes, or else the row.
  function Answer(s: State, id: Id): Option<Post> {
    if id in s.cache && s.cache[id].Json? then Some(s.cache[id].post) else Row(s, id)
  }

  lemma {:induction false} RunFaithful(actions: seq<Action>)
    ensures Faithful(Run(EMPTY, actions))
  {
    if actions != [] {
      RunFaithful(actions[..|actions| - 1]);
      ApplyFaithful(Run(EMPTY, actions[..|actions| - 1]), actions[|actions| - 1]);
    }
  }

  /** In every run: the cache answers as the table does, except for a deleted post whose copy is still there, for
      which it answers with the post as created. */
  lemma CacheTransparent(actions: seq<Action>, id: Id)
    ensures var s := Run(EMPTY, actions);
            && (Answer(s, id) == Row(s, id) <==> !(id in s.cache && s.cache[id].Json? && id !in s.posts))
            && (Answer(s, id).Some? ==> id in s.created && Answer(s, id).value == s.created[id])
  {
    RunFaithful(actions);
  }

  /** Deletion does not touch the cache, and a copy read before it can be SET after it: any post in the table can
      be deleted and yet be served. */
  lemma DeletedPostCanReappear(s: State, w: nat, id: Id)
    requires Faithful(s) && id in s.posts
    ensures var t := Apply(Apply(Apply(s, ReadRow(w, id)), Delete(id)), Fill(w));
            Row(t, id) == None && Answer(t, id) == Some(s.posts[id])
  {
  }

  /** Without its copy, or with a damaged one, a post is answered from the table. */
  lemma LostCopyFallsBack(s: State, id: Id)
    ensures Answer(Apply(s, Expire(id)), id) == Row(s, id) && Answer(Apply(s, Garble(id)), id) == Row(s, id)
  {
  }

  /** PostFeed in one go: the row is inserted and, if Redis is up, the copy is SET. */
  lemma CreateFaithful(s: State, p: Post, redisUp: bool)
    requires Faithful(s) && p.id !in s.created
    ensures Faithful(s.(posts := s.posts[p.id := p], created := s.created[p.id := p],
                        cache := if redisUp then s.cache[p.id := Json(p)] else s.cache))
  {
    var t := Apply(s, Create(0, p));
    ApplyFaithful(s, Create(0, p));
    ApplyFaithful(t, Fill(0));
  }
}
