/** The table of board posts and the handlers that write it. */
module ContactBoardModule {
  import opened Options
  import opened BoardPosts

  class ContactBoard {
    var posts: map<int, Post>
    var lastId: int

    function Current(): Board
      reads this
    {
      Board(posts, lastId)
    }

    constructor ()
      ensures Current() == EMPTY
    {
      posts, lastId := map[], 0;
    }

    /** boardPostCapExceeded: collect the kinds of the category, then count. */
    method BoardPostCapExceeded(event: int, kind: Kind, email: string, telegram: string, user: int, exclude: int,
        now: int)
      returns (exceeded: bool)
      ensures exceeded == CapExceeded(Current(), event, kind, email, telegram, user, exclude, now)
    {
      var category := CategoryOf(kind);
      var kinds: seq<Kind> := [];
      for i := 0 to |KINDS|
        invariant forall k :: k in kinds <==> k in KINDS[..i] && CategoryOf(k) == category
      {
        if CategoryOf(KINDS[i]) == category {
          kinds := kinds + [KINDS[i]];
        }
      }
      forall k: Kind ensures k in kinds <==> CategoryOf(k) == category { KindsAreAll(k); }
      var matching := set id | id in posts && posts[id].event == event && id != exclude
        && posts[id].kind in kinds && posts[id].expiresAt > now && Shares(posts[id], email, telegram, user);
      assert matching == Counted(Current(), event, category, email, telegram, user, exclude, now);
      return |matching| >= Cap(category);
    }

    /** The checks and the INSERT of createContactPost. */
    method CreateContactPost(draft: Draft, end: Option<int>, token: string, now: int) returns (reply: Reply)
      modifies this
      ensures Result(Current(), reply) == Handle(old(Current()), Create(now, draft, end, token))
    {
      if draft.user == 0 && draft.email == "" && draft.telegram == "" { return BadRequest; }
      var expiresAt := Expiry(draft.kind, end, now);
      if now >= expiresAt { return Gone; }
      var exceeded := BoardPostCapExceeded(draft.event, draft.kind, draft.email, draft.telegram, draft.user, 0, now);
      if exceeded { return Conflict; }
      lastId := lastId + 1;
      posts := posts[lastId :=
          Post(draft.event, draft.kind, draft.email, draft.telegram, draft.user, token, expiresAt)];
      return Done;
    }

    /** checkContactPostManageToken. */
    method CheckManageToken(id: int, token: string, now: int) returns (reply: Reply)
      ensures reply == TokenReply(Current(), id, token, now)
    {
      if token == "" { return BadRequest; }
      if id !in posts { return NotFound; }
      if posts[id].token != token { return Forbidden; }
      if now > posts[id].expiresAt { return Gone; }
      return Done;
    }

    /** checkBoardPostCap: a post that has vanished passes. */
    method CheckBoardPostCap(id: int, kind: Kind, now: int) returns (ok: bool)
      ensures id in posts ==>
                ok == !CapExceeded(Current(), posts[id].event, kind, posts[id].email, posts[id].telegram,
                    posts[id].user, id, now)
    {
      if id !in posts { return true; }
      var p := posts[id];
      var exceeded := BoardPostCapExceeded(p.event, kind, p.email, p.telegram, p.user, id, now);
      return !exceeded;
    }

    /** putContactPost. */
    method PutContactPost(id: int, token: string, kind: Kind, now: int) returns (reply: Reply)
      modifies this
      ensures Result(Current(), reply) == Handle(old(Current()), Put(now, id, token, kind))
    {
      reply := CheckManageToken(id, token, now);
      if reply != Done { return; }
      var ok := CheckBoardPostCap(id, kind, now);
      if !ok { return Conflict; }
      posts := posts[id := posts[id].(kind := kind)];
    }

    /** updateContactPost. */
    method UpdateContactPost(id: int, token: string, retype: Option<Kind>, now: int) returns (reply: Reply)
      modifies this
      ensures Result(Current(), reply) == Handle(old(Current()), Patch(now, id, token, retype))
    {
      reply := CheckManageToken(id, token, now);
      if reply != Done { return; }
      var kind := posts[id].kind;
      if retype.Some? { kind := retype.value; }
      if retype.Some? {
        var ok := CheckBoardPostCap(id, kind, now);
        if !ok { return Conflict; }
      }
      posts := posts[id := posts[id].(kind := kind)];
    }
  }

  lemma KindsAreAll(k: Kind)
    ensures k in KINDS[..|KINDS|]
  {
    match k
    case RideOffer => assert KINDS[..8][0] == k;
    case RideRequest => assert KINDS[..8][1] == k;
    case SleepOffer => assert KINDS[..8][2] == k;
    case SleepRequest => assert KINDS[..8][3] == k;
    case TicketOffer => assert KINDS[..8][4] == k;
    case TicketRequest => assert KINDS[..8][5] == k;
    case LostItem => assert KINDS[..8][6] == k;
    case FoundItem => assert KINDS[..8][7] == k;
  }
}
