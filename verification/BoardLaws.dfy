/** What each board request answers and leaves behind, column by column. */
module BoardLaws {
  import opened Options
  import opened BoardPosts
  import Titles
  import Sets

  predicate LostOrFound(k: Kind) {
    k == LostItem || k == FoundItem
  }

  /** The two kinds of one category. */
  predicate Alike(a: Kind, b: Kind) {
    || (a in {RideOffer, RideRequest} && b in {RideOffer, RideRequest})
    || (a in {SleepOffer, SleepRequest} && b in {SleepOffer, SleepRequest})
    || (a in {TicketOffer, TicketRequest} && b in {TicketOffer, TicketRequest})
    || (LostOrFound(a) && LostOrFound(b))
  }

  function Limit(k: Kind): nat {
    if LostOrFound(k) then 5 else 1
  }

  /** A live post of the same kind for the same event, by the same email address
      whatever its case, the same account, or, when neither side gave an address
      and the request has no account, with the same handle. */
  predicate CountsAgainst(p: Post, event: int, k: Kind, email: string, handle: string, user: int, now: int) {
    && p.event == event && Alike(p.kind, k) && now < p.expiresAt
    && ( || (email != "" && Titles.SameLetters(p.email, email))
         || (user > 0 && p.user == user)
         || (email == "" && user == 0 && p.email == "" && handle != "" && p.telegram == handle))
  }

  lemma CategoryMeans(a: Kind, b: Kind)
    ensures CategoryOf(a) == CategoryOf(b) <==> Alike(a, b)
    ensures Cap(CategoryOf(a)) == Limit(a)
    ensures CategoryOf(a).LostFound? <==> LostOrFound(a)
  {
  }

  /** The posts that count against a request. */
  lemma CountedMeans(b: Board, event: int, k: Kind, email: string, handle: string, user: int, exclude: int, now: int)
    ensures forall id :: id in Counted(b, event, CategoryOf(k), email, handle, user, exclude, now) <==>
              && id in b.posts && id != exclude
              && CountsAgainst(b.posts[id], event, k, email, handle, user, now)
  {
    hide CategoryOf, Alike;
    forall id | id in b.posts
      ensures CategoryOf(b.posts[id].kind) == CategoryOf(k) <==> Alike(b.posts[id].kind, k)
      ensures Titles.ToLower(b.posts[id].email) == Titles.ToLower(email) <==>
              Titles.SameLetters(b.posts[id].email, email)
    {
      CategoryMeans(b.posts[id].kind, k);
      Titles.CaseIsAllThatIsLost(b.posts[id].email, email);
    }
    hide Titles.ToLower, Titles.SameLetters;
  }

  /** A creation: refused without an identity, from the third day after the event
      on unless it is about something lost or found, and while as many posts count
      against it as the category allows; otherwise the post is added under the next
      id, for thirty days, or to the third day after the event if that is sooner. */
  lemma CreateMeans(b: Board, d: Draft, end: Option<int>, token: string, now: int) returns (rivals: set<int>)
    requires 0 !in b.posts
    ensures forall id :: id in rivals <==>
              id in b.posts && CountsAgainst(b.posts[id], d.event, d.kind, d.email, d.telegram, d.user, now)
    ensures var r := Handle(b, Create(now, d, end, token)); var id := b.lastId + 1;
      if d.user == 0 && d.email == "" && d.telegram == "" then r == Result(b, BadRequest)
      else if !LostOrFound(d.kind) && end.Some? && end.value + 259200 <= now then r == Result(b, Gone)
      else if |rivals| >= Limit(d.kind) then r == Result(b, Conflict)
      else
        && r.reply == Done && r.board.lastId == id && id in r.board.posts
        && r.board.posts == b.posts[id := r.board.posts[id]]
        && var p := r.board.posts[id];
           && p.event == d.event && p.kind == d.kind && p.email == d.email && p.telegram == d.telegram
           && p.user == d.user && p.token == token
           && p.expiresAt == (if !LostOrFound(d.kind) && end.Some? && end.value + 259200 < now + 2592000
                              then end.value + 259200 else now + 2592000)
  {
    rivals := Counted(b, d.event, CategoryOf(d.kind), d.email, d.telegram, d.user, 0, now);
    CountedMeans(b, d.event, d.kind, d.email, d.telegram, d.user, 0, now);
    CategoryMeans(d.kind, d.kind);
    hide Counted, CategoryOf, Cap, CountsAgainst, Limit, LostOrFound;
  }

  /** An edit: refused without the post's token, after its expiry, and when it
      gives a kind of which as many other posts count against the poster as the
      category allows; otherwise the kind changes and nothing else. */
  lemma EditMeans(b: Board, r: Request) returns (rivals: set<int>)
    requires r.Put? || r.Patch?
    ensures forall id :: id in rivals <==>
              && id in b.posts && id != r.id && r.id in b.posts && (r.Patch? ==> r.retype.Some?)
              && var p := b.posts[r.id];
                 CountsAgainst(b.posts[id], p.event, if r.Put? then r.kind else r.retype.value, p.email, p.telegram,
                               p.user, r.now)
    ensures var result := Handle(b, r);
      if r.token == "" then result == Result(b, BadRequest)
      else if r.id !in b.posts then result == Result(b, NotFound)
      else if b.posts[r.id].token != r.token then result == Result(b, Forbidden)
      else if r.now > b.posts[r.id].expiresAt then result == Result(b, Gone)
      else if r.Patch? && r.retype.None? then result == Result(b, Done)
      else
        var k := if r.Put? then r.kind else r.retype.value;
        if |rivals| >= Limit(k) then result == Result(b, Conflict)
        else result == Result(b.(posts := b.posts[r.id := b.posts[r.id].(kind := k)]), Done)
  {
    rivals := {};
    if r.id in b.posts && (r.Patch? ==> r.retype.Some?) {
      var p, k := b.posts[r.id], if r.Put? then r.kind else r.retype.value;
      rivals := Counted(b, p.event, CategoryOf(k), p.email, p.telegram, p.user, r.id, r.now);
      CountedMeans(b, p.event, k, p.email, p.telegram, p.user, r.id, r.now);
      CategoryMeans(k, k);
    }
    hide Counted, CategoryOf, Cap, CountsAgainst, Limit;
  }

  /** A removal: by its manage link while the post is live, by an organiser at
      any time, or by the clean-up once it has expired. */
  lemma RemovalMeans(b: Board, r: Request, id: int)
    requires r.DeleteByToken? || r.Remove? || r.Sweep?
    ensures var after := Handle(b, r).board;
      && after.lastId == b.lastId && (id in after.posts ==> id in b.posts && after.posts[id] == b.posts[id])
      && (id in b.posts ==> (id !in after.posts <==>
            match r
            case DeleteByToken(now, token) => b.posts[id].token == token && now <= b.posts[id].expiresAt
            case Remove(_, removed) => id == removed
            case Sweep(now) => b.posts[id].expiresAt < now))
    ensures Handle(b, r).reply == match r
      case DeleteByToken(now, token) =>
        if forall p :: p in b.posts ==> b.posts[p].token != token then NotFound
        else if forall p :: p in b.posts && b.posts[p].token == token ==> now > b.posts[p].expiresAt then Gone
        else Done
      case Remove(_, removed) => if removed in b.posts then Done else NotFound
      case Sweep(_) => Done
  {
    match r
    case DeleteByToken(now, token) =>
      Sets.HasInt(Due(b, token, now));
      forall p | p in b.posts
        ensures p in Due(b, token, now) <==> b.posts[p].token == token && now <= b.posts[p].expiresAt
      {
      }
    case _ =>
  }

  /** In every run, at every later moment, no set of live posts of one category
      and event is larger than the category allows, if they share an email address
      up to case, an account, or a handle given with neither. */
  lemma NobodyHoldsMore(requests: seq<Request>, now: int, event: int, k: Kind, email: string, user: int,
                        handle: string, held: set<int>)
    requires InOrder(requests) && forall i :: 0 <= i < |requests| ==> requests[i].now <= now
    requires var posts := Run(EMPTY, requests).posts;
      && (forall id :: id in held ==>
            id in posts && posts[id].event == event && Alike(posts[id].kind, k) && now < posts[id].expiresAt)
      && ( || (email != "" && forall id :: id in held ==> Titles.SameLetters(posts[id].email, email))
           || (user > 0 && forall id :: id in held ==> posts[id].user == user)
           || (handle != "" && forall id :: id in held ==>
                 posts[id].telegram == handle && posts[id].user == 0 && posts[id].email == ""))
    ensures |held| <= Limit(k)
  {
    var b := Run(EMPTY, requests);
    forall id | id in held ensures CategoryOf(b.posts[id].kind) == CategoryOf(k) { CategoryMeans(b.posts[id].kind, k); }
    CategoryMeans(k, k);
    hide Run, CategoryOf, Alike, Cap, Limit;
    var lower := Titles.ToLower(email);
    if email != "" && forall id :: id in held ==> Titles.SameLetters(b.posts[id].email, email) {
      forall id | id in held ensures id in Held(b, event, CategoryOf(k), ByEmail(lower), now) {
        Titles.CaseIsAllThatIsLost(b.posts[id].email, email);
      }
      CapsHold(requests, now, event, CategoryOf(k), ByEmail(lower));
      SubsetIsSmaller(held, Held(b, event, CategoryOf(k), ByEmail(lower), now));
    } else if user > 0 && forall id :: id in held ==> b.posts[id].user == user {
      forall id | id in held ensures id in Held(b, event, CategoryOf(k), ByUser(user), now) {
        assert b.posts[id].user == user;
      }
      CapsHold(requests, now, event, CategoryOf(k), ByUser(user));
      SubsetIsSmaller(held, Held(b, event, CategoryOf(k), ByUser(user), now));
    } else {
      forall id | id in held ensures id in Held(b, event, CategoryOf(k), ByTelegram(handle), now) {
        assert b.posts[id].telegram == handle;
      }
      CapsHold(requests, now, event, CategoryOf(k), ByTelegram(handle));
      SubsetIsSmaller(held, Held(b, event, CategoryOf(k), ByTelegram(handle), now));
    }
  }
}
