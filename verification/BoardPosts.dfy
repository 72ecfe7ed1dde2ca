/** Ride, sleep, ticket and lost-and-found posts of an event, and how many of them one person may have. */
module BoardPosts {
  import opened Options
  import Sets
  import Titles

  datatype Kind =
    | RideOffer | RideRequest | SleepOffer | SleepRequest
    | TicketOffer | TicketRequest | LostItem | FoundItem

  const KINDS := [RideOffer, RideRequest, SleepOffer, SleepRequest, TicketOffer, TicketRequest, LostItem, FoundItem]

  datatype Category = Ride | Sleep | Ticket | LostFound

  function CategoryOf(k: Kind): Category {
    match k
    case RideOffer | RideRequest => Ride
    case SleepOffer | SleepRequest => Sleep
    case TicketOffer | TicketRequest => Ticket
    case LostItem | FoundItem => LostFound
  }

  function Cap(c: Category): nat {
    if c.LostFound? then 5 else 1
  }

  /** user is 0 for anonymous posts. */
  datatype Post = Post(event: int, kind: Kind, email: string, telegram: string, user: int, token: string,
      expiresAt: int)

  datatype Board = Board(posts: map<int, Post>, lastId: int)

  const DAY := 24 * 3600

  /** computeContactPostExpiry; end is the event's end time, if it has a usable one. */
  function Expiry(k: Kind, end: Option<int>, now: int): int {
    var ceiling := now + 30 * DAY;
    if CategoryOf(k).LostFound? || end.None? || end.value + 3 * DAY >= ceiling then ceiling else end.value + 3 * DAY
  }

  /** At creation a post is given at most thirty days and, unless it is about
      something lost or found, no more than three days after the event; so a new
      post of such a kind is refused exactly from the third day after the event. */
  lemma CreationEndsAfterEvent(k: Kind, end: Option<int>, now: int)
    ensures Expiry(k, end, now) <= now + 30 * DAY
    ensures !CategoryOf(k).LostFound? && end.Some? ==> Expiry(k, end, now) <= end.value + 3 * DAY
    ensures now >= Expiry(k, end, now) <==> !CategoryOf(k).LostFound? && end.Some? && now >= end.value + 3 * DAY
    ensures Expiry(k, end, now) == now + 30 * DAY || (end.Some? && Expiry(k, end, now) == end.value + 3 * DAY)
  {
  }

  /** What a post must have in common with a request to count against it. */
  predicate Shares(p: Post, email: string, telegram: string, user: int) {
    || (email != "" && Titles.ToLower(p.email) == Titles.ToLower(email))
    || (user > 0 && p.user == user)
    || (email == "" && user == 0 && p.email == "" && p.telegram != "" && p.telegram == telegram)
  }

  function Counted(b: Board, event: int, c: Category, email: string, telegram: string, user: int, exclude: int,
      now: int): set<int> {
    set id | id in b.posts && id != exclude
      && b.posts[id].event == event && CategoryOf(b.posts[id].kind) == c && b.posts[id].expiresAt > now
      && Shares(b.posts[id], email, telegram, user)
  }

  predicate CapExceeded(b: Board, event: int, k: Kind, email: string, telegram: string, user: int, exclude: int,
      now: int) {
    |Counted(b, event, CategoryOf(k), email, telegram, user, exclude, now)| >= Cap(CategoryOf(k))
  }

  // --------------------------------------------------------------------- requests

  datatype Draft = Draft(event: int, kind: Kind, email: string, telegram: string, user: int)

  datatype Request =
    | Create(now: int, draft: Draft, end: Option<int>, token: string)
    | Put(now: int, id: int, token: string, kind: Kind)
    | Patch(now: int, id: int, token: string, retype: Option<Kind>)
    | DeleteByToken(now: int, token: string)
    | Remove(now: int, id: int)       // by an organiser
    | Sweep(now: int)                 // the hourly clean-up

  datatype Reply = Done | BadRequest | NotFound | Forbidden | Gone | Conflict

  datatype Result = Result(board: Board, reply: Reply)

  function Created(b: Board, d: Draft, end: Option<int>, token: string, now: int): Result {
    if d.user == 0 && d.email == "" && d.telegram == "" then Result(b, BadRequest)
    else
      var expiresAt := Expiry(d.kind, end, now);
      if now >= expiresAt then Result(b, Gone)
      else if CapExceeded(b, d.event, d.kind, d.email, d.telegram, d.user, 0, now) then Result(b, Conflict)
      else
        var id := b.lastId + 1;
        Result(Board(b.posts[id := Post(d.event, d.kind, d.email, d.telegram, d.user, token, expiresAt)], id), Done)
  }

  /** The answer to a wrong or expired manage token. */
  function TokenReply(b: Board, id: int, token: string, now: int): Reply {
    if token == "" then BadRequest
    else if id !in b.posts then NotFound
    else if b.posts[id].token != token then Forbidden
    else if now > b.posts[id].expiresAt then Gone
    else Done
  }

  /** PUT, and PATCH with a type: the cap is checked for the stored identity,
      leaving out the post itself. */
  function Retyped(b: Board, id: int, token: string, k: Kind, now: int): Result {
    var reply := TokenReply(b, id, token, now);
    if !reply.Done? then Result(b, reply)
    else
      var p := b.posts[id];
      if CapExceeded(b, p.event, k, p.email, p.telegram, p.user, id, now) then Result(b, Conflict)
      else Result(b.(posts := b.posts[id := p.(kind := k)]), Done)
  }

  /** The posts a manage link still opens. */
  function Due(b: Board, token: string, now: int): set<int> {
    set id | id in b.posts && b.posts[id].token == token && now <= b.posts[id].expiresAt
  }

  function Handle(b: Board, r: Request): Result {
    match r
    case Create(now, draft, end, token) => Created(b, draft, end, token, now)
    case Put(now, id, token, kind) => Retyped(b, id, token, kind, now)
    case Patch(now, id, token, retype) =>
      if retype.Some? then Retyped(b, id, token, retype.value, now) else Result(b, TokenReply(b, id, token, now))
    case DeleteByToken(now, token) =>
      var due := Due(b, token, now);
      Result(b.(posts := b.posts - due),
             if exists id :: id in b.posts && b.posts[id].token == token
             then if due == {} then Gone else Done
             else NotFound)
    case Remove(now, id) => Result(b.(posts := b.posts - {id}), if id in b.posts then Done else NotFound)
    case Sweep(now) =>
      Result(b.(posts := map id | id in b.posts && b.posts[id].expiresAt >= now :: b.posts[id]), Done)
  }

  function Run(b: Board, requests: seq<Request>): Board
    decreases |requests|
  {
    if requests == [] then b else Run(Handle(b, requests[0]).board, requests[1..])
  }

  // ------------------------------------------------------------------------- caps

  /** The identities the cap is promised for. Emails are compared without case;
      a Telegram handle identifies a poster who has given nothing else. */
  datatype Identity = ByEmail(lower: string) | ByUser(user: int) | ByTelegram(handle: string)

  predicate Belongs(p: Post, i: Identity) {
    match i
    case ByEmail(lower) => p.email != "" && Titles.ToLower(p.email) == lower
    case ByUser(user) => user > 0 && p.user == user
    case ByTelegram(handle) => handle != "" && p.user == 0 && p.email == "" && p.telegram == handle
  }

  /** The live posts of one identity in one category of one event. */
  function Held(b: Board, event: int, c: Category, i: Identity, now: int): set<int> {
    set id | id in b.posts && Holds(b.posts[id], event, c, i, now)
  }

  predicate Holds(p: Post, event: int, c: Category, i: Identity, now: int) {
    p.event == event && CategoryOf(p.kind) == c && p.expiresAt > now && Belongs(p, i)
  }

  ghost predicate WithinCaps(b: Board, now: int) {
    && (forall id :: id in b.posts ==> 0 < id <= b.lastId && b.posts[id].user >= 0) && b.lastId >= 0
    && forall event, c, i :: |Held(b, event, c, i, now)| <= Cap(c)
  }

  lemma {:induction false} SubsetIsSmaller(a: set<int>, b: set<int>)
    requires a <= b
    ensures |a| <= |b|
  {
    if a != {} {
      Sets.HasInt(a);
      var x :| x in a;
      SubsetIsSmaller(a - {x}, b - {x});
    }
  }

  /** Posts only drop out of a board whose posts are a part of another's. */
  lemma FewerPostsWithinCaps(b: Board, smaller: Board, before: int, now: int)
    requires WithinCaps(b, before) && before <= now && smaller.lastId == b.lastId
    requires forall id :: id in smaller.posts ==> id in b.posts && smaller.posts[id] == b.posts[id]
    ensures WithinCaps(smaller, now)
  {
    forall event, c, i ensures |Held(smaller, event, c, i, now)| <= Cap(c) {
      SubsetIsSmaller(Held(smaller, event, c, i, now), Held(b, event, c, i, before));
    }
  }

  /** A post that an identity holds counts against every request of that identity. */
  lemma BelongingIsCounted(p: Post, other: Post, i: Identity)
    requires Belongs(p, i) && Belongs(other, i)
    ensures Shares(other, p.email, p.telegram, p.user)
  {
  }

  lemma WrittenPostWithinCaps(b: Board, id: int, p: Post, now: int, after: Board)
    requires WithinCaps(b, now) && after.posts == b.posts[id := p] && after.lastId >= b.lastId
    requires 0 < id <= after.lastId && p.user >= 0
    requires !CapExceeded(b, p.event, p.kind, p.email, p.telegram, p.user, id, now)
    ensures WithinCaps(after, now)
  {
    forall event, c, i ensures |Held(after, event, c, i, now)| <= Cap(c) {
      WrittenPostIsOneMore(b, id, p, now, after, event, c, i);
    }
  }

  lemma WrittenPostIsOneMore(b: Board, id: int, p: Post, now: int, after: Board, event: int, c: Category, i: Identity)
    requires after.posts == b.posts[id := p] && |Held(b, event, c, i, now)| <= Cap(c)
    requires !CapExceeded(b, p.event, p.kind, p.email, p.telegram, p.user, id, now)
    ensures |Held(after, event, c, i, now)| <= Cap(c)
  {
    var held := Held(after, event, c, i, now);
    if Holds(p, event, c, i, now) {
      var others := Counted(b, event, c, p.email, p.telegram, p.user, id, now);
      forall other | other in held && other != id ensures other in others {
        BelongingIsCounted(p, b.posts[other], i);
      }
      SubsetIsSmaller(held, others + {id});
    } else {
      SubsetIsSmaller(held, Held(b, event, c, i, now));
    }
  }

  /** The identity part of a request never changes with the excluded id when nothing has it. */
  lemma NothingToExclude(b: Board, event: int, c: Category, email: string, telegram: string, user: int, x: int,
      y: int, now: int)
    requires x !in b.posts && y !in b.posts
    ensures Counted(b, event, c, email, telegram, user, x, now) == Counted(b, event, c, email, telegram, user, y, now)
  {
  }

  lemma HandleKeepsCaps(b: Board, r: Request, before: int)
    requires WithinCaps(b, before) && before <= r.now && (r.Create? ==> r.draft.user >= 0)
    ensures WithinCaps(Handle(b, r).board, r.now)
  {
    hide Counted, Held, Cap;
    FewerPostsWithinCaps(b, b, before, r.now);
    var after := Handle(b, r).board;
    match r
    case Create(now, d, end, token) =>
      if after != b {
        var id := b.lastId + 1;
        NothingToExclude(b, d.event, CategoryOf(d.kind), d.email, d.telegram, d.user, 0, id, now);
        WrittenPostWithinCaps(b, id, after.posts[id], now, after);
      }
    case Put(now, id, token, kind) =>
      if Handle(b, r).reply.Done? { WrittenPostWithinCaps(b, id, after.posts[id], now, after); }
    case Patch(now, id, token, retype) =>
      if Handle(b, r).reply.Done? && retype.Some? { WrittenPostWithinCaps(b, id, after.posts[id], now, after); }
    case DeleteByToken(now, token) => FewerPostsWithinCaps(b, after, before, now);
    case Remove(now, id) => FewerPostsWithinCaps(b, after, before, now);
    case Sweep(now) => FewerPostsWithinCaps(b, after, before, now);
  }

  predicate InOrder(requests: seq<Request>) {
    && (forall i, j :: 0 <= i < j < |requests| ==> requests[i].now <= requests[j].now)
    && (forall i :: 0 <= i < |requests| && requests[i].Create? ==> requests[i].draft.user >= 0)
  }

  lemma {:induction false} RunKeepsCaps(b: Board, requests: seq<Request>, before: int, now: int)
    requires WithinCaps(b, before) && InOrder(requests)
    requires forall i :: 0 <= i < |requests| ==> before <= requests[i].now <= now
    requires before <= now
    ensures WithinCaps(Run(b, requests), now)
    decreases |requests|
  {
    hide WithinCaps, Handle;
    if requests == [] {
      FewerPostsWithinCaps(b, b, before, now);
    } else {
      HandleKeepsCaps(b, requests[0], before);
      RunKeepsCaps(Handle(b, requests[0]).board, requests[1..], requests[0].now, now);
    }
  }

  const EMPTY := Board(map[], 0)

  /** In every run of requests, at every later moment, nobody holds more live
      posts of a category on one event than its cap. */
  lemma CapsHold(requests: seq<Request>, now: int, event: int, c: Category, i: Identity)
    requires InOrder(requests) && forall k :: 0 <= k < |requests| ==> requests[k].now <= now
    ensures |Held(Run(EMPTY, requests), event, c, i, now)| <= Cap(c)
  {
    var start := if requests == [] then now else requests[0].now;
    RunKeepsCaps(EMPTY, requests, start, now);
  }

  // ------------------------------------------------------------- Telegram handles

  /** The live posts of a category that carry a handle, whoever wrote them. */
  function WithHandle(b: Board, event: int, c: Category, handle: string, now: int): set<int> {
    set id | id in b.posts && b.posts[id].event == event && CategoryOf(b.posts[id].kind) == c
      && b.posts[id].expiresAt > now && b.posts[id].telegram == handle
  }

  /** Those of them that also give an email address. */
  function WithHandleAndEmail(b: Board, event: int, c: Category, handle: string, now: int): set<int> {
    set id | id in WithHandle(b, event, c, handle, now) && b.posts[id].email != ""
  }

  /** When a post with a handle is accepted, on every board and however many
      posts already carry the handle. A request with an email address or an
      account is held against that address and account only. One with neither is
      held against the posts that carry the handle and no email address. */
  lemma HandleIsAcceptedExactly(b: Board, d: Draft, end: Option<int>, token: string, now: int)
    requires 0 !in b.posts && d.telegram != "" && d.user >= 0
    ensures var c := CategoryOf(d.kind);
      var own := Held(b, d.event, c, ByEmail(Titles.ToLower(d.email)), now) + Held(b, d.event, c, ByUser(d.user), now);
      var carrying := WithHandle(b, d.event, c, d.telegram, now);
      var addressed := WithHandleAndEmail(b, d.event, c, d.telegram, now);
      Created(b, d, end, token, now).reply.Done? <==>
        && now < Expiry(d.kind, end, now)
        && if d.email != "" || d.user > 0 then |own| < Cap(c) else |carrying| - |addressed| < Cap(c)
  {
    hide Cap, Expiry, Counted, Held, WithHandle, WithHandleAndEmail;
    if d.email != "" || d.user > 0 {
      CountedByIdentity(b, d, now);
    } else {
      CountedByHandle(b, d, now);
    }
  }

  lemma CountedByIdentity(b: Board, d: Draft, now: int)
    requires 0 !in b.posts && d.user >= 0 && (d.email != "" || d.user > 0)
    ensures var c := CategoryOf(d.kind);
      Counted(b, d.event, c, d.email, d.telegram, d.user, 0, now)
      == Held(b, d.event, c, ByEmail(Titles.ToLower(d.email)), now) + Held(b, d.event, c, ByUser(d.user), now)
  {
    hide CategoryOf;
    forall id | id in b.posts
      ensures Shares(b.posts[id], d.email, d.telegram, d.user) <==>
              Belongs(b.posts[id], ByEmail(Titles.ToLower(d.email))) || Belongs(b.posts[id], ByUser(d.user))
    {
    }
    hide Shares, Belongs;
  }

  lemma CountedByHandle(b: Board, d: Draft, now: int)
    requires 0 !in b.posts && d.telegram != "" && d.email == "" && d.user == 0
    ensures var c := CategoryOf(d.kind);
      |Counted(b, d.event, c, d.email, d.telegram, d.user, 0, now)|
      == |WithHandle(b, d.event, c, d.telegram, now)| - |WithHandleAndEmail(b, d.event, c, d.telegram, now)|
  {
    hide CategoryOf;
    var c := CategoryOf(d.kind);
    var counted := Counted(b, d.event, c, d.email, d.telegram, d.user, 0, now);
    var addressed := WithHandleAndEmail(b, d.event, c, d.telegram, now);
    forall id ensures id in WithHandle(b, d.event, c, d.telegram, now) <==> id in counted || id in addressed {
    }
    assert WithHandle(b, d.event, c, d.telegram, now) == counted + addressed && counted !! addressed;
  }

  lemma RunOneOrTwo(b: Board, r: Request, s: Request)
    ensures Run(b, [r]) == Handle(b, r).board
    ensures Run(b, [r, s]) == Handle(Handle(b, r).board, s).board
  {
    hide Handle;
    assert [r][1..] == [] && [r, s][1..] == [s] && [s][1..] == [];
    assert Run(b, [r, s]) == Run(Handle(b, r).board, [s]);
  }

  function RideBy(event: int, email: string, handle: string, user: int, end: int, token: string, now: int): Request {
    Create(now, Draft(event, RideOffer, email, handle, user), Some(end), token)
  }

  /** Two runs after which one handle holds two rides: two anonymous posters with
      different addresses, and one without an address followed by an account. In
      the opposite order the second ride is refused. */
  lemma HandleCanBeUsedTwice(event: int, handle: string, end: int, now: int)
    requires handle != "" && now < end + 3 * DAY
    ensures var anna, bert := RideBy(event, "anna@example.org", handle, 0, end, "t", now),
                              RideBy(event, "bert@example.org", handle, 0, end, "u", now);
            |WithHandle(Run(EMPTY, [anna, bert]), event, Ride, handle, now)| == 2
    ensures var anonymous, account := RideBy(event, "", handle, 0, end, "t", now),
                                      RideBy(event, "", handle, 1, end, "u", now);
            |WithHandle(Run(EMPTY, [anonymous, account]), event, Ride, handle, now)| == 2
    ensures var account, anonymous := RideBy(event, "", handle, 1, end, "t", now),
                                      RideBy(event, "", handle, 0, end, "u", now);
      var first := Run(EMPTY, [account]);
      Handle(first, anonymous) == Result(first, Conflict)
  {
    assert Titles.ToLower("anna@example.org")[0] == 'a' && Titles.ToLower("bert@example.org")[0] == 'b';
    SecondRide(event, "anna@example.org", 0, "bert@example.org", 0, handle, end, now);
    SecondRide(event, "", 0, "", 1, handle, end, now);
    SecondRide(event, "", 1, "", 0, handle, end, now);
    hide Run, WithHandle, Handle;
  }

  /** Two rides with one handle: the second is refused exactly when it gives
      neither an address nor an account and the first gives no address, or when
      both give the same address or account. */
  lemma SecondRide(
    event: int, email: string, user: int, email': string, user': int, handle: string, end: int, now: int)
    requires handle != "" && user >= 0 && user' >= 0 && now < end + 3 * DAY
    ensures var first := RideBy(event, email, handle, user, end, "t", now);
      var one := Run(EMPTY, [first]);
      var second := RideBy(event, email', handle, user', end, "u", now);
      var p := Post(event, RideOffer, email, handle, user, "t", Expiry(RideOffer, Some(end), now));
      && one == Board(map[1 := p], 1) && p.expiresAt > now
      && (Shares(p, email', handle, user') ==> Handle(one, second) == Result(one, Conflict))
      && (!Shares(p, email', handle, user') ==>
            |WithHandle(Run(EMPTY, [first, second]), event, Ride, handle, now)| == 2)
  {
    var first := RideBy(event, email, handle, user, end, "t", now);
    var second := RideBy(event, email', handle, user', end, "u", now);
    var p := Post(event, RideOffer, email, handle, user, "t", Expiry(RideOffer, Some(end), now));
    RunOneOrTwo(EMPTY, first, second);
    assert Counted(EMPTY, event, Ride, email, handle, user, 0, now) == {};
    var one := Handle(EMPTY, first).board;
    assert one == Board(map[1 := p], 1);
    var counted := Counted(one, event, Ride, email', handle, user', 0, now);
    if Shares(p, email', handle, user') {
      assert counted == {1};
    } else {
      assert counted == {};
      assert WithHandle(Handle(one, second).board, event, Ride, handle, now) == {1, 2};
    }
  }

  // -------------------------------------------------------------- posts over a run

  /** When a post was created, and the kinds it has had since. */
  datatype Life = Life(created: int, kinds: seq<Kind>)

  /** The kind a successful PUT or PATCH with a type gives a post. */
  function Retype(b: Board, r: Request, id: int): Option<Kind> {
    if !Handle(b, r).reply.Done? then None
    else if r.Put? && r.id == id then Some(r.kind)
    else if r.Patch? && r.id == id then r.retype
    else None
  }

  function Lived(life: Option<Life>, b: Board, r: Request, id: int): Option<Life> {
    if r.Create? && Handle(b, r).reply.Done? && id == b.lastId + 1 then Some(Life(r.now, [r.draft.kind]))
    else if life.Some? && Retype(b, r, id).Some? then
      Some(Life(life.value.created, life.value.kinds + [Retype(b, r, id).value]))
    else life
  }

  function LifeOf(b: Board, requests: seq<Request>, id: int, life: Option<Life>): Option<Life>
    decreases |requests|
  {
    if requests == [] then life
    else LifeOf(Handle(b, requests[0]).board, requests[1..], id, Lived(life, b, requests[0], id))
  }

  /** Event id to the end of the event; an event without one has no usable end time. */
  type Ends = map<int, int>

  function EndOf(ends: Ends, event: int): Option<int> {
    if event in ends then Some(ends[event]) else None
  }

  /** Every event keeps its end during the run. */
  predicate EndsFixed(requests: seq<Request>, ends: Ends) {
    forall i :: 0 <= i < |requests| && requests[i].Create? ==> requests[i].end == EndOf(ends, requests[i].draft.event)
  }

  /** A post's row as its life left it: the newest kind, and the expiry of the first. */
  ghost predicate Outlined(b: Board, ends: Ends, id: int, life: Option<Life>) {
    && b.lastId >= 0 && (forall k :: k in b.posts ==> 0 < k <= b.lastId)
    && (id in b.posts ==>
          && life.Some? && life.value.kinds != []
          && b.posts[id].kind == life.value.kinds[|life.value.kinds| - 1]
          && b.posts[id].expiresAt == Expiry(life.value.kinds[0], EndOf(ends, b.posts[id].event), life.value.created))
  }

  lemma StepOutlined(b: Board, ends: Ends, id: int, life: Option<Life>, r: Request)
    requires Outlined(b, ends, id, life) && EndsFixed([r], ends)
    ensures Outlined(Handle(b, r).board, ends, id, Lived(life, b, r, id))
  {
    hide Expiry, CapExceeded;
    assert r.Create? ==> [r][0].end == EndOf(ends, r.draft.event);
  }

  lemma {:induction false} RunOutlined(b: Board, ends: Ends, id: int, life: Option<Life>, requests: seq<Request>)
    requires Outlined(b, ends, id, life) && EndsFixed(requests, ends)
    ensures Outlined(Run(b, requests), ends, id, LifeOf(b, requests, id, life))
    decreases |requests|
  {
    hide Outlined, Handle, Lived;
    if requests != [] {
      StepOutlined(b, ends, id, life, requests[0]);
      RunOutlined(Handle(b, requests[0]).board, ends, id, Lived(life, b, requests[0], id), requests[1..]);
    }
  }

  /** In every run, a ride, sleep or ticket post lives beyond the third day after
      its event exactly when it was created as lost or found, with thirty days
      reaching beyond that day, and was retyped afterwards: PUT and PATCH change
      the kind and keep the expiry. */
  lemma OutlivesEventExactly(requests: seq<Request>, ends: Ends, id: int)
    requires EndsFixed(requests, ends)
    requires var posts := Run(EMPTY, requests).posts;
      id in posts && posts[id].event in ends && !CategoryOf(posts[id].kind).LostFound?
    ensures var p := Run(EMPTY, requests).posts[id];
      var life := LifeOf(EMPTY, requests, id, None);
      && life.Some? && life.value.kinds != []
      && (p.expiresAt > ends[p.event] + 3 * DAY <==>
            && CategoryOf(life.value.kinds[0]).LostFound? && |life.value.kinds| > 1
            && life.value.created + 30 * DAY > ends[p.event] + 3 * DAY)
  {
    RunOutlined(EMPTY, ends, id, None, requests);
    hide Run, LifeOf;
  }

  /** A ride that is refused because the event is over can still be posted: as a
      lost item, retyped at once. It stays for thirty days. */
  lemma RetypedRideOutlivesEvent(event: int, end: int, email: string, token: string, now: int)
    requires email != "" && token != "" && now >= end + 3 * DAY
    ensures Handle(EMPTY, Create(now, Draft(event, RideOffer, email, "", 0), Some(end), token)) == Result(EMPTY, Gone)
    ensures var b := Run(EMPTY, [Create(now, Draft(event, LostItem, email, "", 0), Some(end), token),
                                 Patch(now, 1, token, Some(RideOffer))]);
      && b == Board(map[1 := Post(event, RideOffer, email, "", 0, token, now + 30 * DAY)], 1)
      && now + 30 * DAY > end + 3 * DAY
  {
    var lost := Create(now, Draft(event, LostItem, email, "", 0), Some(end), token);
    var retype := Patch(now, 1, token, Some(RideOffer));
    assert Counted(EMPTY, event, LostFound, email, "", 0, 0, now) == {};
    var one := Handle(EMPTY, lost).board;
    assert one == Board(map[1 := Post(event, LostItem, email, "", 0, token, now + 30 * DAY)], 1);
    assert Counted(one, event, Ride, email, "", 0, 1, now) == {};
    RunOneOrTwo(EMPTY, lost, retype);
  }
}
