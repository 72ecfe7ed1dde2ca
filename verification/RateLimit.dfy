/** The per-account limiter: fixed windows that restart at the first request after their end. */
module RateLimit {

  /** Requests counted in each user's window, and when the window began. */
  datatype Limiter = Limiter(counts: map<int, int>, windows: map<int, int>)

  datatype Request = Request(user: int, at: int)

  /** Every window has its count. */
  predicate Paired(l: Limiter) {
    l.counts.Keys == l.windows.Keys
  }

  predicate Fresh(l: Limiter, period: int, r: Request) {
    r.user !in l.windows || r.at - l.windows[r.user] > period
  }

  predicate Granted(l: Limiter, limit: int, period: int, r: Request)
    requires Paired(l)
  {
    Fresh(l, period, r) || l.counts[r.user] + 1 <= limit
  }

  function Counted(l: Limiter, period: int, r: Request): (after: Limiter)
    requires Paired(l)
    ensures Paired(after)
  {
    if Fresh(l, period, r) then Limiter(l.counts[r.user := 1], l.windows[r.user := r.at])
    else l.(counts := l.counts[r.user := l.counts[r.user] + 1])
  }

  class AccountLimiter {
    var counts: map<int, int>
    var windows: map<int, int>
    const limit: int
    const period: int

    function Current(): Limiter
      reads this
    {
      Limiter(counts, windows)
    }

    constructor (limit: int, period: int)
      ensures Current() == EMPTY && this.limit == limit && this.period == period
    {
      this.limit, this.period := limit, period;
      counts, windows := map[], map[];
    }

    /** Allow; now is the clock read under the lock. */
    method Allow(user: int, now: int) returns (allowed: bool)
      requires Paired(Current())
      modifies this
      ensures allowed == Granted(old(Current()), limit, period, Request(user, now))
      ensures Current() == Counted(old(Current()), period, Request(user, now))
    {
      if user !in windows || now - windows[user] > period {
        counts := counts[user := 1];
        windows := windows[user := now];
        return true;
      }
      counts := counts[user := counts[user] + 1];
      return counts[user] <= limit;
    }
  }

  const EMPTY := Limiter(map[], map[])

  // ------------------------------------------------------------------------- runs

  /** The limiter after a run. */
  function After(period: int, requests: seq<Request>): (l: Limiter)
    ensures Paired(l)
  {
    if requests == [] then EMPTY
    else Counted(After(period, requests[..|requests| - 1]), period, requests[|requests| - 1])
  }

  /** The times at which a user was granted a request. */
  function Grants(limit: int, period: int, requests: seq<Request>, user: int): seq<int> {
    if requests == [] then []
    else
      var n := |requests| - 1;
      var last := requests[n];
      var earlier := Grants(limit, period, requests[..n], user);
      if last.user == user && Granted(After(period, requests[..n]), limit, period, last)
      then earlier + [last.at]
      else earlier
  }

  predicate InOrder(requests: seq<Request>) {
    forall i, j :: 0 <= i < j < |requests| ==> requests[i].at <= requests[j].at
  }

  /** How many of the times lie in [from, to]. */
  function CountIn(times: seq<int>, from: int, to: int): nat {
    if times == [] then 0
    else (if from <= times[0] <= to then 1 else 0) + CountIn(times[1..], from, to)
  }

  predicate Sorted(times: seq<int>) {
    forall i, j :: 0 <= i < j < |times| ==> times[i] <= times[j]
  }

  /** Any 2*limit consecutive grants span more than a period. */
  ghost predicate Spread(times: seq<int>, limit: nat, period: int)
    requires limit >= 1
  {
    forall i, j :: 0 <= i && j == i + 2 * limit - 1 && j < |times| ==> times[j] > times[i] + period
  }

  function Used(count: int, limit: nat): int {
    if count < limit then count else limit
  }

  /** A user's grants, given the state of the user's window. */
  ghost predicate WindowFits(times: seq<int>, limit: nat, period: int, start: int, count: int)
    requires limit >= 1
  {
    var used := Used(count, limit);
    var first := |times| - used;
    && 1 <= count && 0 <= first
    && times[first] == start
    && (first >= limit ==> times[first - limit] + period < start)
  }

  ghost predicate Fits(times: seq<int>, limit: nat, period: int, l: Limiter, user: int)
    requires limit >= 1 && Paired(l)
  {
    && Sorted(times) && Spread(times, limit, period)
    && (if user in l.windows then WindowFits(times, limit, period, l.windows[user], l.counts[user]) else times == [])
  }

  lemma SpreadGrows(times: seq<int>, limit: nat, period: int, t: int)
    requires limit >= 1 && Sorted(times) && Spread(times, limit, period)
    requires forall i :: 0 <= i < |times| ==> times[i] <= t
    requires |times| >= 2 * limit - 1 ==> times[|times| - (2 * limit - 1)] + period < t
    ensures Sorted(times + [t]) && Spread(times + [t], limit, period)
  {
    var longer := times + [t];
    forall i, j | 0 <= i && j == i + 2 * limit - 1 && j < |longer| ensures longer[j] > longer[i] + period {
      if j < |times| { assert times[j] > times[i] + period; }
    }
  }

  lemma FirstGrantFits(times: seq<int>, limit: nat, period: int, start: int, count: int, t: int)
    requires limit >= 1 && Sorted(times) && WindowFits(times, limit, period, start, count)
    requires t - start > period
    ensures WindowFits(times + [t], limit, period, t, 1)
    ensures |times| >= 2 * limit - 1 ==> times[|times| - (2 * limit - 1)] + period < t
  {
    var first := |times| - Used(count, limit);
    assert |times| >= limit ==> |times| - limit <= first && times[|times| - limit] <= times[first];
    assert |times| >= 2 * limit - 1 ==> times[|times| - (2 * limit - 1)] <= times[first];
  }

  lemma LaterGrantFits(times: seq<int>, limit: nat, period: int, start: int, count: int, t: int)
    requires limit >= 1 && Sorted(times) && WindowFits(times, limit, period, start, count)
    requires count + 1 <= limit && forall i :: 0 <= i < |times| ==> times[i] <= t
    ensures WindowFits(times + [t], limit, period, start, count + 1)
    ensures |times| >= 2 * limit - 1 ==> times[|times| - (2 * limit - 1)] + period < t
  {
    var first := |times| - count;
    assert |times| >= 2 * limit - 1 ==> first >= limit && times[|times| - (2 * limit - 1)] <= times[first - limit];
  }

  lemma RefusalFits(times: seq<int>, limit: nat, period: int, start: int, count: int)
    requires limit >= 1 && WindowFits(times, limit, period, start, count) && count + 1 > limit
    ensures WindowFits(times, limit, period, start, count + 1)
  {
  }

  lemma VeryFirstGrantFits(limit: nat, period: int, t: int)
    requires limit >= 1
    ensures WindowFits([] + [t], limit, period, t, 1)
    ensures Sorted([] + [t])
    ensures Spread([] + [t], limit, period)
  {
  }

  lemma GrantFits(times: seq<int>, limit: nat, period: int, l: Limiter, r: Request)
    requires limit >= 1 && Paired(l) && Fits(times, limit, period, l, r.user)
    requires forall i :: 0 <= i < |times| ==> times[i] <= r.at
    ensures var after := if Granted(l, limit, period, r) then times + [r.at] else times;
            Fits(after, limit, period, Counted(l, period, r), r.user)
  {
    hide Spread, Sorted, WindowFits;
    if r.user !in l.windows {
      VeryFirstGrantFits(limit, period, r.at);
    } else if r.at - l.windows[r.user] > period {
      FirstGrantFits(times, limit, period, l.windows[r.user], l.counts[r.user], r.at);
      SpreadGrows(times, limit, period, r.at);
    } else if l.counts[r.user] + 1 <= limit {
      LaterGrantFits(times, limit, period, l.windows[r.user], l.counts[r.user], r.at);
      SpreadGrows(times, limit, period, r.at);
    } else {
      RefusalFits(times, limit, period, l.windows[r.user], l.counts[r.user]);
    }
  }

  lemma {:induction false} GrantsFit(limit: nat, period: int, requests: seq<Request>, user: int)
    requires limit >= 1 && InOrder(requests)
    ensures Fits(Grants(limit, period, requests, user), limit, period, After(period, requests), user)
    ensures forall t :: t in Grants(limit, period, requests, user) ==>
        exists i :: 0 <= i < |requests| && requests[i].at == t
  {
    if requests != [] {
      var n := |requests| - 1;
      var earlier := requests[..n];
      GrantsFit(limit, period, earlier, user);
      var times := Grants(limit, period, earlier, user);
      forall t | t in Grants(limit, period, requests, user)
        ensures exists i :: 0 <= i < |requests| && requests[i].at == t
      {
        if t in times {
          var i :| 0 <= i < |earlier| && earlier[i].at == t;
          assert requests[i].at == t;
        } else {
          assert requests[n].at == t;
        }
      }
      if requests[n].user == user {
        forall k | 0 <= k < |times| ensures times[k] <= requests[n].at {
          assert times[k] in times;
          var i :| 0 <= i < |earlier| && earlier[i].at == times[k];
        }
        GrantFits(times, limit, period, After(period, earlier), requests[n]);
      }
    }
  }

  lemma {:induction false} CountIsBounded(times: seq<int>, from: int, to: int, k: nat)
    requires forall i :: k <= i < |times| ==> times[i] > to
    ensures CountIn(times, from, to) <= k
  {
    if times != [] { CountIsBounded(times[1..], from, to, if k == 0 then 0 else k - 1); }
  }

  lemma {:induction false} SpreadBoundsCount(times: seq<int>, limit: nat, period: int, from: int)
    requires limit >= 1 && Sorted(times) && Spread(times, limit, period)
    ensures CountIn(times, from, from + period) <= 2 * limit - 1
  {
    if times != [] {
      if from <= times[0] <= from + period {
        forall i | 2 * limit - 1 <= i < |times| ensures times[i] > from + period {
          var j := 0 + 2 * limit - 1;
          assert times[j] > times[0] + period;
        }
        CountIsBounded(times, from, from + period, 2 * limit - 1);
      } else {
        var rest := times[1..];
        forall i, j | 0 <= i && j == i + 2 * limit - 1 && j < |rest| ensures rest[j] > rest[i] + period {
          var i', j' := i + 1, j + 1;
          assert times[j'] > times[i'] + period;
        }
        SpreadBoundsCount(rest, limit, period, from);
      }
    }
  }

  lemma {:induction false} CountOfOneMore(times: seq<int>, t: int, from: int, to: int)
    ensures CountIn(times + [t], from, to) == CountIn(times, from, to) + if from <= t <= to then 1 else 0
  {
    if times != [] {
      CountOfOneMore(times[1..], t, from, to);
      assert (times + [t])[1..] == times[1..] + [t];
    }
  }

  lemma {:induction false} NoneIn(times: seq<int>, from: int, to: int)
    requires forall i :: 0 <= i < |times| ==> times[i] < from
    ensures CountIn(times, from, to) == 0
  {
    if times != [] { NoneIn(times[1..], from, to); }
  }

  // --------------------------------------------------------------------- theorems

  function AtLeastOne(limit: int): (l: nat)
    ensures l >= 1
  {
    if limit < 1 then 1 else limit
  }

  /** A limit below one does not close the door: it acts as a limit of one. */
  lemma {:induction false} NonPositiveLimitActsAsOne(limit: int, period: int, requests: seq<Request>, user: int)
    ensures Grants(limit, period, requests, user) == Grants(AtLeastOne(limit), period, requests, user)
  {
    if requests != [] {
      NonPositiveLimitActsAsOne(limit, period, requests[..|requests| - 1], user);
      CountsArePositive(period, requests[..|requests| - 1], requests[|requests| - 1].user);
    }
  }

  lemma {:induction false} CountsArePositive(period: int, requests: seq<Request>, user: int)
    ensures var l := After(period, requests); user in l.counts ==> l.counts[user] >= 1
  {
    if requests != [] { CountsArePositive(period, requests[..|requests| - 1], user); }
  }

  /** A user's current window has granted every request counted in it, up to the
      limit and never more. */
  lemma {:induction false} WindowGrantsUpToLimit(limit: nat, period: nat, requests: seq<Request>, user: int)
    requires limit >= 1 && InOrder(requests)
    ensures var l := After(period, requests);
      var times := Grants(limit, period, requests, user);
      if user in l.windows then
        && CountIn(times, l.windows[user], l.windows[user] + period) == Used(l.counts[user], limit)
        && (forall i :: 0 <= i < |times| ==> times[i] <= l.windows[user] + period)
        && (exists i :: 0 <= i < |requests| && requests[i].at == l.windows[user])
      else times == []
  {
    hide CountIn;
    if requests != [] {
      var n := |requests| - 1;
      var last := requests[n];
      WindowGrantsUpToLimit(limit, period, requests[..n], user);
      var l, times := After(period, requests[..n]), Grants(limit, period, requests[..n], user);
      if last.user == user {
        if Fresh(l, period, last) {
          NoneIn(times, last.at, last.at + period);
          CountOfOneMore(times, last.at, last.at, last.at + period);
        } else {
          var i :| 0 <= i < n && requests[..n][i].at == l.windows[user];
          assert requests[i].at == l.windows[user];
          CountOfOneMore(times, last.at, l.windows[user], l.windows[user] + period);
        }
      } else if user in l.windows {
        var i :| 0 <= i < n && requests[..n][i].at == l.windows[user];
        assert requests[i].at == l.windows[user];
      }
    }
  }

  /** No user is granted more than 2*limit - 1 requests in any interval of one
      period, whatever the run. */
  lemma GrantsAreBounded(limit: int, period: int, requests: seq<Request>, user: int, from: int)
    requires InOrder(requests)
    ensures CountIn(Grants(limit, period, requests, user), from, from + period) <= 2 * AtLeastOne(limit) - 1
  {
    NonPositiveLimitActsAsOne(limit, period, requests, user);
    GrantsFit(AtLeastOne(limit), period, requests, user);
    SpreadBoundsCount(Grants(AtLeastOne(limit), period, requests, user), AtLeastOne(limit), period, from);
  }

  /** What a user asked for, leaving out everybody else. */
  function Own(requests: seq<Request>, user: int): seq<Request> {
    if requests == [] then []
    else
      var earlier := Own(requests[..|requests| - 1], user);
      if requests[|requests| - 1].user == user then earlier + [requests[|requests| - 1]] else earlier
  }

  /** Users do not affect one another. */
  lemma {:induction false} UsersAreIndependent(limit: int, period: int, requests: seq<Request>, user: int)
    ensures Grants(limit, period, requests, user) == Grants(limit, period, Own(requests, user), user)
    ensures var all, own := After(period, requests), After(period, Own(requests, user));
      && (user in all.windows <==> user in own.windows)
      && (user in all.windows ==> all.windows[user] == own.windows[user] && all.counts[user] == own.counts[user])
  {
    if requests != [] {
      var n := |requests| - 1;
      UsersAreIndependent(limit, period, requests[..n], user);
      var earlier := Own(requests[..n], user);
      if requests[n].user == user {
        assert (earlier + [requests[n]])[..|earlier|] == earlier;
      }
    }
  }

  // The bound is met.

  function Copies(r: Request, n: nat): (rs: seq<Request>)
    ensures |rs| == n
  {
    if n == 0 then [] else Copies(r, n - 1) + [r]
  }

  /** One request, the rest of the window's at its end, and a full window right after. */
  function Burst(limit: nat, period: int): seq<Request>
    requires limit >= 1
  {
    [Request(1, 0)] + Copies(Request(1, period), limit - 1) + Copies(Request(1, period + 1), limit)
  }

  lemma {:induction false} CopiesAreTheSame(r: Request, n: nat, i: nat)
    requires i < n
    ensures Copies(r, n)[i] == r
  {
    if i < n - 1 { CopiesAreTheSame(r, n - 1, i); }
  }

  /** Requests inside an open window are all granted while its limit lasts. */
  lemma {:induction false} OpenWindowGrants(limit: nat, period: int, before: seq<Request>, at: int, n: nat, from: int,
      to: int)
    requires from <= at <= to
    requires var l := After(period, before);
      1 in l.windows && at - l.windows[1] <= period && l.counts[1] + n <= limit
    ensures CountIn(Grants(limit, period, before + Copies(Request(1, at), n), 1), from, to)
         == CountIn(Grants(limit, period, before, 1), from, to) + n
    ensures var l, m := After(period, before), After(period, before + Copies(Request(1, at), n));
      1 in m.windows && m.windows[1] == l.windows[1] && m.counts[1] == l.counts[1] + n
  {
    var r := Request(1, at);
    if n == 0 {
      assert before + Copies(r, 0) == before;
    } else {
      OpenWindowGrants(limit, period, before, at, n - 1, from, to);
      var shorter := before + Copies(r, n - 1);
      assert before + Copies(r, n) == shorter + [r];
      assert (shorter + [r])[..|shorter|] == shorter;
      CountOfOneMore(Grants(limit, period, shorter, 1), at, from, to);
    }
  }

  lemma BurstInOrder(limit: nat, period: int)
    requires limit >= 1 && period >= 1
    ensures InOrder(Burst(limit, period))
  {
    hide Copies;
    var late, full := Copies(Request(1, period), limit - 1), Copies(Request(1, period + 1), limit);
    forall i | 0 <= i < limit - 1 ensures late[i].at == period { CopiesAreTheSame(Request(1, period), limit - 1, i); }
    forall i | 0 <= i < limit ensures full[i].at == period + 1 { CopiesAreTheSame(Request(1, period + 1), limit, i); }
  }

  /** The bound is exact: a burst around the end of a window reaches it. */
  lemma BoundIsMet(limit: nat, period: int)
    requires limit >= 1 && period >= 1
    ensures InOrder(Burst(limit, period))
    ensures CountIn(Grants(limit, period, Burst(limit, period), 1), period, 2 * period) == 2 * limit - 1
  {
    hide Copies, Grants, After, CountIn, InOrder;
    BurstInOrder(limit, period);
    var one := [Request(1, 0)];
    OneRequest(limit, period);
    OpenWindowGrants(limit, period, one, period, limit - 1, period, 2 * period);
    var two := one + Copies(Request(1, period), limit - 1);
    NewWindow(limit, period, two, period + 1, period, 2 * period);
    var three := two + [Request(1, period + 1)];
    OpenWindowGrants(limit, period, three, period + 1, limit - 1, period, 2 * period);
    CopiesFromFront(Request(1, period + 1), limit);
    assert three + Copies(Request(1, period + 1), limit - 1) == Burst(limit, period);
  }

  lemma OneRequest(limit: nat, period: int)
    requires limit >= 1 && period >= 1
    ensures var l := After(period, [Request(1, 0)]); 1 in l.windows && l.windows[1] == 0 && l.counts[1] == 1
    ensures CountIn(Grants(limit, period, [Request(1, 0)], 1), period, 2 * period) == 0
  {
    assert [Request(1, 0)][..0] == [];
    assert Grants(limit, period, [Request(1, 0)], 1) == [0];
  }

  lemma NewWindow(limit: nat, period: int, before: seq<Request>, at: int, from: int, to: int)
    requires from <= at <= to
    requires var l := After(period, before); 1 in l.windows && at - l.windows[1] > period
    ensures var longer := before + [Request(1, at)];
      var l := After(period, longer);
      && 1 in l.windows && l.windows[1] == at && l.counts[1] == 1
      && CountIn(Grants(limit, period, longer, 1), from, to) == CountIn(Grants(limit, period, before, 1), from, to) + 1
  {
    assert (before + [Request(1, at)])[..|before|] == before;
    CountOfOneMore(Grants(limit, period, before, 1), at, from, to);
  }

  lemma {:induction false} CopiesFromFront(r: Request, n: nat)
    requires n >= 1
    ensures Copies(r, n) == [r] + Copies(r, n - 1)
  {
    if n > 1 { CopiesFromFront(r, n - 1); }
  }
}
