/** The seven-day activity trend of the admin overview, over a fixed audit table. Times
    are seconds, days are counted from the epoch, ranges are half-open. */
module ActivityTrend {
  import opened FiniteSets

  const DAY: int := 86400
  const ACTIVITY_TREND_DAYS: int := 7

  /** Actions by their wire names. */
  type Action = string

  const YGGDRASIL_ACTIVITY_ACTIONS: set<Action> := {
    "yggdrasil_authenticate", "yggdrasil_refresh_token", "yggdrasil_invalidate_token", "yggdrasil_signout",
    "yggdrasil_join_server"
  }

  const USER_ACTIVITY_ACTIONS: set<Action> := {
    "user_register", "user_login", "user_logout", "user_refresh_token", "user_revoke_session",
    "user_revoke_other_sessions", "user_change_password", "user_confirm_registration",
    "user_request_email_change", "user_resend_email_change", "user_confirm_email_change",
    "user_request_password_reset", "user_confirm_password_reset", "user_update_profile",
    "user_passkey_register", "user_passkey_rename", "user_passkey_delete", "user_passkey_login",
    "user_external_auth_login", "user_external_auth_link", "user_external_auth_unlink",
    "minecraft_profile_create", "minecraft_profile_rename", "minecraft_profile_delete",
    "minecraft_texture_upload", "minecraft_texture_edit", "minecraft_texture_bind",
    "minecraft_texture_delete", "yggdrasil_authenticate",
    "yggdrasil_refresh_token", "yggdrasil_invalidate_token", "yggdrasil_signout", "yggdrasil_join_server"
  }

  datatype Row = Row(userId: nat, action: Action, createdAt: int)

  predicate InRange(t: int, start: int, end: int) { start <= t < end }

  function CountRows(rows: seq<Row>, start: int, end: int, scope: set<Action>): nat {
    if rows == [] then 0
    else (if InRange(rows[0].createdAt, start, end) && rows[0].action in scope then 1 else 0)
         + CountRows(rows[1..], start, end, scope)
  }

  /** Distinct users; the system user 0 is not one. */
  function Users(rows: seq<Row>, start: int, end: int, scope: set<Action>): set<nat> {
    set r | r in rows && InRange(r.createdAt, start, end) && r.action in scope && r.userId != 0 :: r.userId
  }

  function CountBetween(times: seq<int>, start: int, end: int): nat {
    if times == [] then 0 else (if InRange(times[0], start, end) then 1 else 0) + CountBetween(times[1..], start, end)
  }

  datatype Point = Point(day: int, activeUsers: nat, activePlayers: nat, newTextures: nat, apiCalls: nat)

  function PointOf(rows: seq<Row>, textures: seq<int>, day: int): Point {
    var start, end := day * DAY, (day + 1) * DAY;
    Point(day, |Users(rows, start, end, USER_ACTIVITY_ACTIONS)|, |Users(rows, start, end, YGGDRASIL_ACTIVITY_ACTIONS)|,
          CountBetween(textures, start, end), CountRows(rows, start, end, YGGDRASIL_ACTIVITY_ACTIONS))
  }

  function TotalCalls(points: seq<Point>): nat {
    if points == [] then 0 else TotalCalls(points[..|points| - 1]) + points[|points| - 1].apiCalls
  }

  function TotalTextures(points: seq<Point>): nat {
    if points == [] then 0 else TotalTextures(points[..|points| - 1]) + points[|points| - 1].newTextures
  }

  lemma {:induction false} CallsTile(rows: seq<Row>, a: int, b: int, c: int, scope: set<Action>)
    requires a <= b <= c
    ensures CountRows(rows, a, c, scope) == CountRows(rows, a, b, scope) + CountRows(rows, b, c, scope)
  {
    if rows != [] { CallsTile(rows[1..], a, b, c, scope); }
  }

  lemma {:induction false} TexturesTile(times: seq<int>, a: int, b: int, c: int)
    requires a <= b <= c
    ensures CountBetween(times, a, c) == CountBetween(times, a, b) + CountBetween(times, b, c)
  {
    if times != [] { TexturesTile(times[1..], a, b, c); }
  }

  lemma {:induction false} NothingInEmptyRange(rows: seq<Row>, times: seq<int>, a: int, scope: set<Action>)
    ensures CountRows(rows, a, a, scope) == 0 && CountBetween(times, a, a) == 0
    decreases |rows| + |times|
  {
    if rows != [] { NothingInEmptyRange(rows[1..], times, a, scope); }
    if times != [] { NothingInEmptyRange(rows, times[1..], a, scope); }
  }

  lemma {:induction false} UsersAtMostRows(rows: seq<Row>, start: int, end: int, scope: set<Action>)
    ensures |Users(rows, start, end, scope)| <= CountRows(rows, start, end, scope)
  {
    if rows != [] {
      UsersAtMostRows(rows[1..], start, end, scope);
      var rest, all := Users(rows[1..], start, end, scope), Users(rows, start, end, scope);
      assert rows == [rows[0]] + rows[1..];
      if InRange(rows[0].createdAt, start, end) && rows[0].action in scope {
        SubsetSize(all, rest + {rows[0].userId});
      } else {
        SubsetSize(all, rest);
      }
    }
  }

  /** A row that counts on a day: its action in scope, its time from midnight to midnight. */
  predicate Counts(r: Row, day: int, scope: set<Action>) {
    r.action in scope && day * 86400 <= r.createdAt < day * 86400 + 86400
  }

  ghost predicate CountsUsers(us: set<nat>, rows: seq<Row>, day: int, scope: set<Action>) {
    forall u :: u in us <==> u != 0 && exists r :: r in rows && r.userId == u && Counts(r, day, scope)
  }

  lemma {:induction false} CountRowsMeaning(rows: seq<Row>, start: int, end: int, scope: set<Action>)
    ensures CountRows(rows, start, end, scope)
            == |set i | 0 <= i < |rows| && start <= rows[i].createdAt < end && rows[i].action in scope|
  {
    if rows != [] {
      CountRowsMeaning(rows[1..], start, end, scope);
      var all := set i | 0 <= i < |rows| && start <= rows[i].createdAt < end && rows[i].action in scope;
      var rest := set i | 0 <= i < |rows[1..]| && start <= rows[1..][i].createdAt < end && rows[1..][i].action in scope;
      Shifted(rest, all);
    }
  }

  lemma {:induction false} CountBetweenMeaning(times: seq<int>, start: int, end: int)
    ensures CountBetween(times, start, end) == |set i | 0 <= i < |times| && start <= times[i] < end|
  {
    if times != [] {
      CountBetweenMeaning(times[1..], start, end);
      var all := set i | 0 <= i < |times| && start <= times[i] < end;
      var rest := set i | 0 <= i < |times[1..]| && start <= times[1..][i] < end;
      Shifted(rest, all);
    }
  }

  /** Positions behind the first one, moved up by one. */
  lemma {:induction false} Shifted(rest: set<int>, all: set<int>)
    requires forall i :: i in rest ==> i >= 0
    requires forall i :: i in all ==> i >= 0
    requires forall i :: i >= 0 ==> (i in rest <==> i + 1 in all)
    ensures |all| == |rest| + if 0 in all then 1 else 0
  {
    if rest != {} {
      var i := SomeMember(rest);
      assert i + 1 in all;
      var all', rest' := all - {i + 1}, rest - {i};
      forall j | j >= 0 ensures j in rest' <==> j + 1 in all' {}
      Shifted(rest', all');
    } else {
      forall i | i in all ensures i == 0 {
        var before := i - 1;
        assert before !in rest;
      }
      assert all == if 0 in all then {0} else {};
    }
  }

  /** What a point says of its day, midnight to midnight: how many users other than the system
      have a row of a user action, how many have one of a player action, each counted once, how
      many textures were made and how many player actions recorded. */
  lemma PointMeaning(rows: seq<Row>, textures: seq<int>, day: int)
    ensures var p := PointOf(rows, textures, day);
            && p.day == day
            && (exists us :: CountsUsers(us, rows, day, USER_ACTIVITY_ACTIONS) && p.activeUsers == |us|)
            && (exists us :: CountsUsers(us, rows, day, YGGDRASIL_ACTIVITY_ACTIONS) && p.activePlayers == |us|)
            && p.newTextures == |set i | 0 <= i < |textures| && day * 86400 <= textures[i] < day * 86400 + 86400|
            && p.apiCalls == |set i | 0 <= i < |rows| && Counts(rows[i], day, YGGDRASIL_ACTIVITY_ACTIONS)|
  {
    var start, end := day * DAY, (day + 1) * DAY;
    UsersMeaning(rows, day, USER_ACTIVITY_ACTIONS);
    UsersMeaning(rows, day, YGGDRASIL_ACTIVITY_ACTIONS);
    CountRowsMeaning(rows, start, end, YGGDRASIL_ACTIVITY_ACTIONS);
    CountBetweenMeaning(textures, start, end);
    assert (set i | 0 <= i < |rows| && start <= rows[i].createdAt < end && rows[i].action in YGGDRASIL_ACTIVITY_ACTIONS)
           == set i | 0 <= i < |rows| && Counts(rows[i], day, YGGDRASIL_ACTIVITY_ACTIONS);
  }

  lemma UsersMeaning(rows: seq<Row>, day: int, scope: set<Action>)
    ensures CountsUsers(Users(rows, day * DAY, (day + 1) * DAY, scope), rows, day, scope)
  {
  }

  predicate Bounded(p: Point) { p.activePlayers <= p.activeUsers && p.activePlayers <= p.apiCalls }

  /** On one day there are at most as many players as users and as API calls. */
  lemma PlayersAreBounded(rows: seq<Row>, textures: seq<int>, day: int)
    ensures Bounded(PointOf(rows, textures, day))
  {
    var start, end := day * DAY, (day + 1) * DAY;
    SubsetSize(Users(rows, start, end, YGGDRASIL_ACTIVITY_ACTIONS), Users(rows, start, end, USER_ACTIVITY_ACTIONS));
    UsersAtMostRows(rows, start, end, YGGDRASIL_ACTIVITY_ACTIONS);
  }

  /** The totals of points up to a day are the counts of the range they span. */
  predicate Spans(points: seq<Point>, rows: seq<Row>, textures: seq<int>, start: int, end: int) {
    && TotalCalls(points) == CountRows(rows, start, end, YGGDRASIL_ACTIVITY_ACTIONS)
    && TotalTextures(points) == CountBetween(textures, start, end)
  }

  lemma NextDaySpans(points: seq<Point>, rows: seq<Row>, textures: seq<int>, start: int, day: int)
    requires start <= day * DAY && Spans(points, rows, textures, start, day * DAY)
    ensures Spans(points + [PointOf(rows, textures, day)], rows, textures, start, (day + 1) * DAY)
  {
    CallsTile(rows, start, day * DAY, (day + 1) * DAY, YGGDRASIL_ACTIVITY_ACTIONS);
    TexturesTile(textures, start, day * DAY, (day + 1) * DAY);
    var longer := points + [PointOf(rows, textures, day)];
    assert longer[..|longer| - 1] == points;
  }

  /** One point per day from `first` on. */
  ghost predicate Daily(points: seq<Point>, rows: seq<Row>, textures: seq<int>, first: int) {
    forall i :: 0 <= i < |points| ==> points[i] == PointOf(rows, textures, first + i)
  }

  lemma DailyInit(points: seq<Point>, rows: seq<Row>, textures: seq<int>, first: int)
    requires points != [] && Daily(points, rows, textures, first)
    ensures var n := |points| - 1;
            Daily(points[..n], rows, textures, first) && points == points[..n] + [PointOf(rows, textures, first + n)]
  {
    assert points[|points| - 1] == PointOf(rows, textures, first + (|points| - 1));
  }

  /** Consecutive days tile their range, however many they are: nothing is counted twice and
      nothing is lost at midnight. */
  lemma {:induction false} DaysTile(points: seq<Point>, rows: seq<Row>, textures: seq<int>, first: int)
    requires Daily(points, rows, textures, first)
    ensures Spans(points, rows, textures, first * DAY, (first + |points|) * DAY)
  {
    if points == [] {
      NothingInEmptyRange(rows, textures, first * DAY, YGGDRASIL_ACTIVITY_ACTIONS);
    } else {
      var n := |points| - 1;
      DailyInit(points, rows, textures, first);
      DaysTile(points[..n], rows, textures, first);
      NextDaySpans(points[..n], rows, textures, first * DAY, first + n);
    }
  }

  lemma DaysAreBounded(points: seq<Point>, rows: seq<Row>, textures: seq<int>, first: int)
    requires Daily(points, rows, textures, first)
    ensures forall i :: 0 <= i < |points| ==> Bounded(points[i])
  {
    forall i | 0 <= i < |points| ensures Bounded(points[i]) {
      PlayersAreBounded(rows, textures, first + i);
    }
  }

  /** Seven points, oldest first and today last, one per day; the days tile the week, so
      calls and textures add up to the week's. */
  method LoadActivityTrend(rows: seq<Row>, textures: seq<int>, today: int) returns (points: seq<Point>)
    ensures |points| == 7 && Daily(points, rows, textures, today - 6)
    ensures Spans(points, rows, textures, (today - 6) * DAY, (today + 1) * DAY)
    ensures forall i :: 0 <= i < 7 ==> Bounded(points[i])
  {
    points := [];
    var offset := ACTIVITY_TREND_DAYS;
    while offset > 0
      invariant 0 <= offset <= 7 && |points| == 7 - offset
      invariant Daily(points, rows, textures, today - 6)
    {
      offset := offset - 1;
      points := points + [PointOf(rows, textures, today - offset)];
    }
    DaysTile(points, rows, textures, today - 6);
    DaysAreBounded(points, rows, textures, today - 6);
  }
}
