/**
 * Express dispatch for server.js. A request goes to the FIRST registered
 * route whose method and path pattern match it; every handler in server.js
 * answers the request itself and never passes it on, so a later
 * registration of the same method and pattern is never reached. Requests
 * that match nothing fall through to the catch-all 404 at the end.
 */
module ServerRoutes {
  import opened Wrappers

  datatype Verb = Get | Post

  /** A path pattern segment: literal text, or a `:name` parameter. */
  datatype Seg = Lit(text: string) | Param(name: string)

  /** One `app.<verb>(pattern, ...)` registration; `line` is where server.js makes it. */
  datatype Route = Route(verb: Verb, pattern: seq<Seg>, line: nat)

  /** A `:name` parameter takes exactly one non-empty segment; literals must be equal. */
  predicate SegMatches(p: Seg, s: string) {
    match p
    case Lit(t) => t == s
    case Param(_) => s != ""
  }

  predicate PathMatches(pattern: seq<Seg>, path: seq<string>) {
    |pattern| == |path| && forall i :: 0 <= i < |path| ==> SegMatches(pattern[i], path[i])
  }

  predicate Handles(r: Route, verb: Verb, path: seq<string>) {
    r.verb == verb && PathMatches(r.pattern, path)
  }

  /** The index of the route that answers the request; None is the catch-all 404. */
  function Dispatch(routes: seq<Route>, verb: Verb, path: seq<string>): (r: Option<nat>)
    ensures r.Some? ==> r.value < |routes| && Handles(routes[r.value], verb, path)
    ensures r.Some? ==> forall i :: 0 <= i < r.value ==> !Handles(routes[i], verb, path)
    ensures r.None? <==> forall i :: 0 <= i < |routes| ==> !Handles(routes[i], verb, path)
  {
    if |routes| == 0 then None
    else if Handles(routes[0], verb, path) then Some(0)
    else
      match Dispatch(routes[1..], verb, path)
      case None => None
      case Some(k) => Some(k + 1)
  }

  /** A registration that repeats an earlier one's verb and pattern never answers anything. */
  lemma ShadowedNeverDispatched(routes: seq<Route>, i: nat, j: nat, verb: Verb, path: seq<string>)
    requires i < j < |routes|
    requires routes[i].verb == routes[j].verb && routes[i].pattern == routes[j].pattern
    ensures Dispatch(routes, verb, path) != Some(j)
  {
    if Dispatch(routes, verb, path) == Some(j) {
      assert Handles(routes[j], verb, path);
      assert Handles(routes[i], verb, path);
    }
  }

  function L(s: string): Seg { Lit(s) }
  function P(s: string): Seg { Param(s) }

  /** The registrations of server.js in order (`express.static` and the catch-all are not routes here). */
  const Table: seq<Route> := [
    Route(Post, [L("api"), L("auth"), L("login")], 42),
    Route(Get, [L("api"), L("auth"), L("me")], 115),
    Route(Get, [L("api"), L("students")], 152),
    Route(Post, [L("api"), L("students")], 174),
    Route(Get, [L("api"), L("groups")], 207),
    Route(Get, [L("api"), L("subjects")], 224),
    Route(Get, [L("api"), L("grades"), L("student"), P("studentId")], 241),
    Route(Get, [L("api"), L("grades"), L("gradebook"), P("groupId"), P("subjectId")], 268),
    Route(Post, [L("api"), L("grades")], 303),
    Route(Get, [L("api"), L("statistics"), L("overview")], 355),
    Route(Get, [L("api"), L("statistics"), L("groups")], 381),
    Route(Get, [L("api"), L("statistics"), L("subjects")], 413),
    Route(Get, [L("api"), L("statistics"), L("grades-distribution")], 441),
    Route(Get, [L("api"), L("statistics"), L("monthly")], 465),
    Route(Get, [], 492),
    Route(Get, [L("api"), L("schedule"), L("student"), P("studentId")], 497),
    Route(Get, [L("api"), L("schedule"), L("teacher"), P("teacherId")], 548),
    Route(Get, [L("api"), L("attendance"), L("student"), P("studentId")], 578),
    Route(Get, [L("api"), L("schedule"), L("student"), P("studentId")], 627),
    Route(Get, [L("api"), L("schedule"), L("teacher"), P("teacherId")], 678),
    Route(Get, [L("api"), L("attendance"), L("student"), P("studentId")], 708),
    Route(Get, [L("api"), L("groups"), P("groupId"), L("students")], 759),
    Route(Post, [L("api"), L("attendance")], 785),
    Route(Get, [L("api"), L("attendance"), P("date"), P("groupId"), P("subjectId")], 827)
  ]

  /** The line of the handler that answers a request, if any. */
  function HandlerLine(verb: Verb, path: seq<string>): (r: Option<nat>)
    ensures r.Some? ==> exists i :: 0 <= i < |Table| && Table[i].line == r.value && Handles(Table[i], verb, path)
    ensures r.None? <==> forall i :: 0 <= i < |Table| ==> !Handles(Table[i], verb, path)
  {
    match Dispatch(Table, verb, path)
    case None => None
    case Some(k) => Some(Table[k].line)
  }

  /** Lines 627, 678 and 708 are registered once each, at indices 18, 19 and 20. */
  lemma ShadowedLines(k: nat)
    requires k < |Table|
    ensures Table[k].line == 627 ==> k == 18
    ensures Table[k].line == 678 ==> k == 19
    ensures Table[k].line == 708 ==> k == 20
  {
  }

  /** The second schedule and attendance-by-student handlers (lines 627-756) answer no request. */
  lemma SecondCopiesAreDead(verb: Verb, path: seq<string>)
    ensures HandlerLine(verb, path) != Some(627)
    ensures HandlerLine(verb, path) != Some(678)
    ensures HandlerLine(verb, path) != Some(708)
  {
    assert Table[15].pattern == Table[18].pattern && Table[15].verb == Table[18].verb;
    assert Table[16].pattern == Table[19].pattern && Table[16].verb == Table[19].verb;
    assert Table[17].pattern == Table[20].pattern && Table[17].verb == Table[20].verb;
    ShadowedNeverDispatched(Table, 15, 18, verb, path);
    ShadowedNeverDispatched(Table, 16, 19, verb, path);
    ShadowedNeverDispatched(Table, 17, 20, verb, path);
    var r := Dispatch(Table, verb, path);
    if r.Some? {
      ShadowedLines(r.value);
    }
  }

  /** Among the first `n` routes none handles a request for `path`. */
  lemma NoEarlierHandler(verb: Verb, path: seq<string>, n: nat, k: nat)
    requires k < n <= |Table| && Handles(Table[k], verb, path)
    requires forall i :: 0 <= i < k ==> !Handles(Table[i], verb, path)
    ensures Dispatch(Table, verb, path) == Some(k)
  {
  }

  /** Routes 0..14 take no four-segment path under /api/schedule or /api/attendance. */
  lemma EarlyRoutesMiss(path: seq<string>)
    requires |path| == 4 && path[1] in {"schedule", "attendance"}
    ensures forall i :: 0 <= i < 15 ==> !Handles(Table[i], Get, path)
  {
    forall i | 0 <= i < 15 ensures !Handles(Table[i], Get, path) {
      assert |Table[i].pattern| != 4 || !SegMatches(Table[i].pattern[1], path[1]);
    }
  }

  /** What the second copies would have served is answered by the first ones: the student schedule. */
  lemma StudentScheduleAnswered(id: string)
    requires id != ""
    ensures HandlerLine(Get, ["api", "schedule", "student", id]) == Some(497)
  {
    var path := ["api", "schedule", "student", id];
    EarlyRoutesMiss(path);
    NoEarlierHandler(Get, path, 16, 15);
  }

  lemma TeacherScheduleAnswered(id: string)
    requires id != ""
    ensures HandlerLine(Get, ["api", "schedule", "teacher", id]) == Some(548)
  {
    var path := ["api", "schedule", "teacher", id];
    EarlyRoutesMiss(path);
    assert !SegMatches(Table[15].pattern[2], path[2]);
    NoEarlierHandler(Get, path, 17, 16);
  }

  lemma StudentAttendanceAnswered(id: string)
    requires id != ""
    ensures HandlerLine(Get, ["api", "attendance", "student", id]) == Some(578)
  {
    var path := ["api", "attendance", "student", id];
    EarlyRoutesMiss(path);
    assert !SegMatches(Table[15].pattern[1], path[1]);
    assert !SegMatches(Table[16].pattern[1], path[1]);
    NoEarlierHandler(Get, path, 18, 17);
  }
}
