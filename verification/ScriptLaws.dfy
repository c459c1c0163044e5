/**
  What a script's text means: lists run in pieces, code behind `exit` and `drop` is dead, and
  exactly when code behind `return` is.
*/
module ScriptLaws {
  import opened Words
  import opened Script

  function Append(a: Actions, b: Actions): Actions {
    match a
    case Nil => b
    case Cons(h, t) => Cons(h, Append(t, b))
  }

  function Len(a: Actions): nat {
    match a
    case Nil => 0
    case Cons(_, t) => 1 + Len(t)
  }

  /** Running a list is running its first part and then, unless that stopped, the rest. */
  lemma {:induction false} RunsInPieces(c: Config, a: Actions, b: Actions, w: World, place: nat)
    requires InLevels(w) && a.Cons? && b.Cons?
    ensures var (w1, ret) := RunList(c, a, w, place);
      RunList(c, Append(a, b), w, place) ==
        if Stopped(w1) then (w1, ret) else RunList(c, b, w1, place + Len(a))
    decreases a
  {
    hide Element, Stopped;
    var w1 := Element(c, a.head, w, place).0;
    if a.tail.Cons? && !Stopped(w1) {
      RunsInPieces(c, a.tail, b, w1, place + 1);
    }
  }

  /** Nothing behind `exit` or `drop` runs: cutting it off changes nothing. */
  lemma DeadAfterExit(c: Config, a: Actions, x: Action, b: Actions, w: World, place: nat)
    requires InLevels(w) && (x.Exit? || x.Drop?) && b.Cons?
    ensures RunList(c, Append(a, Cons(x, b)), w, place) == RunList(c, Append(a, Cons(x, Nil)), w, place)
  {
    hide RunList, Element;
    var one := Cons(x, Nil);
    if a.Cons? {
      RunsInPieces(c, a, Cons(x, b), w, place);
      RunsInPieces(c, a, one, w, place);
      var w1 := RunList(c, a, w, place).0;
      ExitCuts(c, x, b, w1, place + Len(a));
    } else {
      ExitCuts(c, x, b, w, place);
    }
  }

  lemma ExitCuts(c: Config, x: Action, b: Actions, w: World, place: nat)
    requires InLevels(w) && (x.Exit? || x.Drop?) && b.Cons?
    ensures RunList(c, Cons(x, b), w, place) == RunList(c, Cons(x, Nil), w, place)
  {
    ExitStops(c, x, w, place);
    RunsInPieces(c, Cons(x, Nil), b, w, place);
  }

  lemma ExitStops(c: Config, x: Action, w: World, place: nat)
    requires InLevels(w) && (x.Exit? || x.Drop?)
    ensures RunList(c, Cons(x, Nil), w, place).0.exit
  {
    PerformSimple(c, x, w, place);
    var w1 := Perform(c, x, w, place).0;
    ErrorKept(c, w1);
    assert Element(c, x, w, place).0 == AfterError(c, w1);
  }

  /** The actions that only set flags. */
  lemma PerformSimple(c: Config, x: Action, w: World, place: nat)
    requires InLevels(w) && (x.Exit? || x.Drop? || x.Return?)
    ensures var s := w.(log := w.log + [Event(place, w.exit, w.returned)]);
      Perform(c, x, w, place) ==
        match x
        case Drop => (s.(dropped := true, exit := true, returnCode := 0), 0)
        case Exit => (s.(exit := true, returnCode := 0), 0)
        case Return(n) => (s.(returned := true, returnCode := n, exit := s.exit || n == 0), n)
        case _ => (s, 0)
  {
    var s := w.(log := w.log + [Event(place, w.exit, w.returned)]);
    var r := DoAction(c, x, s);
    assert x.Exit? ==> r == (s.(exit := true, returnCode := 0), 0);
  }

  /** An element that leaves an error behind is followed by the error route. */
  predicate ErrorPending(c: Config, w: World) {
    c.errorRoute.Cons? && !w.routeType.ErrorRoute? && !w.routeType.OnReplyRoute? && w.errClass != 0
  }

  /** The state in which `return n` leaves its element. */
  function Returned(w: World, n: int, place: nat): World {
    w.(log := w.log + [Event(place, w.exit, w.returned)], returned := true, returnCode := n, exit := w.exit || n == 0)
  }

  /** `return n` stops its list if and only if it is an exit or one is set, or no error route
      follows, or the error route that follows sets EXIT: the error route clears RETURN. */
  lemma ReturnStopsExactly(c: Config, n: int, w: World, place: nat)
    requires InLevels(w)
    ensures Stopped(Element(c, Return(n), w, place).0) <==>
      || n == 0 || w.exit || !ErrorPending(c, w) || w.recLev == ROUTE_MAX_REC_LEV
      || RunActions(c, c.errorRoute, Returned(w, n, place).(routeType := ErrorRoute)).0.exit
  {
    hide RunList;
    PerformSimple(c, Return(n), w, place);
    var w1 := Returned(w, n, place);
    assert Perform(c, Return(n), w, place).0 == w1;
    ErrorKept(c, w1);
    assert Element(c, Return(n), w, place).0 == AfterError(c, w1);
    if ErrorPending(c, w) {
      ActionsKept(c, c.errorRoute, w1.(routeType := ErrorRoute));
    }
  }

  /** Nothing behind `return` runs if no error is pending there. */
  lemma DeadAfterReturn(c: Config, n: int, b: Actions, w: World, place: nat)
    requires InLevels(w) && b.Cons? && !ErrorPending(c, w)
    ensures RunList(c, Cons(Return(n), b), w, place) == RunList(c, Cons(Return(n), Nil), w, place)
  {
    hide Element;
    ReturnStopsExactly(c, n, w, place);
    RunsInPieces(c, Cons(Return(n), Nil), b, w, place);
  }

  /** A run from the top in which the action behind `return` is carried out: a test leaves an
      error, the error route does one thing that succeeds, and DROP is reported. */
  lemma ReturnRunsOn() returns (c: Config, script: Actions)
    ensures script == Cons(If(Some(Leaf), Cons(Return(1), Cons(Drop, Nil)), Nil), Nil)
    ensures forall w :: RunTopRoute(c, script, TopWorld(w)).1.2
  {
    c := Config(_ => Nil, Cons(Other, Nil), 100, i => if i == 0 then Answer(1, true, 7) else Answer(1, true, 0));
    script := Cons(If(Some(Leaf), Cons(Return(1), Cons(Drop, Nil)), Nil), Nil);
    forall w
      ensures RunTopRoute(c, script, TopWorld(w)).1.2
    {
      DropsInTopRun(c, TopWorld(w));
    }
  }

  /** A process about to run a request route, no answer asked for yet. */
  function TopWorld(w: World): World {
    w.(routeType := RequestRoute, asked := 0, exprLev := 0)
  }

  lemma DropsInTopRun(c: Config, w: World)
    requires c.errorRoute == Cons(Other, Nil) && c.answers(0) == Answer(1, true, 7)
        && c.answers(1) == Answer(1, true, 0)
    requires w.routeType.RequestRoute? && w.asked == 0 && w.exprLev == 0
    ensures RunTopRoute(c, Cons(If(Some(Leaf), Cons(Return(1), Cons(Drop, Nil)), Nil), Nil), w).1.2
  {
    var body := Cons(Return(1), Cons(Drop, Nil));
    var test := If(Some(Leaf), body, Nil);
    var w0 := w.(exit := false, returned := false, dropped := false, recLev := 1, errClass := 0);
    var w1 := w0.(log := w0.log + [Event(0, false, false)]);
    var w2 := w1.(errClass := 7, asked := 1);
    assert EvalBody(c, Leaf, w1.(exprLev := 1)) == (w2.(exprLev := 1), 1, true);
    assert EvalExpr(c, Leaf, w1) == (w2, 1, true);
    DropBehindReturn(c, w2);
    var w3 := RunList(c, body, w2, 0).0;
    assert DoIf(c, Leaf, body, Nil, w1).0.dropped;
    assert DoAction(c, test, w1).0.dropped;
    var w4 := Perform(c, test, w0, 0).0;
    ErrorKept(c, w4);
    assert Element(c, test, w0, 0).0 == AfterError(c, w4);
    assert RunList(c, Cons(test, Nil), w0, 0).0 == AfterError(c, w4);
  }

  lemma DropBehindReturn(c: Config, w: World)
    requires InLevels(w) && w.recLev < ROUTE_MAX_REC_LEV && ErrorPending(c, w) && !w.exit && !w.dropped
    requires c.errorRoute == Cons(Other, Nil) && c.answers(w.asked) == Answer(1, true, 0)
    ensures RunList(c, Cons(Return(1), Cons(Drop, Nil)), w, 0).0.dropped
  {
    PerformSimple(c, Return(1), w, 0);
    var w1 := Returned(w, 1, 0);
    ErrorRouteRuns(c, w1.(routeType := ErrorRoute));
    var w3 := AfterError(c, w1);
    assert !Stopped(w3) && !w3.dropped;
    PerformSimple(c, Drop, w3, 1);
    var w4 := Perform(c, Drop, w3, 1).0;
    ErrorKept(c, w4);
    assert Element(c, Return(1), w, 0).0 == w3;
    assert Element(c, Drop, w3, 1).0 == AfterError(c, w4);
    assert RunList(c, Cons(Drop, Nil), w3, 1).0 == AfterError(c, w4);
  }

  lemma ErrorRouteRuns(c: Config, w: World)
    requires InLevels(w) && w.recLev < ROUTE_MAX_REC_LEV && w.routeType.ErrorRoute? && !w.exit && w.returned
        && !w.dropped
    requires c.answers(w.asked) == Answer(1, true, 0)
    ensures var r := RunActions(c, Cons(Other, Nil), w).0; !r.exit && !r.returned && !r.dropped && r.recLev == w.recLev
  {
    var u := w.(recLev := w.recLev + 1);
    var s := u.(log := u.log + [Event(0, u.exit, u.returned)]);
    assert DoAction(c, Other, s) == (s.(errClass := 0, asked := s.asked + 1, returnCode := 1), 1);
    var (x, ret) := Perform(c, Other, u, 0);
    assert ret == 1 && !x.exit && !x.dropped && x.routeType.ErrorRoute?;
    assert AfterError(c, x) == x;
    assert RunList(c, Cons(Other, Nil), u, 0) == (x, 1);
  }

  // --- return inside while ---

  /** A list that ends with result 0 has set EXIT. */
  lemma {:induction false} ZeroExits(c: Config, l: Actions, w: World, place: nat)
    requires InLevels(w) && l.Cons?
    ensures RunList(c, l, w, place).1 == 0 ==> RunList(c, l, w, place).0.exit
    decreases l
  {
    hide DoAction, AfterError;
    var (w1, ret) := Perform(c, l.head, w, place);
    ErrorKept(c, w1);
    var w2 := Element(c, l.head, w, place).0;
    assert w2 == AfterError(c, w1);
    if !Stopped(w2) && l.tail.Cons? { ZeroExits(c, l.tail, w2, place + 1); }
  }

  /** What a `return` in the body of a loop leads to, `left` turns being allowed.  In the last
      turn the loop ends with RETURN set and EXIT clear.  Else the condition is evaluated once
      more: if it drops or leaves a flag set, the loop ends with result 0, which sets EXIT; if
      it clears RETURN, the loop goes on. */
  lemma ReturnInWhileExactly(c: Config, e: Expr, b: Actions, left: nat, w: World, ret: int)
    requires InLevels(w) && left > 0 && b.Cons?
    requires var (w1, v, _) := EvalExpr(c, e, w); v > 0 && !Stopped(w1)
    requires var w2 := RunList(c, b, EvalExpr(c, e, w).0, 0).0; w2.returned && !w2.exit
    ensures var (w2, ret2) := RunList(c, b, EvalExpr(c, e, w).0, 0);
      var u := w2.(returnCode := ret2);
      var (w3, v3, _) := EvalExpr(c, e, u);
      var r := DoWhile(c, e, b, left, w, ret);
      if left == 1 then r == (u, ret2) && ret2 != 0
      else if v3 == EXPR_DROP || Stopped(w3) then r == (w3.(returnCode := 0), 0)
      else r == DoWhile(c, e, b, left - 1, u, ret2) && !w3.returned
  {
    hide EvalExpr, RunList;
    var w1 := EvalExpr(c, e, w).0;
    ZeroExits(c, b, w1, 0);
    var (w2, ret2) := RunList(c, b, w1, 0);
    var u := w2.(returnCode := ret2);
    assert DoWhile(c, e, b, left, w, ret) == DoWhile(c, e, b, left - 1, u, ret2);
  }

  /** A loop is an EXIT for its list if and only if it ends with EXIT set or with result 0. */
  lemma WhileExits(c: Config, e: Expr, b: Actions, w: World, place: nat)
    requires InLevels(w)
    ensures var s := w.(log := w.log + [Event(place, w.exit, w.returned)]);
      var r := DoWhile(c, e, b, c.maxWhile, s, E_BUG);
      Perform(c, While(Some(e), b), w, place).0.exit <==> r.0.exit || r.1 == 0
  {
    hide DoWhile;
    var s := w.(log := w.log + [Event(place, w.exit, w.returned)]);
    var r := DoWhile(c, e, b, c.maxWhile, s, E_BUG);
    assert DoAction(c, While(Some(e), b), s) == (r.0.(returnCode := r.1), r.1);
  }

  /** while (leaf) { return(1); } with `turns` turns allowed and the test always true: allowed
      one turn it ends with RETURN and no EXIT, allowed more with EXIT. */
  lemma ReturnInWhileBothWays(turns: nat, w: World) returns (c: Config)
    requires InLevels(w) && !w.exit && !w.returned && w.exprLev == 0 && turns > 0
    ensures c.maxWhile == turns
    ensures var w' := Perform(c, While(Some(Leaf), Cons(Return(1), Nil)), w, 0).0;
      if turns == 1 then w'.returned && !w'.exit else w'.exit
  {
    c := Config(_ => Nil, Nil, turns, _ => Answer(1, true, 0));
    var s := w.(log := w.log + [Event(0, w.exit, w.returned)]);
    var body := Cons(Return(1), Nil);
    var w1 := s.(errClass := 0, asked := s.asked + 1);
    LeafAnswers(c, s);
    ReturnAlone(c, w1);
    var u := Returned(w1, 1, 0);
    LeafAnswers(c, u);
    assert u.(returnCode := 1) == u;
    ReturnInWhileExactly(c, Leaf, body, turns, s, E_BUG);
    WhileExits(c, Leaf, body, w, 0);
    assert DoAction(c, While(Some(Leaf), body), s).0.returned ==
      DoWhile(c, Leaf, body, turns, s, E_BUG).0.returned;
  }

  lemma LeafAnswers(c: Config, w: World)
    requires InLevels(w) && w.exprLev == 0 && c.answers(w.asked) == Answer(1, true, 0)
    ensures EvalExpr(c, Leaf, w) == (w.(errClass := 0, asked := w.asked + 1), 1, true)
  {
    var u := w.(exprLev := 1);
    assert EvalBody(c, Leaf, u) == (u.(errClass := 0, asked := u.asked + 1), 1, true);
  }

  lemma ReturnAlone(c: Config, w: World)
    requires InLevels(w) && c.errorRoute.Nil?
    ensures RunList(c, Cons(Return(1), Nil), w, 0) == (Returned(w, 1, 0), 1)
  {
    PerformSimple(c, Return(1), w, 0);
    assert AfterError(c, Returned(w, 1, 0)) == Returned(w, 1, 0);
    assert Element(c, Return(1), w, 0) == (Returned(w, 1, 0), 1);
  }

  /** A condition that calls a route clears a pending RETURN, so that by `ReturnInWhileExactly`
      the loop goes on behind the `return` of its body. */
  lemma ConditionClearsReturn(w: World) returns (c: Config, e: Expr)
    requires 0 <= w.recLev < ROUTE_MAX_REC_LEV && w.returned && !w.exit && w.exprLev == 0
    ensures e == Run(Cons(Route(0), Nil))
    ensures var (w', v, _) := EvalExpr(c, e, w); v == 1 && !Stopped(w')
  {
    c := Config(_ => Cons(Other, Nil), Nil, 100, _ => Answer(1, true, 0));
    e := Run(Cons(Route(0), Nil));
    var u := w.(exprLev := 1);
    var s := u.(log := u.log + [Event(0, u.exit, u.returned)]);
    OtherAlone(c, s);
    var x := RunActions(c, Cons(Other, Nil), s).0;
    assert DoAction(c, Route(0), s) == (x.(returnCode := 1), 1);
    var y := Perform(c, Route(0), u, 0).0;
    assert AfterError(c, y) == y;
    assert RunList(c, Cons(Route(0), Nil), u, 0) == (y, 1);
    assert EvalBody(c, e, u) == (y, 1, true);
  }

  lemma OtherAlone(c: Config, w: World)
    requires 0 <= w.recLev < ROUTE_MAX_REC_LEV && !w.exit && c.errorRoute.Nil?
        && c.answers(w.asked) == Answer(1, true, 0)
    ensures var (r, ret) := RunActions(c, Cons(Other, Nil), w); ret == 1 && !r.exit && !r.returned
  {
    var u := w.(recLev := w.recLev + 1);
    var s := u.(log := u.log + [Event(0, u.exit, u.returned)]);
    assert DoAction(c, Other, s) == (s.(errClass := 0, asked := s.asked + 1, returnCode := 1), 1);
    var (x, ret) := Perform(c, Other, u, 0);
    assert AfterError(c, x) == x;
    assert RunList(c, Cons(Other, Nil), u, 0) == (x, 1);
  }

  // --- the table of routes ---

  /** rlist has an entry for this number. */
  predicate InTable(t: int) {
    0 <= t < RT_NO
  }

  /** route(t) is refused outside its check, and runs entry t inside it; the entry it looks at
      is in the table if and only if t is not RT_NO. */
  lemma TableAccessExactly(c: Config, t: int, w: World)
    requires InLevels(w)
    ensures if 0 <= t <= RT_NO then
        var (w', ret) := RunActions(c, c.routes(t), w);
        DoAction(c, Route(t), w) == (w'.(returnCode := ret), ret) && (InTable(t) <==> t != RT_NO)
      else DoAction(c, Route(t), w) == (w, E_CFG) && !InTable(t)
  {
    hide RunActions;
  }
}
