/**
  The routing-script interpreter as a function on the interpreter's globals.  Routing tables
  may call each other in cycles; the recursion is bounded by the level counter, loops by
  max_while_loops, everything else by the size of the script.
*/
module Script {
  import opened Words

  const ROUTE_MAX_REC_LEV: int := 100
  const MAX_REC_LEV: int := 100
  const RT_NO: int := 40
  const E_UNSPEC: int := -1
  const E_BUG: int := -5
  const E_CFG: int := -6
  const EXPR_DROP: int := -127

  /** A list of actions; Nil is the null pointer. */
  datatype Actions = Nil | Cons(head: Action, tail: Actions)

  /** Cases of a switch: their actions and whether they end in `break`. */
  datatype Cases = NoCase | Case(body: Actions, stop: bool, next: Cases)

  /** The actions that steer the script; every other action is Other.  Those that fail
      without setting return_code answer without a value. */
  datatype Action =
    | Drop | Exit | Return(code: int) | Route(table: int)
    | If(test: Option<Expr>, thn: Actions, els: Actions)
    | While(test: Option<Expr>, body: Actions)
    | Switch(cases: Cases, default: Actions)
    | Assign(value: Option<Expr>)
    | Other

  /** Leaf stands for the comparisons and values that run no action. */
  datatype Expr =
    | Leaf | Run(actions: Actions) | Arith(unary: bool, left: Option<Expr>, right: Option<Expr>)
    | And(l: Expr, r: Expr) | Or(l: Expr, r: Expr) | Not(l: Expr) | Eval(l: Expr)

  /** What code outside the interpreter answers: a result, whether a value was produced, and
      the error class it leaves behind. */
  datatype Answer = Answer(ret: int, value: bool, errClass: int)

  datatype RouteType = RequestRoute | OnReplyRoute | ErrorRoute | OtherRoute

  /** The configured tables and the answers of the outside world, in the order they are asked
      for. The table check admits RT_NO itself, so there is one entry more than tables. */
  datatype Config = Config(routes: int -> Actions, errorRoute: Actions, maxWhile: nat, answers: nat -> Answer)

  /** An element started by an activation of run_action_list: its place in the list, and
      ACT_FL_EXIT and ACT_FL_RETURN at that moment. */
  datatype Event = Event(place: nat, exit: bool, returned: bool)

  /** The globals: action_flags, both rec_lev counters, return_code, the error class, the
      route type, the number of answers used, and the elements started so far. */
  datatype World = World(exit: bool, returned: bool, dropped: bool, recLev: int, exprLev: int,
                         returnCode: int, errClass: int, routeType: RouteType, asked: nat, log: seq<Event>)

  // --- sizes ---

  function SizeL(l: Actions): nat {
    match l
    case Nil => 0
    case Cons(h, t) => 1 + SizeA(h) + SizeL(t)
  }

  function SizeC(c: Cases): nat {
    match c
    case NoCase => 0
    case Case(b, _, n) => 1 + SizeL(b) + SizeC(n)
  }

  function SizeA(a: Action): nat {
    match a
    case If(e, t, f) => 2 + (if e.None? then 0 else SizeE(e.value)) + SizeL(t) + SizeL(f)
    case While(e, b) => 2 + (if e.None? then 0 else SizeE(e.value)) + SizeL(b)
    case Switch(c, d) => 2 + SizeC(c) + SizeL(d)
    case Assign(e) => 1 + (if e.None? then 0 else SizeE(e.value))
    case _ => 1
  }

  function SizeE(e: Expr): nat {
    match e
    case Leaf => 1
    case Run(l) => 1 + SizeL(l)
    case Arith(_, l, r) => 1 + (if l.None? then 0 else SizeE(l.value)) + (if r.None? then 0 else SizeE(r.value))
    case And(l, r) => 1 + SizeE(l) + SizeE(r)
    case Or(l, r) => 1 + SizeE(l) + SizeE(r)
    case Not(l) => 1 + SizeE(l)
    case Eval(l) => 1 + SizeE(l)
  }

  // --- the interpreter ---

  /** Ask the outside world. */
  function Ask(c: Config, w: World): (r: (World, Answer))
    ensures r.0 == w.(errClass := r.0.errClass, asked := w.asked + 1)
  {
    var a := c.answers(w.asked);
    (w.(errClass := a.errClass, asked := w.asked + 1), a)
  }

  predicate InLevels(w: World) {
    0 <= w.recLev <= ROUTE_MAX_REC_LEV
  }

  predicate SameLevels(w: World, w': World) {
    w'.recLev == w.recLev && w'.exprLev == w.exprLev
  }

  predicate Stopped(w: World) {
    w.returned || w.exit
  }

  /** run_actions */
  function RunActions(c: Config, l: Actions, w: World): (r: (World, int))
    requires InLevels(w)
    ensures SameLevels(w, r.0)
    decreases ROUTE_MAX_REC_LEV - w.recLev, 0, 0
  {
    if w.recLev + 1 > ROUTE_MAX_REC_LEV then (w, E_UNSPEC)
    else if l.Nil? then (w, 1)
    else
      var (w', ret) := RunList(c, l, w.(recLev := w.recLev + 1), 0);
      (w'.(returned := false, recLev := w'.recLev - 1), ret)
  }

  /** The error route is taken after an element that left an error behind; the error is
      forgotten unless the script is over. */
  function AfterError(c: Config, w: World): (r: World)
    requires InLevels(w)
    ensures SameLevels(w, r)
    decreases ROUTE_MAX_REC_LEV - w.recLev, 0, 1
  {
    if c.errorRoute.Cons? && !w.routeType.ErrorRoute? && !w.routeType.OnReplyRoute? && w.errClass != 0 then
      var x := RunActions(c, c.errorRoute, w.(routeType := ErrorRoute)).0;
      if x.exit then x else x.(errClass := 0)
    else w
  }

  /** One element of run_action_list, up to the error check. */
  function Perform(c: Config, a: Action, w: World, place: nat): (r: (World, int))
    requires InLevels(w)
    ensures SameLevels(w, r.0)
    decreases ROUTE_MAX_REC_LEV - w.recLev, SizeA(a), 2
  {
    var (w', ret) := DoAction(c, a, w.(log := w.log + [Event(place, w.exit, w.returned)]));
    (if ret == 0 then w'.(exit := true) else w', ret)
  }

  function Element(c: Config, a: Action, w: World, place: nat): (r: (World, int))
    requires InLevels(w)
    ensures SameLevels(w, r.0)
    decreases ROUTE_MAX_REC_LEV - w.recLev, SizeA(a), 3
  {
    var (w', ret) := Perform(c, a, w, place);
    (AfterError(c, w'), ret)
  }

  /** run_action_list, from element `place` on */
  function RunList(c: Config, l: Actions, w: World, place: nat): (r: (World, int))
    requires InLevels(w)
    ensures SameLevels(w, r.0)
    decreases ROUTE_MAX_REC_LEV - w.recLev, SizeL(l), 0
  {
    if l.Nil? then (w, E_UNSPEC)
    else
      var (w', ret) := Element(c, l.head, w, place);
      if Stopped(w') || l.tail.Nil? then (w', ret) else RunList(c, l.tail, w', place + 1)
  }

  /** do_action */
  function DoAction(c: Config, a: Action, w: World): (r: (World, int))
    requires InLevels(w)
    ensures SameLevels(w, r.0)
    decreases ROUTE_MAX_REC_LEV - w.recLev, SizeA(a), 0
  {
    match a
    case Drop => (w.(dropped := true, exit := true, returnCode := 0), 0)
    case Exit => (w.(exit := true, returnCode := 0), 0)
    case Return(n) => (w.(returned := true, returnCode := n), n)
    case Route(t) =>
      if t > RT_NO || t < 0 then (w, E_CFG)
      else
        var (w', ret) := RunActions(c, c.routes(t), w);
        (w'.(returnCode := ret), ret)
    case If(e, t, f) => if e.None? then (w, E_BUG) else DoIf(c, e.value, t, f, w)
    case While(e, b) =>
      if e.None? then (w.(returnCode := E_BUG), E_BUG)
      else
        var (w', ret) := DoWhile(c, e.value, b, c.maxWhile, w, E_BUG);
        (w'.(returnCode := ret), ret)
    case Switch(cs, d) =>
      var (w1, v) := Ask(c, w);
      if !v.value then (w1.(returnCode := E_BUG), E_BUG)
      else
        var (w2, matched) := DoCases(c, cs, false, w1.(returnCode := 1));
        if !matched && d.Cons? then
          var (w3, ret) := RunList(c, d, w2, 0);
          (w3.(returnCode := ret), ret)
        else (w2, w2.returnCode)
    case Assign(e) =>
      var (w', ret) := DoAssign(c, e, w);
      (w'.(returnCode := ret), ret)
    case Other =>
      var (w', v) := Ask(c, w);
      (if v.value then w'.(returnCode := v.ret) else w', v.ret)
  }

  /** IF_T with a condition */
  function DoIf(c: Config, e: Expr, t: Actions, f: Actions, w: World): (r: (World, int))
    requires InLevels(w)
    ensures SameLevels(w, r.0)
    decreases ROUTE_MAX_REC_LEV - w.recLev, 1 + SizeE(e) + SizeL(t) + SizeL(f), 0
  {
    var (w1, v, _) := EvalExpr(c, e, w);
    if v == EXPR_DROP || Stopped(w1) then (w1.(returnCode := 0), 0)
    else Branch(c, if v > 0 then t else f, v, w1)
  }

  /** The chosen branch of an IF_T whose condition gave v. */
  function Branch(c: Config, l: Actions, v: int, w: World): (r: (World, int))
    requires InLevels(w)
    ensures SameLevels(w, r.0)
    decreases ROUTE_MAX_REC_LEV - w.recLev, SizeL(l), 1
  {
    if l.Cons? then
      var (w', ret) := RunList(c, l, w, 0);
      (w'.(returnCode := ret), ret)
    else (w.(returnCode := v), 1)
  }

  /** The loop of WHILE_T with `left` iterations allowed and `ret` so far. The condition is
      evaluated again before the flags left by the body are looked at. */
  function DoWhile(c: Config, e: Expr, b: Actions, left: nat, w: World, ret: int): (r: (World, int))
    requires InLevels(w)
    ensures SameLevels(w, r.0)
    decreases ROUTE_MAX_REC_LEV - w.recLev, 1 + SizeE(e) + SizeL(b), left
  {
    if left == 0 then (w, ret)
    else
      var (w1, v, _) := EvalExpr(c, e, w);
      if v == EXPR_DROP || Stopped(w1) then (w1.(returnCode := 0), 0)
      else if v > 0 && b.Cons? then
        var (w2, ret2) := RunList(c, b, w1, 0);
        DoWhile(c, e, b, left - 1, w2.(returnCode := ret2), ret2)
      else (w1.(returnCode := v), 1)
  }

  /** The case loop of SWITCH_T: from the first match on, cases fall through until a break,
      a return or an exit. */
  function DoCases(c: Config, cs: Cases, matched: bool, w: World): (r: (World, bool))
    requires InLevels(w)
    ensures SameLevels(w, r.0)
    decreases ROUTE_MAX_REC_LEV - w.recLev, SizeC(cs), 0
  {
    if cs.NoCase? then (w, matched)
    else
      var (w1, hit) := if matched then (w, true) else MatchCase(c, w);
      if !hit then DoCases(c, cs.next, false, w1)
      else
        var w2 := if cs.body.Cons? then
            var (x, ret) := RunList(c, cs.body, w1, 0);
            x.(returnCode := ret)
          else w1;
        if (cs.body.Cons? && Stopped(w2)) || cs.stop then (w2, true)
        else DoCases(c, cs.next, true, w2)
  }

  /** Comparing the switch value with a case label is left to the outside world. */
  function MatchCase(c: Config, w: World): (r: (World, bool))
    ensures r.0 == w.(errClass := r.0.errClass, asked := w.asked + 1)
  {
    var (w', v) := Ask(c, w);
    (w', v.ret != 0)
  }

  /** do_assign: the target must be writable, the value present, the setter successful. */
  function DoAssign(c: Config, e: Option<Expr>, w: World): (r: (World, int))
    requires InLevels(w)
    ensures SameLevels(w, r.0)
    decreases ROUTE_MAX_REC_LEV - w.recLev, (if e.None? then 0 else SizeE(e.value)), 1
  {
    var (w1, writable) := Ask(c, w);
    if !writable.value then (w1, -1)
    else
      var (w2, present) := if e.None? then (w1, true) else
          var (x, _, has) := EvalExpr(c, e.value, w1);
          (x, has);
      if !present then (w2, -1)
      else
        var (w3, done) := Ask(c, w2);
        (w3, if done.ret < 0 then -1 else 1)
  }

  /** eval_expr: result, and whether a value was produced */
  function EvalExpr(c: Config, e: Expr, w: World): (r: (World, int, bool))
    requires InLevels(w)
    ensures SameLevels(w, r.0)
    decreases ROUTE_MAX_REC_LEV - w.recLev, SizeE(e), 0
  {
    if w.exprLev + 1 > MAX_REC_LEV then (w, -1, false)
    else
      var (w', ret, value) := EvalBody(c, e, w.(exprLev := w.exprLev + 1));
      (w'.(exprLev := w'.exprLev - 1), ret, value)
  }

  function EvalBody(c: Config, e: Expr, w: World): (r: (World, int, bool))
    requires InLevels(w)
    ensures SameLevels(w, r.0)
    decreases ROUTE_MAX_REC_LEV - w.recLev, SizeE(e) - 1, 1
  {
    match e
    case Leaf =>
      var (w', v) := Ask(c, w);
      (w', v.ret, v.value)
    case Run(l) =>
      var (w', ret) := RunList(c, l, w, 0);
      (w', if ret > 0 then 1 else if ret == 0 then EXPR_DROP else 0, true)
    case Arith(unary, l, r) =>
      if l.None? then (w, 0, false)
      else
        var (w1, _, has) := EvalExpr(c, l.value, w);
        if !has then (w1, 0, false)
        else
          var w2 := if unary || r.None? then w1 else EvalExpr(c, r.value, w1).0;
          var (w3, v) := Ask(c, w2);
          (w3, if v.ret != 0 then 1 else 0, v.value)
    case And(l, r) =>
      var (w', ret, value) := EvalExpr(c, l, w);
      if ret != 1 then (w', ret, value) else EvalExpr(c, r, w')
    case Or(l, r) =>
      var (w', ret, value) := EvalExpr(c, l, w);
      if ret != 0 then (w', ret, value) else EvalExpr(c, r, w')
    case Not(l) =>
      var (w', ret, value) := EvalExpr(c, l, w);
      (w', if ret < 0 then ret else if ret == 0 then 1 else 0, value)
    case Eval(l) => EvalExpr(c, l, w)
  }

  /** run_top_route: returns the flags of the run, as (exit, returned, dropped) */
  function RunTopRoute(c: Config, l: Actions, w: World): (World, (bool, bool, bool)) {
    var w1 := w.(exit := false, returned := false, dropped := false, recLev := 0, errClass := 0);
    var w2 := RunActions(c, l, w1).0;
    (w2.(exit := w.exit, returned := w.returned, dropped := w.dropped, recLev := w.recLev),
        (w2.exit, w2.returned, w2.dropped))
  }

  // --- what every run keeps ---

  /** Elements after the first start only when neither flag is set. */
  predicate LogKept(a: seq<Event>, b: seq<Event>) {
    && |a| <= |b| && b[..|a|] == a
    && forall i :: |a| <= i < |b| && b[i].place > 0 ==> !b[i].exit && !b[i].returned
  }

  /** EXIT and DROP are never cleared, DROP comes with EXIT, both counters come back, and no
      activation of run_action_list starts another element once EXIT or RETURN is set. */
  predicate Kept(w: World, w': World) {
    && SameLevels(w, w')
    && (w.exit ==> w'.exit) && (w.dropped ==> w'.dropped)
    && ((w.dropped ==> w.exit) ==> (w'.dropped ==> w'.exit))
    && w.asked <= w'.asked
    && LogKept(w.log, w'.log)
  }

  lemma KeptTrans(a: World, b: World, c: World)
    requires Kept(a, b) && Kept(b, c)
    ensures Kept(a, c)
  {
  }

  lemma KeptStart(w: World, place: nat)
    requires place == 0 || !Stopped(w)
    ensures Kept(w, w.(log := w.log + [Event(place, w.exit, w.returned)]))
  {
  }

  /** Globals other than the log and the counters may change; EXIT and DROP only one way. */
  lemma KeptTouch(w: World, w': World)
    requires SameLevels(w, w') && w'.log == w.log && w.asked <= w'.asked
    requires (w.exit ==> w'.exit) && (w.dropped ==> w'.dropped) && (w'.dropped ==> w.dropped || w'.exit)
    ensures Kept(w, w')
  {
  }

  lemma {:induction false} ActionsKept(c: Config, l: Actions, w: World)
    requires InLevels(w)
    ensures Kept(w, RunActions(c, l, w).0)
    ensures l.Cons? && w.recLev < ROUTE_MAX_REC_LEV ==> !RunActions(c, l, w).0.returned
    decreases ROUTE_MAX_REC_LEV - w.recLev, 0, 0
  {
    hide RunList;
    if w.recLev + 1 > ROUTE_MAX_REC_LEV || l.Nil? {
      KeptTouch(w, w);
    } else {
      ListKept(c, l, w.(recLev := w.recLev + 1), 0);
    }
  }

  lemma {:induction false} ErrorKept(c: Config, w: World)
    requires InLevels(w)
    ensures Kept(w, AfterError(c, w))
    decreases ROUTE_MAX_REC_LEV - w.recLev, 0, 1
  {
    hide RunActions, LogKept;
    var r := AfterError(c, w);
    if c.errorRoute.Cons? && !w.routeType.ErrorRoute? && !w.routeType.OnReplyRoute? && w.errClass != 0 {
      var w' := w.(routeType := ErrorRoute);
      ActionsKept(c, c.errorRoute, w');
      var x := RunActions(c, c.errorRoute, w').0;
      KeptTouch(w, w');
      KeptTrans(w, w', x);
      KeptTouch(x, r);
      KeptTrans(w, x, r);
    } else {
      KeptTouch(w, r);
    }
  }

  lemma {:induction false} ElementKept(c: Config, a: Action, w: World, place: nat)
    requires InLevels(w) && (place == 0 || !Stopped(w))
    ensures Kept(w, Element(c, a, w, place).0)
    decreases ROUTE_MAX_REC_LEV - w.recLev, SizeA(a), 3
  {
    hide DoAction, AfterError, LogKept;
    var w0 := w.(log := w.log + [Event(place, w.exit, w.returned)]);
    KeptStart(w, place);
    ActionKept(c, a, w0);
    var w1 := DoAction(c, a, w0).0;
    KeptTrans(w, w0, w1);
    var w2 := Perform(c, a, w, place).0;
    KeptTouch(w1, w2);
    KeptTrans(w, w1, w2);
    ErrorKept(c, w2);
    KeptTrans(w, w2, AfterError(c, w2));
  }

  lemma {:induction false} ListKept(c: Config, l: Actions, w: World, place: nat)
    requires InLevels(w) && (place == 0 || !Stopped(w))
    ensures Kept(w, RunList(c, l, w, place).0)
    decreases ROUTE_MAX_REC_LEV - w.recLev, SizeL(l), 0
  {
    hide Element, LogKept;
    if l.Nil? {
      KeptTouch(w, w);
    } else {
      ElementKept(c, l.head, w, place);
      var w' := Element(c, l.head, w, place).0;
      if !Stopped(w') && l.tail.Cons? {
        ListKept(c, l.tail, w', place + 1);
        KeptTrans(w, w', RunList(c, l.tail, w', place + 1).0);
      }
    }
  }

  lemma {:induction false} ActionKept(c: Config, a: Action, w: World)
    requires InLevels(w)
    ensures Kept(w, DoAction(c, a, w).0)
    decreases ROUTE_MAX_REC_LEV - w.recLev, SizeA(a), 0
  {
    hide RunActions, RunList, DoIf, DoWhile, DoCases, DoAssign, LogKept;
    var r := DoAction(c, a, w).0;
    match a {
      case Route(t) =>
        if 0 <= t <= RT_NO {
          ActionsKept(c, c.routes(t), w);
          var x := RunActions(c, c.routes(t), w).0;
          KeptTouch(x, r);
          KeptTrans(w, x, r);
        } else {
          KeptTouch(w, r);
        }
      case If(e, t, f) =>
        if e.Some? { IfKept(c, e.value, t, f, w); } else { KeptTouch(w, r); }
      case While(e, b) =>
        if e.Some? {
          WhileKept(c, e.value, b, c.maxWhile, w, E_BUG);
          var x := DoWhile(c, e.value, b, c.maxWhile, w, E_BUG).0;
          KeptTouch(x, r);
          KeptTrans(w, x, r);
        } else {
          KeptTouch(w, r);
        }
      case Switch(cs, d) => SwitchKept(c, cs, d, w);
      case Assign(e) =>
        AssignKept(c, e, w);
        var x := DoAssign(c, e, w).0;
        KeptTouch(x, r);
        KeptTrans(w, x, r);
      case _ => KeptTouch(w, r);
    }
  }

  lemma {:induction false} SwitchKept(c: Config, cs: Cases, d: Actions, w: World)
    requires InLevels(w)
    ensures Kept(w, DoAction(c, Switch(cs, d), w).0)
    decreases ROUTE_MAX_REC_LEV - w.recLev, 1 + SizeC(cs) + SizeL(d), 0
  {
    hide RunList, DoCases, LogKept;
    var r := DoAction(c, Switch(cs, d), w).0;
    var (w1, v) := Ask(c, w);
    if !v.value {
      KeptTouch(w, r);
    } else {
      var w1' := w1.(returnCode := 1);
      KeptTouch(w, w1');
      CasesKept(c, cs, false, w1');
      var (w2, matched) := DoCases(c, cs, false, w1');
      KeptTrans(w, w1', w2);
      if !matched && d.Cons? {
        ListKept(c, d, w2, 0);
        var x := RunList(c, d, w2, 0).0;
        KeptTrans(w, w2, x);
        KeptTouch(x, r);
        KeptTrans(w, x, r);
      }
    }
  }

  lemma {:induction false} IfKept(c: Config, e: Expr, t: Actions, f: Actions, w: World)
    requires InLevels(w)
    ensures Kept(w, DoIf(c, e, t, f, w).0)
    decreases ROUTE_MAX_REC_LEV - w.recLev, 1 + SizeE(e) + SizeL(t) + SizeL(f), 0
  {
    hide Branch, EvalExpr, LogKept;
    var r := DoIf(c, e, t, f, w).0;
    ExprKept(c, e, w);
    var (w1, v, _) := EvalExpr(c, e, w);
    if v == EXPR_DROP || Stopped(w1) {
      KeptTouch(w1, r);
    } else {
      BranchKept(c, if v > 0 then t else f, v, w1);
    }
    KeptTrans(w, w1, r);
  }

  lemma {:induction false} BranchKept(c: Config, l: Actions, v: int, w: World)
    requires InLevels(w)
    ensures Kept(w, Branch(c, l, v, w).0)
    decreases ROUTE_MAX_REC_LEV - w.recLev, SizeL(l), 1
  {
    hide RunList, LogKept;
    var r := Branch(c, l, v, w).0;
    if l.Cons? {
      ListKept(c, l, w, 0);
      var x := RunList(c, l, w, 0).0;
      KeptTouch(x, r);
      KeptTrans(w, x, r);
    } else {
      KeptTouch(w, r);
    }
  }

  lemma {:induction false} WhileKept(c: Config, e: Expr, b: Actions, left: nat, w: World, ret: int)
    requires InLevels(w)
    ensures Kept(w, DoWhile(c, e, b, left, w, ret).0)
    decreases ROUTE_MAX_REC_LEV - w.recLev, 1 + SizeE(e) + SizeL(b), left
  {
    hide RunList, EvalExpr, LogKept;
    var r := DoWhile(c, e, b, left, w, ret).0;
    if left == 0 {
      KeptTouch(w, r);
    } else {
      ExprKept(c, e, w);
      var (w1, v, _) := EvalExpr(c, e, w);
      if !(v == EXPR_DROP || Stopped(w1)) && v > 0 && b.Cons? {
        ListKept(c, b, w1, 0);
        var (w2, ret2) := RunList(c, b, w1, 0);
        var w2' := w2.(returnCode := ret2);
        KeptTrans(w, w1, w2);
        KeptTouch(w2, w2');
        KeptTrans(w, w2, w2');
        WhileKept(c, e, b, left - 1, w2', ret2);
        KeptTrans(w, w2', r);
      } else {
        KeptTouch(w1, r);
        KeptTrans(w, w1, r);
      }
    }
  }

  lemma {:induction false} CasesKept(c: Config, cs: Cases, matched: bool, w: World)
    requires InLevels(w)
    ensures Kept(w, DoCases(c, cs, matched, w).0)
    decreases ROUTE_MAX_REC_LEV - w.recLev, SizeC(cs), 0
  {
    hide RunList, LogKept;
    if cs.NoCase? {
      KeptTouch(w, w);
    } else {
      var (w1, hit) := if matched then (w, true) else MatchCase(c, w);
      KeptTouch(w, w1);
      var w2 := w1;
      if hit && cs.body.Cons? {
        ListKept(c, cs.body, w1, 0);
        var (x, ret) := RunList(c, cs.body, w1, 0);
        w2 := x.(returnCode := ret);
        KeptTrans(w, w1, x);
        KeptTouch(x, w2);
        KeptTrans(w, x, w2);
      }
      if !hit {
        CasesKept(c, cs.next, false, w1);
        KeptTrans(w, w1, DoCases(c, cs.next, false, w1).0);
      } else if !((cs.body.Cons? && Stopped(w2)) || cs.stop) {
        CasesKept(c, cs.next, true, w2);
        KeptTrans(w, w2, DoCases(c, cs.next, true, w2).0);
      }
    }
  }

  lemma {:induction false} AssignKept(c: Config, e: Option<Expr>, w: World)
    requires InLevels(w)
    ensures Kept(w, DoAssign(c, e, w).0)
    decreases ROUTE_MAX_REC_LEV - w.recLev, (if e.None? then 0 else SizeE(e.value)), 1
  {
    hide EvalExpr, LogKept;
    var r := DoAssign(c, e, w).0;
    var (w1, writable) := Ask(c, w);
    KeptTouch(w, w1);
    if writable.value && e.Some? {
      ExprKept(c, e.value, w1);
      var x := EvalExpr(c, e.value, w1).0;
      KeptTrans(w, w1, x);
      KeptTouch(x, r);
      KeptTrans(w, x, r);
    } else {
      KeptTouch(w1, r);
      KeptTrans(w, w1, r);
    }
  }

  lemma {:induction false} ExprKept(c: Config, e: Expr, w: World)
    requires InLevels(w)
    ensures Kept(w, EvalExpr(c, e, w).0)
    decreases ROUTE_MAX_REC_LEV - w.recLev, SizeE(e), 0
  {
    hide EvalBody;
    if w.exprLev + 1 > MAX_REC_LEV {
      KeptTouch(w, w);
    } else {
      BodyKept(c, e, w.(exprLev := w.exprLev + 1));
    }
  }

  lemma {:induction false} BodyKept(c: Config, e: Expr, w: World)
    requires InLevels(w)
    ensures Kept(w, EvalBody(c, e, w).0)
    decreases ROUTE_MAX_REC_LEV - w.recLev, SizeE(e) - 1, 1
  {
    hide EvalExpr, RunList, LogKept;
    var r := EvalBody(c, e, w).0;
    match e {
      case Leaf => KeptTouch(w, r);
      case Run(l) => ListKept(c, l, w, 0);
      case Arith(unary, lo, ro) =>
        if lo.None? {
          KeptTouch(w, r);
        } else {
          ExprKept(c, lo.value, w);
          var (w1, _, has) := EvalExpr(c, lo.value, w);
          if has {
            var w2 := w1;
            if !unary && ro.Some? {
              ExprKept(c, ro.value, w1);
              w2 := EvalExpr(c, ro.value, w1).0;
              KeptTrans(w, w1, w2);
            }
            KeptTouch(w2, r);
            KeptTrans(w, w2, r);
          }
        }
      case And(x, y) => PairKept(c, x, y, w);
      case Or(x, y) => PairKept(c, x, y, w);
      case Not(x) => ExprKept(c, x, w);
      case Eval(x) => ExprKept(c, x, w);
    }
  }

  lemma {:induction false} PairKept(c: Config, x: Expr, y: Expr, w: World)
    requires InLevels(w)
    ensures Kept(w, EvalExpr(c, x, w).0)
    ensures var w1 := EvalExpr(c, x, w).0; Kept(w, EvalExpr(c, y, w1).0)
    decreases ROUTE_MAX_REC_LEV - w.recLev, SizeE(x) + SizeE(y), 0
  {
    hide EvalExpr, LogKept;
    ExprKept(c, x, w);
    var w1 := EvalExpr(c, x, w).0;
    ExprKept(c, y, w1);
    KeptTrans(w, w1, EvalExpr(c, y, w1).0);
  }

  /** A top-level run: the caller's flags and level are restored, the reported DROP implies
      the reported EXIT, RETURN never escapes, and within the run no list goes on after EXIT. */
  lemma TopRouteKept(c: Config, l: Actions, w: World)
    ensures var (w', (exit, returned, dropped)) := RunTopRoute(c, l, w);
      && w'.exit == w.exit && w'.returned == w.returned && w'.dropped == w.dropped
      && SameLevels(w, w') && LogKept(w.log, w'.log)
      && (dropped ==> exit) && !returned
  {
    hide RunActions;
    var w1 := w.(exit := false, returned := false, dropped := false, recLev := 0, errClass := 0);
    ActionsKept(c, l, w1);
    if l.Nil? { EmptyRoute(c, w1); }
  }

  lemma EmptyRoute(c: Config, w: World)
    requires InLevels(w)
    ensures RunActions(c, Nil, w).0 == w
  {
  }
}
