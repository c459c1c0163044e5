/**
  The interpreter as the program runs it: globals updated in place by mutually recursive
  procedures with loops.  Each procedure is proved to do what the corresponding function on
  the globals says, and to return.
*/
module ScriptRunner {
  import opened Words
  import opened Script

  class Runner {
    const cfg: Config
    var exit: bool
    var returned: bool
    var dropped: bool
    var recLev: int
    var exprLev: int
    var returnCode: int
    var errClass: int
    var routeType: RouteType
    var asked: nat
    var log: seq<Event>

    constructor (c: Config)
      ensures cfg == c && InLevels(W()) && W() == World(false, false, false, 0, 0, 0, 0, RequestRoute, 0, [])
    {
      cfg := c;
      exit, returned, dropped := false, false, false;
      recLev, exprLev, returnCode, errClass := 0, 0, 0, 0;
      routeType, asked, log := RequestRoute, 0, [];
    }

    ghost function W(): World
      reads this
    {
      World(exit, returned, dropped, recLev, exprLev, returnCode, errClass, routeType, asked, log)
    }

    method Ask() returns (a: Answer)
      modifies this
      ensures (W(), a) == Script.Ask(cfg, old(W()))
    {
      a := cfg.answers(asked);
      errClass, asked := a.errClass, asked + 1;
    }

    /** run_actions */
    method RunActions(l: Actions) returns (ret: int)
      requires InLevels(W())
      modifies this
      ensures (W(), ret) == Script.RunActions(cfg, l, old(W()))
      decreases ROUTE_MAX_REC_LEV - recLev, 0, 0
    {
      hide RunList;
      recLev := recLev + 1;
      if recLev > ROUTE_MAX_REC_LEV {
        recLev := recLev - 1;
        return E_UNSPEC;
      }
      if l.Nil? {
        recLev := recLev - 1;
        return 1;
      }
      ret := RunActionList(l);
      if returned {
        returned := false;
      }
      recLev := recLev - 1;
    }

    /** run_action_list */
    method RunActionList(l: Actions) returns (ret: int)
      requires InLevels(W())
      modifies this
      ensures (W(), ret) == RunList(cfg, l, old(W()), 0)
      decreases ROUTE_MAX_REC_LEV - recLev, SizeL(l), 1
    {
      hide Script.Element;
      ret := E_UNSPEC;
      var t := l;
      var place := 0;
      while t.Cons?
        invariant InLevels(W()) && recLev == old(recLev) && SizeL(t) <= SizeL(l)
        invariant t.Cons? ==> RunList(cfg, l, old(W()), 0) == RunList(cfg, t, W(), place)
        invariant t.Nil? ==> RunList(cfg, l, old(W()), 0) == (W(), ret)
        decreases SizeL(t)
      {
        ret := Element(t.head, place);
        if returned || exit {
          break;
        }
        t := t.tail;
        place := place + 1;
      }
    }

    /** Body of the loop in run_action_list. */
    method Element(a: Action, place: nat) returns (ret: int)
      requires InLevels(W())
      modifies this
      ensures (W(), ret) == Script.Element(cfg, a, old(W()), place)
      decreases ROUTE_MAX_REC_LEV - recLev, SizeA(a), 3
    {
      hide Script.Perform, Script.AfterError;
      ret := Perform(a, place);
      AfterError();
    }

    method Perform(a: Action, place: nat) returns (ret: int)
      requires InLevels(W())
      modifies this
      ensures (W(), ret) == Script.Perform(cfg, a, old(W()), place)
      decreases ROUTE_MAX_REC_LEV - recLev, SizeA(a), 2
    {
      hide DoAction;
      log := log + [Event(place, exit, returned)];
      ret := Do(a);
      if ret == 0 {
        exit := true;
      }
    }

    /** The error route, and the error info reset unless the script is over. */
    method AfterError()
      requires InLevels(W())
      modifies this
      ensures W() == Script.AfterError(cfg, old(W()))
      decreases ROUTE_MAX_REC_LEV - recLev, 0, 1
    {
      hide Script.RunActions;
      if cfg.errorRoute.Cons? && !routeType.ErrorRoute? && !routeType.OnReplyRoute? && errClass != 0 {
        routeType := ErrorRoute;
        var _ := RunActions(cfg.errorRoute);
        if !exit {
          errClass := 0;
        }
      }
    }

    /** do_action */
    method Do(a: Action) returns (ret: int)
      requires InLevels(W())
      modifies this
      ensures (W(), ret) == DoAction(cfg, a, old(W()))
      decreases ROUTE_MAX_REC_LEV - recLev, SizeA(a), 1
    {
      hide RunList, Script.RunActions, DoCases, DoIf, DoWhile, Script.DoAssign;
      match a {
        case Drop =>
          dropped := true;
          ret, exit, returnCode := 0, true, 0;
        case Exit =>
          ret, exit, returnCode := 0, true, 0;
        case Return(n) =>
          ret, returned, returnCode := n, true, n;
        case Route(n) =>
          if n > RT_NO || n < 0 {
            return E_CFG;
          }
          ret := RunActions(cfg.routes(n));
          returnCode := ret;
        case If(e, t, f) =>
          if e.None? {
            return E_BUG;
          }
          ret := RunIf(e.value, t, f);
        case While(e, b) =>
          ret := E_BUG;
          if e.Some? {
            ret := RunWhile(e.value, b);
          }
          returnCode := ret;
        case Switch(cs, d) =>
          var v := Ask();
          if !v.value {
            returnCode := E_BUG;
            return E_BUG;
          }
          returnCode := 1;
          var matched := RunCases(cs);
          if !matched && d.Cons? {
            returnCode := RunActionList(d);
          }
          ret := returnCode;
        case Assign(e) =>
          ret := RunAssign(e);
          returnCode := ret;
        case Other =>
          var v := Ask();
          ret := v.ret;
          if v.value {
            returnCode := ret;
          }
      }
    }

    /** IF_T */
    method RunIf(e: Expr, t: Actions, f: Actions) returns (ret: int)
      requires InLevels(W())
      modifies this
      ensures (W(), ret) == DoIf(cfg, e, t, f, old(W()))
      decreases ROUTE_MAX_REC_LEV - recLev, 1 + SizeE(e) + SizeL(t) + SizeL(f), 1
    {
      hide Branch, EvalExpr;
      var v, _ := EvalE(e);
      if v < 0 || returned || exit {
        if v == EXPR_DROP || returned || exit {
          returnCode := 0;
          return 0;
        }
      }
      if v > 0 {
        ret := RunBranch(t, v);
      } else {
        ret := RunBranch(f, v);
      }
    }

    method RunBranch(l: Actions, v: int) returns (ret: int)
      requires InLevels(W())
      modifies this
      ensures (W(), ret) == Branch(cfg, l, v, old(W()))
      decreases ROUTE_MAX_REC_LEV - recLev, SizeL(l), 2
    {
      hide RunList;
      ret := 1;
      if l.Cons? {
        ret := RunActionList(l);
        returnCode := ret;
      } else {
        returnCode := v;
      }
    }

    /** The while loop of WHILE_T */
    method RunWhile(e: Expr, b: Actions) returns (ret: int)
      requires InLevels(W())
      modifies this
      ensures (W(), ret) == DoWhile(cfg, e, b, cfg.maxWhile, old(W()), E_BUG)
      decreases ROUTE_MAX_REC_LEV - recLev, 1 + SizeE(e) + SizeL(b), 1
    {
      hide RunList, EvalExpr;
      ret := E_BUG;
      var len := 0;
      while len < cfg.maxWhile
        invariant InLevels(W()) && recLev == old(recLev) && len <= cfg.maxWhile
        invariant DoWhile(cfg, e, b, cfg.maxWhile, old(W()), E_BUG) == DoWhile(cfg, e, b, cfg.maxWhile - len, W(), ret)
      {
        len := len + 1;
        var v, _ := EvalE(e);
        if v < 0 || returned || exit {
          if v == EXPR_DROP || returned || exit {
            returnCode := 0;
            return 0;
          }
        }
        ret := 1;
        if v > 0 && b.Cons? {
          ret := RunActionList(b);
          returnCode := ret;
        } else {
          returnCode := v;
          return;
        }
      }
    }

    /** The case loop of SWITCH_T */
    method RunCases(cs: Cases) returns (cmatch: bool)
      requires InLevels(W())
      modifies this
      ensures (W(), cmatch) == DoCases(cfg, cs, false, old(W()))
      decreases ROUTE_MAX_REC_LEV - recLev, SizeC(cs), 1
    {
      hide RunList;
      cmatch := false;
      var item := cs;
      while item.Case?
        invariant InLevels(W()) && recLev == old(recLev) && SizeC(item) <= SizeC(cs)
        invariant DoCases(cfg, cs, false, old(W())) == DoCases(cfg, item, cmatch, W())
        decreases SizeC(item)
      {
        if !cmatch {
          var v := Ask();
          cmatch := v.ret != 0;
        }
        if cmatch {
          if item.body.Cons? {
            returnCode := RunActionList(item.body);
            if returned || exit {
              return;
            }
          }
          if item.stop {
            return;
          }
        }
        item := item.next;
      }
    }

    /** do_assign */
    method RunAssign(e: Option<Expr>) returns (ret: int)
      requires InLevels(W())
      modifies this
      ensures (W(), ret) == Script.DoAssign(cfg, e, old(W()))
      decreases ROUTE_MAX_REC_LEV - recLev, (if e.None? then 0 else SizeE(e.value)), 2
    {
      hide EvalExpr;
      var writable := Ask();
      if !writable.value {
        return -1;
      }
      if e.Some? {
        var _, present := EvalE(e.value);
        if !present {
          return -1;
        }
      }
      var done := Ask();
      ret := if done.ret < 0 then -1 else 1;
    }

    /** eval_expr and eval_elem */
    method EvalE(e: Expr) returns (ret: int, value: bool)
      requires InLevels(W())
      modifies this
      ensures (W(), ret, value) == EvalExpr(cfg, e, old(W()))
      decreases ROUTE_MAX_REC_LEV - recLev, SizeE(e), 1
    {
      hide EvalBody;
      exprLev := exprLev + 1;
      if exprLev > MAX_REC_LEV {
        ret, value := -1, false;
      } else {
        ret, value := EvalIn(e);
      }
      exprLev := exprLev - 1;
    }

    method EvalIn(e: Expr) returns (ret: int, value: bool)
      requires InLevels(W())
      modifies this
      ensures (W(), ret, value) == EvalBody(cfg, e, old(W()))
      decreases ROUTE_MAX_REC_LEV - recLev, SizeE(e) - 1, 2
    {
      hide EvalExpr, RunList;
      match e {
        case Leaf =>
          var v := Ask();
          ret, value := v.ret, v.value;
        case Run(l) =>
          ret := RunActionList(l);
          value := true;
          if ret <= 0 {
            ret := if ret == 0 then EXPR_DROP else 0;
          } else {
            ret := 1;
          }
        case Arith(unary, l, r) =>
          if l.None? {
            return 0, false;
          }
          ret, value := EvalE(l.value);
          if !value {
            return 0, false;
          }
          if !unary && r.Some? {
            ret, value := EvalE(r.value);
          }
          var v := Ask();
          ret, value := if v.ret != 0 then 1 else 0, v.value;
        case And(l, r) =>
          ret, value := EvalE(l);
          if ret == 1 {
            ret, value := EvalE(r);
          }
        case Or(l, r) =>
          ret, value := EvalE(l);
          if ret == 0 {
            ret, value := EvalE(r);
          }
        case Not(l) =>
          ret, value := EvalE(l);
          if ret >= 0 {
            ret := if ret == 0 then 1 else 0;
          }
        case Eval(l) =>
          ret, value := EvalE(l);
      }
    }

    /** run_top_route */
    method RunTopRoute(l: Actions) returns (flags: (bool, bool, bool))
      modifies this
      ensures (W(), flags) == Script.RunTopRoute(cfg, l, old(W()))
    {
      hide Script.RunActions;
      var backup, backupLev := (exit, returned, dropped), recLev;
      exit, returned, dropped, recLev := false, false, false, 0;
      errClass := 0;
      var _ := RunActions(l);
      flags := (exit, returned, dropped);
      exit, returned, dropped := backup.0, backup.1, backup.2;
      recLev := backupLev;
    }
  }
}
