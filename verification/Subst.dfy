/**
  Substitution expressions: compiling the replacement text into a table of escapes, building
  a replacement from the table, finding the matches, and writing the result.
*/
module Subst {
  import opened Words

  const PV_MARKER := '$'
  const MAX_REPLACE_WITH := 100
  const BUFFER_SIZE := 1024

  /** What an escape stands for; a specifier is kept as its text. */
  datatype Kind = Chr(c: char) | Uri | NMatch(n: nat) | Spec(text: string)

  datatype Token = Token(offset: nat, size: nat, kind: Kind)

  /** A match or a group of it, as regexec reports it. */
  datatype Group = Group(so: nat, eo: nat)

  /** Length of the specifier at the start of a text, if there is one. */
  type SpecParser = string -> Option<nat>

  ghost predicate SpecOk(spec: SpecParser) {
    forall s :: spec(s).Some? ==> 0 < spec(s).value <= |s|
  }

  function EscKind(c: char): Kind {
    if c == 'n' then Chr('\n') else if c == 'r' then Chr('\r') else if c == 't' then Chr('\t')
    else if c == 'u' then Uri
    else if '0' <= c <= '9' then NMatch(c as int - '0' as int)
    else Chr(c)
  }

  /** What stands at position i of a replacement text. */
  datatype Item = Stop | Bad | Plain | Escape(kind: Kind) | Specifier(len: nat)

  function ItemAt(spec: SpecParser, t: string, i: nat, sep: Option<char>): Item
    requires i < |t|
  {
    if t[i] == '\\' then (if i + 1 < |t| then Escape(EscKind(t[i + 1])) else Plain)
    else if t[i] == PV_MARKER then
      (match spec(t[i..])
       case None => Bad
       case Some(n) => Specifier(n))
    else if sep == Some(t[i]) then Stop
    else Plain
  }

  // --- compiling ---

  /** What parse_repl comes to: a table and where the text ends, an error, or a write behind
      the last slot of the table, after which nothing is promised. */
  datatype Compiled = Table(toks: seq<Token>, end: nat) | Refused | OverTable

  /** The table for the text from position i on, n of its slots being in use already.  Every
      escape and every specifier writes the next slot, a bad specifier too; only escapes are
      followed by a check. */
  function Compile(spec: SpecParser, t: string, i: nat, sep: Option<char>, n: nat): (r: Compiled)
    requires SpecOk(spec) && i <= |t|
    decreases |t| - i
  {
    if i == |t| then (if sep.Some? then Refused else Table([], i))
    else match ItemAt(spec, t, i, sep)
      case Stop => Table([], i)
      case Bad => if n >= MAX_REPLACE_WITH then OverTable else Refused
      case Plain => Compile(spec, t, i + 1, sep, n)
      case Escape(k) =>
        if n >= MAX_REPLACE_WITH then OverTable
        else if n + 1 >= MAX_REPLACE_WITH then Refused
        else Prepend(Token(i, 2, k), Compile(spec, t, i + 2, sep, n + 1))
      case Specifier(m) =>
        if n >= MAX_REPLACE_WITH then OverTable
        else Prepend(Token(i, m, Spec(t[i..i + m])), Compile(spec, t, i + m, sep, n + 1))
  }

  function Prepend(tok: Token, r: Compiled): Compiled {
    if r.Table? then Table([tok] + r.toks, r.end) else r
  }

  function PrependAll(toks: seq<Token>, r: Compiled): Compiled {
    if r.Table? then Table(toks + r.toks, r.end) else r
  }

  function MaxMatch(toks: seq<Token>): nat {
    if toks == [] then 0
    else
      var m, k := MaxMatch(toks[..|toks| - 1]), toks[|toks| - 1].kind;
      if k.NMatch? && m < k.n then k.n else m
  }

  /** Every group the table refers to is among the max_pmatch + 1 asked for. */
  lemma {:induction false} MaxMatchCovers(toks: seq<Token>, j: nat)
    requires j < |toks| && toks[j].kind.NMatch?
    ensures toks[j].kind.n <= MaxMatch(toks)
  {
    if j < |toks| - 1 {
      assert toks[..|toks| - 1][j] == toks[j];
      MaxMatchCovers(toks[..|toks| - 1], j);
    }
  }

  /** parse_repl from the character after the separator, or from the start without one, into a
      table of MAX_REPLACE_WITH slots.  OverTable stands where the program would write behind
      the table. */
  method ParseRepl(spec: SpecParser, t: string, sep: Option<char>)
      returns (r: Compiled, rw: array<Token>, maxMatch: nat)
    requires SpecOk(spec)
    ensures rw.Length == MAX_REPLACE_WITH && r == Compile(spec, t, 0, sep, 0)
    ensures r.Table? ==> |r.toks| <= MAX_REPLACE_WITH && rw[..|r.toks|] == r.toks && maxMatch == MaxMatch(r.toks)
  {
    hide Compile, EscKind, SpecOk, PrependAll, MaxMatch;
    ghost var goal := Compile(spec, t, 0, sep, 0);
    rw := new Token[MAX_REPLACE_WITH](_ => Token(0, 0, Uri));
    var p, n, escape := 0, 0, false;
    maxMatch := 0;
    PrependNone(goal);
    MaxMatchNone();
    assert rw[..0] == [];
    while p < |t|
      invariant p <= |t| && n <= rw.Length && (escape ==> p > 0 && t[p - 1] == '\\')
      invariant maxMatch == MaxMatch(rw[..n])
      invariant goal == PrependAll(rw[..n], Compile(spec, t, if escape then p - 1 else p, sep, n))
      decreases |t| - p
    {
      CompileStep(spec, t, if escape then p - 1 else p, sep, rw[..n]);
      if escape {
        if n == rw.Length {
          return OverTable, rw, 0;
        }
        escape := false;
        maxMatch := Put(rw, n, Token(p - 1, 2, EscKind(t[p])), maxMatch);
        n := n + 1;
        if n >= MAX_REPLACE_WITH {
          return Refused, rw, 0;
        }
        p := p + 1;
      } else if t[p] == '\\' {
        escape := true;
        p := p + 1;
      } else if t[p] == PV_MARKER {
        if n == rw.Length {
          return OverTable, rw, 0;
        }
        var m := spec(t[p..]);
        if m.None? {
          return Refused, rw, 0;
        }
        SpecBound(spec, t[p..]);
        maxMatch := Put(rw, n, Token(p, m.value, Spec(t[p..p + m.value])), maxMatch);
        n := n + 1;
        p := p + m.value;
      } else if sep == Some(t[p]) {
        return Table(rw[..n], p), rw, maxMatch;
      } else {
        p := p + 1;
      }
    }
    CompileEnd(spec, t, sep, n, escape);
    PrependTable(rw[..n], |t|);
    r := if sep.Some? then Refused else Table(rw[..n], |t|);
  }

  /** Fills slot n and keeps max_pmatch. */
  method Put(rw: array<Token>, n: nat, tok: Token, maxMatch: nat) returns (max: nat)
    requires n < rw.Length && maxMatch == MaxMatch(rw[..n])
    modifies rw
    ensures rw[..n + 1] == old(rw[..n]) + [tok] && max == MaxMatch(rw[..n + 1])
  {
    MaxMatchSnoc(rw[..n], tok);
    rw[n] := tok;
    max := if tok.kind.NMatch? && maxMatch < tok.kind.n then tok.kind.n else maxMatch;
    assert rw[..n + 1] == old(rw[..n]) + [tok];
  }

  lemma MaxMatchNone()
    ensures MaxMatch([]) == 0
  {
  }

  lemma PrependTable(toks: seq<Token>, end: nat)
    ensures PrependAll(toks, Table([], end)) == Table(toks, end) && PrependAll(toks, Refused) == Refused
  {
    assert toks + [] == toks;
  }

  lemma PrependNone(r: Compiled)
    ensures PrependAll([], r) == r
  {
    if r.Table? { assert [] + r.toks == r.toks; }
  }

  lemma SpecBound(spec: SpecParser, s: string)
    requires SpecOk(spec)
    ensures spec(s).Some? ==> 0 < spec(s).value <= |s|
  {
  }

  lemma MaxMatchSnoc(toks: seq<Token>, tok: Token)
    ensures MaxMatch(toks + [tok]) ==
      if tok.kind.NMatch? && MaxMatch(toks) < tok.kind.n then tok.kind.n else MaxMatch(toks)
  {
  }

  /** One turn of the compiler, with the tokens so far in front. */
  lemma CompileStep(spec: SpecParser, t: string, i: nat, sep: Option<char>, toks: seq<Token>)
    requires SpecOk(spec) && i < |t| && |toks| <= MAX_REPLACE_WITH
    ensures var all, n := PrependAll(toks, Compile(spec, t, i, sep, |toks|)), |toks|;
      match ItemAt(spec, t, i, sep)
      case Stop => all == Table(toks, i)
      case Bad => all == if n == MAX_REPLACE_WITH then OverTable else Refused
      case Plain => all == PrependAll(toks, Compile(spec, t, i + 1, sep, n))
      case Escape(k) =>
        && (n == MAX_REPLACE_WITH ==> all == OverTable)
        && (n + 1 == MAX_REPLACE_WITH ==> all == Refused)
        && (n + 1 < MAX_REPLACE_WITH ==>
              all == PrependAll(toks + [Token(i, 2, k)], Compile(spec, t, i + 2, sep, n + 1)))
      case Specifier(m) =>
        && 0 < m <= |t| - i
        && (n == MAX_REPLACE_WITH ==> all == OverTable)
        && (n < MAX_REPLACE_WITH ==>
              all == PrependAll(toks + [Token(i, m, Spec(t[i..i + m]))], Compile(spec, t, i + m, sep, n + 1)))
  {
    var it := ItemAt(spec, t, i, sep);
    hide ItemAt;
    assert toks + [] == toks;
    match it
    case Escape(k) =>
      PrependTwice(toks, Token(i, 2, k), Compile(spec, t, i + 2, sep, |toks| + 1));
    case Specifier(m) =>
      SpecItem(spec, t, i, sep);
      PrependTwice(toks, Token(i, m, Spec(t[i..i + m])), Compile(spec, t, i + m, sep, |toks| + 1));
    case _ =>
  }

  lemma SpecItem(spec: SpecParser, t: string, i: nat, sep: Option<char>)
    requires SpecOk(spec) && i < |t| && ItemAt(spec, t, i, sep).Specifier?
    ensures 0 < ItemAt(spec, t, i, sep).len <= |t| - i
  {
  }

  lemma PrependTwice(toks: seq<Token>, tok: Token, r: Compiled)
    ensures PrependAll(toks, Prepend(tok, r)) == PrependAll(toks + [tok], r)
  {
    if r.Table? { assert toks + ([tok] + r.toks) == (toks + [tok]) + r.toks; }
  }

  /** A backslash at the very end is an ordinary character. */
  lemma CompileEnd(spec: SpecParser, t: string, sep: Option<char>, n: nat, escape: bool)
    requires SpecOk(spec) && (escape ==> t != "" && t[|t| - 1] == '\\')
    ensures Compile(spec, t, if escape then |t| - 1 else |t|, sep, n) == if sep.Some? then Refused else Table([], |t|)
  {
  }

  // --- when the table is left ---

  /** The slots a text asks for, in order, up to its end, its separator or a bad specifier:
      whether each is for an escape. */
  function Slots(spec: SpecParser, t: string, i: nat, sep: Option<char>): seq<bool>
    requires SpecOk(spec) && i <= |t|
    decreases |t| - i
  {
    if i == |t| then []
    else match ItemAt(spec, t, i, sep)
      case Stop => []
      case Bad => [false]
      case Plain => Slots(spec, t, i + 1, sep)
      case Escape(_) => [true] + Slots(spec, t, i + 2, sep)
      case Specifier(m) => [false] + Slots(spec, t, i + m, sep)
  }

  /** parse_repl writes behind its table if and only if the text asks for more slots than there
      are and the last one there is goes to a specifier. */
  lemma OverTableExactly(spec: SpecParser, t: string, sep: Option<char>)
    requires SpecOk(spec)
    ensures Compile(spec, t, 0, sep, 0).OverTable? <==>
      var s := Slots(spec, t, 0, sep); |s| > MAX_REPLACE_WITH && !s[MAX_REPLACE_WITH - 1]
  {
    OverTableFrom(spec, t, 0, sep, 0);
  }

  lemma {:induction false} OverTableFrom(spec: SpecParser, t: string, i: nat, sep: Option<char>, n: nat)
    requires SpecOk(spec) && i <= |t| && n <= MAX_REPLACE_WITH
    ensures Compile(spec, t, i, sep, n).OverTable? <==>
      var s := Slots(spec, t, i, sep);
      n + |s| > MAX_REPLACE_WITH && (n < MAX_REPLACE_WITH ==> !s[MAX_REPLACE_WITH - 1 - n])
    decreases |t| - i
  {
    hide SpecOk, Slots, Compile;
    LimitStep(spec, t, i, sep, n);
    if i < |t| {
      match ItemAt(spec, t, i, sep)
      case Plain => OverTableFrom(spec, t, i + 1, sep, n);
      case Escape(_) =>
        if n < MAX_REPLACE_WITH { OverTableFrom(spec, t, i + 2, sep, n + 1); }
      case Specifier(m) =>
        SpecItem(spec, t, i, sep);
        if n < MAX_REPLACE_WITH { OverTableFrom(spec, t, i + m, sep, n + 1); }
      case _ =>
    }
  }

  /** One item, as it bears on the limit. */
  lemma LimitStep(spec: SpecParser, t: string, i: nat, sep: Option<char>, n: nat)
    requires SpecOk(spec) && i <= |t|
    ensures var over, s := Compile(spec, t, i, sep, n).OverTable?, Slots(spec, t, i, sep);
      if i == |t| then !over && s == []
      else match ItemAt(spec, t, i, sep)
        case Stop => !over && s == []
        case Bad => (over <==> n >= MAX_REPLACE_WITH) && s == [false]
        case Plain => (over <==> Compile(spec, t, i + 1, sep, n).OverTable?) && s == Slots(spec, t, i + 1, sep)
        case Escape(_) =>
          && s == [true] + Slots(spec, t, i + 2, sep)
          && (n >= MAX_REPLACE_WITH ==> over) && (n + 1 == MAX_REPLACE_WITH ==> !over)
          && (n + 1 < MAX_REPLACE_WITH ==> (over <==> Compile(spec, t, i + 2, sep, n + 1).OverTable?))
        case Specifier(m) =>
          && i + m <= |t| && s == [false] + Slots(spec, t, i + m, sep)
          && (n >= MAX_REPLACE_WITH ==> over)
          && (n < MAX_REPLACE_WITH ==> (over <==> Compile(spec, t, i + m, sep, n + 1).OverTable?))
  {
  }

  /** A text of more than MAX_REPLACE_WITH specifiers and nothing else. */
  lemma SpecifiersLeaveTable(n: nat) returns (spec: SpecParser, t: string)
    requires n > MAX_REPLACE_WITH
    ensures SpecOk(spec) && |t| == n && Compile(spec, t, 0, None, 0).OverTable?
  {
    spec := s => if s == "" then None else Some(1);
    t := seq(n, _ => PV_MARKER);
    AllSpecifiers(spec, t, 0);
    OverTableExactly(spec, t, None);
  }

  lemma {:induction false} AllSpecifiers(spec: SpecParser, t: string, i: nat)
    requires SpecOk(spec) && i <= |t| && (forall k :: 0 <= k < |t| ==> t[k] == PV_MARKER)
    requires forall s :: s != "" ==> spec(s) == Some(1)
    ensures Slots(spec, t, i, None) == seq(|t| - i, _ => false)
    decreases |t| - i
  {
    if i < |t| {
      assert ItemAt(spec, t, i, None) == Specifier(1);
      AllSpecifiers(spec, t, i + 1);
    }
  }

  // --- building a replacement ---

  /** What a replacement can refer to: the text matched against and its groups, the request
      URI unless the message is a reply, and the values of specifiers. */
  datatype Env = Env(text: string, groups: seq<Option<Group>>, uri: Option<string>, pv: string -> Option<string>)

  predicate GroupsOk(text: string, groups: seq<Option<Group>>) {
    forall i :: 0 <= i < |groups| && groups[i].Some? ==> groups[i].value.so <= groups[i].value.eo <= |text|
  }

  function KindText(e: Env, k: Kind): string
    requires GroupsOk(e.text, e.groups)
  {
    match k
    case Chr(c) => [c]
    case Uri => if e.uri.Some? then e.uri.value else ""
    case NMatch(n) =>
      if n < |e.groups| && e.groups[n].Some? then e.text[e.groups[n].value.so..e.groups[n].value.eo] else ""
    case Spec(s) => if e.pv(s).Some? then e.pv(s).value else ""
  }

  /** Direct reading of the replacement text from position i on: each escape or specifier is
      replaced where it stands. */
  function Expand(spec: SpecParser, e: Env, t: string, i: nat, sep: Option<char>): string
    requires SpecOk(spec) && i <= |t| && GroupsOk(e.text, e.groups)
    decreases |t| - i
  {
    if i == |t| then ""
    else match ItemAt(spec, t, i, sep)
      case Stop => ""
      case Bad => ""
      case Plain => [t[i]] + Expand(spec, e, t, i + 1, sep)
      case Escape(k) => KindText(e, k) + Expand(spec, e, t, i + 2, sep)
      case Specifier(m) => KindText(e, Spec(t[i..i + m])) + Expand(spec, e, t, i + m, sep)
  }

  /** Tokens lie in the text one after the other, from position p on. */
  predicate Placed(toks: seq<Token>, p: nat, end: nat) {
    if toks == [] then p <= end
    else p <= toks[0].offset && Placed(toks[1..], toks[0].offset + toks[0].size, end)
  }

  /** The text in front of the end of the last token, and the position there. */
  function Head(e: Env, t: string, toks: seq<Token>, p: nat): string
    requires GroupsOk(e.text, e.groups) && Placed(toks, p, |t|)
  {
    if toks == [] then ""
    else
      PlacedBounds(toks, p, |t|);
      t[p..toks[0].offset] + KindText(e, toks[0].kind) + Head(e, t, toks[1..], toks[0].offset + toks[0].size)
  }

  function TailAt(toks: seq<Token>, p: nat): nat {
    if toks == [] then p else TailAt(toks[1..], toks[0].offset + toks[0].size)
  }

  lemma {:induction false} PlacedBounds(toks: seq<Token>, p: nat, end: nat)
    requires Placed(toks, p, end)
    ensures p <= TailAt(toks, p) <= end && (toks != [] ==> toks[0].offset + toks[0].size <= end)
  {
    if toks != [] {
      PlacedBounds(toks[1..], toks[0].offset + toks[0].size, end);
    }
  }

  /** The table played back over the text. */
  function Replay(e: Env, t: string, toks: seq<Token>, p: nat): string
    requires GroupsOk(e.text, e.groups) && Placed(toks, p, |t|)
  {
    PlacedBounds(toks, p, |t|);
    Head(e, t, toks, p) + t[TailAt(toks, p)..]
  }

  lemma {:induction false} CompilePlaced(spec: SpecParser, t: string, i: nat, sep: Option<char>, n: nat)
    requires SpecOk(spec) && i <= |t| && Compile(spec, t, i, sep, n).Table?
    ensures var c := Compile(spec, t, i, sep, n); c.end <= |t| && Placed(c.toks, i, c.end)
    decreases |t| - i
  {
    hide SpecOk, Compile;
    CompileUnfold(spec, t, i, sep, n);
    if i < |t| {
      match ItemAt(spec, t, i, sep)
      case Plain =>
        CompilePlaced(spec, t, i + 1, sep, n);
      case Escape(k) =>
        CompilePlaced(spec, t, i + 2, sep, n + 1);
        PrependedTail(Token(i, 2, k), Compile(spec, t, i + 2, sep, n + 1));
      case Specifier(m) =>
        SpecItem(spec, t, i, sep);
        CompilePlaced(spec, t, i + m, sep, n + 1);
        PrependedTail(Token(i, m, Spec(t[i..i + m])), Compile(spec, t, i + m, sep, n + 1));
      case _ =>
    }
  }

  lemma PrependedTail(tok: Token, r: Compiled)
    requires r.Table?
    ensures var all := Prepend(tok, r);
      all.Table? && all.toks != [] && all.toks[0] == tok && all.toks[1..] == r.toks && all.end == r.end
  {
  }

  /** Compiling and playing back is the same as reading the text directly. */
  lemma {:induction false} ReplayExpands(spec: SpecParser, e: Env, t: string, i: nat, sep: Option<char>, n: nat)
    requires SpecOk(spec) && i <= |t| && Compile(spec, t, i, sep, n).Table? && GroupsOk(e.text, e.groups)
    ensures var c := Compile(spec, t, i, sep, n);
      && c.end <= |t| && Placed(c.toks, i, c.end)
      && Replay(e, t[..c.end], c.toks, i) == Expand(spec, e, t, i, sep)
    decreases |t| - i
  {
    hide KindText, GroupsOk, SpecOk, Replay, Placed, Compile, Expand;
    CompilePlaced(spec, t, i, sep, n);
    CompileUnfold(spec, t, i, sep, n);
    ExpandUnfold(spec, e, t, i, sep);
    if i < |t| {
      match ItemAt(spec, t, i, sep)
      case Plain =>
        ReplayExpands(spec, e, t, i + 1, sep, n);
        var c := Compile(spec, t, i, sep, n);
        PlacedBounds(c.toks, i + 1, c.end);
        ReplayPlain(e, t[..c.end], c.toks, i);
      case Escape(k) =>
        ReplayExpands(spec, e, t, i + 2, sep, n + 1);
        var c := Compile(spec, t, i + 2, sep, n + 1);
        TokenReplays(e, t[..c.end], Token(i, 2, k), c.toks);
      case Specifier(m) =>
        SpecItem(spec, t, i, sep);
        ReplayExpands(spec, e, t, i + m, sep, n + 1);
        var c := Compile(spec, t, i + m, sep, n + 1);
        TokenReplays(e, t[..c.end], Token(i, m, Spec(t[i..i + m])), c.toks);
      case Stop => ReplayNothing(e, t[..i], i);
      case Bad =>
    } else {
      ReplayNothing(e, t[..i], i);
    }
  }

  /** The number of plain characters at the end of the replacement text, read from position i
      on, `run` of them directly in front of i. */
  function PlainTail(spec: SpecParser, t: string, i: nat, sep: Option<char>, run: nat): nat
    requires SpecOk(spec) && i <= |t|
    decreases |t| - i
  {
    if i == |t| then run
    else match ItemAt(spec, t, i, sep)
      case Stop => run
      case Bad => run
      case Plain => PlainTail(spec, t, i + 1, sep, run + 1)
      case Escape(_) => PlainTail(spec, t, i + 2, sep, 0)
      case Specifier(m) => PlainTail(spec, t, i + m, sep, 0)
  }

  /** What the last copy of replace_build copies are these characters. */
  lemma {:induction false} TailIsPlain(spec: SpecParser, t: string, i: nat, sep: Option<char>, n: nat, run: nat)
    requires SpecOk(spec) && run <= i <= |t| && Compile(spec, t, i, sep, n).Table?
    ensures var c := Compile(spec, t, i, sep, n); PlainTail(spec, t, i, sep, run) == c.end - TailAt(c.toks, i - run)
    decreases |t| - i
  {
    hide SpecOk, Compile;
    CompileUnfold(spec, t, i, sep, n);
    if i < |t| {
      match ItemAt(spec, t, i, sep)
      case Plain => TailIsPlain(spec, t, i + 1, sep, n, run + 1);
      case Escape(k) =>
        TailIsPlain(spec, t, i + 2, sep, n + 1, 0);
        PrependedTail(Token(i, 2, k), Compile(spec, t, i + 2, sep, n + 1));
      case Specifier(m) =>
        SpecItem(spec, t, i, sep);
        TailIsPlain(spec, t, i + m, sep, n + 1, 0);
        PrependedTail(Token(i, m, Spec(t[i..i + m])), Compile(spec, t, i + m, sep, n + 1));
      case _ =>
    }
  }

  lemma CompileUnfold(spec: SpecParser, t: string, i: nat, sep: Option<char>, n: nat)
    requires SpecOk(spec) && i <= |t| && Compile(spec, t, i, sep, n).Table?
    ensures var r := Compile(spec, t, i, sep, n);
      if i == |t| then r == Table([], i)
      else match ItemAt(spec, t, i, sep)
        case Stop => r == Table([], i)
        case Bad => false
        case Plain => r == Compile(spec, t, i + 1, sep, n)
        case Escape(k) => r == Prepend(Token(i, 2, k), Compile(spec, t, i + 2, sep, n + 1))
        case Specifier(m) =>
          i + m <= |t| && r == Prepend(Token(i, m, Spec(t[i..i + m])), Compile(spec, t, i + m, sep, n + 1))
  {
  }

  lemma ExpandUnfold(spec: SpecParser, e: Env, t: string, i: nat, sep: Option<char>)
    requires SpecOk(spec) && i <= |t| && GroupsOk(e.text, e.groups)
    ensures var r := Expand(spec, e, t, i, sep);
      if i == |t| then r == ""
      else match ItemAt(spec, t, i, sep)
        case Stop => r == ""
        case Bad => r == ""
        case Plain => r == [t[i]] + Expand(spec, e, t, i + 1, sep)
        case Escape(k) => r == KindText(e, k) + Expand(spec, e, t, i + 2, sep)
        case Specifier(m) =>
          i + m <= |t| && r == KindText(e, Spec(t[i..i + m])) + Expand(spec, e, t, i + m, sep)
  {
    hide KindText, GroupsOk;
  }

  lemma ReplayNothing(e: Env, t: string, p: nat)
    requires GroupsOk(e.text, e.groups) && p == |t|
    ensures Placed([], p, |t|) && Replay(e, t, [], p) == ""
  {
  }

  lemma TokenReplays(e: Env, t: string, tok: Token, toks: seq<Token>)
    requires GroupsOk(e.text, e.groups) && Placed(toks, tok.offset + tok.size, |t|)
    ensures Placed([tok] + toks, tok.offset, |t|)
    ensures Replay(e, t, [tok] + toks, tok.offset) == KindText(e, tok.kind) + Replay(e, t, toks, tok.offset + tok.size)
  {
    hide KindText, GroupsOk, Replay;
    assert ([tok] + toks)[1..] == toks;
    ReplayToken(e, t, [tok] + toks, tok.offset);
  }

  lemma ReplayPlain(e: Env, t: string, toks: seq<Token>, p: nat)
    requires GroupsOk(e.text, e.groups) && p < |t| && Placed(toks, p + 1, |t|)
    ensures Placed(toks, p, |t|) && Replay(e, t, toks, p) == [t[p]] + Replay(e, t, toks, p + 1)
  {
    hide KindText, GroupsOk;
    PlacedBounds(toks, p + 1, |t|);
    if toks == [] {
      assert t[p..] == [t[p]] + t[p + 1..];
    } else {
      assert t[p..toks[0].offset] == [t[p]] + t[p + 1..toks[0].offset];
      var k, h := KindText(e, toks[0].kind), Head(e, t, toks[1..], toks[0].offset + toks[0].size);
      var tail := t[TailAt(toks, p)..];
      assert t[p..toks[0].offset] + k + h + tail == [t[p]] + (t[p + 1..toks[0].offset] + k + h + tail);
    }
  }

  lemma ReplayToken(e: Env, t: string, toks: seq<Token>, p: nat)
    requires GroupsOk(e.text, e.groups) && Placed(toks, p, |t|) && toks != [] && toks[0].offset == p
    ensures Replay(e, t, toks, p) == KindText(e, toks[0].kind) + Replay(e, t, toks[1..], p + toks[0].size)
  {
    hide KindText, GroupsOk;
    PlacedBounds(toks, p, |t|);
    PlacedBounds(toks[1..], p + toks[0].size, |t|);
    var k, h, tail := KindText(e, toks[0].kind), Head(e, t, toks[1..], p + toks[0].size), t[TailAt(toks, p)..];
    assert t[p..p] == "";
    assert t[p..p] + k + h + tail == k + (h + tail);
  }

  /** What replace_build comes to: a text, an error, or a write behind its buffer, after which
      nothing is promised. */
  datatype Build = Built(text: string) | GaveUp | OverBuffer

  /** What replace_build comes to for a table: the copies before the last are checked, the last
      is not. */
  function Outcome(e: Env, t: string, toks: seq<Token>): Build
    requires GroupsOk(e.text, e.groups) && Placed(toks, 0, |t|)
  {
    if |Head(e, t, toks, 0)| >= BUFFER_SIZE - 1 then GaveUp
    else if |Replay(e, t, toks, 0)| > BUFFER_SIZE then OverBuffer
    else Built(Replay(e, t, toks, 0))
  }

  /** replace_build, in a buffer of BUFFER_SIZE characters.  OverBuffer stands where the last
      copy would leave it: whenever no error is returned, every write is inside the buffer if
      and only if the text played back is not longer than the buffer. */
  method ReplaceBuild(e: Env, t: string, toks: seq<Token>) returns (r: Build)
    requires GroupsOk(e.text, e.groups) && Placed(toks, 0, |t|)
    ensures r.GaveUp? <==> |Head(e, t, toks, 0)| >= BUFFER_SIZE - 1
    ensures !r.GaveUp? ==> (r.Built? <==> |Replay(e, t, toks, 0)| <= BUFFER_SIZE)
    ensures r.Built? ==> r.text == Replay(e, t, toks, 0)
  {
    hide KindText, GroupsOk, Head, TailAt, Placed;
    ghost var goal, done := Head(e, t, toks, 0), "";
    var rbuf := new char[BUFFER_SIZE];
    var dest, i := 0, 0;
    var p: nat := 0;
    assert toks[0..] == toks;
    while i < |toks|
      invariant i <= |toks| && Placed(toks[i..], p, |t|)
      invariant dest == |done| < BUFFER_SIZE - 1 && rbuf[..dest] == done
      invariant done + Head(e, t, toks[i..], p) == goal && TailAt(toks[i..], p) == TailAt(toks, 0)
    {
      HeadStep(e, t, toks, i, p);
      ghost var rest := Head(e, t, toks[i + 1..], toks[i].offset + toks[i].size);
      ghost var lead, text := t[p..toks[i].offset], KindText(e, toks[i].kind);
      assert done + (lead + text + rest) == done + lead + text + rest;
      if dest + (toks[i].offset - p) >= BUFFER_SIZE - 1 {
        return GaveUp;
      }
      CopyInto(rbuf, dest, t[p..toks[i].offset]);
      dest := dest + (toks[i].offset - p);
      p := toks[i].offset + toks[i].size;
      if dest + |KindText(e, toks[i].kind)| >= BUFFER_SIZE - 1 {
        return GaveUp;
      }
      CopyInto(rbuf, dest, KindText(e, toks[i].kind));
      dest := dest + |KindText(e, toks[i].kind)|;
      done := done + lead + text;
      i := i + 1;
    }
    assert toks[i..] == [] && done + "" == done;
    HeadEnd(e, t, p);
    PlacedBounds(toks, 0, |t|);
    if dest + (|t| - p) > rbuf.Length {
      return OverBuffer;
    }
    CopyInto(rbuf, dest, t[p..]);
    r := Built(rbuf[..dest + (|t| - p)]);
  }

  /** A text without escapes never makes replace_build give up: if it is longer than the buffer
      it is written behind it. */
  lemma PlainTextLeavesBuffer(e: Env, t: string)
    requires GroupsOk(e.text, e.groups) && |t| > BUFFER_SIZE
    ensures Placed([], 0, |t|) && Outcome(e, t, []) == OverBuffer
  {
    hide KindText, GroupsOk;
    HeadEnd(e, t, 0);
  }

  lemma HeadFirst(e: Env, t: string, toks: seq<Token>, p: nat)
    requires GroupsOk(e.text, e.groups) && toks != [] && Placed(toks, p, |t|)
    ensures var tok := toks[0]; var q := tok.offset + tok.size;
      && p <= tok.offset <= q <= |t| && Placed(toks[1..], q, |t|)
      && Head(e, t, toks, p) == t[p..tok.offset] + KindText(e, tok.kind) + Head(e, t, toks[1..], q)
      && TailAt(toks, p) == TailAt(toks[1..], q)
  {
    hide KindText, GroupsOk;
    PlacedBounds(toks, p, |t|);
  }

  lemma HeadStep(e: Env, t: string, toks: seq<Token>, i: nat, p: nat)
    requires GroupsOk(e.text, e.groups) && i < |toks| && Placed(toks[i..], p, |t|)
    ensures var tok := toks[i]; var q := tok.offset + tok.size;
      && p <= tok.offset <= q <= |t| && Placed(toks[i + 1..], q, |t|)
      && Head(e, t, toks[i..], p) == t[p..tok.offset] + KindText(e, tok.kind) + Head(e, t, toks[i + 1..], q)
      && TailAt(toks[i..], p) == TailAt(toks[i + 1..], q)
  {
    hide KindText, GroupsOk, Head, TailAt, Placed;
    HeadFirst(e, t, toks[i..], p);
    assert toks[i..][1..] == toks[i + 1..];
  }

  lemma HeadEnd(e: Env, t: string, p: nat)
    requires GroupsOk(e.text, e.groups) && Placed([], p, |t|)
    ensures p <= |t| && Head(e, t, [], p) == "" && TailAt([], p) == p
  {
  }

  // --- finding the matches ---

  /** regexec on the rest of the input, told whether that is not a line start: the ranges of
      the match and its groups, or none. */
  type Regex = (string, bool) -> Option<seq<Option<Group>>>

  ghost predicate RegexOk(re: Regex) {
    forall s, b :: re(s, b).Some? ==> re(s, b).value != [] && GroupsOk(s, re(s, b).value)
  }

  /** A compiled expression, and what its replacements refer to besides the match. */
  datatype Expr = Expr(re: Regex, text: string, toks: seq<Token>, all: bool, uri: Option<string>,
      pv: string -> Option<string>)

  ghost predicate ExprOk(x: Expr) {
    RegexOk(x.re) && Placed(x.toks, 0, |x.text|)
  }

  datatype Repl = Repl(offset: nat, size: nat, text: string)

  datatype Found = NoMatch | Failed | Match(so: nat, eo: nat, text: string) | TooLong

  /** One turn of subst_run at position p. */
  function FindAt(x: Expr, s: string, p: nat, notBol: bool): Found
    requires ExprOk(x) && p <= |s|
  {
    match x.re(s[p..], notBol)
    case None => NoMatch
    case Some(g) =>
      if g[0].None? || g[0].value.so == g[0].value.eo then Failed
      else
        var e := Env(s[p..], g, x.uri, x.pv);
        match Outcome(e, x.text, x.toks)
        case GaveUp => Failed
        case OverBuffer => TooLong
        case Built(text) => Match(g[0].value.so, g[0].value.eo, text)
  }

  lemma FindBounds(x: Expr, s: string, p: nat, notBol: bool)
    requires ExprOk(x) && p <= |s|
    ensures var f := FindAt(x, s, p, notBol); f.Match? ==> f.so < f.eo <= |s| - p
  {
  }

  predicate LineStart(c: char) {
    c == '\n' || c == '\r'
  }

  /** What subst_run comes to: the replacements, an error, or a replacement that left the
      buffer of replace_build. */
  datatype Ran = Done(rs: seq<Repl>) | Error | Overrun

  function Run(x: Expr, s: string, p: nat, notBol: bool): Ran
    requires ExprOk(x) && p <= |s|
    decreases |s| - p
  {
    FindBounds(x, s, p, notBol);
    match FindAt(x, s, p, notBol)
    case NoMatch => Done([])
    case Failed => Error
    case TooLong => Overrun
    case Match(so, eo, text) =>
      var r := Repl(p + so, eo - so, text);
      if x.all then Before([r], Run(x, s, p + eo, !LineStart(s[p + eo - 1]))) else Done([r])
  }

  function Before(rs: seq<Repl>, r: Ran): Ran {
    if r.Done? then Done(rs + r.rs) else r
  }

  /** Replacements in order, not overlapping, not empty, from position p on. */
  predicate Ordered(rs: seq<Repl>, p: nat, end: nat) {
    if rs == [] then p <= end
    else p <= rs[0].offset && rs[0].size > 0 && Ordered(rs[1..], rs[0].offset + rs[0].size, end)
  }

  lemma {:induction false} RunOrdered(x: Expr, s: string, p: nat, notBol: bool)
    requires ExprOk(x) && p <= |s|
    ensures Run(x, s, p, notBol).Done? ==> Ordered(Run(x, s, p, notBol).rs, p, |s|)
    decreases |s| - p
  {
    hide FindAt;
    FindBounds(x, s, p, notBol);
    var f := FindAt(x, s, p, notBol);
    if f.Match? {
      var r := Repl(p + f.so, f.eo - f.so, f.text);
      assert [r][1..] == [];
      if x.all {
        RunOrdered(x, s, p + f.eo, !LineStart(s[p + f.eo - 1]));
        var rest := Run(x, s, p + f.eo, !LineStart(s[p + f.eo - 1]));
        if rest.Done? {
          assert ([r] + rest.rs)[1..] == rest.rs;
        }
      }
    }
  }

  /** subst_run.  Each turn moves past a match that is not empty. */
  method SubstRun(x: Expr, s: string) returns (r: Ran)
    requires ExprOk(x)
    ensures r == Run(x, s, 0, false)
  {
    hide ExprOk, FindAt, Run, LineStart, Before;
    ghost var goal := Run(x, s, 0, false);
    var rs: seq<Repl> := [];
    var p, notBol := 0, false;
    BeforeEnds([], goal);
    while true
      invariant p <= |s|
      invariant goal == Before(rs, Run(x, s, p, notBol))
      decreases |s| - p
    {
      RunStep(x, s, p, notBol);
      var f := FindOnce(x, s, p, notBol);
      BeforeEnds(rs, Done([]));
      if f.Failed? {
        return Error;
      }
      if f.TooLong? {
        return Overrun;
      }
      if f.NoMatch? {
        return Done(rs);
      }
      ghost var one := Repl(p + f.so, f.eo - f.so, f.text);
      BeforeTwice(rs, one, if x.all then Run(x, s, p + f.eo, !LineStart(s[p + f.eo - 1])) else Done([]));
      BeforeEnds(rs + [one], Done([]));
      rs := rs + [Repl(p + f.so, f.eo - f.so, f.text)];
      p := p + f.eo;
      notBol := !LineStart(s[p - 1]);
      if !x.all {
        return Done(rs);
      }
    }
  }

  /** One turn of subst_run. */
  lemma RunStep(x: Expr, s: string, p: nat, notBol: bool)
    requires ExprOk(x) && p <= |s|
    ensures var f, r := FindAt(x, s, p, notBol), Run(x, s, p, notBol);
      match f
      case NoMatch => r == Done([])
      case Failed => r == Error
      case TooLong => r == Overrun
      case Match(so, eo, text) =>
        && so < eo <= |s| - p
        && r == Before([Repl(p + so, eo - so, text)],
                       if x.all then Run(x, s, p + eo, !LineStart(s[p + eo - 1])) else Done([]))
  {
    hide FindAt, ExprOk, LineStart;
    FindBounds(x, s, p, notBol);
  }

  lemma BeforeEnds(rs: seq<Repl>, r: Ran)
    ensures Before([], r) == r && Before(rs, Done([])) == Done(rs)
    ensures Before(rs, Error) == Error && Before(rs, Overrun) == Overrun
  {
    assert rs + [] == rs;
    if r.Done? { assert [] + r.rs == r.rs; }
  }

  lemma BeforeTwice(rs: seq<Repl>, one: Repl, r: Ran)
    ensures Before(rs, Before([one], r)) == Before(rs + [one], r)
  {
    if r.Done? { assert rs + ([one] + r.rs) == rs + [one] + r.rs; }
  }

  /** regexec, its checks, and replace_build. */
  method FindOnce(x: Expr, s: string, p: nat, notBol: bool) returns (f: Found)
    requires ExprOk(x) && p <= |s|
    ensures f == FindAt(x, s, p, notBol)
  {
    hide Head, Replay, Placed;
    var g := x.re(s[p..], notBol);
    if g.None? {
      return NoMatch;
    }
    if g.value[0].None? || g.value[0].value.so == g.value[0].value.eo {
      return Failed;
    }
    var r := ReplaceBuild(Env(s[p..], g.value, x.uri, x.pv), x.text, x.toks);
    match r
    case GaveUp => f := Failed;
    case OverBuffer => f := TooLong;
    case Built(text) => f := Match(g.value[0].value.so, g.value[0].value.eo, text);
  }

  // --- writing the result ---

  /** The input with the replacements put in, from position p on. */
  function Apply(s: string, rs: seq<Repl>, p: nat): string
    requires Ordered(rs, p, |s|)
  {
    if rs == [] then s[p..]
    else
      OrderedBounds(rs, p, |s|);
      s[p..rs[0].offset] + rs[0].text + Apply(s, rs[1..], rs[0].offset + rs[0].size)
  }

  lemma {:induction false} OrderedBounds(rs: seq<Repl>, p: nat, end: nat)
    requires Ordered(rs, p, end)
    ensures p <= end && (rs != [] ==> rs[0].offset + rs[0].size <= end)
  {
    if rs != [] { OrderedBounds(rs[1..], rs[0].offset + rs[0].size, end); }
  }

  /** What the length loop adds. */
  function Growth(rs: seq<Repl>): int {
    if rs == [] then 0 else Growth(rs[..|rs| - 1]) + |rs[|rs| - 1].text| - rs[|rs| - 1].size
  }

  lemma {:induction false} GrowthFront(rs: seq<Repl>)
    requires rs != []
    ensures Growth(rs) == |rs[0].text| - rs[0].size + Growth(rs[1..])
  {
    if |rs| > 1 {
      GrowthFront(rs[..|rs| - 1]);
      assert rs[..|rs| - 1][1..] == rs[1..][..|rs| - 2];
    }
  }

  lemma {:induction false} ApplyLength(s: string, rs: seq<Repl>, p: nat)
    requires Ordered(rs, p, |s|)
    ensures p <= |s| && |Apply(s, rs, p)| == |s| - p + Growth(rs)
  {
    OrderedBounds(rs, p, |s|);
    if rs != [] {
      ApplyLength(s, rs[1..], rs[0].offset + rs[0].size);
      GrowthFront(rs);
    }
  }

  /** subst_str: none on an error and on no match; else the buffer, of the length computed
      beforehand, holds the input with the replacements put in.  All this as long as every
      replacement fits the buffer of replace_build. */
  method SubstStr(x: Expr, s: string) returns (buf: array?<char>, len: int, count: int, fits: bool)
    requires ExprOk(x)
    ensures fits <==> !Run(x, s, 0, false).Overrun?
    ensures fits ==> (Run(x, s, 0, false).Error? <==> count == -1) && (buf == null <==> count <= 0)
    ensures fits && count >= 0 ==> count == |Run(x, s, 0, false).rs|
    ensures fits && count > 0 ==> Ordered(Run(x, s, 0, false).rs, 0, |s|) && buf.Length == len + 1 && len >= 0
    ensures fits && count > 0 ==> buf[..len] == Apply(s, Run(x, s, 0, false).rs, 0) && buf[len] == '\0'
  {
    hide ExprOk, Run, Apply, Growth, Ordered;
    RunOrdered(x, s, 0, false);
    var r := SubstRun(x, s);
    if !r.Done? || r.rs == [] {
      return null, 0, if r.Done? then 0 else -1, !r.Overrun?;
    }
    var rs := r.rs;
    len := ResultLength(s, rs);
    ApplyLength(s, rs, 0);
    var out := new char[len + 1];
    WriteResult(s, rs, out, len);
    out[len] := '\0';
    assert out[..len] == Apply(s, rs, 0);
    buf, count, fits := out, |rs|, true;
  }

  method ResultLength(s: string, rs: seq<Repl>) returns (len: int)
    ensures len == |s| + Growth(rs)
  {
    len := |s|;
    var i := 0;
    while i < |rs|
      invariant i <= |rs| && len == |s| + Growth(rs[..i])
    {
      assert rs[..i + 1][..i] == rs[..i];
      len := len + |rs[i].text| - rs[i].size;
      i := i + 1;
    }
    assert rs[..i] == rs;
  }

  /** The copying loop of subst_str fills the buffer to exactly len. */
  method WriteResult(s: string, rs: seq<Repl>, buf: array<char>, len: nat)
    requires Ordered(rs, 0, |s|) && len == |Apply(s, rs, 0)| && buf.Length == len + 1
    modifies buf
    ensures buf[..len] == Apply(s, rs, 0)
  {
    hide Apply, Ordered;
    ghost var goal, done := Apply(s, rs, 0), "";
    var dest, i := 0, 0;
    var p: nat := 0;
    assert rs[0..] == rs;
    while i < |rs|
      invariant i <= |rs| && Ordered(rs[i..], p, |s|)
      invariant dest == |done| && done + Apply(s, rs[i..], p) == goal
      invariant buf[..dest] == done
    {
      ApplyStep(s, rs, i, p);
      ghost var rest := Apply(s, rs[i + 1..], rs[i].offset + rs[i].size);
      ghost var lead := s[p..rs[i].offset];
      assert done + (lead + rs[i].text + rest) == done + lead + rs[i].text + rest;
      CopyPiece(buf, dest, s[p..rs[i].offset], rs[i].text);
      dest := dest + (rs[i].offset - p) + |rs[i].text|;
      p := rs[i].offset + rs[i].size;
      done := done + lead + rs[i].text;
      i := i + 1;
    }
    assert rs[i..] == [];
    ApplyEnd(s, p);
    CopyInto(buf, dest, s[p..]);
  }

  /** The two copies of one turn. */
  method CopyPiece(buf: array<char>, at: nat, a: string, b: string)
    requires at + |a| + |b| <= buf.Length
    modifies buf
    ensures buf[..at + |a| + |b|] == old(buf[..at]) + a + b
  {
    CopyInto(buf, at, a);
    CopyInto(buf, at + |a|, b);
  }

  lemma ApplyStep(s: string, rs: seq<Repl>, i: nat, p: nat)
    requires i < |rs| && Ordered(rs[i..], p, |s|)
    ensures var q := rs[i].offset + rs[i].size;
      && p <= rs[i].offset <= q <= |s| && Ordered(rs[i + 1..], q, |s|)
      && Apply(s, rs[i..], p) == s[p..rs[i].offset] + rs[i].text + Apply(s, rs[i + 1..], q)
  {
    OrderedBounds(rs[i..], p, |s|);
    assert rs[i..][1..] == rs[i + 1..];
  }

  lemma ApplyEnd(s: string, p: nat)
    requires Ordered([], p, |s|)
    ensures p <= |s| && Apply(s, [], p) == s[p..]
  {
  }

  // --- the whole substitution, read directly ---

  /** A substitution as written: expression, replacement text with its separator, flag g. */
  datatype Source = Source(re: Regex, spec: SpecParser, text: string, sep: Option<char>, all: bool,
                           uri: Option<string>, pv: string -> Option<string>)

  /** The match to replace, if there is one that is not empty. */
  function Hit(z: Source, s: string, p: nat, notBol: bool): (r: Option<Group>)
    requires RegexOk(z.re) && p <= |s|
    ensures r.Some? ==>
      var m := z.re(s[p..], notBol);
      && m.Some? && GroupsOk(s[p..], m.value) && m.value != [] && m.value[0] == r
      && r.value.so < r.value.eo <= |s| - p
  {
    var m := z.re(s[p..], notBol);
    if m.Some? && m.value[0].Some? && m.value[0].value.so < m.value[0].value.eo then m.value[0] else None
  }

  /** The replacement text read directly for the match at hand. */
  function HitText(z: Source, s: string, p: nat, notBol: bool): string
    requires RegexOk(z.re) && SpecOk(z.spec) && p <= |s| && Hit(z, s, p, notBol).Some?
  {
    Expand(z.spec, Env(s[p..], z.re(s[p..], notBol).value, z.uri, z.pv), z.text, 0, z.sep)
  }

  /** Every match, in order, replaced. */
  function Substituted(z: Source, s: string, p: nat, notBol: bool): string
    requires RegexOk(z.re) && SpecOk(z.spec) && p <= |s|
    decreases |s| - p
  {
    var h := Hit(z, s, p, notBol);
    if h.None? then s[p..]
    else
      var q := p + h.value.eo;
      s[p..p + h.value.so] + HitText(z, s, p, notBol)
      + (if z.all then Substituted(z, s, q, !LineStart(s[q - 1])) else s[q..])
  }

  /** The expression compiled from a source. */
  ghost predicate CompiledFrom(x: Expr, z: Source) {
    && RegexOk(z.re) && SpecOk(z.spec) && x.re == z.re && x.all == z.all && x.uri == z.uri && x.pv == z.pv
    && var c := Compile(z.spec, z.text, 0, z.sep, 0);
       c.Table? && c.end <= |z.text| && x.toks == c.toks && x.text == z.text[..c.end]
  }

  lemma CompiledOk(x: Expr, z: Source)
    requires CompiledFrom(x, z)
    ensures ExprOk(x)
  {
    CompilePlaced(z.spec, z.text, 0, z.sep, 0);
  }

  /** Every replacement reached, read directly, is no longer than the buffer. */
  predicate AllFit(z: Source, s: string, p: nat, notBol: bool)
    requires RegexOk(z.re) && SpecOk(z.spec) && p <= |s|
    decreases |s| - p
  {
    var h := Hit(z, s, p, notBol);
    h.Some? ==>
      && |HitText(z, s, p, notBol)| <= BUFFER_SIZE
      && (z.all ==> AllFit(z, s, p + h.value.eo, !LineStart(s[p + h.value.eo - 1])))
  }

  /** The match at hand is an error: it is empty or without a place, or its text in front of the
      last plain characters leaves no room in the buffer. */
  predicate FailsHere(z: Source, s: string, p: nat, notBol: bool)
    requires RegexOk(z.re) && SpecOk(z.spec) && p <= |s|
  {
    && z.re(s[p..], notBol).Some?
    && (Hit(z, s, p, notBol).Some? ==>
          |HitText(z, s, p, notBol)| - PlainTail(z.spec, z.text, 0, z.sep, 0) >= BUFFER_SIZE - 1)
  }

  /** One of the matches reached is an error. */
  predicate Fails(z: Source, s: string, p: nat, notBol: bool)
    requires RegexOk(z.re) && SpecOk(z.spec) && p <= |s|
    decreases |s| - p
  {
    var h := Hit(z, s, p, notBol);
    || FailsHere(z, s, p, notBol)
    || (h.Some? && |HitText(z, s, p, notBol)| <= BUFFER_SIZE && z.all
        && Fails(z, s, p + h.value.eo, !LineStart(s[p + h.value.eo - 1])))
  }

  /** subst_run reports an error if and only if a match it reaches is one.  Otherwise it stays
      inside its buffer if and only if every replacement is no longer than the buffer; and then
      what subst_str writes is the input with every match replaced as the source of the
      expression says. */
  lemma {:induction false} SubstitutionIsRight(x: Expr, z: Source, s: string, p: nat, notBol: bool)
    requires CompiledFrom(x, z) && ExprOk(x) && p <= |s|
    ensures RegexOk(z.re) && SpecOk(z.spec)
    ensures Run(x, s, p, notBol).Error? <==> Fails(z, s, p, notBol)
    ensures !Fails(z, s, p, notBol) ==> (Run(x, s, p, notBol).Done? <==> AllFit(z, s, p, notBol))
    ensures !Fails(z, s, p, notBol) && AllFit(z, s, p, notBol) ==>
      && Ordered(Run(x, s, p, notBol).rs, p, |s|)
      && Apply(s, Run(x, s, p, notBol).rs, p) == Substituted(z, s, p, notBol)
    decreases |s| - p
  {
    hide CompiledFrom, ExprOk, RegexOk, SpecOk, HitText, FindAt, Hit, Apply, Ordered, GroupsOk, Run,
      Substituted, LineStart, AllFit, Fails, FailsHere;
    CompiledSame(x, z);
    RunOrdered(x, s, p, notBol);
    FindReads(x, z, s, p, notBol);
    RunUnfold(x, s, p, notBol);
    AllFitUnfold(z, s, p, notBol);
    FailsUnfold(z, s, p, notBol);
    var f := FindAt(x, s, p, notBol);
    if f.Match? {
      var q := p + f.eo;
      if x.all {
        SubstitutionIsRight(x, z, s, q, !LineStart(s[q - 1]));
        SubstitutedMore(z, s, p, notBol, Group(f.so, f.eo));
      } else {
        SubstitutedOne(z, s, p, notBol, Group(f.so, f.eo));
        ApplyEnd(s, q);
      }
      if Run(x, s, p, notBol).Done? { ApplyFirst(s, Run(x, s, p, notBol).rs, p); }
    } else if f.NoMatch? {
      SubstitutedNone(z, s, p, notBol);
      ApplyEnd(s, p);
    }
  }

  lemma FailsUnfold(z: Source, s: string, p: nat, notBol: bool)
    requires RegexOk(z.re) && SpecOk(z.spec) && p <= |s|
    ensures var h := Hit(z, s, p, notBol);
      Fails(z, s, p, notBol) <==>
        || FailsHere(z, s, p, notBol)
        || (h.Some? && |HitText(z, s, p, notBol)| <= BUFFER_SIZE && z.all
            && Fails(z, s, p + h.value.eo, !LineStart(s[p + h.value.eo - 1])))
  {
    hide RegexOk, SpecOk, GroupsOk, Hit, HitText, LineStart, FailsHere;
  }

  lemma AllFitUnfold(z: Source, s: string, p: nat, notBol: bool)
    requires RegexOk(z.re) && SpecOk(z.spec) && p <= |s|
    ensures var h := Hit(z, s, p, notBol);
      AllFit(z, s, p, notBol) <==>
        h.Some? ==>
          && |HitText(z, s, p, notBol)| <= BUFFER_SIZE
          && (z.all ==> AllFit(z, s, p + h.value.eo, !LineStart(s[p + h.value.eo - 1])))
  {
    hide RegexOk, SpecOk, GroupsOk, Hit, HitText, LineStart;
  }

  lemma CompiledSame(x: Expr, z: Source)
    requires CompiledFrom(x, z)
    ensures RegexOk(z.re) && SpecOk(z.spec) && x.all == z.all
  {
  }

  lemma RunUnfold(x: Expr, s: string, p: nat, notBol: bool)
    requires ExprOk(x) && p <= |s|
    ensures var f, r := FindAt(x, s, p, notBol), Run(x, s, p, notBol);
      && (f.Failed? ==> r == Error) && (f.NoMatch? ==> r == Done([])) && (f.TooLong? ==> r == Overrun)
      && (f.Match? ==>
            && f.so < f.eo && p + f.eo <= |s|
            && (r.Done? ==> r.rs != [] && r.rs[0] == Repl(p + f.so, f.eo - f.so, f.text))
            && (!x.all ==> r.Done? && r.rs[1..] == [])
            && (x.all ==>
                  var rest := Run(x, s, p + f.eo, !LineStart(s[p + f.eo - 1]));
                  && (rest.Error? <==> r.Error?) && (rest.Done? <==> r.Done?)
                  && (r.Done? ==> r.rs[1..] == rest.rs)))
  {
    hide FindAt, ExprOk, LineStart, Run;
    RunStep(x, s, p, notBol);
  }

  lemma SubstitutedNone(z: Source, s: string, p: nat, notBol: bool)
    requires RegexOk(z.re) && SpecOk(z.spec) && p <= |s| && Hit(z, s, p, notBol).None?
    ensures Substituted(z, s, p, notBol) == s[p..]
  {
  }

  lemma SubstitutedOne(z: Source, s: string, p: nat, notBol: bool, g: Group)
    requires RegexOk(z.re) && SpecOk(z.spec) && p <= |s| && Hit(z, s, p, notBol) == Some(g) && !z.all
    ensures Substituted(z, s, p, notBol) == s[p..p + g.so] + HitText(z, s, p, notBol) + s[p + g.eo..]
  {
  }

  lemma SubstitutedMore(z: Source, s: string, p: nat, notBol: bool, g: Group)
    requires RegexOk(z.re) && SpecOk(z.spec) && p <= |s| && Hit(z, s, p, notBol) == Some(g) && z.all
    ensures Substituted(z, s, p, notBol)
         == s[p..p + g.so] + HitText(z, s, p, notBol) + Substituted(z, s, p + g.eo, !LineStart(s[p + g.eo - 1]))
  {
    hide RegexOk, SpecOk, GroupsOk, Hit, HitText, LineStart;
  }

  lemma ApplyFirst(s: string, rs: seq<Repl>, p: nat)
    requires rs != [] && Ordered(rs, p, |s|)
    ensures var q := rs[0].offset + rs[0].size;
      && p <= rs[0].offset <= q <= |s| && Ordered(rs[1..], q, |s|)
      && Apply(s, rs, p) == s[p..rs[0].offset] + rs[0].text + Apply(s, rs[1..], q)
  {
    assert rs[0..] == rs;
    ApplyStep(s, rs, 0, p);
  }

  /** A match found by the program, in terms of the source. */
  lemma FindReads(x: Expr, z: Source, s: string, p: nat, notBol: bool)
    requires CompiledFrom(x, z) && ExprOk(x) && p <= |s|
    ensures var f, h := FindAt(x, s, p, notBol), Hit(z, s, p, notBol);
      && (f.NoMatch? ==> h.None?)
      && (f.Failed? <==> FailsHere(z, s, p, notBol))
      && (f.TooLong? ==> h.Some? && |HitText(z, s, p, notBol)| > BUFFER_SIZE)
      && (f.Match? ==>
            && h == Some(Group(f.so, f.eo)) && f.text == HitText(z, s, p, notBol)
            && |HitText(z, s, p, notBol)| <= BUFFER_SIZE)
  {
    hide Expand, Head, Compile, KindText, Placed, PlainTail, TailAt;
    var m := z.re(s[p..], notBol);
    if m.Some? {
      ReplayExpands(z.spec, Env(s[p..], m.value, z.uri, z.pv), z.text, 0, z.sep, 0);
      PlacedBounds(x.toks, 0, |x.text|);
      TailIsPlain(z.spec, z.text, 0, z.sep, 0, 0);
    }
  }
}
