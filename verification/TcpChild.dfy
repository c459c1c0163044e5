/**
  A TCP reader process: connections handed over by the main process, kept in a list and
  watched for input, and handed back exactly once.
*/
module TcpChild {
  import opened Words
  import opened IoWait

  const CONN_ERROR := -2
  const CONN_RELEASE := 0
  const CHILD_TIMEOUT := 5

  datatype Con = Con(fd: int, timeout: u32, bad: bool)

  /** A message to the main process, with the descriptor closed when it was sent. */
  datatype Msg = Msg(con: nat, state: int, closed: int)

  /** What receive_fd brings: nothing, no bytes or a null pointer, or a connection with its
      descriptor (-1 for none), whose state may already be bad; `flagsSet` is the outcome of
      making it non-blocking. */
  datatype Event = Again | Empty | Got(con: nat, s: int, bad: bool, flagsSet: bool)

  /** List, hash and connection records describe one set of connections. */
  predicate Owned(hash: seq<FdMap>, list: seq<nat>, cons: map<nat, Con>, mainFd: nat) {
    && Distinct(list)
    && (forall c :: c in list ==> c in cons && 0 <= cons[c].fd < |hash| && hash[cons[c].fd] == TcpConn(c))
    && (forall fd :: 0 <= fd < |hash| && hash[fd].TcpConn? ==>
          hash[fd].con in list && hash[fd].con in cons && cons[hash[fd].con].fd == fd)
    && mainFd < |hash| && hash[mainFd] == TcpMain
    && (forall fd :: 0 <= fd < |hash| && hash[fd] == TcpMain ==> fd == mainFd)
  }

  lemma AddOwned(hash: seq<FdMap>, list: seq<nat>, cons: map<nat, Con>, mainFd: nat, c: nat, con: Con)
    requires Owned(hash, list, cons, mainFd) && c !in list
    requires 0 <= con.fd < |hash| && hash[con.fd] == NoFd
    ensures Owned(hash[con.fd := TcpConn(c)], [c] + list, cons[c := con], mainFd)
  {
  }

  /** The record of a connection outside the list does not matter, and of one in the list
      only its descriptor does. */
  lemma RecordOwned(hash: seq<FdMap>, list: seq<nat>, cons: map<nat, Con>, mainFd: nat, c: nat, con: Con)
    requires Owned(hash, list, cons, mainFd) && (c in list ==> con.fd == cons[c].fd)
    ensures Owned(hash, list, cons[c := con], mainFd)
  {
  }

  /** A listed connection cannot lose its descriptor. */
  lemma OverwrittenNotOwned(hash: seq<FdMap>, list: seq<nat>, cons: map<nat, Con>, mainFd: nat, c: nat)
    requires c in list && c in cons && (0 <= cons[c].fd < |hash| ==> hash[cons[c].fd] == NoFd)
    ensures !Owned(hash, list, cons, mainFd)
  {
  }

  lemma DelOwned(hash: seq<FdMap>, list: seq<nat>, cons: map<nat, Con>, mainFd: nat, k: nat)
    requires Owned(hash, list, cons, mainFd) && k < |list|
    ensures Owned(hash[cons[list[k]].fd := NoFd], Without(list, k), cons, mainFd)
  {
  }

  // --- the list macros ---

  /** The nodes from `head` on, following `next`, are exactly `l`. */
  predicate Chain(next: map<nat, Option<nat>>, head: Option<nat>, l: seq<nat>)
    decreases |l|
  {
    match head
    case None => l == []
    case Some(c) => l != [] && l[0] == c && c in next && Chain(next, next[c], l[1..])
  }

  /** Following `next` from `head` on comes to an end. */
  ghost predicate Ends(next: map<nat, Option<nat>>, head: Option<nat>) {
    exists m :: Chain(next, head, m)
  }

  /** tcpconn_listadd of a connection gives the list with it in front if it was not listed; if
      it was, following the pointers never comes to an end. */
  lemma ListAddExactly(next: map<nat, Option<nat>>, head: Option<nat>, l: seq<nat>, c: nat)
    requires Chain(next, head, l)
    ensures c !in l ==> Chain(next[c := head], Some(c), [c] + l)
    ensures Ends(next[c := head], Some(c)) <==> c !in l
  {
    if c !in l {
      ChainElsewhere(next, next[c := head], head, l, c);
      assert ([c] + l)[1..] == l;
      assert Chain(next[c := head], Some(c), [c] + l);
    } else if Ends(next[c := head], Some(c)) {
      var m :| Chain(next[c := head], Some(c), m);
      NeverEnds(next, head, l, c, m);
    }
  }

  /** However the list l is linked, adding c to it with tcpconn_listadd leaves it without an end. */
  ghost predicate ClosesUp(l: seq<nat>, c: nat) {
    forall next, head :: Chain(next, head, l) ==> !Ends(next[c := head], Some(c))
  }

  lemma AddedTwice(l: seq<nat>, c: nat)
    requires c in l
    ensures ClosesUp(l, c)
  {
    hide Chain, Ends;
    forall next, head | Chain(next, head, l)
      ensures !Ends(next[c := head], Some(c))
    {
      ListAddExactly(next, head, l, c);
    }
  }

  lemma {:induction false} ChainElsewhere(next: map<nat, Option<nat>>, next': map<nat, Option<nat>>, head: Option<nat>,
                                          l: seq<nat>, c: nat)
    requires Chain(next, head, l) && c !in l && forall x :: x in next && x != c ==> x in next' && next'[x] == next[x]
    ensures Chain(next', head, l)
    decreases |l|
  {
    if head.Some? { ChainElsewhere(next, next', next[head.value], l[1..], c); }
  }

  lemma {:induction false} NeverEnds(next: map<nat, Option<nat>>, head: Option<nat>, l: seq<nat>, c: nat, m: seq<nat>)
    requires Chain(next, head, l) && c in l && Chain(next[c := head], Some(c), m)
    ensures false
    decreases |m|
  {
    var m' := BackToStart(next, next[c := head], head, l, c, m[1..]);
    NeverEnds(next, head, l, c, m');
  }

  /** Following a list that holds c, with only the pointer of c changed, leads to c. */
  lemma {:induction false} BackToStart(next: map<nat, Option<nat>>, next': map<nat, Option<nat>>, head: Option<nat>,
                                       l: seq<nat>, c: nat, m: seq<nat>)
    returns (m': seq<nat>)
    requires Chain(next, head, l) && c in l && Chain(next', head, m)
    requires forall x :: x in next && x != c ==> x in next' && next'[x] == next[x]
    ensures |m'| <= |m| && Chain(next', Some(c), m')
    decreases |l|
  {
    if l[0] == c {
      m' := m;
    } else {
      m' := BackToStart(next, next', next[l[0]], l[1..], c, m[1..]);
    }
  }

  // --- one round of poll() ---

  /** A read on this descriptor fails. */
  predicate Fails(fd: int, resp: int -> int, mainFd: nat) {
    fd != mainFd && resp(fd) < 0
  }

  /** Entries marked by poll(). */
  function Marked(ps: seq<PollFd>): nat {
    if ps == [] then 0 else (if ps[0].ready then 1 else 0) + Marked(ps[1..])
  }

  /** The descriptors a round handles, in order: a marked entry whose read fails is taken out of
      the array under the loop, so the entry behind it is passed over. */
  function Handled(ps: seq<PollFd>, resp: int -> int, mainFd: nat): seq<int> {
    if ps == [] then []
    else if !ps[0].ready then Handled(ps[1..], resp, mainFd)
    else [ps[0].fd] + Handled(ps[if Fails(ps[0].fd, resp, mainFd) && |ps| > 1 then 2 else 1..], resp, mainFd)
  }

  predicate AllHandled(ps: seq<PollFd>, handled: seq<int>) {
    forall i :: 0 <= i < |ps| && ps[i].ready ==> ps[i].fd in handled
  }

  /** No marked entry stands directly behind a marked one whose read fails. */
  predicate NoneShadowed(ps: seq<PollFd>, resp: int -> int, mainFd: nat) {
    forall j :: 0 <= j < |ps| - 1 && ps[j].ready && Fails(ps[j].fd, resp, mainFd) ==> !ps[j + 1].ready
  }

  lemma {:induction false} NotHandled(ps: seq<PollFd>, resp: int -> int, mainFd: nat, fd: int)
    requires forall i :: 0 <= i < |ps| ==> ps[i].fd != fd
    ensures fd !in Handled(ps, resp, mainFd)
  {
    hide Fails;
    if ps != [] {
      NotHandled(ps[1..], resp, mainFd, fd);
      if |ps| > 1 { NotHandled(ps[2..], resp, mainFd, fd); }
    }
  }

  /** Every marked entry is handled in its round if and only if none of them stands directly
      behind a marked one whose read fails. */
  lemma {:induction false} AllHandledExactly(ps: seq<PollFd>, resp: int -> int, mainFd: nat)
    requires Distinct(Fds(ps))
    ensures AllHandled(ps, Handled(ps, resp, mainFd)) <==> NoneShadowed(ps, resp, mainFd)
    decreases |ps|
  {
    hide Fails;
    if ps != [] {
      var fails := ps[0].ready && Fails(ps[0].fd, resp, mainFd) && |ps| > 1;
      if fails && ps[1].ready {
        Shadowed(ps, resp, mainFd);
      } else {
        var k := if fails then 2 else 1;
        FdsSuffix(ps, k);
        AllHandledExactly(ps[k..], resp, mainFd);
        HandledSuffix(ps, k, Handled(ps[k..], resp, mainFd));
        ShadowedSuffix(ps, k, resp, mainFd);
      }
    }
  }

  lemma FdsSuffix(ps: seq<PollFd>, k: nat)
    requires k <= |ps| && Distinct(Fds(ps))
    ensures Distinct(Fds(ps[k..]))
  {
    assert forall i :: 0 <= i < |ps| - k ==> Fds(ps[k..])[i] == Fds(ps)[k + i];
  }

  lemma Shadowed(ps: seq<PollFd>, resp: int -> int, mainFd: nat)
    requires Distinct(Fds(ps)) && |ps| > 1 && ps[0].ready && ps[1].ready && Fails(ps[0].fd, resp, mainFd)
    ensures !AllHandled(ps, Handled(ps, resp, mainFd)) && !NoneShadowed(ps, resp, mainFd)
  {
    assert Fds(ps)[0] != Fds(ps)[1] && forall i :: 2 <= i < |ps| ==> Fds(ps)[1] != Fds(ps)[i];
    NotHandled(ps[2..], resp, mainFd, ps[1].fd);
  }

  lemma HandledSuffix(ps: seq<PollFd>, k: nat, h: seq<int>)
    requires Distinct(Fds(ps)) && ps != [] && (k == 1 || (k == 2 && |ps| > 1 && !ps[1].ready))
    ensures ps[0].ready ==> (AllHandled(ps, [ps[0].fd] + h) <==> AllHandled(ps[k..], h))
    ensures !ps[0].ready ==> (AllHandled(ps, h) <==> AllHandled(ps[k..], h))
  {
    assert forall i :: 0 <= i < |ps| - k ==> ps[k..][i] == ps[k + i];
    assert forall i :: k <= i < |ps| ==> ps[i] == ps[k..][i - k];
    assert forall i :: 0 < i < |ps| ==> Fds(ps)[0] != Fds(ps)[i];
  }

  lemma ShadowedSuffix(ps: seq<PollFd>, k: nat, resp: int -> int, mainFd: nat)
    requires ps != [] && k <= |ps|
    requires k == 1 ==> !(ps[0].ready && Fails(ps[0].fd, resp, mainFd) && |ps| > 1)
    requires k == 1 || (k == 2 && !ps[1].ready)
    ensures NoneShadowed(ps, resp, mainFd) <==> NoneShadowed(ps[k..], resp, mainFd)
  {
    hide Fails;
    assert forall i :: 0 <= i < |ps| - k ==> ps[k..][i] == ps[k + i];
    assert forall i :: k <= i < |ps| ==> ps[i] == ps[k..][i - k];
  }

  /** Two ready connections next to each other: if the first read fails, the second waits. */
  lemma SecondWaits(a: int, b: int, resp: int -> int, mainFd: nat)
    requires a != b && Fails(a, resp, mainFd)
    ensures Handled([PollFd(a, true), PollFd(b, true)], resp, mainFd) == [a]
  {
    assert [PollFd(a, true), PollFd(b, true)][2..] == [];
  }

  /** An entry added behind, which poll() has not marked, is not handled. */
  lemma {:induction false} HandledWithNew(ps: seq<PollFd>, x: PollFd, resp: int -> int, mainFd: nat)
    requires !x.ready
    ensures Handled(ps + [x], resp, mainFd) == Handled(ps, resp, mainFd) && Marked(ps + [x]) == Marked(ps)
  {
    hide Fails;
    if ps != [] {
      assert (ps + [x])[1..] == ps[1..] + [x];
      HandledWithNew(ps[1..], x, resp, mainFd);
      if |ps| > 1 {
        assert (ps + [x])[2..] == ps[2..] + [x];
        HandledWithNew(ps[2..], x, resp, mainFd);
      } else {
        assert (ps + [x])[2..] == [];
      }
    }
  }

  lemma {:induction false} NothingMarked(ps: seq<PollFd>, resp: int -> int, mainFd: nat)
    requires Marked(ps) == 0
    ensures Handled(ps, resp, mainFd) == []
  {
    if ps != [] { NothingMarked(ps[1..], resp, mainFd); }
  }

  /** What the main socket makes the process send. */
  function MainMsgs(ev: Event): seq<Msg> {
    if ev.Got? && (ev.s == -1 || !ev.flagsSet) then [Msg(ev.con, CONN_ERROR, ev.s)] else []
  }

  /** What a round makes the process send: an answer for each failed read, in order. */
  function RoundMsgs(hash: seq<FdMap>, handled: seq<int>, resp: int -> int, ev: Event, mainFd: nat): seq<Msg> {
    if handled == [] then []
    else
      var fd := handled[|handled| - 1];
      RoundMsgs(hash, handled[..|handled| - 1], resp, ev, mainFd)
      + if fd == mainFd then MainMsgs(ev)
        else if resp(fd) < 0 && 0 <= fd < |hash| && hash[fd].TcpConn? then [Msg(hash[fd].con, resp(fd), fd)]
        else []
  }

  lemma RoundMsgsSnoc(hash: seq<FdMap>, handled: seq<int>, fd: int, resp: int -> int, ev: Event, mainFd: nat)
    ensures RoundMsgs(hash, handled + [fd], resp, ev, mainFd) ==
      RoundMsgs(hash, handled, resp, ev, mainFd)
      + if fd == mainFd then MainMsgs(ev)
        else if resp(fd) < 0 && 0 <= fd < |hash| && hash[fd].TcpConn? then [Msg(hash[fd].con, resp(fd), fd)]
        else []
  {
    assert (handled + [fd])[..|handled|] == handled;
  }

  /** Hash, list, records and messages at some moment. */
  datatype Snapshot = Snapshot(hash: seq<FdMap>, list: seq<nat>, cons: map<nat, Con>, sent: seq<Msg>)

  /** What has become of the connections of `a` once `handled` are done: gone exactly if a read
      failed, their timeout moved exactly if a read succeeded, all else as it was. */
  predicate Progress(a: Snapshot, b: Snapshot, handled: seq<int>, resp: int -> int, ev: Event, mainFd: nat,
      until: u32) {
    && |b.hash| == |a.hash|
    && (forall fd :: 0 <= fd < |a.hash| && a.hash[fd].TcpConn? ==>
          b.hash[fd] == if fd in handled && resp(fd) < 0 then NoFd else a.hash[fd])
    && (forall c :: c in a.list ==>
          c in a.cons && (c in b.list <==> !(a.cons[c].fd in handled && resp(a.cons[c].fd) < 0)))
    && (forall c :: c in a.list && c in b.list ==>
          c in b.cons && b.cons[c] == if a.cons[c].fd in handled then a.cons[c].(timeout := until) else a.cons[c])
    && b.sent == a.sent + RoundMsgs(a.hash, handled, resp, ev, mainFd)
  }

  lemma NoProgress(a: Snapshot, resp: int -> int, ev: Event, mainFd: nat, until: u32)
    requires forall c :: c in a.list ==> c in a.cons
    ensures Progress(a, a, [], resp, ev, mainFd, until)
  {
  }

  /** A read on the descriptor of c. */
  lemma ProgressRead(a: Snapshot, b: Snapshot, b': Snapshot, handled: seq<int>, fd: int, c: nat,
                     resp: int -> int, ev: Event, mainFd: nat, until: u32)
    requires Owned(a.hash, a.list, a.cons, mainFd) && Progress(a, b, handled, resp, ev, mainFd, until)
    requires 0 <= fd < |a.hash| && a.hash[fd] == TcpConn(c) && fd !in handled
    requires if resp(fd) < 0 then
        && b'.hash == b.hash[fd := NoFd] && b'.sent == b.sent + [Msg(c, resp(fd), fd)]
        && (forall d :: d in b'.list <==> d in b.list && d != c)
        && (forall d :: d in b.cons && d != c ==> d in b'.cons && b'.cons[d] == b.cons[d])
      else
        && b'.hash == b.hash && b'.sent == b.sent && b'.list == b.list
        && c in b.cons && b'.cons == b.cons[c := b.cons[c].(timeout := until)]
    ensures Progress(a, b', handled + [fd], resp, ev, mainFd, until)
  {
    hide RoundMsgs;
    RoundMsgsSnoc(a.hash, handled, fd, resp, ev, mainFd);
    assert fd != mainFd;
    var h := handled + [fd];
    assert forall x :: x in h <==> x in handled || x == fd;
    assert forall d :: d in a.list && a.cons[d].fd == fd ==> d == c;
  }

  /** What handling the main socket changes, if no listed connection comes again. */
  predicate Took(a: Snapshot, b: Snapshot, ev: Event, until: u32) {
    if !ev.Got? then b == a
    else
      && b.sent == a.sent + MainMsgs(ev)
      && (forall d :: d in a.cons && d != ev.con ==> d in b.cons && b.cons[d] == a.cons[d])
      && if MainMsgs(ev) != [] then b.hash == a.hash && b.list == a.list
         else
           && 0 <= ev.s < |a.hash| && b.hash == a.hash[ev.s := TcpConn(ev.con)] && b.list == [ev.con] + a.list
           && ev.con in b.cons && b.cons[ev.con] == Con(ev.s, until, ev.bad)
  }

  lemma TookError(a: Snapshot, b: Snapshot, ev: Event, until: u32)
    requires ev.Got? && (ev.s == -1 || !ev.flagsSet) && b.hash == a.hash && b.list == a.list && ev.con in b.cons
    requires b.sent == a.sent + [Msg(ev.con, CONN_ERROR, ev.s)] && b.cons == a.cons[ev.con := b.cons[ev.con]]
    ensures Took(a, b, ev, until)
  {
  }

  lemma TookNew(a: Snapshot, b: Snapshot, ev: Event, until: u32)
    requires ev.Got? && ev.s != -1 && ev.flagsSet && 0 <= ev.s < |a.hash|
    requires b.hash == a.hash[ev.s := TcpConn(ev.con)] && b.list == [ev.con] + a.list && b.sent == a.sent
    requires b.cons == a.cons[ev.con := Con(ev.s, until, ev.bad)]
    ensures Took(a, b, ev, until)
  {
    assert a.sent + [] == a.sent;
  }

  /** The main socket. */
  lemma ProgressMain(a: Snapshot, b: Snapshot, b': Snapshot, handled: seq<int>,
                     resp: int -> int, ev: Event, mainFd: nat, until: u32)
    requires Owned(a.hash, a.list, a.cons, mainFd) && Progress(a, b, handled, resp, ev, mainFd, until)
    requires Took(b, b', ev, until)
    requires ev.Got? ==> ev.con !in a.list && (0 <= ev.s < |a.hash| ==> !a.hash[ev.s].TcpConn?)
    ensures Progress(a, b', handled + [mainFd], resp, ev, mainFd, until)
  {
    hide RoundMsgs;
    RoundMsgsSnoc(a.hash, handled, mainFd, resp, ev, mainFd);
    var h := handled + [mainFd];
    assert forall x :: x in h <==> x in handled || x == mainFd;
    assert forall d :: d in a.list ==> a.cons[d].fd != mainFd;
    assert b.sent + [] == b.sent;
  }

  /** Marked entries still to come are of this round and have not been handled. */
  predicate Pending(ps: seq<PollFd>, rest: seq<PollFd>, handled: seq<int>) {
    forall x :: x in rest && x.ready ==> x in ps && x.fd !in handled
  }

  /** How many entries of the array a turn passes over. */
  function Passed(rest: seq<PollFd>, resp: int -> int, mainFd: nat): nat
    requires rest != []
  {
    if rest[0].ready && Fails(rest[0].fd, resp, mainFd) && |rest| > 1 then 2 else 1
  }

  lemma TurnHandles(rest: seq<PollFd>, resp: int -> int, mainFd: nat)
    requires rest != []
    ensures var k := Passed(rest, resp, mainFd);
      && Handled(rest, resp, mainFd) == (if rest[0].ready then [rest[0].fd] else []) + Handled(rest[k..], resp, mainFd)
      && Marked(rest) >= (if rest[0].ready then 1 else 0) + Marked(rest[k..])
  {
    hide Fails;
    var k := Passed(rest, resp, mainFd);
    if k == 2 { assert rest[1..][1..] == rest[2..]; }
  }

  lemma TurnPending(ps: seq<PollFd>, rest: seq<PollFd>, handled: seq<int>, k: nat)
    requires rest != [] && 1 <= k <= |rest| && Distinct(Fds(rest)) && Pending(ps, rest, handled)
    ensures Pending(ps, rest[k..], handled) && Pending(ps, rest[k..], handled + [rest[0].fd])
  {
    forall x | x in rest[k..] && x.ready
      ensures x in ps && x.fd !in handled && x.fd != rest[0].fd
    {
      var i :| 0 <= i < |rest[k..]| && rest[k..][i] == x;
      assert rest[k + i] == x;
      assert Fds(rest)[0] != Fds(rest)[k + i];
    }
  }

  lemma TurnNew(ps: seq<PollFd>, was: seq<PollFd>, now: seq<PollFd>, handled: seq<int>, resp: int -> int, mainFd: nat)
    requires NewEntry(was, now)
    ensures Handled(now, resp, mainFd) == Handled(was, resp, mainFd) && Marked(now) == Marked(was)
    ensures Pending(ps, was, handled) ==> Pending(ps, now, handled)
  {
    hide Handled, Marked;
    if now != was {
      assert now == was + [now[|was|]];
      HandledWithNew(was, now[|was|], resp, mainFd);
    }
  }

  /** The array is as before, or has one entry more, which is not marked. */
  predicate NewEntry(was: seq<PollFd>, now: seq<PollFd>) {
    now == was || (|now| == |was| + 1 && now[..|was|] == was && !now[|was|].ready)
  }

  /** An entry of the array is that of the main socket or of a connection. */
  lemma EntryOf(hash: seq<FdMap>, ps: seq<PollFd>, list: seq<nat>, cons: map<nat, Con>, mainFd: nat, x: PollFd)
    requires Consistent(hash, Fds(ps)) && Owned(hash, list, cons, mainFd) && x in ps
    ensures 0 <= x.fd < |hash| && (x.fd != mainFd ==> hash[x.fd].TcpConn?)
  {
    var i :| 0 <= i < |ps| && ps[i] == x;
    assert Fds(ps)[i] == x.fd && x.fd in Fds(ps);
  }

  function Released(ms: seq<Msg>): multiset<nat> {
    if ms == [] then multiset{} else Released(ms[..|ms| - 1]) + multiset{ms[|ms| - 1].con}
  }

  // --- the three views count the same ---

  /** The descriptors given to poll() are the main socket and those of the listed connections,
      each once. */
  lemma OneSet(hash: seq<FdMap>, fds: seq<int>, list: seq<nat>, cons: map<nat, Con>, mainFd: nat)
    requires Consistent(hash, fds) && Owned(hash, list, cons, mainFd)
    ensures forall fd :: fd in fds <==> fd == mainFd || exists c :: c in list && cons[c].fd == fd
    ensures |fds| == 1 + |list|
  {
    forall fd
      ensures fd in fds <==> fd == mainFd || exists c :: c in list && cons[c].fd == fd
    {
      if fd in fds && fd != mainFd {
        assert hash[fd].TcpConn?;
        assert hash[fd].con in list;
      }
    }
    var mine := ConFds(list, cons);
    ConFdsDistinct(hash, list, cons, mainFd);
    SameSize(fds, [mainFd] + mine);
  }

  function ConFds(list: seq<nat>, cons: map<nat, Con>): (r: seq<int>)
    requires forall c :: c in list ==> c in cons
    ensures |r| == |list| && forall i :: 0 <= i < |r| ==> r[i] == cons[list[i]].fd
  {
    seq(|list|, i requires 0 <= i < |list| => cons[list[i]].fd)
  }

  lemma ConFdsDistinct(hash: seq<FdMap>, list: seq<nat>, cons: map<nat, Con>, mainFd: nat)
    requires Owned(hash, list, cons, mainFd)
    ensures var r := [mainFd] + ConFds(list, cons);
      && Distinct(r)
      && (forall fd :: fd in r <==> fd == mainFd || exists c :: c in list && cons[c].fd == fd)
  {
  }

  // --- the process ---

  /** The connections that tcp_receive_timeout keeps, and its messages about the others. */
  predicate Stays(con: Con, ticks: u32) {
    !con.bad && con.timeout > ticks
  }

  function Staying(list: seq<nat>, cons: map<nat, Con>, ticks: u32): seq<nat>
    requires forall c :: c in list ==> c in cons
  {
    if list == [] then []
    else
      var init, c := list[..|list| - 1], list[|list| - 1];
      Staying(init, cons, ticks) + if Stays(cons[c], ticks) then [c] else []
  }

  function Leaving(list: seq<nat>, cons: map<nat, Con>, ticks: u32): seq<Msg>
    requires forall c :: c in list ==> c in cons
  {
    if list == [] then []
    else
      var init, c := list[..|list| - 1], list[|list| - 1];
      Leaving(init, cons, ticks)
      + if Stays(cons[c], ticks) then []
        else [Msg(c, if cons[c].bad then CONN_ERROR else CONN_RELEASE, cons[c].fd)]
  }

  lemma SweepStep(list: seq<nat>, cons: map<nat, Con>, ticks: u32, k: nat)
    requires k <= |list| && forall c :: c in list ==> c in cons
    ensures k == 0 ==> Staying(list[..k], cons, ticks) == [] && Leaving(list[..k], cons, ticks) == []
    ensures k < |list| ==>
      var c := list[k];
      && Staying(list[..k + 1], cons, ticks) ==
          Staying(list[..k], cons, ticks) + (if Stays(cons[c], ticks) then [c] else [])
      && Leaving(list[..k + 1], cons, ticks) == Leaving(list[..k], cons, ticks)
         + (if Stays(cons[c], ticks) then []
            else [Msg(c, if cons[c].bad then CONN_ERROR else CONN_RELEASE, cons[c].fd)])
  {
    if k < |list| { assert list[..k + 1][..k] == list[..k]; }
  }

  class Child {
    const io: Handler
    const mainFd: nat
    var list: seq<nat>
    var cons: map<nat, Con>
    var sent: seq<Msg>
    ghost var received: multiset<nat>

    /** tcp_receive_loop before its first round: only the main socket is watched. */
    constructor (max: nat, unixSock: nat)
      requires unixSock < max
      ensures Valid() && fresh(io) && fresh(io.hash) && fresh(io.fds) && io.hash.Length == max
      ensures list == [] && sent == [] && received == multiset{}
    {
      mainFd := unixSock;
      list, cons, sent, received := [], map[], [], multiset{};
      var h := new Handler(max);
      io := h;
      new;
      var r, _ := io.WatchAdd(unixSock, TcpMain, true);
      assert io.hash[..][mainFd] == TcpMain;
    }

    /** What every step keeps. */
    ghost predicate Valid()
      reads this, io, io.hash, io.fds
    {
      && io.Sized() && io.Valid() && Owned(io.hash[..], list, cons, mainFd)
      && received == multiset(list) + Released(sent)
    }

    /** release_tcpconn. */
    method Release(c: nat, state: int)
      requires c in cons
      modifies this`sent
      ensures sent == old(sent) + [Msg(c, state, cons[c].fd)]
      ensures Released(sent) == old(Released(sent)) + multiset{c}
    {
      sent := sent + [Msg(c, state, cons[c].fd)];
      assert sent[..|sent| - 1] == old(sent);
    }

    /** The descriptor is new to this process. */
    ghost predicate Fresh(ev: Event)
      reads io.hash
    {
      ev.Got? && ev.s != -1 ==> 0 <= ev.s < io.hash.Length && io.hash[ev.s] == NoFd
    }

    /** handle_io on the main socket.  A connection that comes again while it is listed is given
        back only if it is first; then, or without a descriptor, it is left listed but not
        watched.  Listed elsewhere it is linked a second time, and the list has no end any more:
        `cyclic` stands for this, and nothing else is promised then. */
    method Receive(ev: Event, now: u32) returns (cyclic: bool)
      requires Valid() && Fresh(ev)
      modifies this, io, io.hash, io.fds
      ensures cyclic <==> ev.Got? && ev.s != -1 && ev.con in old(list) && ev.con != old(list)[0]
      ensures cyclic ==> ClosesUp(old(list), ev.con)
      ensures !cyclic ==> (Valid() <==> !(ev.Got? && ev.con in old(list)))
      ensures !cyclic ==> received == multiset(list) + Released(sent)
      ensures !cyclic ==> received == old(received) + if ev.Got? then multiset{ev.con} else multiset{}
      ensures (ev.Got? ==> ev.con !in old(list)) ==> Took(old(Now()), Now(), ev, Wrap(now + CHILD_TIMEOUT))
      ensures !cyclic ==> io.Sized() && NewEntry(old(io.fds[..io.fdNo]), io.fds[..io.fdNo])
    {
      hide Owned, Consistent, Released, Wrap, Handler.Watched, Handler.Valid, Took, NewEntry, MainMsgs, ClosesUp;
      cyclic := false;
      ghost var a, was := Now(), cons;
      NoNewEntry(io.fds[..io.fdNo]);
      if !ev.Got? {
        TookNothing(a, ev, Wrap(now + CHILD_TIMEOUT));
        return;
      }
      var c := ev.con;
      received := received + multiset{c};
      cons := cons[c := if c in list && c in cons then cons[c].(fd := ev.s) else Con(ev.s, 0, ev.bad)];
      if ev.s == -1 {
        ConError(c, was);
        TookError(a, Now(), ev, Wrap(now + CHILD_TIMEOUT));
      } else if list != [] && c == list[0] {
        GiveBackFirst(c);
      } else if c in list {
        AddedTwice(list, c);
        cyclic := true;
      } else {
        ReceiveNew(ev, now, was);
      }
    }

    /** The duplicate check: the first connection goes back, but stays listed. */
    method GiveBackFirst(c: nat)
      requires io.Sized() && io.Valid() && c in list && c in cons
      requires 0 <= cons[c].fd < io.hash.Length ==> io.hash[cons[c].fd] == NoFd
      requires received == multiset(list) + Released(sent) + multiset{c}
      modifies this`sent
      ensures !Valid() && received == multiset(list) + Released(sent)
    {
      hide Owned, Consistent, Released, Handler.Watched, Handler.Valid;
      OverwrittenNotOwned(io.hash[..], list, cons, mainFd, c);
      Release(c, CONN_ERROR);
    }

    static lemma NoNewEntry(ps: seq<PollFd>)
      ensures NewEntry(ps, ps)
    {
    }

    static lemma TookNothing(a: Snapshot, ev: Event, until: u32)
      requires !ev.Got?
      ensures Took(a, a, ev, until)
    {
    }

    /** con_error: the connection goes back; if it is listed, it has lost its descriptor. */
    method ConError(c: nat, ghost was: map<nat, Con>)
      requires io.Sized() && io.Valid() && Owned(io.hash[..], list, was, mainFd)
      requires c in cons && cons == was[c := cons[c]] && (c in list ==> cons[c].fd == -1)
      requires received == multiset(list) + Released(sent) + multiset{c}
      modifies this`cons, this`sent
      ensures Valid() <==> c !in list
      ensures received == multiset(list) + Released(sent) && sent == old(sent) + [Msg(c, CONN_ERROR, old(cons)[c].fd)]
      ensures c in cons && cons == old(cons)[c := cons[c]]
    {
      hide Owned, Consistent, Released, Handler.Valid, Handler.Sized;
      cons := cons[c := cons[c].(bad := true)];
      Release(c, CONN_ERROR);
      assert cons == was[c := cons[c]];
      if c in list {
        OverwrittenNotOwned(io.hash[..], list, cons, mainFd, c);
      } else {
        RecordOwned(io.hash[..], list, was, mainFd, c, cons[c]);
      }
    }

    /** Listed first, then watched; taken off the list again if that fails. */
    method ReceiveNew(ev: Event, now: u32, ghost was: map<nat, Con>)
      requires io.Sized() && io.Valid() && Owned(io.hash[..], list, was, mainFd)
      requires ev.Got? && ev.con !in list && 0 <= ev.s < io.hash.Length && io.hash[ev.s] == NoFd
      requires cons == was[ev.con := Con(ev.s, 0, ev.bad)]
      requires received == multiset(list) + Released(sent) + multiset{ev.con}
      modifies this`list, this`cons, this`sent, io, io.hash, io.fds
      ensures Valid() && Took(old(Now().(cons := was)), Now(), ev, Wrap(now + CHILD_TIMEOUT))
      ensures io.Sized() && NewEntry(old(io.fds[..io.fdNo]), io.fds[..io.fdNo])
    {
      hide Owned, Consistent, Released, Wrap, Handler.Watched, Handler.Valid, Handler.Sized, Took, NewEntry;
      var c := ev.con;
      ghost var a := Now().(cons := was);
      list := [c] + list;
      cons := cons[c := cons[c].(timeout := Wrap(now + CHILD_TIMEOUT))];
      assert cons == was[c := cons[c]];
      var ok := Watch(ev.s, c, ev.flagsSet);
      if ok {
        AddOwned(a.hash, a.list, was, mainFd, c, cons[c]);
        TookNew(a, Now(), ev, Wrap(now + CHILD_TIMEOUT));
      } else {
        Unlist(ev, was, a, Wrap(now + CHILD_TIMEOUT));
      }
    }

    /** tcpconn_listrm of the first connection and con_error. */
    method Unlist(ev: Event, ghost was: map<nat, Con>, ghost a: Snapshot, ghost until: u32)
      requires io.Sized() && io.Valid() && Owned(io.hash[..], a.list, was, mainFd)
      requires ev.Got? && !ev.flagsSet && ev.con !in a.list && list == [ev.con] + a.list
      requires a.hash == io.hash[..] && a.cons == was && a.sent == sent
      requires ev.con in cons && cons == was[ev.con := cons[ev.con]] && cons[ev.con].fd == ev.s
      requires received == multiset(a.list) + Released(sent) + multiset{ev.con}
      modifies this`list, this`cons, this`sent
      ensures Valid() && Took(a, Now(), ev, until)
    {
      hide Owned, Consistent, Released, Handler.Watched, Handler.Valid, Handler.Sized, Took;
      list := list[1..];
      ConError(ev.con, was);
      assert cons == was[ev.con := cons[ev.con]];
      TookError(a, Now(), ev, until);
    }

    /** io_watch_add of a descriptor that is not watched yet: only the fcntl calls can fail. */
    method Watch(s: nat, c: nat, flagsSet: bool) returns (ok: bool)
      requires io.Sized() && io.Valid() && s < io.hash.Length && io.hash[s] == NoFd
      modifies io, io.hash, io.fds
      ensures ok == flagsSet && io.Sized() && io.Valid()
      ensures io.hash[..] == if ok then old(io.hash[..])[s := TcpConn(c)] else old(io.hash[..])
      ensures NewEntry(old(io.fds[..io.fdNo]), io.fds[..io.fdNo])
    {
      hide Consistent, Handler.Watched, Handler.Valid;
      io.Room(s);
      ghost var h := io.hash[..];
      var r, _ := io.WatchAdd(s, TcpConn(c), flagsSet);
      ok := r >= 0;
      if !ok { assert h[s := NoFd] == h; }
    }

    /** handle_io on a connection whose tcp_read_req returned resp. */
    method ReadConn(idx: nat, resp: int, now: u32)
      requires Valid() && idx < io.fdNo && 0 <= io.fds[idx].fd < io.hash.Length && io.hash[io.fds[idx].fd].TcpConn?
      modifies this, io, io.hash, io.fds
      ensures Valid() && received == old(received)
      ensures var fd := old(io.fds[idx].fd); var c := old(io.hash[io.fds[idx].fd]).con;
        if resp < 0 then
          && sent == old(sent) + [Msg(c, resp, fd)] && c in old(list)
              && (forall d :: d in list <==> d in old(list) && d != c)
          && (forall d :: d in old(cons) && d != c ==> d in cons && cons[d] == old(cons)[d])
          && io.hash[..] == old(io.hash[..])[fd := NoFd]
          && io.fds[..io.fdNo] == old(io.fds[..idx] + io.fds[idx + 1..io.fdNo])
        else
          && sent == old(sent) && list == old(list) && c in list && c in old(cons)
          && cons == old(cons)[c := old(cons)[c].(timeout := Wrap(now + CHILD_TIMEOUT))]
          && io.hash[..] == old(io.hash[..]) && io.fdNo == old(io.fdNo) && io.fds[..io.fdNo] == old(io.fds[..io.fdNo])
    {
      hide Owned, Consistent, Released, Wrap, Handler.Watched;
      var fd := io.fds[idx].fd;
      var c := io.hash[fd].con;
      HashOwned(io.hash[..], list, cons, mainFd, fd);
      ghost var was := cons;
      if resp < 0 {
        Drop(c, idx);
        cons := cons[c := cons[c].(bad := true)];
        RecordOwned(io.hash[..], list, was, mainFd, c, cons[c]);
        Release(c, resp);
      } else {
        cons := cons[c := cons[c].(timeout := Wrap(now + CHILD_TIMEOUT))];
        RecordOwned(io.hash[..], list, was, mainFd, c, cons[c]);
      }
    }

    static lemma HashOwned(hash: seq<FdMap>, list: seq<nat>, cons: map<nat, Con>, mainFd: nat, fd: nat)
      requires Owned(hash, list, cons, mainFd) && fd < |hash| && hash[fd].TcpConn?
      ensures hash[fd].con in list && hash[fd].con in cons && cons[hash[fd].con].fd == fd
    {
    }

    /** io_watch_del and tcpconn_listrm of a listed connection. */
    method Drop(c: nat, idx: int)
      requires io.Valid() && Owned(io.hash[..], list, cons, mainFd) && c in list && c in cons
      requires idx >= -1 && (idx >= 0 ==> idx < io.fdNo && io.fds[idx].fd == cons[c].fd)
      modifies this`list, io, io.hash, io.fds
      ensures io.Valid() && Owned(io.hash[..], list, cons, mainFd)
      ensures exists k: nat :: k < |old(list)| && old(list)[k] == c && list == Without(old(list), k)
      ensures multiset(old(list)) == multiset(list) + multiset{c} && forall d :: d in list <==> d in old(list) && d != c
      ensures io.hash[..] == old(io.hash[..])[cons[c].fd := NoFd]
      ensures idx >= 0 ==> io.fds[..io.fdNo] == old(io.fds[..idx] + io.fds[idx + 1..io.fdNo])
    {
      hide Consistent, Handler.Watched;
      ghost var h := io.hash[..];
      var k := 0;
      while list[k] != c
        invariant k < |list| && forall i :: 0 <= i < k ==> list[i] != c
        decreases |list| - k
      {
        k := k + 1;
      }
      DelOwned(h, list, cons, mainFd, k);
      WithoutMembers(list, k);
      hide Owned;
      var r;
      ghost var at;
      r, at := io.WatchDel(cons[c].fd, idx);
      list := Without(list, k);
    }

    /** tcp_receive_timeout: bad connections go back with an error, those that have been
        quiet for too long are released, the others stay, in their order. */
    method ReceiveTimeout(ticks: u32)
      requires Valid() && forall c :: c in list ==> c in cons
      modifies this`list, this`sent, io, io.hash, io.fds
      ensures Valid() && list == Staying(old(list), cons, ticks) && sent == old(sent) + Leaving(old(list), cons, ticks)
    {
      hide Owned, Consistent, Released, Handler.Watched, Staying, Leaving, Stays, Without, Handler.Valid, Valid;
      ghost var was, out := list, sent;
      var i := 0;
      ghost var done := 0;
      SweepStep(was, cons, ticks, 0);
      while i < |list|
        invariant i <= |list| && done <= |was| && Valid()
        invariant list[..i] == Staying(was[..done], cons, ticks) && list[i..] == was[done..]
        invariant sent == out + Leaving(was[..done], cons, ticks)
        decreases |list| - i
      {
        SweepSlices(list, was, i, done);
        SweepStep(was, cons, ticks, done);
        var c := list[i];
        if Stays(cons[c], ticks) {
          i := i + 1;
        } else {
          Expire(i, if cons[c].bad then CONN_ERROR else CONN_RELEASE);
        }
        done := done + 1;
      }
      assert was[..done] == was && list[..i] == list;
    }

    static lemma SweepSlices(list: seq<nat>, was: seq<nat>, i: nat, done: nat)
      requires i < |list| && done <= |was| && list[i..] == was[done..]
      ensures done < |was| && list[i] == was[done] && list[i + 1..] == was[done + 1..]
      ensures list[..i + 1] == list[..i] + [list[i]]
      ensures var w := Without(list, i); |w| == |list| - 1 && w[..i] == list[..i] && w[i..] == list[i + 1..]
    {
    }

    /** Unwatches, unlinks and gives back the connection at position i. */
    method Expire(i: nat, state: int)
      requires Valid() && i < |list| && list[i] in cons
      modifies this`list, this`sent, io, io.hash, io.fds
      ensures Valid() && list == Without(old(list), i)
      ensures sent == old(sent) + [Msg(old(list)[i], state, cons[old(list)[i]].fd)]
    {
      hide Consistent, Released, Handler.Watched;
      var c := list[i];
      Drop(c, -1);
      Release(c, state);
    }

    ghost function Now(): Snapshot
      reads this, io.hash
    {
      Snapshot(io.hash[..], list, cons, sent)
    }

    /** io_wait_loop_poll after poll() has marked n entries.  `resp` holds the outcome of
        tcp_read_req by descriptor, `ev` what the main socket brings.  Which descriptors are
        handled, what is sent and what becomes of each connection is exactly what `Handled` and
        `Progress` say. */
    method PollLoop(n: nat, resp: int -> int, ev: Event, now: u32) returns (handled: seq<int>)
      requires Valid() && Fresh(ev) && (ev.Got? ==> ev.con !in list) && n == Marked(io.fds[..io.fdNo])
      modifies this, io, io.hash, io.fds
      ensures Valid() && handled == Handled(old(io.fds[..io.fdNo]), resp, mainFd)
      ensures AllHandled(old(io.fds[..io.fdNo]), handled) <==> NoneShadowed(old(io.fds[..io.fdNo]), resp, mainFd)
      ensures Progress(old(Now()), Now(), handled, resp, ev, mainFd, Wrap(now + CHILD_TIMEOUT))
      ensures received == old(received) + if mainFd in handled && ev.Got? then multiset{ev.con} else multiset{}
    {
      var left, r := n, 0;
      handled := [];
      ghost var a, ps := Now(), io.fds[..io.fdNo];
      assert Owned(a.hash, a.list, a.cons, mainFd) && Consistent(a.hash, Fds(ps));
      NoProgress(a, resp, ev, mainFd, Wrap(now + CHILD_TIMEOUT));
      assert Rest(0) == ps;
      AllHandledExactly(ps, resp, mainFd);
      hide InRound, Handled, Progress, Wrap, AllHandled, NoneShadowed;
      while r < io.fdNo && left > 0
        invariant InRound(a, ps, r, left, handled, resp, ev, now, old(received)) && io.Sized()
        decreases io.fdNo - r + if mainFd in handled then 0 else 1
      {
        left, handled := Turn(r, left, handled, resp, ev, now, a, ps, old(received));
        r := r + 1;
      }
      RoundEnds(a, ps, r, left, handled, resp, ev, now, old(received));
    }

    /** Between two turns of a round that began with the array ps and in the state a. */
    ghost predicate InRound(a: Snapshot, ps: seq<PollFd>, r: nat, left: nat, handled: seq<int>, resp: int -> int,
                            ev: Event, now: u32, had: multiset<nat>)
      reads this, io, io.hash, io.fds
    {
      && Valid() && r <= io.fdNo + 1 && left >= Marked(Rest(r))
      && Owned(a.hash, a.list, a.cons, mainFd) && Consistent(a.hash, Fds(ps))
      && (ev.Got? ==> ev.con !in a.list && (ev.s != -1 ==> 0 <= ev.s < |a.hash| && a.hash[ev.s] == NoFd))
      && handled + Handled(Rest(r), resp, mainFd) == Handled(ps, resp, mainFd) && Pending(ps, Rest(r), handled)
      && Progress(a, Now(), handled, resp, ev, mainFd, Wrap(now + CHILD_TIMEOUT))
      && (mainFd !in handled ==> Fresh(ev) && (ev.Got? ==> ev.con !in list))
      && received == had + if mainFd in handled && ev.Got? then multiset{ev.con} else multiset{}
    }

    lemma RoundEnds(a: Snapshot, ps: seq<PollFd>, r: nat, left: nat, handled: seq<int>, resp: int -> int,
                    ev: Event, now: u32, had: multiset<nat>)
      requires InRound(a, ps, r, left, handled, resp, ev, now, had) && (r >= io.fdNo || left == 0)
      ensures Valid() && handled == Handled(ps, resp, mainFd)
      ensures Progress(a, Now(), handled, resp, ev, mainFd, Wrap(now + CHILD_TIMEOUT))
      ensures received == had + if mainFd in handled && ev.Got? then multiset{ev.con} else multiset{}
    {
      hide Owned, Consistent, Progress, Released, Handled, Pending, Handler.Valid, Wrap;
      assert r >= io.fdNo ==> Rest(r) == [];
      NothingMarked(Rest(r), resp, mainFd);
    }

    /** One turn of the loop. */
    method Turn(r: nat, left: nat, handled: seq<int>, resp: int -> int, ev: Event, now: u32,
                ghost a: Snapshot, ghost ps: seq<PollFd>, ghost had: multiset<nat>)
      returns (left': nat, handled': seq<int>)
      requires io.Sized() && r < io.fdNo && left > 0 && InRound(a, ps, r, left, handled, resp, ev, now, had)
      modifies this, io, io.hash, io.fds
      ensures InRound(a, ps, r + 1, left', handled', resp, ev, now, had) && io.Sized()
      ensures io.fdNo - (r + 1) + (if mainFd in handled' then 0 else 1)
              < old(io.fdNo) - r + (if mainFd in handled then 0 else 1)
    {
      hide InRound, Wrap;
      if io.fds[r].ready {
        left', handled' := HandledTurn(r, left, handled, resp, ev, now, a, ps, had);
      } else {
        SkippedTurn(r, left, handled, resp, ev, now, a, ps, had);
        left', handled' := left, handled;
      }
    }

    lemma SkippedTurn(r: nat, left: nat, handled: seq<int>, resp: int -> int, ev: Event, now: u32,
                      a: Snapshot, ps: seq<PollFd>, had: multiset<nat>)
      requires io.Sized() && r < io.fdNo && InRound(a, ps, r, left, handled, resp, ev, now, had) && !io.fds[r].ready
      ensures InRound(a, ps, r + 1, left, handled, resp, ev, now, had)
    {
      hide Owned, Consistent, Released, Wrap, Handler.Watched, Handled, Marked, Progress, Fails, Handler.Valid,
          Passed, Pending;
      var rest := Rest(r);
      assert rest[0] == io.fds[r] && Rest(r + 1) == rest[1..];
      TurnHandles(rest, resp, mainFd);
      RestDistinct(r);
      PassedBound(rest, resp, mainFd);
      TurnPending(ps, rest, handled, 1);
      assert [] + Handled(rest[1..], resp, mainFd) == Handled(rest[1..], resp, mainFd);
    }

    method HandledTurn(r: nat, left: nat, handled: seq<int>, resp: int -> int, ev: Event, now: u32,
                       ghost a: Snapshot, ghost ps: seq<PollFd>, ghost had: multiset<nat>)
      returns (left': nat, handled': seq<int>)
      requires io.Sized() && r < io.fdNo && left > 0 && InRound(a, ps, r, left, handled, resp, ev, now, had)
      requires io.fds[r].ready
      modifies this, io, io.hash, io.fds
      ensures InRound(a, ps, r + 1, left', handled', resp, ev, now, had) && io.Sized()
      ensures io.fdNo - (r + 1) + (if mainFd in handled' then 0 else 1)
              < old(io.fdNo) - r + (if mainFd in handled then 0 else 1)
    {
      hide Owned, Consistent, Released, Wrap, Handler.Watched, Handled, Marked, Progress, Fails, RoundMsgs,
        Handler.Valid, Passed, Pending, NewEntry, Distinct;
      ghost var rest := Rest(r);
      ghost var k := Passed(rest, resp, mainFd);
      assert rest[0] == io.fds[r] && rest[0] in rest;
      RestDistinct(r);
      PassedBound(rest, resp, mainFd);
      PendingIs(ps, rest, handled, rest[0]);
      EntryOf(a.hash, ps, a.list, a.cons, mainFd, rest[0]);
      var fd := HandleAt(r, resp, ev, now, a, handled);
      TurnDone(ps, rest, Rest(r + 1), handled, k, left, resp, mainFd);
      left', handled' := left - 1, handled + [fd];
    }

    /** The descriptors of a turn and those still to come. */
    static lemma TurnDone(ps: seq<PollFd>, rest: seq<PollFd>, next: seq<PollFd>, handled: seq<int>, k: nat, left: nat,
                          resp: int -> int, mainFd: nat)
      requires rest != [] && rest[0].ready && k == Passed(rest, resp, mainFd) <= |rest| && NewEntry(rest[k..], next)
      requires Distinct(Fds(rest)) && Pending(ps, rest, handled) && left >= Marked(rest)
      ensures left - 1 >= Marked(next) && Pending(ps, next, handled + [rest[0].fd])
      ensures handled + Handled(rest, resp, mainFd) == handled + [rest[0].fd] + Handled(next, resp, mainFd)
    {
      hide Handled, Marked, Passed, Pending, NewEntry, Distinct;
      PassedBound(rest, resp, mainFd);
      TurnHandles(rest, resp, mainFd);
      TurnPending(ps, rest, handled, k);
      TurnNew(ps, rest[k..], next, handled + [rest[0].fd], resp, mainFd);
      var tail := Handled(rest[k..], resp, mainFd);
      assert handled + ([rest[0].fd] + tail) == handled + [rest[0].fd] + tail;
    }

    static lemma PendingIs(ps: seq<PollFd>, rest: seq<PollFd>, handled: seq<int>, x: PollFd)
      requires Pending(ps, rest, handled) && x in rest && x.ready
      ensures x in ps && x.fd !in handled
    {
    }

    static lemma PassedBound(rest: seq<PollFd>, resp: int -> int, mainFd: nat)
      requires rest != []
      ensures 1 <= Passed(rest, resp, mainFd) <= |rest| && (!rest[0].ready ==> Passed(rest, resp, mainFd) == 1)
    {
    }

    lemma RestDistinct(r: nat)
      requires io.Sized() && io.Valid() && r <= io.fdNo
      ensures Distinct(Fds(Rest(r)))
    {
      assert forall i :: 0 <= i < |Rest(r)| ==> Fds(Rest(r))[i] == io.Watched()[r + i];
    }

    /** The entries of the array from position r on. */
    ghost function Rest(r: nat): seq<PollFd>
      requires io.Sized()
      reads io, io.fds
    {
      if r <= io.fdNo then io.fds[r..io.fdNo] else []
    }

    /** One call of handle_io, on entry r. */
    method HandleAt(r: nat, resp: int -> int, ev: Event, now: u32, ghost a: Snapshot, ghost handled: seq<int>)
      returns (fd: int)
      requires Valid() && r < io.fdNo && io.fds[r].ready && io.fds[r].fd !in handled
      requires Owned(a.hash, a.list, a.cons, mainFd)
      requires Progress(a, Now(), handled, resp, ev, mainFd, Wrap(now + CHILD_TIMEOUT))
      requires io.fds[r].fd == mainFd ==> Fresh(ev) && (ev.Got? ==> ev.con !in list)
      requires ev.Got? ==> ev.con !in a.list && (ev.s != -1 ==> 0 <= ev.s < |a.hash| && a.hash[ev.s] == NoFd)
      requires io.fds[r].fd != mainFd ==> 0 <= io.fds[r].fd < |a.hash| && a.hash[io.fds[r].fd].TcpConn?
      modifies this, io, io.hash, io.fds
      ensures Valid() && fd == old(io.fds[r].fd) && r <= io.fdNo
      ensures Progress(a, Now(), handled + [fd], resp, ev, mainFd, Wrap(now + CHILD_TIMEOUT))
      ensures NewEntry(old(Rest(r))[Passed(old(Rest(r)), resp, mainFd)..], Rest(r + 1))
      ensures io.fdNo <= old(io.fdNo) + (if fd == mainFd then 1 else 0)
      ensures fd != mainFd && old(Fresh(ev) && (ev.Got? ==> ev.con !in list)) ==>
          Fresh(ev) && (ev.Got? ==> ev.con !in list)
      ensures received == old(received) + if fd == mainFd && ev.Got? then multiset{ev.con} else multiset{}
    {
      hide Consistent, Released, Wrap, Handler.Watched, Progress, RoundMsgs, Passed, NewEntry;
      io.EntryAt(r);
      fd := io.fds[r].fd;
      if io.hash[fd] == TcpMain {
        assert fd == mainFd;
        hide Owned, Handler.Valid, Valid;
        HandleMain(r, resp, ev, now, a, handled);
      } else {
        assert fd != mainFd;
        hide Owned, Handler.Valid, Valid;
        HandleRead(r, resp, ev, now, a, handled);
      }
    }

    /** F_TCPMAIN. */
    method HandleMain(r: nat, resp: int -> int, ev: Event, now: u32, ghost a: Snapshot, ghost handled: seq<int>)
      requires Valid() && r < io.fdNo && io.fds[r].ready && io.fds[r].fd == mainFd
      requires Owned(a.hash, a.list, a.cons, mainFd)
      requires Progress(a, Now(), handled, resp, ev, mainFd, Wrap(now + CHILD_TIMEOUT))
      requires Fresh(ev) && (ev.Got? ==> ev.con !in list)
      requires ev.Got? ==> ev.con !in a.list && (ev.s != -1 ==> 0 <= ev.s < |a.hash| && a.hash[ev.s] == NoFd)
      modifies this, io, io.hash, io.fds
      ensures Valid() && r <= io.fdNo <= old(io.fdNo) + 1
      ensures Progress(a, Now(), handled + [mainFd], resp, ev, mainFd, Wrap(now + CHILD_TIMEOUT))
      ensures NewEntry(old(Rest(r))[Passed(old(Rest(r)), resp, mainFd)..], Rest(r + 1))
      ensures received == old(received) + if ev.Got? then multiset{ev.con} else multiset{}
    {
      hide Owned, Consistent, Released, Wrap, Handler.Watched, Handler.Valid, Progress, RoundMsgs;
      ghost var b, rest := Now(), Rest(r);
      var cyclic := Receive(ev, now);
      ProgressMain(a, b, Now(), handled, resp, ev, mainFd, Wrap(now + CHILD_TIMEOUT));
      assert NewEntry(rest[1..], Rest(r + 1));
    }

    /** F_TCPCONN. */
    method HandleRead(r: nat, resp: int -> int, ev: Event, now: u32, ghost a: Snapshot, ghost handled: seq<int>)
      requires Valid() && r < io.fdNo && io.fds[r].ready && io.fds[r].fd !in handled && io.fds[r].fd != mainFd
      requires Owned(a.hash, a.list, a.cons, mainFd)
      requires Progress(a, Now(), handled, resp, ev, mainFd, Wrap(now + CHILD_TIMEOUT))
      requires 0 <= io.fds[r].fd < |a.hash| && a.hash[io.fds[r].fd].TcpConn?
      modifies this, io, io.hash, io.fds
      ensures Valid() && r <= io.fdNo <= old(io.fdNo) && received == old(received)
      ensures Progress(a, Now(), handled + [old(io.fds[r].fd)], resp, ev, mainFd, Wrap(now + CHILD_TIMEOUT))
      ensures NewEntry(old(Rest(r))[Passed(old(Rest(r)), resp, mainFd)..], Rest(r + 1))
      ensures old(Fresh(ev) && (ev.Got? ==> ev.con !in list)) ==> Fresh(ev) && (ev.Got? ==> ev.con !in list)
    {
      hide Owned, Consistent, Released, Wrap, Handler.Watched, Handler.Valid, Progress, RoundMsgs;
      ghost var b, rest, fd := Now(), Rest(r), io.fds[r].fd;
      SameEntry(a, b, handled, fd, resp, ev, mainFd, Wrap(now + CHILD_TIMEOUT));
      ReadConn(r, resp(io.fds[r].fd), now);
      ProgressRead(a, b, Now(), handled, fd, b.hash[fd].con, resp, ev, mainFd, Wrap(now + CHILD_TIMEOUT));
      assert Rest(r + 1) == rest[Passed(rest, resp, mainFd)..];
      FreshKept(b.hash, io.hash[..], ev);
    }

    static lemma FreshKept(was: seq<FdMap>, now: seq<FdMap>, ev: Event)
      requires |was| == |now| && forall i :: 0 <= i < |was| ==> now[i] == was[i] || now[i] == NoFd
      ensures ev.Got? && 0 <= ev.s < |was| && was[ev.s] == NoFd ==> now[ev.s] == NoFd
    {
    }

    static lemma SameEntry(a: Snapshot, b: Snapshot, handled: seq<int>, fd: int,
                           resp: int -> int, ev: Event, mainFd: nat, until: u32)
      requires Progress(a, b, handled, resp, ev, mainFd, until) && fd !in handled
      requires 0 <= fd < |a.hash| && a.hash[fd].TcpConn?
      ensures fd < |b.hash| && b.hash[fd] == a.hash[fd]
    {
    }
  }
}
